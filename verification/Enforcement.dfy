/** The audited store and the inline adapter as the host holds them. */
module Enforcement {
  import opened Common
  import opened Conditions
  import opened Resolution
  import opened EnforcementSpec
  import opened Storage
  import AuditLogs
  import AuditLogSpec
  import PolicySpec
  import PolicyParsers

  class AuditedPolicyStore {
    const auditLog: AuditLogs.AuditLog
    const encode: AuditRecord -> seq<Byte>
    var activeSnapshot: Option<Snapshot>

    constructor (auditLog: AuditLogs.AuditLog, encode: AuditRecord -> seq<Byte>)
      ensures this.auditLog == auditLog && this.encode == encode && activeSnapshot == None
    {
      this.auditLog, this.encode, activeSnapshot := auditLog, encode, None;
    }

    ghost function View(): Host
      reads this, auditLog, auditLog.directory
    {
      Host(auditLog.World(), activeSnapshot)
    }

    function Setup(): AuditSetup {
      AuditSetup(auditLog.grammar, auditLog.config, encode)
    }

    /** The append that is about to happen, with what the filesystem will let it do. */
    function Try(transaction: string): Attempt
      reads auditLog.directory
    {
      Attempt(transaction, auditLog.directory.fuel, auditLog.directory.tear, true)
    }

    method Close()
      modifies auditLog
      ensures View() == old(View()).(world := old(View()).world.(instance := AuditLogSpec.ClosedByHost))
    {
      auditLog.Close();
    }

    /** Validates and audits the activation before it replaces the snapshot. */
    method Reload(text: PolicyText, transaction: string, now: int) returns (ok: bool)
      modifies this, auditLog, auditLog.directory
      ensures View() == EnforcementSpec.Reload(old(View()), Setup(), text, now, old(Try(transaction)))
      ensures ok <==>
        && ParseSnapshot(text).Some?
        && Acknowledged(old(View()), Setup(), ActivationOf(ParseSnapshot(text).value, now), now, old(Try(transaction)))
    {
      if text.document.None? || PolicySpec.DeclaredVersion(text.document.value) != Some(1) {
        return false;
      }
      var engine := PolicyParsers.ParseVersion(text.document.value, 1);
      if engine.None? {
        return false;
      }
      var candidate := Snapshot(1, text.digest, engine.value);
      var status := auditLog.Append(encode(Activation(now, candidate.version, candidate.digest)), transaction, now);
      ok := status.Running?;
      if ok {
        activeSnapshot := Some(candidate);
      }
    }

    /** Resolves and records the authorization; there is no decision without its record. */
    method AuthorizeWithMetadata(call: PolicyCall, metadata: Option<Metadata>, freshId: string, transaction: string, now: int)
      returns (decision: Option<(Snapshot, Decision)>)
      modifies auditLog, auditLog.directory
      ensures activeSnapshot.None? ==> View() == old(View()) && decision == None
      ensures activeSnapshot.Some? ==>
        var record := RecordOf(call, metadata, freshId, activeSnapshot.value, now);
        && View() == EnforcementSpec.AppendRecord(old(View()), Setup(), record, now, old(Try(transaction)))
        && decision ==
             if Acknowledged(old(View()), Setup(), record, now, old(Try(transaction)))
             then Some((activeSnapshot.value, StatelessDecision(activeSnapshot.value.engine, call, now)))
             else None
    {
      if activeSnapshot.None? {
        return None;
      }
      var snapshot := activeSnapshot.value;
      var resolved := ResolveCall(snapshot.engine, call, now);
      var correlationId, callerId, deadline := freshId, None, None;
      if metadata.Some? {
        correlationId := metadata.value.correlationId;
        callerId, deadline := Some(metadata.value.callerId), Some(metadata.value.deadline);
      }
      var record := Authorization(
        now, correlationId, callerId, deadline, snapshot.version, snapshot.digest,
        call.agent, call.tool, call.user, resolved);
      var status := auditLog.Append(encode(record), transaction, now);
      decision := if status.Running? then Some((snapshot, resolved)) else None;
    }
  }

  class InlineEnforcementAdapter {
    const store: AuditedPolicyStore

    constructor (store: AuditedPolicyStore)
      ensures this.store == store
    {
      this.store := store;
    }

    method Authorize(request: Request, transaction: string, clock: nat, now: int) returns (r: Result<Response, AdapterError>)
      modifies store.auditLog, store.auditLog.directory
      ensures (store.View(), r)
           == EnforcementSpec.Authorize(old(store.View()), store.Setup(), request, clock, now, old(store.Try(transaction)))
    {
      if !ValidIdentifier(request.callerId) || !ValidIdentifier(request.correlationId) {
        return Err(InvalidRequest);
      }
      if request.deadline <= clock {
        return Err(DeadlineExceeded);
      }
      var authorization := store.AuthorizeWithMetadata(request.call, Some(MetadataOf(request)), "", transaction, now);
      if authorization.None? {
        return Err(AuditWriteFailed);
      }
      var (snapshot, decision) := authorization.value;
      var effect := None;
      if decision.action == Allow {
        effect := Some(EffectRequest(
          request.callerId, request.correlationId, request.deadline,
          snapshot.version, snapshot.digest, decision, request.call));
      }
      return Ok(Response(
        request.callerId, request.correlationId, request.deadline,
        snapshot.version, snapshot.digest, decision, effect));
    }
  }
}
