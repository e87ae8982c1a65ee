/** Exactly when the boundary answers, what it answers otherwise, and what its steps put into the log. */
module BoundaryAnswers {
  import opened Common
  import opened Conditions
  import opened Resolution
  import opened Decisions
  import opened EnforcementSpec
  import PolicySpec

  // ----- identifiers -----

  lemma {:induction false} LengthsAdd(a: string, b: string)
    ensures Utf8Length(a + b) == Utf8Length(a) + Utf8Length(b)
    decreases |b|
  {
    if b == "" {
      assert a + b == a;
    } else {
      assert (a + b)[..|a + b| - 1] == a + b[..|b| - 1];
      LengthsAdd(a, b[..|b| - 1]);
    }
  }

  /** One character takes one to four bytes, by its code point. */
  lemma LengthOfOne(c: char)
    ensures Utf8Length([c]) == 1 <==> c as int <= 0x7F
    ensures Utf8Length([c]) == 2 <==> 0x80 <= c as int <= 0x7FF
    ensures Utf8Length([c]) == 3 <==> 0x800 <= c as int <= 0xFFFF
    ensures Utf8Length([c]) == 4 <==> 0x1_0000 <= c as int
  {
    assert [c][..0] == "" && Utf8Length("") == 0;
  }

  // ----- the answer to one request -----

  predicate GoodIdentifier(s: string) {
    1 <= |s| && Utf8Length(s) <= 256
  }

  /** The answer to a request, by the first check that it fails. */
  lemma AuthorizeExactly(h: Host, s: AuditSetup, r: Request, clock: nat, now: int, attempt: Attempt)
    ensures var answer := Authorize(h, s, r, clock, now, attempt).1;
      && (answer == Err(InvalidRequest) <==> !GoodIdentifier(r.callerId) || !GoodIdentifier(r.correlationId))
      && (answer == Err(DeadlineExceeded) <==>
            GoodIdentifier(r.callerId) && GoodIdentifier(r.correlationId) && r.deadline <= clock)
      && (answer.Ok? <==>
            && GoodIdentifier(r.callerId) && GoodIdentifier(r.correlationId) && clock < r.deadline
            && h.active.Some?
            && Acknowledged(h, s, RequestRecord(r, h.active.value, now), now, attempt))
  {
  }

  /** A request that fails a check before the audit leaves no trace. */
  lemma RefusedWithoutTrace(h: Host, s: AuditSetup, r: Request, clock: nat, now: int, attempt: Attempt)
    requires !GoodIdentifier(r.callerId) || !GoodIdentifier(r.correlationId) || r.deadline <= clock || h.active.None?
    ensures Authorize(h, s, r, clock, now, attempt).0 == h
  {
  }

  /** A step of a run adds an answer exactly if it is an authorization that succeeds, and it is the answer to it. */
  lemma AnsweredExactly(s: AuditSetup, events: seq<Event>, e: Event)
    ensures var t, t' := Run(s, events), Run(s, events + [e]);
      && t.answers <= t'.answers && |t'.answers| <= |t.answers| + 1
      && (|t'.answers| == |t.answers| + 1 <==>
            && e.AuthorizeEvent?
            && GoodIdentifier(e.request.callerId) && GoodIdentifier(e.request.correlationId)
            && e.clock < e.request.deadline && t.host.active.Some?
            && Acknowledged(t.host, s, RequestRecord(e.request, t.host.active.value, e.now), e.now, e.attempt))
      && (|t'.answers| == |t.answers| + 1 ==>
            var a := t'.answers[|t.answers|];
            a.request == e.request && a.active == t.host.active && a.clock == e.clock && a.now == e.now
            && a.world == t'.host.world)
  {
    assert (events + [e])[..|events + [e]| - 1] == events;
  }

  // ----- records -----

  /** The record of a direct call of the store: its fresh id, no caller and no deadline, and the prescribed decision. */
  lemma DirectRecord(call: PolicyCall, freshId: string, snapshot: Snapshot, now: int)
    ensures var record := RecordOf(call, None, freshId, snapshot, now);
      && record.Authorization? && record.timestamp == now
      && record.correlationId == freshId && record.callerId == None && record.deadline == None
      && record.version == snapshot.version && record.digest == snapshot.digest
      && record.agent == call.agent && record.tool == call.tool && record.user == call.user
      && Decides(snapshot.engine, call, now, record.decision)
  {
    StatelessDecides(snapshot.engine, call, now);
  }

  /** The record of an adapter's request: the request's identifiers and deadline, and the prescribed decision. */
  lemma AdapterRecord(r: Request, snapshot: Snapshot, now: int)
    ensures var record := RequestRecord(r, snapshot, now);
      && record.Authorization? && record.timestamp == now
      && record.correlationId == r.correlationId && record.callerId == Some(r.callerId)
      && record.deadline == Some(r.deadline)
      && record.version == snapshot.version && record.digest == snapshot.digest
      && record.agent == r.call.agent && record.tool == r.call.tool && record.user == r.call.user
      && Decides(snapshot.engine, r.call, now, record.decision)
  {
    StatelessDecides(snapshot.engine, r.call, now);
  }

  // ----- activation -----

  /** A policy text that can be activated declares version 1, has no quotas, and is known by its own digest. */
  lemma SnapshotIsOfVersionOne(text: PolicyText)
    requires ParseSnapshot(text).Some?
    ensures var snapshot := ParseSnapshot(text).value;
      && snapshot.version == 1 && snapshot.engine.version == 1 && snapshot.digest == text.digest
      && text.document.Some? && PolicySpec.DeclaredVersion(text.document.value) == Some(1)
      && snapshot.engine.rateLimits == map[]
  {
    PolicySpec.ParsedPolicyIsWellFormed(text.document.value, 1);
  }

  /** A reload takes effect exactly if its text parses and its activation is acknowledged; else the old policy stays. */
  lemma ReloadExactly(h: Host, s: AuditSetup, text: PolicyText, now: int, attempt: Attempt)
    ensures var after := Reload(h, s, text, now, attempt);
      if ParseSnapshot(text).Some?
         && Acknowledged(h, s, Activation(now, 1, text.digest), now, attempt)
      then after.active == ParseSnapshot(text)
      else after.active == h.active
    ensures ParseSnapshot(text).None? ==> Reload(h, s, text, now, attempt) == h
  {
  }

  /** In a version 1 policy no rule has a quota, so that nothing but rules and defaults throttles. */
  lemma NoQuotaAtTheBoundary(text: PolicyText, call: PolicyCall, now: int)
    requires ParseSnapshot(text).Some?
    ensures var engine := ParseSnapshot(text).value.engine;
      StatelessDecision(engine, call, now) == Resolved(engine, call, now).0
  {
    SnapshotIsOfVersionOne(text);
  }
}
