/**
 The inline enforcement boundary over an audited policy: its state, its steps
 and whole runs of it, on the audit log and the directory that it is kept in.
 */
module EnforcementSpec {
  import opened Common
  import opened Conditions
  import opened Resolution
  import opened TailRecovery
  import Storage
  import AuditLogSpec
  import PolicySpec

  const MAX_IDENTIFIER_BYTES := 256

  /** A policy text: its document, if it is YAML at all, and the digest of its bytes. */
  datatype PolicyText = PolicyText(document: Option<Yaml>, digest: string)

  datatype Snapshot = Snapshot(version: int, digest: string, engine: Engine)

  datatype AuditRecord =
    | Activation(timestamp: int, version: int, digest: string)
    | Authorization(
        timestamp: int,
        correlationId: string,
        callerId: Option<string>,
        deadline: Option<nat>,
        version: int,
        digest: string,
        agent: Option<string>,
        tool: Option<string>,
        user: Option<string>,
        decision: Decision)

  /** What an adapter adds to a call; a host that calls the store directly adds nothing. */
  datatype Metadata = Metadata(correlationId: string, callerId: string, deadline: nat)

  datatype Request = Request(callerId: string, correlationId: string, deadline: nat, call: PolicyCall)

  datatype EffectRequest = EffectRequest(
    callerId: string,
    correlationId: string,
    deadline: nat,
    version: int,
    digest: string,
    decision: Decision,
    call: PolicyCall)

  datatype Response = Response(
    callerId: string,
    correlationId: string,
    deadline: nat,
    version: int,
    digest: string,
    decision: Decision,
    effect: Option<EffectRequest>)

  datatype AdapterError = InvalidRequest | DeadlineExceeded | AuditWriteFailed

  /** The log under the boundary: its grammar and configuration, and how a record is written as a line. */
  datatype AuditSetup = AuditSetup(grammar: Grammar, config: AuditLogSpec.Config, encode: AuditRecord -> seq<Storage.Byte>)

  /** Every record is written as one object on one line. */
  ghost predicate ValidSetup(s: AuditSetup) {
    AuditLogSpec.ValidConfig(s.config) && forall record: AuditRecord :: IsRecord(s.grammar, s.encode(record))
  }

  /** No two records are written alike. */
  ghost predicate WritesApart(s: AuditSetup) {
    forall a: AuditRecord, b: AuditRecord :: s.encode(a) == s.encode(b) ==> a == b
  }

  /** What the host, the filesystem and the process do to one append. */
  datatype Attempt = Attempt(transaction: string, fuel: nat, tear: nat, survives: bool)

  /** The directory and the log instance, and the policy of the running process. */
  datatype Host = Host(world: AuditLogSpec.World, active: Option<Snapshot>)

  const NEW_HOST := Host(AuditLogSpec.EMPTY_WORLD, None)

  function Utf8Length(s: string): nat {
    if s == "" then 0
    else
      var c := s[|s| - 1] as int;
      Utf8Length(s[..|s| - 1]) + if c < 0x80 then 1 else if c < 0x800 then 2 else if c < 0x1_0000 then 3 else 4
  }

  predicate ValidIdentifier(s: string) {
    s != "" && Utf8Length(s) <= MAX_IDENTIFIER_BYTES
  }

  predicate ValidRequest(r: Request) {
    ValidIdentifier(r.callerId) && ValidIdentifier(r.correlationId)
  }

  function ParseSnapshot(text: PolicyText): Option<Snapshot> {
    var engine := if text.document.Some? then PolicySpec.Parse(text.document.value, 1) else None;
    if engine.None? then None else Some(Snapshot(1, text.digest, engine.value))
  }

  /** The call of the log that appends `record`. */
  function LogCall(s: AuditSetup, record: AuditRecord, now: int, attempt: Attempt): AuditLogSpec.Event {
    AuditLogSpec.AppendCall(
      s.encode(record), attempt.transaction, now, attempt.fuel, attempt.tear, attempt.survives)
  }

  function AppendRecord(h: Host, s: AuditSetup, record: AuditRecord, now: int, attempt: Attempt): Host {
    h.(world := AuditLogSpec.Step(h.world, s.grammar, s.config, LogCall(s, record, now, attempt)))
  }

  predicate Acknowledged(h: Host, s: AuditSetup, record: AuditRecord, now: int, attempt: Attempt) {
    AuditLogSpec.Answer(h.world, s.grammar, s.config, LogCall(s, record, now, attempt)).status.Running?
  }

  function ActivationOf(candidate: Snapshot, now: int): AuditRecord {
    Activation(now, candidate.version, candidate.digest)
  }

  /** Validates and audits the activation before it replaces the snapshot. */
  function Reload(h: Host, s: AuditSetup, text: PolicyText, now: int, attempt: Attempt): Host {
    var candidate := ParseSnapshot(text);
    if candidate.None? then h
    else
      var record := ActivationOf(candidate.value, now);
      var after := AppendRecord(h, s, record, now, attempt);
      if Acknowledged(h, s, record, now, attempt) then after.(active := candidate) else after
  }

  /** The record of one decision; without metadata the store makes up a correlation id, `freshId`. */
  ghost function RecordOf(call: PolicyCall, metadata: Option<Metadata>, freshId: string, snapshot: Snapshot, now: int): AuditRecord {
    Authorization(
      now,
      if metadata.Some? then metadata.value.correlationId else freshId,
      if metadata.Some? then Some(metadata.value.callerId) else None,
      if metadata.Some? then Some(metadata.value.deadline) else None,
      snapshot.version, snapshot.digest, call.agent, call.tool, call.user,
      StatelessDecision(snapshot.engine, call, now))
  }

  function MetadataOf(r: Request): Metadata {
    Metadata(r.correlationId, r.callerId, r.deadline)
  }

  /** The record of a decision about an adapter's request. */
  ghost function RequestRecord(r: Request, snapshot: Snapshot, now: int): AuditRecord {
    RecordOf(r.call, Some(MetadataOf(r)), "", snapshot, now)
  }

  ghost function ResponseTo(r: Request, snapshot: Snapshot, now: int): Response {
    var decision := StatelessDecision(snapshot.engine, r.call, now);
    Response(
      r.callerId, r.correlationId, r.deadline, snapshot.version, snapshot.digest, decision,
      if decision.action == Allow
      then Some(EffectRequest(r.callerId, r.correlationId, r.deadline, snapshot.version, snapshot.digest, decision, r.call))
      else None)
  }

  /** The boundary: validate, reject expired work, audit, and only then answer. */
  ghost function Authorize(h: Host, s: AuditSetup, r: Request, clock: nat, now: int, attempt: Attempt)
    : (Host, Result<Response, AdapterError>)
  {
    if !ValidRequest(r) then (h, Err(InvalidRequest))
    else if r.deadline <= clock then (h, Err(DeadlineExceeded))
    else if h.active.None? then (h, Err(AuditWriteFailed))
    else
      var record := RequestRecord(r, h.active.value, now);
      (AppendRecord(h, s, record, now, attempt),
       if Acknowledged(h, s, record, now, attempt) then Ok(ResponseTo(r, h.active.value, now)) else Err(AuditWriteFailed))
  }

  // ----- runs -----

  datatype Event =
    | ReloadEvent(text: PolicyText, now: int, attempt: Attempt)
    | AuthorizeEvent(request: Request, clock: nat, now: int, attempt: Attempt)
    | CloseEvent
    | RestartEvent

  /** A response, with the active policy and the clock readings it was made with, and the world when it was returned. */
  datatype Answered = Answered(
    request: Request,
    response: Response,
    active: Option<Snapshot>,
    clock: nat,
    now: int,
    world: AuditLogSpec.World)

  /** The boundary with the calls that it made of its log, the records that reached it, and the answers it gave. */
  datatype Trace = Trace(
    host: Host,
    calls: seq<AuditLogSpec.Event>,
    records: seq<AuditRecord>,
    answers: seq<Answered>)

  /** The record that an event wants in the log before it has its effect. */
  ghost function Wanted(h: Host, e: Event): Option<AuditRecord> {
    match e
    case ReloadEvent(text, now, _) =>
      var candidate := ParseSnapshot(text);
      if candidate.None? then None else Some(ActivationOf(candidate.value, now))
    case AuthorizeEvent(r, clock, now, _) =>
      if !ValidRequest(r) || r.deadline <= clock || h.active.None? then None
      else Some(RequestRecord(r, h.active.value, now))
    case _ => None
  }

  /** What the event does to the log. */
  ghost function LogCalls(h: Host, s: AuditSetup, e: Event): seq<AuditLogSpec.Event> {
    match e
    case CloseEvent => [AuditLogSpec.Close]
    case RestartEvent => [AuditLogSpec.Restart]
    case _ => if Wanted(h, e).Some? then [LogCall(s, Wanted(h, e).value, e.now, e.attempt)] else []
  }

  /** The event's record reaches the log, acknowledged or not. */
  ghost predicate Writes(h: Host, s: AuditSetup, e: Event) {
    && Wanted(h, e).Some?
    && AuditLogSpec.LineReaches(h.world, s.grammar, s.config, LogCall(s, Wanted(h, e).value, e.now, e.attempt))
  }

  /** A restart ends the process; the next one starts without a policy, on the same directory. */
  ghost function StepHost(h: Host, s: AuditSetup, e: Event): Host {
    match e
    case ReloadEvent(text, now, attempt) => Reload(h, s, text, now, attempt)
    case AuthorizeEvent(request, clock, now, attempt) => Authorize(h, s, request, clock, now, attempt).0
    case CloseEvent => h.(world := AuditLogSpec.Step(h.world, s.grammar, s.config, AuditLogSpec.Close))
    case RestartEvent => Host(AuditLogSpec.Step(h.world, s.grammar, s.config, AuditLogSpec.Restart), None)
  }

  /** The answer that an event gives, if it is an authorization that succeeds. */
  ghost function AnswerTo(h: Host, s: AuditSetup, e: Event): seq<Answered> {
    match e
    case AuthorizeEvent(request, clock, now, attempt) =>
      var (after, r) := Authorize(h, s, request, clock, now, attempt);
      if r.Ok? then [Answered(request, r.value, h.active, clock, now, after.world)] else []
    case _ => []
  }

  ghost function Step(t: Trace, s: AuditSetup, e: Event): Trace {
    Trace(
      StepHost(t.host, s, e),
      t.calls + LogCalls(t.host, s, e),
      t.records + (if Writes(t.host, s, e) then [Wanted(t.host, e).value] else []),
      t.answers + AnswerTo(t.host, s, e))
  }

  ghost function Run(s: AuditSetup, events: seq<Event>): Trace
    decreases |events|
  {
    if events == [] then Trace(NEW_HOST, [], [], []) else Step(Run(s, events[..|events| - 1]), s, events[|events| - 1])
  }
}
