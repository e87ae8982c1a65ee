/** No response without its record, no effect without an allowed and timely response: over every run. */
module AuditBeforeEffect {
  import opened Common
  import opened Resolution
  import opened Decisions
  import opened EnforcementSpec
  import opened TailRecovery
  import Storage
  import AuditLogSpec
  import AuditHistory
  import RetainedHistory
  import Retention
  import RetentionOverRuns
  import Reopening

  // ----- the boundary's log is the audit log -----

  /** The calls that the boundary makes of its log stay within the log's recovery guarantee. */
  ghost predicate ValidRun(s: AuditSetup, events: seq<Event>) {
    RetainedHistory.ValidRun(s.grammar, s.config, Run(s, events).calls)
  }

  ghost function LogRun(s: AuditSetup, calls: seq<AuditLogSpec.Event>): AuditLogSpec.World {
    AuditLogSpec.Run(AuditLogSpec.EMPTY_WORLD, s.grammar, s.config, calls)
  }

  lemma LogRunOneMore(s: AuditSetup, calls: seq<AuditLogSpec.Event>, call: AuditLogSpec.Event)
    ensures LogRun(s, calls + [call]) == AuditLogSpec.Step(LogRun(s, calls), s.grammar, s.config, call)
  {
    assert (calls + [call])[..|calls|] == calls;
  }

  lemma NoMoreCalls(calls: seq<AuditLogSpec.Event>)
    ensures calls + [] == calls
  {
  }

  /** The directory and the log instance are those of a run of the log. */
  lemma {:induction false} WorldFollowsLog(s: AuditSetup, events: seq<Event>)
    ensures Run(s, events).host.world == LogRun(s, Run(s, events).calls)
    decreases |events|
  {
    if events != [] {
      WorldFollowsLog(s, events[..|events| - 1]);
      StepFollowsLog(Run(s, events[..|events| - 1]), s, events[|events| - 1]);
    }
  }

  lemma StepFollowsLog(t: Trace, s: AuditSetup, e: Event)
    requires t.host.world == LogRun(s, t.calls)
    ensures Step(t, s, e).host.world == LogRun(s, Step(t, s, e).calls)
  {
    NoMoreCalls(t.calls);
    if LogCalls(t.host, s, e) != [] {
      LogRunOneMore(s, t.calls, LogCalls(t.host, s, e)[0]);
    }
  }

  lemma RunOneMore(s: AuditSetup, events: seq<Event>, e: Event)
    ensures Run(s, events + [e]) == Step(Run(s, events), s, e)
  {
    assert (events + [e])[..|events|] == events;
  }

  lemma ValidBefore(s: AuditSetup, events: seq<Event>, e: Event)
    requires ValidRun(s, events + [e])
    ensures ValidRun(s, events) && Run(s, events + [e]) == Step(Run(s, events), s, e)
    ensures RetainedHistory.ValidRun(s.grammar, s.config, Run(s, events).calls + LogCalls(Run(s, events).host, s, e))
  {
    assert (events + [e])[..|events|] == events;
    var t := Run(s, events);
    NoMoreCalls(t.calls);
    if LogCalls(t.host, s, e) != [] {
      RetainedHistory.ValidRunParts(s.grammar, s.config, t.calls, LogCalls(t.host, s, e)[0]);
    }
  }

  // ----- the records and the history -----

  /** The history of the log is the boundary's records, written out. */
  ghost predicate Written(s: AuditSetup, records: seq<AuditRecord>, history: seq<seq<Storage.Byte>>) {
    |records| == |history| && forall i :: 0 <= i < |records| ==> history[i] == s.encode(records[i])
  }

  lemma StepWrites(t: Trace, s: AuditSetup, e: Event)
    requires Written(s, t.records, t.host.world.history)
    ensures Written(s, Step(t, s, e).records, Step(t, s, e).host.world.history)
    ensures t.host.world.history <= Step(t, s, e).host.world.history
  {
  }

  lemma {:induction false} HistoryIsWritten(s: AuditSetup, events: seq<Event>)
    ensures Written(s, Run(s, events).records, Run(s, events).host.world.history)
    decreases |events|
  {
    if events != [] {
      HistoryIsWritten(s, events[..|events| - 1]);
      StepWrites(Run(s, events[..|events| - 1]), s, events[|events| - 1]);
    }
  }

  /** The lines of the history determine the records: an audit can tell from them what was decided. */
  lemma HistoryDeterminesRecords(s: AuditSetup, a: seq<AuditRecord>, b: seq<AuditRecord>, history: seq<seq<Storage.Byte>>)
    requires WritesApart(s) && Written(s, a, history) && Written(s, b, history)
    ensures a == b
  {
    forall i | 0 <= i < |a| ensures a[i] == b[i] {
      assert s.encode(a[i]) == history[i] == s.encode(b[i]);
    }
  }

  // ----- every answer is durable before it is given -----

  /** The authorization record that an answer reports. */
  function RecordFor(a: Answered): AuditRecord {
    Authorization(
      a.now, a.request.correlationId, Some(a.request.callerId), Some(a.request.deadline),
      a.response.version, a.response.digest, a.request.call.agent, a.request.call.tool, a.request.call.user,
      a.response.decision)
  }

  /** The response is about its request, was in time, and asks for the effect exactly if it allows. */
  predicate Proper(a: Answered) {
    && ValidRequest(a.request) && a.clock < a.request.deadline
    && a.response.callerId == a.request.callerId
    && a.response.correlationId == a.request.correlationId
    && a.response.deadline == a.request.deadline
    && a.response.effect ==
         if a.response.decision.action == Allow
         then Some(EffectRequest(
           a.request.callerId, a.request.correlationId, a.request.deadline,
           a.response.version, a.response.digest, a.response.decision, a.request.call))
         else None
  }

  /** The response names the policy that was active and gives the decision that its rules prescribe. */
  ghost predicate Decided(a: Answered) {
    && a.active.Some?
    && a.response.version == a.active.value.version && a.response.digest == a.active.value.digest
    && Decides(a.active.value.engine, a.request.call, a.now, a.response.decision)
  }

  ghost function FilesBytes(s: AuditSetup, world: AuditLogSpec.World): seq<Storage.Byte> {
    RetainedHistory.Retained(world.files, 0, s.config.maxRotated)
  }

  /** When it was given, its record was the last of the history, and the last line in the files. */
  ghost predicate Durable(s: AuditSetup, a: Answered) {
    var history, line := a.world.history, s.encode(RecordFor(a));
    && history != [] && history[|history| - 1] == line
    && exists older :: FilesBytes(s, a.world) == older + line + [NEWLINE]
  }

  /** The active snapshot was activated durably. */
  ghost predicate Activated(t: Trace) {
    t.host.active.Some? ==>
      exists i :: 0 <= i < |t.records| && t.records[i].Activation?
        && t.records[i].version == t.host.active.value.version && t.records[i].digest == t.host.active.value.digest
  }

  /** An answer that was durable when it was given, and whose record is still in the history. */
  ghost predicate Sound(s: AuditSetup, a: Answered, history: seq<seq<Storage.Byte>>) {
    Proper(a) && Decided(a) && Durable(s, a) && a.world.history <= history
  }

  ghost predicate Safe(s: AuditSetup, t: Trace) {
    && (forall i :: 0 <= i < |t.answers| ==> Sound(s, t.answers[i], t.host.world.history))
    && (forall i, j :: 0 <= i < j < |t.answers| ==> |t.answers[i].world.history| < |t.answers[j].world.history|)
    && Activated(t)
  }

  lemma LastLine(lines: seq<seq<Storage.Byte>>, line: seq<Storage.Byte>) returns (older: seq<Storage.Byte>)
    requires lines != [] && lines[|lines| - 1] == line
    ensures Encode(lines) == older + line + [NEWLINE]
  {
    var init := lines[..|lines| - 1];
    assert lines == init + [line];
    AuditHistory.EncodeOneMore(init, line);
    older := Encode(init);
  }

  /** The boundary stands on a run of its log, and this event keeps within the log's guarantee. */
  ghost predicate OnLog(s: AuditSetup, t: Trace, e: Event) {
    && t.host.world == LogRun(s, t.calls)
    && RetainedHistory.ValidRun(s.grammar, s.config, t.calls + LogCalls(t.host, s, e))
  }

  /** What an acknowledged append leaves. */
  lemma AcknowledgedIsDurable(s: AuditSetup, calls: seq<AuditLogSpec.Event>, call: AuditLogSpec.Event)
    requires ValidSetup(s) && call.AppendCall?
    requires RetainedHistory.ValidRun(s.grammar, s.config, calls + [call])
    requires AuditLogSpec.Answer(LogRun(s, calls), s.grammar, s.config, call).status.Running?
    ensures var w := LogRun(s, calls);
      var w' := AuditLogSpec.Step(w, s.grammar, s.config, call);
      && w'.history == w.history + [call.record]
      && exists older :: FilesBytes(s, w') == older + call.record + [NEWLINE]
  {
    RetentionOverRuns.AcknowledgedIsRetained(s.grammar, s.config, calls, call);
    var w' := AuditLogSpec.Step(LogRun(s, calls), s.grammar, s.config, call);
    var older := LastLine(Retention.RetainedLines(w'.files, s.config.maxRotated), call.record);
  }

  lemma NewAnswerIsSafe(s: AuditSetup, t: Trace, e: Event, a: Answered)
    requires ValidSetup(s) && OnLog(s, t, e) && AnswerTo(t.host, s, e) == [a]
    ensures Proper(a) && Decided(a) && Durable(s, a)
    ensures a.active == t.host.active && a.world == StepHost(t.host, s, e).world
    ensures |a.world.history| == |t.host.world.history| + 1
  {
    var record := Wanted(t.host, e).value;
    assert record == RecordFor(a);
    StatelessDecides(t.host.active.value.engine, a.request.call, a.now);
    AcknowledgedIsDurable(s, t.calls, LogCall(s, record, e.now, e.attempt));
  }

  lemma AcknowledgedReaches(h: Host, s: AuditSetup, record: AuditRecord, now: int, attempt: Attempt)
    requires Acknowledged(h, s, record, now, attempt)
    ensures AuditLogSpec.LineReaches(h.world, s.grammar, s.config, LogCall(s, record, now, attempt))
  {
  }

  lemma ActivatedStep(t: Trace, s: AuditSetup, e: Event)
    requires Activated(t)
    ensures Activated(Step(t, s, e))
  {
    var t' := Step(t, s, e);
    if t'.host.active.Some? {
      if t'.host.active == t.host.active {
        var i :| 0 <= i < |t.records| && t.records[i].Activation?
          && t.records[i].version == t.host.active.value.version && t.records[i].digest == t.host.active.value.digest;
        assert t'.records[i] == t.records[i];
      } else {
        AcknowledgedReaches(t.host, s, Wanted(t.host, e).value, e.now, e.attempt);
        assert t'.records[|t.records|] == Wanted(t.host, e).value;
      }
    }
  }

  lemma StepIsSafe(s: AuditSetup, t: Trace, e: Event)
    requires ValidSetup(s) && OnLog(s, t, e) && Written(s, t.records, t.host.world.history) && Safe(s, t)
    ensures Safe(s, Step(t, s, e))
  {
    var t' := Step(t, s, e);
    StepWrites(t, s, e);
    ActivatedStep(t, s, e);
    var added := AnswerTo(t.host, s, e);
    if added != [] {
      NewAnswerIsSafe(s, t, e, added[0]);
      OneMoreAnswer(s, t, t', added[0]);
    } else {
      NoMoreAnswers(s, t, t');
    }
  }

  lemma NoMoreAnswers(s: AuditSetup, t: Trace, t': Trace)
    requires Safe(s, t) && Activated(t') && t'.answers == t.answers && t.host.world.history <= t'.host.world.history
    ensures Safe(s, t')
  {
    forall i | 0 <= i < |t'.answers| ensures Sound(s, t'.answers[i], t'.host.world.history) {
      SoundLater(s, t.answers[i], t.host.world.history, t'.host.world.history);
    }
  }

  lemma OneMoreAnswer(s: AuditSetup, t: Trace, t': Trace, a: Answered)
    requires Safe(s, t) && Activated(t') && t'.answers == t.answers + [a]
    requires t.host.world.history <= t'.host.world.history == a.world.history
    requires Proper(a) && Decided(a) && Durable(s, a) && |a.world.history| > |t.host.world.history|
    ensures Safe(s, t')
  {
    forall i | 0 <= i < |t'.answers| ensures Sound(s, t'.answers[i], t'.host.world.history) {
      if i < |t.answers| {
        SoundLater(s, t.answers[i], t.host.world.history, t'.host.world.history);
      }
    }
    forall i, j | 0 <= i < j < |t'.answers|
      ensures |t'.answers[i].world.history| < |t'.answers[j].world.history|
    {
      assert Sound(s, t.answers[i], t.host.world.history);
    }
  }

  lemma SoundLater(s: AuditSetup, a: Answered, before: seq<seq<Storage.Byte>>, after: seq<seq<Storage.Byte>>)
    requires Sound(s, a, before) && before <= after
    ensures Sound(s, a, after)
  {
  }

  /**
   Audit before effect, over every run of reloads, authorizations, closes and
   restarts on one directory, whatever interrupts each append: when a response
   was given, its own authorization record was the last of the log's history and
   the last line of its files, and it has stayed in the history since; the
   response gives the decision that the rules of the active policy prescribe, and
   carries an effect exactly if that allows; the deadline had not passed; and the
   active policy always has a durable activation.
   */
  lemma {:induction false} EveryRunIsSafe(s: AuditSetup, events: seq<Event>)
    requires ValidSetup(s) && ValidRun(s, events)
    ensures Safe(s, Run(s, events))
    decreases |events|
  {
    if events != [] {
      var init, e := events[..|events| - 1], events[|events| - 1];
      assert init + [e] == events;
      ValidBefore(s, init, e);
      EveryRunIsSafe(s, init);
      SafeOneMore(s, init, e);
    }
  }

  lemma SafeOneMore(s: AuditSetup, events: seq<Event>, e: Event)
    requires ValidSetup(s) && ValidRun(s, events + [e]) && Safe(s, Run(s, events))
    ensures Safe(s, Run(s, events + [e]))
  {
    ValidBefore(s, events, e);
    WorldFollowsLog(s, events);
    HistoryIsWritten(s, events);
    StepIsSafe(s, Run(s, events), e);
  }

  /** `lines` are the last of the records, written out. */
  ghost predicate WrittenLast(s: AuditSetup, records: seq<AuditRecord>, lines: seq<seq<Storage.Byte>>) {
    |lines| <= |records| && Written(s, records[|records| - |lines|..], lines)
  }

  lemma SuffixIsWritten(s: AuditSetup, records: seq<AuditRecord>, history: seq<seq<Storage.Byte>>,
                        lines: seq<seq<Storage.Byte>>)
    requires Written(s, records, history) && AuditHistory.IsSuffix(lines, history)
    ensures WrittenLast(s, records, lines)
  {
    var skipped := |records| - |lines|;
    forall i | 0 <= i < |lines| ensures lines[i] == s.encode(records[skipped..][i]) {
      assert lines[i] == history[skipped + i] && records[skipped..][i] == records[skipped + i];
    }
  }

  /** Without an age limit the files hold the last of the boundary's records at any time, whatever crash came last. */
  lemma LastRecordIsRetained(s: AuditSetup, events: seq<Event>)
    requires ValidSetup(s) && ValidRun(s, events) && s.config.maxAge.None?
    ensures var t := Run(s, events);
      var retained := Retention.RetainedLines(t.host.world.files, s.config.maxRotated);
      WrittenLast(s, t.records, retained) && (t.records != [] ==> retained != [])
  {
    var t := Run(s, events);
    WorldFollowsLog(s, events);
    HistoryIsWritten(s, events);
    RetentionOverRuns.RetainedAtAnyTime(s.grammar, s.config, t.calls);
    SuffixIsWritten(s, t.records, t.host.world.history,
                    Retention.RetainedLines(t.host.world.files, s.config.maxRotated));
  }

  // ----- which policy an authorization names -----

  /** The digest of the last activation in the history. */
  function LatestActivation(records: seq<AuditRecord>): Option<string> {
    if records == [] then None
    else
      var last := records[|records| - 1];
      if last.Activation? then Some(last.digest) else LatestActivation(records[..|records| - 1])
  }

  /** The active policy is the one activated last. */
  ghost predicate Current(t: Trace) {
    t.host.active.Some? ==> LatestActivation(t.records) == Some(t.host.active.value.digest)
  }

  /** An activation that is durable although its reload failed, of another policy than the active one. */
  ghost predicate LeavesStaleActivation(t: Trace, s: AuditSetup, e: Event) {
    && e.ReloadEvent? && Writes(t.host, s, e)
    && !Acknowledged(t.host, s, Wanted(t.host, e).value, e.now, e.attempt)
    && t.host.active.Some? && e.text.digest != t.host.active.value.digest
  }

  lemma LatestOfOneMore(records: seq<AuditRecord>, record: AuditRecord)
    ensures LatestActivation(records + [record]) ==
      if record.Activation? then Some(record.digest) else LatestActivation(records)
  {
    assert (records + [record])[..|records|] == records;
  }

  lemma LatestOfStep(t: Trace, s: AuditSetup, e: Event)
    ensures LatestActivation(Step(t, s, e).records) ==
      if e.ReloadEvent? && Writes(t.host, s, e) then Some(e.text.digest) else LatestActivation(t.records)
  {
    if Writes(t.host, s, e) {
      LatestOfOneMore(t.records, Wanted(t.host, e).value);
    } else {
      assert t.records + [] == t.records;
    }
  }

  /** The active policy stays the one activated last, exactly unless a failed reload leaves its record behind. */
  lemma CurrentKeptExactly(t: Trace, s: AuditSetup, e: Event)
    requires Current(t)
    ensures Current(Step(t, s, e)) <==> !LeavesStaleActivation(t, s, e)
  {
    LatestOfStep(t, s, e);
    if e.ReloadEvent? && Wanted(t.host, e).Some? && Acknowledged(t.host, s, Wanted(t.host, e).value, e.now, e.attempt) {
      AcknowledgedReaches(t.host, s, Wanted(t.host, e).value, e.now, e.attempt);
    }
  }

  /** Every authorization record names the policy that was activated last before it. */
  predicate NamesCurrentPolicy(records: seq<AuditRecord>) {
    forall i :: 0 <= i < |records| && records[i].Authorization? ==>
      LatestActivation(records[..i]) == Some(records[i].digest)
  }

  lemma NamesOneMore(records: seq<AuditRecord>, record: AuditRecord)
    ensures NamesCurrentPolicy(records + [record]) <==>
      NamesCurrentPolicy(records) && (record.Authorization? ==> LatestActivation(records) == Some(record.digest))
  {
    var all := records + [record];
    assert forall i :: 0 <= i <= |records| ==> all[..i] == records[..i];
    assert records[..|records|] == records;
    if NamesCurrentPolicy(all) {
      forall i | 0 <= i < |records| && records[i].Authorization?
        ensures LatestActivation(records[..i]) == Some(records[i].digest)
      {
        assert all[i] == records[i];
      }
      assert all[|records|] == record;
    }
  }

  /** This authorization reaches the log while the active policy is not the one activated last. */
  ghost predicate Misnames(t: Trace, s: AuditSetup, e: Event) {
    e.AuthorizeEvent? && Writes(t.host, s, e) && !Current(t)
  }

  ghost predicate NothingMisnamed(s: AuditSetup, events: seq<Event>) {
    forall i :: 0 <= i < |events| ==> !Misnames(Run(s, events[..i]), s, events[i])
  }

  lemma NothingMisnamedOneMore(s: AuditSetup, events: seq<Event>, e: Event)
    ensures NothingMisnamed(s, events + [e]) <==> NothingMisnamed(s, events) && !Misnames(Run(s, events), s, e)
  {
    var all := events + [e];
    assert forall i :: 0 <= i <= |events| ==> all[..i] == events[..i];
    assert forall i :: 0 <= i < |events| ==> all[i] == events[i];
    assert events[..|events|] == events && all[|events|] == e;
    if NothingMisnamed(s, all) {
      forall i | 0 <= i < |events| ensures !Misnames(Run(s, events[..i]), s, events[i]) {
        assert !Misnames(Run(s, all[..i]), s, all[i]);
      }
      assert !Misnames(Run(s, all[..|events|]), s, all[|events|]);
    }
  }

  lemma NamesStep(t: Trace, s: AuditSetup, e: Event)
    ensures NamesCurrentPolicy(Step(t, s, e).records) <==> NamesCurrentPolicy(t.records) && !Misnames(t, s, e)
  {
    if Writes(t.host, s, e) {
      NamesOneMore(t.records, Wanted(t.host, e).value);
    } else {
      assert t.records + [] == t.records;
    }
  }

  ghost predicate NamedExactly(s: AuditSetup, events: seq<Event>) {
    NamesCurrentPolicy(Run(s, events).records) <==> NothingMisnamed(s, events)
  }

  /**
   Exactly when every authorization of a run names the policy activated last:
   if and only if none reaches the log while the active policy is another one.
   */
  lemma {:induction false} PoliciesNamedExactly(s: AuditSetup, events: seq<Event>)
    ensures NamedExactly(s, events)
    decreases |events|
  {
    if events != [] {
      var init, e := events[..|events| - 1], events[|events| - 1];
      assert init + [e] == events;
      PoliciesNamedExactly(s, init);
      NamedOneMore(s, init, e);
      assert NamedExactly(s, init + [e]);
    }
  }

  lemma NamedOneMore(s: AuditSetup, events: seq<Event>, e: Event)
    ensures NamesCurrentPolicy(Run(s, events + [e]).records) <==>
      NamesCurrentPolicy(Run(s, events).records) && !Misnames(Run(s, events), s, e)
    ensures NothingMisnamed(s, events + [e]) <==> NothingMisnamed(s, events) && !Misnames(Run(s, events), s, e)
  {
    RunOneMore(s, events, e);
    NamesStep(Run(s, events), s, e);
    NothingMisnamedOneMore(s, events, e);
  }

  /** No reload of the run fails after its record has reached the log. */
  ghost predicate NoStaleActivation(s: AuditSetup, events: seq<Event>) {
    forall i :: 0 <= i < |events| ==> !LeavesStaleActivation(Run(s, events[..i]), s, events[i])
  }

  lemma {:induction false} CurrentThroughout(s: AuditSetup, events: seq<Event>)
    requires NoStaleActivation(s, events)
    ensures Current(Run(s, events)) && NothingMisnamed(s, events)
    decreases |events|
  {
    if events != [] {
      var init, e := events[..|events| - 1], events[|events| - 1];
      assert init + [e] == events;
      NoStaleBefore(s, init, e);
      CurrentThroughout(s, init);
      CurrentOneMore(s, init, e);
    }
  }

  lemma NoStaleBefore(s: AuditSetup, events: seq<Event>, e: Event)
    requires NoStaleActivation(s, events + [e])
    ensures NoStaleActivation(s, events) && !LeavesStaleActivation(Run(s, events), s, e)
  {
    var all := events + [e];
    forall i | 0 <= i < |events| ensures !LeavesStaleActivation(Run(s, events[..i]), s, events[i]) {
      assert all[..i] == events[..i] && all[i] == events[i];
    }
    assert all[..|events|] == events && all[|events|] == e;
  }

  lemma CurrentOneMore(s: AuditSetup, events: seq<Event>, e: Event)
    requires Current(Run(s, events)) && NothingMisnamed(s, events) && !LeavesStaleActivation(Run(s, events), s, e)
    ensures Current(Run(s, events + [e])) && NothingMisnamed(s, events + [e])
  {
    RunOneMore(s, events, e);
    CurrentKeptExactly(Run(s, events), s, e);
    NothingMisnamedOneMore(s, events, e);
  }

  /** In particular, if failed appends leave no record, every authorization names the policy activated last. */
  lemma AuthorizationsNameLatestPolicy(s: AuditSetup, events: seq<Event>)
    requires forall i :: 0 <= i < |events| && Writes(Run(s, events[..i]).host, s, events[i]) ==>
      Acknowledged(Run(s, events[..i]).host, s, Wanted(Run(s, events[..i]).host, events[i]).value,
                   events[i].now, events[i].attempt)
    ensures NamesCurrentPolicy(Run(s, events).records)
  {
    CurrentThroughout(s, events);
    PoliciesNamedExactly(s, events);
  }

  // ----- what changes the active policy -----

  /** An acknowledged activation of `snapshot`. */
  ghost predicate Activates(t: Trace, s: AuditSetup, e: Event, snapshot: Snapshot) {
    && e.ReloadEvent? && ParseSnapshot(e.text) == Some(snapshot)
    && Acknowledged(t.host, s, ActivationOf(snapshot, e.now), e.now, e.attempt)
  }

  ghost predicate ActivatedSince(s: AuditSetup, events: seq<Event>, from: nat, snapshot: Snapshot) {
    exists k :: from <= k < |events| && Activates(Run(s, events[..k]), s, events[k], snapshot)
  }

  predicate RestartedSince(events: seq<Event>, from: nat) {
    exists k :: from <= k < |events| && events[k].RestartEvent?
  }

  /** Why the active policy at the end of `events` is another one than after the first `from` of them. */
  ghost predicate ActiveChanged(s: AuditSetup, events: seq<Event>, from: nat) {
    match Run(s, events).host.active
    case Some(snapshot) => ActivatedSince(s, events, from, snapshot)
    case None => RestartedSince(events, from)
  }

  lemma ActivatedLater(s: AuditSetup, events: seq<Event>, e: Event, from: nat, snapshot: Snapshot)
    ensures ActivatedSince(s, events, from, snapshot) ==> ActivatedSince(s, events + [e], from, snapshot)
  {
    if ActivatedSince(s, events, from, snapshot) {
      var k :| from <= k < |events| && Activates(Run(s, events[..k]), s, events[k], snapshot);
      assert (events + [e])[..k] == events[..k] && (events + [e])[k] == events[k];
    }
  }

  lemma RestartedLater(events: seq<Event>, e: Event, from: nat)
    requires RestartedSince(events, from)
    ensures RestartedSince(events + [e], from)
  {
    var k :| from <= k < |events| && events[k].RestartEvent?;
    assert (events + [e])[k] == events[k];
  }

  lemma ActiveChangedBefore(s: AuditSetup, events: seq<Event>, e: Event, from: nat)
    ensures ActiveChanged(s, events, from) && Run(s, events + [e]).host.active == Run(s, events).host.active ==>
      ActiveChanged(s, events + [e], from)
  {
    match Run(s, events).host.active
    case Some(snapshot) => ActivatedLater(s, events, e, from, snapshot);
    case None =>
      if RestartedSince(events, from) {
        RestartedLater(events, e, from);
      }
  }

  lemma ActiveChangedNow(s: AuditSetup, events: seq<Event>, e: Event, from: nat)
    requires from <= |events| && Step(Run(s, events), s, e).host.active != Run(s, events).host.active
    ensures ActiveChanged(s, events + [e], from)
  {
    var all := events + [e];
    assert all[..|events|] == events && all[|events|] == e;
    assert Run(s, all) == Step(Run(s, events), s, e);
  }

  /**
   Between two moments of a run, the active policy can become another one only
   by an acknowledged activation of that one, and it can be lost only by a restart.
   */
  lemma {:induction false} ActiveChangesOnlyBy(s: AuditSetup, events: seq<Event>, from: nat)
    requires from <= |events|
    ensures Run(s, events).host.active == Run(s, events[..from]).host.active || ActiveChanged(s, events, from)
    decreases |events|
  {
    if from < |events| {
      var init, e := events[..|events| - 1], events[|events| - 1];
      assert init + [e] == events && init[..from] == events[..from];
      if Step(Run(s, init), s, e).host.active != Run(s, init).host.active {
        ActiveChangedNow(s, init, e, from);
      } else {
        ActiveChangesOnlyBy(s, init, from);
        ActiveChangedBefore(s, init, e, from);
      }
    } else {
      assert events[..from] == events;
    }
  }

  // ----- a reload that failed after its record was written -----

  const PLAIN_CONFIG := AuditLogSpec.Config(None, None, 1)

  /** An append on a ready log whose active file holds complete lines, and how it ends for each number of primitives. */
  lemma PlainAppend(g: Grammar, w: AuditLogSpec.World, e: AuditLogSpec.Event)
    requires e.AppendCall? && w.instance.Ready? && e.fuel > 0 && e.survives
    requires w.files.Keys == {Storage.Active} && w.files[Storage.Active].Log?
    ensures var w' := AuditLogSpec.Step(w, g, PLAIN_CONFIG, e);
      && w'.history == w.history + [e.record] && w'.instance.Ready?
      && w'.files == map[Storage.Active :=
           Storage.Log(w.files[Storage.Active].bytes + (e.record + [NEWLINE]), e.now)]
      && AuditLogSpec.LineReaches(w, g, PLAIN_CONFIG, e)
      && (AuditLogSpec.Answer(w, g, PLAIN_CONFIG, e).status.Running? <==> e.fuel >= 3)
  {
    var bytes := w.files[Storage.Active].bytes;
    assert (e.record + [NEWLINE])[..|e.record| + 1] == e.record + [NEWLINE];
    var d := Storage.Disk(w.files, e.fuel, e.tear, Storage.Running);
    assert AuditLogSpec.OpenForAppend(d, PLAIN_CONFIG, e.record, e.transaction, e.now) == d;
  }

  /** The first append to an empty directory. */
  lemma FirstAppend(g: Grammar, e: AuditLogSpec.Event)
    requires e.AppendCall? && e.fuel >= 4
    ensures var w' := AuditLogSpec.Step(AuditLogSpec.EMPTY_WORLD, g, PLAIN_CONFIG, e);
      && w'.history == [e.record] && w'.instance.Ready?
      && w'.files == map[Storage.Active := Storage.Log(e.record + [NEWLINE], e.now)]
      && AuditLogSpec.LineReaches(AuditLogSpec.EMPTY_WORLD, g, PLAIN_CONFIG, e)
      && AuditLogSpec.Answer(AuditLogSpec.EMPTY_WORLD, g, PLAIN_CONFIG, e).status.Running?
  {
    var d := Storage.Disk(map[], e.fuel, e.tear, Storage.Running);
    Reopening.EmptyDirectoryOpens(d, g, PLAIN_CONFIG, e.now);
    assert AuditLogSpec.OpenForAppend(d, PLAIN_CONFIG, e.record, e.transaction, e.now)
        == Storage.Put(d, Storage.Active, Storage.Log([], e.now));
    assert [] + (e.record + [NEWLINE])[..|e.record| + 1] == e.record + [NEWLINE];
  }

  lemma EndsInOrder(bytes: seq<Storage.Byte>, line: seq<Storage.Byte>, now: int)
    ensures AuditLogSpec.Restful(map[Storage.Active := Storage.Log(bytes + (line + [NEWLINE]), now)])
  {
    var all := bytes + (line + [NEWLINE]);
    assert all[|all| - 1] == NEWLINE;
  }

  /** The log is ready and in order, `snapshot` is active, and nothing was answered yet. */
  ghost predicate Serving(t: Trace, snapshot: Snapshot, records: seq<AuditRecord>) {
    && t.host.active == Some(snapshot) && t.records == records && t.answers == []
    && t.host.world.instance.Ready? && AuditLogSpec.Restful(t.host.world.files)
    && t.host.world.files.Keys == {Storage.Active} && t.host.world.files[Storage.Active].Log?
  }

  lemma FirstReload(s: AuditSetup, text: PolicyText, now: int)
    requires ParseSnapshot(text).Some? && s.config == PLAIN_CONFIG
    ensures var snapshot := ParseSnapshot(text).value;
      Serving(Run(s, [ReloadEvent(text, now, Attempt("t", 4, 0, true))]), snapshot, [ActivationOf(snapshot, now)])
  {
    var e := ReloadEvent(text, now, Attempt("t", 4, 0, true));
    var call := LogCall(s, ActivationOf(ParseSnapshot(text).value, now), now, e.attempt);
    FirstAppend(s.grammar, call);
    EndsInOrder([], call.record, now);
    assert [] + (call.record + [NEWLINE]) == call.record + [NEWLINE];
    RunOneMore(s, [], e);
    assert [] + [e] == [e];
  }

  lemma FailedReload(s: AuditSetup, t: Trace, snapshot: Snapshot, records: seq<AuditRecord>, text: PolicyText, now: int)
    requires Serving(t, snapshot, records) && ParseSnapshot(text).Some? && s.config == PLAIN_CONFIG
    ensures Serving(Step(t, s, ReloadEvent(text, now, Attempt("t", 1, 0, true))),
                    snapshot, records + [ActivationOf(ParseSnapshot(text).value, now)])
  {
    var call := LogCall(s, ActivationOf(ParseSnapshot(text).value, now), now, Attempt("t", 1, 0, true));
    PlainAppend(s.grammar, t.host.world, call);
    EndsInOrder(t.host.world.files[Storage.Active].bytes, call.record, now);
  }

  lemma ServedRequest(s: AuditSetup, t: Trace, snapshot: Snapshot, records: seq<AuditRecord>,
                      request: Request, clock: nat, now: int)
    requires Serving(t, snapshot, records) && ValidRequest(request) && clock < request.deadline && s.config == PLAIN_CONFIG
    ensures var e := AuthorizeEvent(request, clock, now, Attempt("t", 3, 0, true));
      Writes(t.host, s, e) && |Step(t, s, e).answers| == 1
  {
    PlainAppend(s.grammar, t.host.world, LogCall(s, RequestRecord(request, snapshot, now), now, Attempt("t", 3, 0, true)));
  }

  /**
   The reload of a second policy writes its record and fails at the next sync.
   The process goes on with the first policy, and with a log in order; the next
   authorization is answered, and names another policy than the last activation.
   */
  lemma StaleActivationMisnames(
    s: AuditSetup, first: PolicyText, second: PolicyText, request: Request, clock: nat, now: int)
    requires ParseSnapshot(first).Some? && ParseSnapshot(second).Some? && first.digest != second.digest
    requires ValidRequest(request) && clock < request.deadline && s.config == PLAIN_CONFIG
    ensures var a := ReloadEvent(first, now, Attempt("t", 4, 0, true));
      var b := ReloadEvent(second, now, Attempt("t", 1, 0, true));
      var c := AuthorizeEvent(request, clock, now, Attempt("t", 3, 0, true));
      && AuditLogSpec.Restful(Run(s, [a] + [b]).host.world.files)
      && !NamesCurrentPolicy(Run(s, [a] + [b] + [c]).records) && |Run(s, [a] + [b] + [c]).answers| == 1
  {
    var a, b := ReloadEvent(first, now, Attempt("t", 4, 0, true)), ReloadEvent(second, now, Attempt("t", 1, 0, true));
    var c := AuthorizeEvent(request, clock, now, Attempt("t", 3, 0, true));
    var snapshot, other := ParseSnapshot(first).value, ParseSnapshot(second).value;
    FirstReload(s, first, now);
    FailedReload(s, Run(s, [a]), snapshot, [ActivationOf(snapshot, now)], second, now);
    RunOneMore(s, [a], b);
    var t := Run(s, [a] + [b]);
    LatestOfOneMore([ActivationOf(snapshot, now)], ActivationOf(other, now));
    ServedRequest(s, t, snapshot, [ActivationOf(snapshot, now)] + [ActivationOf(other, now)], request, clock, now);
    NamesStep(t, s, c);
    RunOneMore(s, [a] + [b], c);
  }
}
