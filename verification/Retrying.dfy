/** Which hosts stay within the recovery guarantee, and what happens to one that does not. */
module Retrying {
  import opened Common
  import opened Storage
  import opened TailRecovery
  import opened AuditLogSpec
  import opened AuditHistory
  import opened RetainedHistory
  import opened Retention
  import opened RetentionOfSteps
  import opened RotationSpec
  import opened CrashConvergence
  import opened Reopening

  /** An append that the process survived although it failed half-way. */
  predicate FailedHalfWay(w: World, g: Grammar, config: Config, e: Event) {
    e.AppendCall? && e.survives && Answer(w, g, config, e).status.Interrupted?
  }

  /** After such an append the host does not try another one on the same instance. */
  ghost predicate NeverRetries(g: Grammar, config: Config, events: seq<Event>) {
    forall i :: 0 <= i < |events| - 1 && FailedHalfWay(Run(EMPTY_WORLD, g, config, events[..i]), g, config, events[i]) ==>
      !events[i + 1].AppendCall?
  }

  /** A ready instance finds the log in order, unless its last append failed half-way. */
  ghost predicate InOrder(g: Grammar, config: Config, events: seq<Event>) {
    var w := Run(EMPTY_WORLD, g, config, events);
    w.instance.Ready? ==>
      || Restful(w.files)
      || (events != [] && FailedHalfWay(Run(EMPTY_WORLD, g, config, events[..|events| - 1]), g, config, events[|events| - 1]))
  }

  lemma CallLeavesOrder(g: Grammar, config: Config, events: seq<Event>, e: Event)
    requires ValidConfig(config) && ValidRun(g, config, events + [e]) && e.AppendCall?
    ensures var w := Run(EMPTY_WORLD, g, config, events);
      var w' := Step(w, g, config, e);
      w'.instance.Ready? ==> Restful(w'.files) || FailedHalfWay(w, g, config, e)
  {
    ValidRunParts(g, config, events, e);
    var w := Run(EMPTY_WORLD, g, config, events);
    var w' := Step(w, g, config, e);
    var sh := RunExplained(g, config, events, e.now, false);
    NeverRefusedWhenReady(sh, g, config, w, e);
    sh := CallExplained(sh, g, config, w, e);
    RestfulIsAtRest(sh, g, config, w'.files, w'.history, e.now);
  }

  /** An append that gets as far as the disk being ready is not refused any more. */
  lemma NeverRefusedWhenReady(sh: Shadow, g: Grammar, config: Config, w: World, e: Event)
    requires e.AppendCall? && ValidEvent(g, e) && ValidConfig(config) && WorldExplained(sh, g, config, w, e.now)
    requires UsedAtRest(w, e)
    ensures ReadyDisk(w, g, config, e).status.Running? ==> !Answer(w, g, config, e).status.Failed?
  {
    var ready := ReadyDisk(w, g, config, e);
    if ready.status.Running? {
      var sh' := sh;
      if w.instance.Fresh? {
        sh' := RecoverLogExplained(sh, g, config, Disk(w.files, e.fuel, e.tear, Running), w.history, e.now);
      } else {
        RestfulIsAtRest(sh, g, config, w.files, w.history, e.now);
      }
      sh' := AppendExplained(sh', g, config, ready, w.history, e.record, e.transaction, e.now);
    }
  }

  lemma PrefixesAgree(events: seq<Event>, e: Event)
    ensures forall i :: 0 <= i <= |events| ==> (events + [e])[..i] == events[..i]
    ensures forall i :: 0 <= i < |events| ==> (events + [e])[i] == events[i]
    ensures (events + [e])[|events|] == e && events[..|events|] == events
  {
  }

  lemma UsedInOrder(g: Grammar, config: Config, events: seq<Event>, e: Event)
    requires InOrder(g, config, events) && NeverRetries(g, config, events + [e])
    ensures UsedAtRest(Run(EMPTY_WORLD, g, config, events), e)
  {
    PrefixesAgree(events, e);
    if events != [] {
      var last := |events| - 1;
      assert (events + [e])[..last] == events[..last] && (events + [e])[last] == events[last];
    }
  }

  lemma OneMoreCovered(g: Grammar, config: Config, events: seq<Event>, e: Event)
    requires ValidRun(g, config, events) && UsedAtRest(Run(EMPTY_WORLD, g, config, events), e)
    requires ValidEvents(g, events + [e])
    ensures ValidRun(g, config, events + [e])
  {
    PrefixesAgree(events, e);
    var all := events + [e];
    forall i | 0 <= i < |all| ensures UsedAtRest(Run(EMPTY_WORLD, g, config, all[..i]), all[i]) {
      if i < |events| {
        assert UsedAtRest(Run(EMPTY_WORLD, g, config, events[..i]), events[i]);
      }
    }
  }

  lemma StillInOrder(g: Grammar, config: Config, events: seq<Event>, e: Event)
    requires ValidConfig(config) && ValidRun(g, config, events + [e])
    ensures InOrder(g, config, events + [e])
  {
    PrefixesAgree(events, e);
    if e.AppendCall? {
      CallLeavesOrder(g, config, events, e);
    }
  }

  lemma FewerEvents(g: Grammar, config: Config, events: seq<Event>, e: Event)
    requires ValidEvents(g, events + [e]) && NeverRetries(g, config, events + [e])
    ensures ValidEvents(g, events) && NeverRetries(g, config, events)
  {
    PrefixesAgree(events, e);
    var all := events + [e];
    forall i | 0 <= i < |events| - 1 && FailedHalfWay(Run(EMPTY_WORLD, g, config, events[..i]), g, config, events[i])
      ensures !events[i + 1].AppendCall?
    {
      assert all[..i] == events[..i] && all[i] == events[i] && all[i + 1] == events[i + 1];
    }
  }

  /** Every run of a host that never retries is covered by the laws about valid runs. */
  lemma {:induction false} NeverRetryingIsCovered(g: Grammar, config: Config, events: seq<Event>)
    requires ValidConfig(config) && ValidEvents(g, events) && NeverRetries(g, config, events)
    ensures ValidRun(g, config, events) && InOrder(g, config, events)
    decreases |events|
  {
    if events != [] {
      var init, e := events[..|events| - 1], events[|events| - 1];
      assert init + [e] == events;
      FewerEvents(g, config, init, e);
      NeverRetryingIsCovered(g, config, init);
      UsedInOrder(g, config, init, e);
      OneMoreCovered(g, config, init, e);
      StillInOrder(g, config, init, e);
    }
  }

  const PLAIN_CONFIG := Config(None, None, 1)

  /** The first append of a run fails after `tear` bytes of its line, and the process survives. */
  lemma FirstWriteTears(g: Grammar, record: Line, tear: nat, now: int)
    requires 0 < tear <= |record|
    ensures Step(EMPTY_WORLD, g, PLAIN_CONFIG, AppendCall(record, "t", now, 1, tear, true))
         == World(map[Active := Log(record[..tear], now)], Ready, [])
  {
    var d := Disk(map[], 1, tear, Running);
    EmptyDirectoryOpens(d, g, PLAIN_CONFIG, now);
    var prepared := OpenForAppend(d, PLAIN_CONFIG, record, "t", now);
    assert prepared == Put(d, Active, Log([], now));
    var after := Append(prepared, Active, record + [NEWLINE], now);
    assert [] + (record + [NEWLINE])[..tear] == record[..tear];
    assert after.files == map[Active := Log(record[..tear], now)];
  }

  lemma NextRecordJoins(g: Grammar, torn: seq<Byte>, record: Line, now: int)
    requires torn != [] && NEWLINE !in torn && NEWLINE !in record
    ensures var w := World(map[Active := Log(torn, now)], Ready, []);
      var e := AppendCall(record, "t", now, 3, 0, true);
      && Answer(w, g, PLAIN_CONFIG, e).status.Running?
      && Step(w, g, PLAIN_CONFIG, e).history == [record]
      && SlotLines(Step(w, g, PLAIN_CONFIG, e).files, 0) == [torn + record]
  {
    var w := World(map[Active := Log(torn, now)], Ready, []);
    var e := AppendCall(record, "t", now, 3, 0, true);
    var w' := Step(w, g, PLAIN_CONFIG, e);
    assert (record + [NEWLINE])[..|record| + 1] == record + [NEWLINE];
    assert w'.files == map[Active := Log(torn + (record + [NEWLINE]), now)];
    assert torn + (record + [NEWLINE]) == Encode([torn + record]) + [];
    LinesOfLog(Get(w'.files, Active), [torn + record], []);
  }

  /**
   A run of two appends: the write of the first record is torn and fails, and the
   second append, on the same instance, is acknowledged; but its record is not on
   a line of its own, for the torn bytes stand before it.
   */
  lemma RetryAfterTear(g: Grammar, first: Line, tear: nat, record: Line, now: int)
    requires 0 < tear <= |first| && NEWLINE !in first && NEWLINE !in record
    ensures var a := AppendCall(first, "t", now, 1, tear, true);
      var b := AppendCall(record, "t", now, 3, 0, true);
      var w := Run(EMPTY_WORLD, g, PLAIN_CONFIG, [a]);
      var w' := Run(EMPTY_WORLD, g, PLAIN_CONFIG, [a] + [b]);
      && Answer(EMPTY_WORLD, g, PLAIN_CONFIG, a).status.Interrupted?
      && Answer(w, g, PLAIN_CONFIG, b).status.Running?
      && w'.history == [record] && SlotLines(w'.files, 0) == [first[..tear] + record] != [record]
  {
    var a := AppendCall(first, "t", now, 1, tear, true);
    var b := AppendCall(record, "t", now, 3, 0, true);
    EmptyDirectoryOpens(Disk(map[], 1, tear, Running), g, PLAIN_CONFIG, now);
    FirstWriteTears(g, first, tear, now);
    NextRecordJoins(g, first[..tear], record, now);
    assert [a][..0] == [] && ([a] + [b])[..1] == [a];
    assert |first[..tear] + record| == tear + |record|;
  }

  /** The bytes that the record's line is written after. */
  function WrittenAfter(files: Files, config: Config, record: Line, now: int): seq<Byte> {
    if Active in files && MustRotate(files[Active], config, |record| + 1, now) then [] else BytesUnder(files, Active)
  }

  lemma PruneKeepsActive(d: Disk, config: Config, now: int)
    requires !HasRotationFiles(d.files)
    ensures var r := Prune(d, config, now);
      Get(r.files, Active) == Get(d.files, Active) && !HasRotationFiles(r.files)
  {
    if config.maxAge.Some? {
      PruneEffect(d, config, 1, now);
      var r := Prune(d, config, now);
      forall name: Name | name.IsRotationName() ensures name !in r.files {
        assert name !in d.files;
        assert Get(r.files, name) == Get(d.files, name);
      }
    }
  }

  lemma RotationLeavesNoActive(d: Disk, config: Config, size: nat, transaction: string, now: int)
    requires d.status.Running? && !HasRotationFiles(d.files) && ValidConfig(config) && ValidTransaction(transaction)
    requires Active in d.files && MustRotate(d.files[Active], config, size, now)
    requires RotateBeforeAppend(d, config, size, transaction, now).status.Running?
    ensures var r := RotateBeforeAppend(d, config, size, transaction, now);
      Active !in r.files && !HasRotationFiles(r.files)
  {
    var m := NewManifest(d.files, transaction, config.maxRotated);
    var rotated := RotateCurrent(d, transaction, config.maxRotated);
    NewManifestStartable(d.files, transaction, config.maxRotated);
    var p := RotateCurrentAt(d, transaction, config.maxRotated);
    if !rotated.status.Running? && config.maxAge.Some? {
      PruneStopped(rotated, config, 1, now);
    }
    assert p == Point.Complete;
    NoRotationFilesAt(d.files, m, p, rotated.files);
    assert Get(rotated.files, Active) == Held(d.files, m, p, Active);
    PruneKeepsActive(rotated, config, now);
  }

  /** The active file that an acknowledged append on a ready log leaves, in order or not. */
  lemma AcknowledgedBytes(d: Disk, config: Config, record: Line, transaction: string, now: int)
    requires d.status.Running? && !HasRotationFiles(d.files) && ValidConfig(config) && ValidTransaction(transaction)
    requires AppendRecord(d, config, record, transaction, now).status.Running?
    ensures var r := AppendRecord(d, config, record, transaction, now);
      && Manifest !in r.files
      && Get(r.files, Active) == Some(Log(WrittenAfter(d.files, config, record, now) + (record + [NEWLINE]), now))
  {
    var pruned := Prune(d, config, now);
    PruneKeepsActive(d, config, now);
    var rotated := RotateBeforeAppend(pruned, config, |record| + 1, transaction, now);
    if Active in pruned.files && MustRotate(pruned.files[Active], config, |record| + 1, now) {
      RotationLeavesNoActive(pruned, config, |record| + 1, transaction, now);
    }
    assert Manifest.IsRotationName();
    var prepared := OpenForAppend(d, config, record, transaction, now);
    assert (record + [NEWLINE])[..|record| + 1] == record + [NEWLINE];
    assert prepared.status.Running? && prepared.fuel > 0;
  }

  lemma TailJoinsRecord(lines: seq<Line>, tail: seq<Byte>, record: Line)
    requires NEWLINE !in record && NEWLINE !in tail && forall i :: 0 <= i < |lines| ==> NEWLINE !in lines[i]
    ensures CompleteLines(Encode(lines) + tail + (record + [NEWLINE])) == lines + [tail + record]
  {
    NoNewlineJoined(tail, record);
    AddedLines(lines, tail + record);
    CompleteLinesAre(lines + [tail + record], []);
    JoinedBytes(lines, tail, record);
  }

  lemma NoNewlineJoined(a: seq<Byte>, b: seq<Byte>)
    requires NEWLINE !in a && NEWLINE !in b
    ensures NEWLINE !in a + b
  {
  }

  lemma JoinedBytes(lines: seq<Line>, tail: seq<Byte>, record: Line)
    ensures Encode(lines) + tail + (record + [NEWLINE]) == Encode(lines + [tail + record]) + []
  {
    EncodeOneMore(lines, tail + record);
    FourParts(Encode(lines), tail, record, [NEWLINE]);
  }

  lemma FourParts(a: seq<Byte>, b: seq<Byte>, c: seq<Byte>, d: seq<Byte>)
    ensures a + b + (c + d) == a + (b + c + d)
  {
  }

  lemma NothingBefore(tail: seq<Byte>, record: Line)
    ensures tail + record == record <==> tail == []
  {
    assert |tail + record| == |tail| + |record|;
  }

  /** The last line after `bytes` and a record's line is the record exactly if `bytes` ended with a line. */
  lemma LastLineIsRecord(bytes: seq<Byte>, record: Line)
    requires NEWLINE !in record
    ensures var lines := CompleteLines(bytes + (record + [NEWLINE]));
      lines != [] && (lines[|lines| - 1] == record <==> CompleteEnd(bytes) == |bytes|)
  {
    var lines, tail := Decomposition(bytes);
    TailJoinsRecord(lines, tail, record);
    NothingBefore(tail, record);
  }

  /**
   Exactly when an acknowledged append on a ready log has its record on a line of
   its own: if the file that it is written to ended with a line, and always if
   that file is new. A caller can see this on the active file.
   */
  lemma OwnLineExactly(g: Grammar, config: Config, w: World, e: Event)
    requires ValidConfig(config) && e.AppendCall? && ValidTransaction(e.transaction) && NEWLINE !in e.record
    requires w.instance.Ready? && !HasRotationFiles(w.files) && Answer(w, g, config, e).status.Running?
    ensures var lines := SlotLines(Step(w, g, config, e).files, 0);
      var before := WrittenAfter(w.files, config, e.record, e.now);
      lines != [] && (lines[|lines| - 1] == e.record <==> CompleteEnd(before) == |before|)
  {
    var d := Disk(w.files, e.fuel, e.tear, Running);
    AcknowledgedBytes(d, config, e.record, e.transaction, e.now);
    LastLineIsRecord(WrittenAfter(w.files, config, e.record, e.now), e.record);
  }
}
