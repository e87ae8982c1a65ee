/** When the log opens again after a run, and the runs after which it never does. */
module Reopening {
  import opened Storage
  import opened RotationSpec
  import opened TailRecovery
  import opened CrashConvergence
  import opened AuditLogSpec
  import opened AuditHistory
  import opened RetainedHistory

  /** The bytes end with a line, or with a line and a torn part of another one. */
  predicate EndsWell(g: Grammar, bytes: seq<Byte>) {
    var tail := bytes[CompleteEnd(bytes)..];
    NEWLINE in bytes && (tail == [] || Torn(g, tail))
  }

  /** What a caller can check on the directory before it opens the log. */
  ghost predicate CanOpen(g: Grammar, files: Files) {
    && (forall name: Name :: name in files ==> !name.ManifestTemp?)
    && (Active in files ==> files[Active].Log? && EndsWell(g, files[Active].bytes))
  }

  /** After a run, when every complete line is a record, only the end of the file decides. */
  lemma EndDecides(g: Grammar, lines: seq<seq<Byte>>, torn: seq<Byte>)
    requires AllRecords(g, lines) && NEWLINE !in torn
    ensures EndsWell(g, Encode(lines) + torn) <==> !RustTail(g, Encode(lines) + torn).Refused?
  {
    var bytes := Encode(lines) + torn;
    CompletePart(lines, torn);
    RustTailOnLog(g, lines, torn);
    if lines == [] {
      assert bytes == torn;
      RustTailWithoutNewline(g, torn);
    } else {
      EncodeEnds(lines);
      assert bytes[|Encode(lines)| - 1] == NEWLINE;
    }
  }

  /** What recovering the tail of the active file comes to, if it has enough primitives. */
  lemma ActiveTailExactly(sh: Shadow, g: Grammar, config: Config, d: Disk, history: seq<Line>, now: int)
    requires d.status.Running? && Explains(sh, g, config, d.files, history, now) && sh.rotation.None? && d.fuel >= 3
    ensures RecoverTail(d, g, Active, now).status.Running? <==>
      (Active in d.files ==> EndsWell(g, d.files[Active].bytes))
    ensures Active in d.files ==> d.files[Active].Log?
  {
    BaseHasNoRotationFiles(sh, g, config);
    assert SlotHolds(g, config, sh.full, 0, sh.lines[0], sh.torn);
    EndDecides(g, sh.lines[0], sh.torn);
  }

  /** Without a pending rotation, opening succeeds exactly if the active file ends well. */
  lemma TailsOpenExactly(sh: Shadow, g: Grammar, config: Config, d: Disk, history: seq<Line>, now: int)
    requires d.status.Running? && Explains(sh, g, config, d.files, history, now) && sh.rotation.None? && d.fuel >= 3
    ensures RecoverTailsFrom(d, g, config.maxRotated, 0, now).status.Running? <==>
      (Active in d.files ==> EndsWell(g, d.files[Active].bytes))
    ensures Active in d.files ==> d.files[Active].Log?
  {
    ActiveTailExactly(sh, g, config, d, history, now);
    var next := RecoverTail(d, g, Active, now);
    if next.status.Running? {
      var sh' := RecoverTailExplained(sh, g, config, d, history, 0, now);
      BackupTailsComplete(sh', g, config, next, history, 1, now);
    } else {
      RecoverTailsStopped(next, g, config.maxRotated, 1, now);
    }
  }

  lemma TemporaryAt(sh: Shadow, g: Grammar, config: Config, files: Files, history: seq<Line>, t: int)
    requires Explains(sh, g, config, files, history, t)
    ensures (exists name: Name :: name in files && name.ManifestTemp?) <==>
      sh.rotation.Some? && sh.rotation.value.1.WritesManifest()
  {
    BaseHasNoRotationFiles(sh, g, config);
    match sh.rotation
    case None =>
      assert forall name: Name :: name.ManifestTemp? ==> name.IsRotationName();
    case Some((m, p)) =>
      forall name: Name | name.ManifestTemp? && name != ManifestTemp(m.transaction) ensures name !in files {
        assert Get(files, name) == Held(sh.base, m, p, name);
      }
      assert ManifestTemp(m.transaction).ManifestTemp?;
  }

  /**
   After any run, exactly when the log opens again, given enough primitives: if
   and only if no temporary manifest was left behind, and the active file, if
   there is one, has a newline and after the last one nothing or a torn part.
   */
  lemma OpensAgainExactly(g: Grammar, config: Config, events: seq<Event>, now: int, fuel: nat)
    requires ValidConfig(config) && ValidRun(g, config, events)
    requires fuel >= 4 * config.maxRotated + 21
    ensures var files := Run(EMPTY_WORLD, g, config, events).files;
      RecoverLog(Disk(files, fuel, 0, Running), g, config, now).status.Running? <==> CanOpen(g, files)
  {
    var w := Run(EMPTY_WORLD, g, config, events);
    var sh := RunExplained(g, config, events, now, false);
    OpensExactly(sh, g, config, Disk(w.files, fuel, 0, Running), w.history, now);
  }

  lemma OpensExactly(sh: Shadow, g: Grammar, config: Config, d: Disk, history: seq<Line>, now: int)
    requires d.status.Running? && d.fuel >= 4 * config.maxRotated + 21 && ValidConfig(config)
    requires Explains(sh, g, config, d.files, history, now)
    ensures RecoverLog(d, g, config, now).status.Running? <==> CanOpen(g, d.files)
  {
    BaseHasNoRotationFiles(sh, g, config);
    TemporaryAt(sh, g, config, d.files, history, now);
    if sh.rotation.None? {
      assert Manifest.IsRotationName();
      TailsOpenExactly(sh, g, config, d, history, now);
    } else {
      PendingOpensExactly(sh, g, config, d, history, now);
    }
  }

  lemma PendingOpensExactly(sh: Shadow, g: Grammar, config: Config, d: Disk, history: seq<Line>, now: int)
    requires d.status.Running? && d.fuel >= 4 * config.maxRotated + 21 && ValidConfig(config)
    requires Explains(sh, g, config, d.files, history, now) && sh.rotation.Some?
    ensures RecoverLog(d, g, config, now).status.Running? <==> !sh.rotation.value.1.WritesManifest()
    ensures Active in d.files ==> d.files[Active].Log? && EndsWell(g, d.files[Active].bytes)
  {
    var m, p := sh.rotation.value.0, sh.rotation.value.1;
    BaseHasNoRotationFiles(sh, g, config);
    assert SlotHolds(g, config, sh.full, 0, sh.lines[0], []);
    assert Get(d.files, Active) == Held(sh.base, m, p, Active);
    if Active in d.files {
      assert Encode(sh.lines[0]) + [] == Encode(sh.lines[0]);
      CompleteLogAccepted(g, sh.lines[0]);
      EndDecides(g, sh.lines[0], []);
    }
    var finished := FinishRotation(d);
    var p' := FinishRotationAt(sh.base, m, p, d);
    if finished.status.Running? {
      var sh' := PointExplained(sh, g, config, m, p', finished.files, history, now);
      assert Get(finished.files, Active) == Held(sh.base, m, p', Active);
      RecoverTailsWithoutActive(sh', g, config, finished, history, now);
    } else {
      RecoverTailsStopped(finished, g, config.maxRotated, 0, now);
    }
  }

  lemma RecoverTailsWithoutActive(sh: Shadow, g: Grammar, config: Config, d: Disk, history: seq<Line>, now: int)
    requires d.status.Running? && Explains(sh, g, config, d.files, history, now) && sh.rotation.None?
    requires Active !in d.files
    ensures RecoverTailsFrom(d, g, config.maxRotated, 0, now) == d
  {
    BackupTailsComplete(sh, g, config, d, history, 1, now);
  }

  /**
   The first record of a new active file is not protected: if its write is cut
   short, even before its first byte, the active file has no newline, and the
   log never opens again.
   */
  lemma TornFirstRecordBlocks(g: Grammar, config: Config, record: Line, tear: nat, now: int)
    requires ValidConfig(config) && IsRecord(g, record) && tear <= |record|
    ensures var w := Step(EMPTY_WORLD, g, config, AppendCall(record, "", now, 1, tear, false));
      && w.instance == Ended && w.history == []
      && !CanOpen(g, w.files)
  {
    var e := AppendCall(record, "", now, 1, tear, false);
    var d := Disk(map[], 1, tear, Running);
    EmptyDirectoryOpens(d, g, config, now);
    EmptyPrune(d, config, 1, now);
    var prepared := OpenForAppend(d, config, record, "", now);
    assert prepared == Put(d, Active, Log([], now));
    var after := Append(prepared, Active, record + [NEWLINE], now);
    assert after.files[Active].bytes == [] + (record + [NEWLINE])[..tear] == record[..tear];
    RustTailWithoutNewline(g, record[..tear]);
  }

  lemma EmptyDirectoryOpens(d: Disk, g: Grammar, config: Config, now: int)
    requires d.status.Running? && d.files == map[]
    ensures RecoverLog(d, g, config, now) == d
  {
    assert FinishRotation(d) == d;
    EmptyTails(d, g, config.maxRotated, 0, now);
  }

  lemma EmptyTails(d: Disk, g: Grammar, max: nat, slot: nat, now: int)
    requires d.files == map[]
    ensures RecoverTailsFrom(d, g, max, slot, now) == d
    decreases max + 1 - slot
  {
  }

  lemma EmptyPrune(d: Disk, config: Config, index: nat, now: int)
    requires d.files == map[]
    ensures PruneFrom(d, config, index, now) == d
    decreases config.maxRotated + 1 - index
  {
  }

  /** A crash while pruning can leave a hole: the newer of two expired backups is removed first. */
  lemma PruneLeavesHole(config: Config, newer: Content, older: Content, now: int)
    requires config.maxAge.Some? && config.maxRotated >= 2
    requires Expired(newer, config, now) && Expired(older, config, now)
    ensures var r := Prune(Disk(map[Backup(1) := newer, Backup(2) := older], 1, 0, Running), config, now);
      r.status.Interrupted? && r.files == map[Backup(2) := older]
  {
    var d := Disk(map[Backup(1) := newer, Backup(2) := older], 1, 0, Running);
    var next := Sync(Remove(d, Backup(1)));
    PruneStopped(next, config, 2, now);
  }

  /** The next uninterrupted pruning closes the hole exactly if the older backup has expired at its clock reading. */
  lemma HoleClosedExactly(config: Config, older: Content, now: int, fuel: nat)
    requires config.maxAge.Some? && config.maxRotated >= 2 && fuel >= 2
    ensures var r := Prune(Disk(map[Backup(2) := older], fuel, 0, Running), config, now);
      r.status.Running? && (r.files == map[] <==> Expired(older, config, now))
  {
    var d := Disk(map[Backup(2) := older], fuel, 0, Running);
    var next := if Expired(older, config, now) then Sync(Remove(d, Backup(2))) else d;
    assert PruneFrom(d, config, 1, now) == PruneFrom(d, config, 2, now) == PruneFrom(next, config, 3, now);
    NothingToPrune(next, config, 3, now);
    if Expired(older, config, now) {
      assert d.files - {Backup(2)} == map[];
    } else {
      assert Backup(2) in d.files;
    }
  }

  lemma NothingToPrune(d: Disk, config: Config, index: nat, now: int)
    requires forall name: Name :: name in d.files ==> name == Backup(2)
    requires index >= 3
    ensures PruneFrom(d, config, index, now) == d
    decreases config.maxRotated + 1 - index
  {
  }
}
