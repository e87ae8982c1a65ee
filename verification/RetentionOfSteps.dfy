/** Each stage of a step, and each step of a run, carries the slots on. */
module RetentionOfSteps {
  import opened Common
  import opened Storage
  import opened RotationSpec
  import opened TailRecovery
  import opened CrashConvergence
  import opened AuditLogSpec
  import opened AuditHistory
  import opened RetainedHistory
  import opened Retention

  lemma LinesOfLog(content: Option<Content>, lines: seq<Line>, torn: seq<Byte>)
    requires BytesOf(content) == Encode(lines) + torn && NEWLINE !in torn
    requires forall i :: 0 <= i < |lines| ==> NEWLINE !in lines[i]
    ensures LinesOf(content) == lines && TornPart(content) == torn
  {
    CompleteLinesAre(lines, torn);
    if lines != [] {
      EncodeEnds(lines);
    }
    CompleteEndIs(Encode(lines), torn);
  }

  // ----- rotations -----

  /** What the slots hold at each point of a rotation. */
  lemma PointView(o: Files, m: RotationManifest, p: Point, files: Files, slot: nat)
    requires Startable(o, m) && At(o, m, p, files) && slot <= m.maxRotated
    ensures ThroughManifest(files, slot) ==
      if p.Dropped? && slot == m.maxRotated then None
      else if p == Point.Complete then if slot == 0 then None else Get(o, Home(slot - 1))
      else Get(o, Home(slot))
    ensures Installs(files) <==> p.Installing? || p.Dropped?
  {
    assert Get(files, Manifest) == Held(o, m, p, Manifest);
    assert Get(files, Home(slot)) == Held(o, m, p, Home(slot));
    assert Get(files, Staged(m.transaction, slot)) == Held(o, m, p, Staged(m.transaction, slot));
    assert Get(files, Backup(slot + 1)) == Held(o, m, p, Backup(slot + 1));
    assert Staged(m.transaction, slot).IsRotationName();
  }

  /** What one slot holds at two points of a rotation. */
  lemma PointSlotCarried(config: Config, o: Files, m: RotationManifest, p: Point, before: Files, q: Point, after: Files,
                         slot: nat)
    requires Startable(o, m) && slot <= m.maxRotated == config.maxRotated && q != Point.Complete && p != Point.Complete
    requires At(o, m, p, before) && At(o, m, q, after) && p.Order(m.maxRotated) <= q.Order(m.maxRotated)
    ensures var x, y := ThroughManifest(before, slot), ThroughManifest(after, slot);
      y == x || (q.Dropped? && slot == config.maxRotated && y.None?)
  {
    PointView(o, m, p, before, slot);
    PointView(o, m, q, after, slot);
  }

  lemma PointsCarriedInPlace(config: Config, o: Files, m: RotationManifest, p: Point, before: Files, q: Point, after: Files,
                             record: Line, now: int)
    requires Startable(o, m) && m.maxRotated == config.maxRotated
    requires At(o, m, p, before) && At(o, m, q, after) && p.Order(m.maxRotated) <= q.Order(m.maxRotated)
    requires p != Point.Complete && q != Point.Complete && LinesOf(Get(o, Active)) != []
    ensures (0, []) in Ways(config, before, after, record, now)
  {
    var a, b := ViewOf(before, config.maxRotated), ViewOf(after, config.maxRotated);
    PointView(o, m, p, before, 0);
    PointView(o, m, q, after, 0);
    NoContentNoLines();
    forall slot | 0 <= slot < |b|
      ensures || b[slot] == a[slot]
              || (Installs(after) && slot == |b| - 1 && b[slot].content.None? && b[slot].lines == [])
    {
      PointSlotCarried(config, o, m, p, before, q, after, slot);
    }
    PlacesCarry(config, a, b, Installs(after), record, now);
    IsWay(config, before, after, a, b, 0, Installs(after), [], record, now);
  }

  lemma CompletionMoves(o: Files, m: RotationManifest, p: Point, before: Files, after: Files, slot: nat)
    requires Startable(o, m) && slot <= m.maxRotated && p != Point.Complete
    requires At(o, m, p, before) && At(o, m, Point.Complete, after)
    ensures ThroughManifest(after, slot) == if slot == 0 then None else ThroughManifest(before, slot - 1)
  {
    PointView(o, m, Point.Complete, after, slot);
    if slot >= 1 {
      PointView(o, m, p, before, slot - 1);
    }
  }

  lemma CompletedFiles(o: Files, m: RotationManifest, files: Files)
    requires Startable(o, m) && At(o, m, Point.Complete, files)
    ensures Manifest !in files && Active !in files && !Installs(files)
  {
    assert Get(files, Manifest) == Held(o, m, Point.Complete, Manifest) == None;
    assert Get(files, Active) == Held(o, m, Point.Complete, Active) == None;
  }

  lemma CompletedView(config: Config, o: Files, m: RotationManifest, p: Point, before: Files, after: Files)
    requires Startable(o, m) && m.maxRotated == config.maxRotated && p != Point.Complete
    requires At(o, m, p, before) && At(o, m, Point.Complete, after)
    ensures var a, b := ViewOf(before, config.maxRotated), ViewOf(after, config.maxRotated);
      && a[0] == SlotOf(Get(o, Active)) && b[0] == SlotOf(None)
      && forall slot :: 1 <= slot < |b| ==> b[slot] == a[slot - 1]
  {
    var a, b := ViewOf(before, config.maxRotated), ViewOf(after, config.maxRotated);
    PointView(o, m, p, before, 0);
    CompletionMoves(o, m, p, before, after, 0);
    forall slot | 1 <= slot < |b| ensures b[slot] == a[slot - 1] {
      CompletionMoves(o, m, p, before, after, slot);
    }
  }

  lemma CompletionCarried(config: Config, o: Files, m: RotationManifest, p: Point, before: Files, after: Files,
                          record: Line, now: int)
    requires Startable(o, m) && m.maxRotated == config.maxRotated
    requires At(o, m, p, before) && At(o, m, Point.Complete, after)
    requires p != Point.Complete && LinesOf(Get(o, Active)) != []
    ensures (1, []) in Ways(config, before, after, record, now)
    ensures Manifest !in after && Active !in after
  {
    var a, b := ViewOf(before, config.maxRotated), ViewOf(after, config.maxRotated);
    CompletedFiles(o, m, after);
    CompletedView(config, o, m, p, before, after);
    NoContentNoLines();
    MoveCarries(config, a, b, record, now);
    IsWay(config, before, after, a, b, 1, false, [], record, now);
  }

  // ----- stages without a pending rotation -----

  lemma WrittenSlot(before: Files, after: Files, content: Content, slot: nat)
    requires Manifest !in before && after == before[Active := content]
    ensures ThroughManifest(after, slot) == if slot == 0 then Some(content) else ThroughManifest(before, slot)
    ensures ThroughManifest(before, 0) == Get(before, Active)
  {
  }

  lemma WrittenView(before: Files, after: Files, content: Content, max: nat)
    requires Manifest !in before && after == before[Active := content]
    ensures var a, b := ViewOf(before, max), ViewOf(after, max);
      && a[0] == SlotOf(Get(before, Active)) && b[0] == SlotOf(Some(content))
      && forall slot :: 1 <= slot < |b| ==> b[slot] == a[slot]
  {
    var a, b := ViewOf(before, max), ViewOf(after, max);
    WrittenSlot(before, after, content, 0);
    forall slot | 1 <= slot < |b| ensures b[slot] == a[slot] {
      WrittenSlot(before, after, content, slot);
    }
  }

  /** Only the active file is written. */
  lemma ActiveCarried(config: Config, before: Files, after: Files, bytes: seq<Byte>, added: seq<Line>, record: Line, now: int)
    requires config.maxRotated >= 1 && Manifest !in before && after == before[Active := Log(bytes, now)]
    requires GoesOn(SlotOf(Get(before, Active)), SlotOf(Some(Log(bytes, now))), added, record, now)
    ensures (0, added) in Ways(config, before, after, record, now)
  {
    var a, b := ViewOf(before, config.maxRotated), ViewOf(after, config.maxRotated);
    WrittenView(before, after, Log(bytes, now), config.maxRotated);
    FirstCarries(config, a, b, added, record, now);
    IsWay(config, before, after, a, b, 0, false, added, record, now);
  }

  lemma NothingPending(sh: Shadow, g: Grammar, config: Config, files: Files, history: seq<Line>, t: int)
    requires Explains(sh, g, config, files, history, t) && sh.rotation.None?
    ensures Manifest !in files
  {
    BaseHasNoRotationFiles(sh, g, config);
    assert Manifest.IsRotationName();
  }

  /** What the active file holds if no rotation is pending. */
  lemma ActiveLines(sh: Shadow, g: Grammar, config: Config, files: Files, history: seq<Line>, t: int)
    requires Explains(sh, g, config, files, history, t)
    ensures LinesOf(Get(sh.base, Active)) == sh.lines[0] && TornPart(Get(sh.base, Active)) == sh.torn
  {
    BaseHasNoRotationFiles(sh, g, config);
    assert SlotHolds(g, config, sh.full, 0, sh.lines[0], sh.torn);
    LinesOfLog(Get(sh.base, Active), sh.lines[0], sh.torn);
  }

  lemma RecoverTailCarried(sh: Shadow, g: Grammar, config: Config, d: Disk, history: seq<Line>, slot: nat,
                           record: Line, now: int)
    requires d.status.Running? && Explains(sh, g, config, d.files, history, now) && sh.rotation.None?
    requires slot <= config.maxRotated && config.maxRotated >= 1
    ensures var r := RecoverTail(d, g, Home(slot), now);
      && (0, []) in Ways(config, d.files, r.files, record, now)
      && Manifest !in r.files
  {
    var r := RecoverTail(d, g, Home(slot), now);
    NothingPending(sh, g, config, d.files, history, now);
    FilesUnchanged(config, d.files, record, now);
    BaseHasNoRotationFiles(sh, g, config);
    assert SlotHolds(g, config, sh.full, slot, sh.lines[slot], if slot == 0 then sh.torn else []);
    if Home(slot) in d.files {
      assert Get(sh.base, Home(slot)) == Get(sh.full, Home(slot));
      RecoverTailEffect(d, g, Home(slot), sh.lines[slot], if slot == 0 then sh.torn else [], now);
      if r.files != d.files {
        TruncationGoesOn(sh.lines[0], sh.torn, d.files[Active], record, now);
        ActiveCarried(config, d.files, r.files, Encode(sh.lines[0]), [], record, now);
      }
    }
  }

  lemma TruncationGoesOn(lines: seq<Line>, torn: seq<Byte>, content: Content, record: Line, now: int)
    requires content.Log? && content.bytes == Encode(lines) + torn && NEWLINE !in torn
    requires forall i :: 0 <= i < |lines| ==> NEWLINE !in lines[i]
    ensures GoesOn(SlotOf(Some(content)), SlotOf(Some(Log(Encode(lines), now))), [], record, now)
  {
    LinesOfLog(Some(content), lines, torn);
    assert Encode(lines) + [] == Encode(lines);
    LinesOfLog(Some(Log(Encode(lines), now)), lines, []);
    NothingGained(lines);
  }

  /** Of all tails only that of the active file can be torn. */
  lemma RecoverTailsCarried(sh: Shadow, g: Grammar, config: Config, d: Disk, history: seq<Line>, record: Line, now: int)
    requires config.maxRotated >= 1 && Explains(sh, g, config, d.files, history, now)
    requires d.status.Running? && sh.rotation.None?
    ensures var r := RecoverTailsFrom(d, g, config.maxRotated, 0, now);
      && (0, []) in Ways(config, d.files, r.files, record, now)
      && Manifest !in r.files
  {
    var next := RecoverTail(d, g, Active, now);
    RecoverTailCarried(sh, g, config, d, history, 0, record, now);
    if next.status.Running? {
      var sh' := RecoverTailExplained(sh, g, config, d, history, 0, now);
      BackupTailsComplete(sh', g, config, next, history, 1, now);
    } else {
      RecoverTailsStopped(next, g, config.maxRotated, 1, now);
    }
  }

  lemma PrunedSlot(config: Config, before: Option<Content>, after: Option<Content>, slot: nat, record: Line, now: int)
    requires || after == before
             || (slot > 0 && after.None? && before.Some? && Expired(before.value, config, now))
    ensures ContentCarried(config, SlotOf(before), SlotOf(after), slot, [], record, now)
  {
    NoContentNoLines();
    NothingGained(LinesOf(before));
  }

  /** Pruning takes away expired backups only. */
  lemma PruneCarried(config: Config, d: Disk, record: Line, now: int)
    requires config.maxRotated >= 1 && Manifest !in d.files
    ensures var r := Prune(d, config, now);
      && (0, []) in Ways(config, d.files, r.files, record, now)
      && Manifest !in r.files
  {
    var r := Prune(d, config, now);
    var a, b := ViewOf(d.files, config.maxRotated), ViewOf(r.files, config.maxRotated);
    if config.maxAge.Some? {
      PruneEffect(d, config, 1, now);
      assert Get(r.files, Manifest) == Get(d.files, Manifest);
    }
    forall slot: nat | slot < |b| ensures SlotCarried(config, a, b, 0, false, [], slot, record, now) {
      PrunedSlot(config, Get(d.files, Home(slot)), Get(r.files, Home(slot)), slot, record, now);
    }
    IsWay(config, d.files, r.files, a, b, 0, false, [], record, now);
  }

  // ----- stages that may rotate -----

  lemma FinishRotationCarried(sh: Shadow, g: Grammar, config: Config, d: Disk, history: seq<Line>, record: Line, now: int)
    returns (shift: nat)
    requires d.status.Running? && Explains(sh, g, config, d.files, history, now) && config.maxRotated >= 1
    ensures var r := FinishRotation(d);
      && (shift, []) in Ways(config, d.files, r.files, record, now)
      && (r.status.Running? ==> Manifest !in r.files && (shift == 1 ==> Active !in r.files))
  {
    var r := FinishRotation(d);
    BaseHasNoRotationFiles(sh, g, config);
    ActiveLines(sh, g, config, d.files, history, now);
    match sh.rotation
    case None =>
      NothingPending(sh, g, config, d.files, history, now);
      FilesUnchanged(config, d.files, record, now);
      shift := 0;
    case Some((m, p)) =>
      var q := FinishRotationAt(sh.base, m, p, d);
      if q == Point.Complete {
        CompletionCarried(config, sh.base, m, p, d.files, r.files, record, now);
        shift := 1;
      } else {
        PointsCarriedInPlace(config, sh.base, m, p, d.files, q, r.files, record, now);
        shift := 0;
      }
  }

  lemma TailsStage(sh: Shadow, g: Grammar, config: Config, d: Disk, history: seq<Line>, record: Line, now: int)
    requires d.status.Running? && Explains(sh, g, config, d.files, history, now) && ValidConfig(config)
    requires FinishRotation(d).status.Running?
    ensures var finished, r := FinishRotation(d), RecoverLog(d, g, config, now);
      && (0, []) in Ways(config, finished.files, r.files, record, now)
      && Manifest !in finished.files && Manifest !in r.files
      && (Active !in finished.files ==> r == finished)
  {
    var finished := FinishRotation(d);
    var sh' := FinishRotationExplained(sh, g, config, d, history, now);
    NothingPending(sh', g, config, finished.files, history, now);
    RecoverTailsCarried(sh', g, config, finished, history, record, now);
    if Active !in finished.files {
      BackupTailsComplete(sh', g, config, finished, history, 1, now);
    }
  }

  lemma RecoverLogCarried(sh: Shadow, g: Grammar, config: Config, d: Disk, history: seq<Line>, record: Line, now: int)
    returns (shift: nat)
    requires d.status.Running? && Explains(sh, g, config, d.files, history, now) && ValidConfig(config)
    ensures var r := RecoverLog(d, g, config, now);
      && (shift, []) in Ways(config, d.files, r.files, record, now)
      && (r.status.Running? ==> Manifest !in r.files && (shift == 1 ==> Active !in r.files))
  {
    var finished := FinishRotation(d);
    shift := FinishRotationCarried(sh, g, config, d, history, record, now);
    if finished.status.Running? {
      TailsStage(sh, g, config, d, history, record, now);
      FilesCarriedTwice(config, d.files, finished.files, RecoverLog(d, g, config, now).files, shift, 0, shift, [], record, now);
    } else {
      RecoverTailsStopped(finished, g, config.maxRotated, 0, now);
    }
  }

  lemma RotateCarried(sh: Shadow, g: Grammar, config: Config, d: Disk, history: seq<Line>,
                      size: nat, transaction: string, record: Line, now: int)
    returns (shift: nat)
    requires d.status.Running? && Explains(sh, g, config, d.files, history, now) && AtRest(sh)
    requires ValidConfig(config) && ValidTransaction(transaction)
    ensures var r := RotateBeforeAppend(d, config, size, transaction, now);
      && (shift, []) in Ways(config, d.files, r.files, record, now)
      && (r.status.Running? ==> Manifest !in r.files)
      && (Active !in d.files ==> r == d && shift == 0)
  {
    var max := config.maxRotated;
    NothingPending(sh, g, config, d.files, history, now);
    FilesUnchanged(config, d.files, record, now);
    shift := 0;
    if Active in d.files && MustRotate(d.files[Active], config, size, now) {
      BaseHasNoRotationFiles(sh, g, config);
      ActiveLines(sh, g, config, d.files, history, now);
      assert SlotHolds(g, config, sh.full, 0, sh.lines[0], []);
      var m := NewManifest(d.files, transaction, max);
      NewManifestStartable(d.files, transaction, max);
      var q := RotateCurrentAt(d, transaction, max);
      var rotated := RotateCurrent(d, transaction, max);
      UntouchedAt(d.files, m);
      if q == Point.Complete {
        CompletionCarried(config, d.files, m, Untouched, d.files, rotated.files, record, now);
        shift := 1;
      } else {
        PointsCarriedInPlace(config, d.files, m, Untouched, d.files, q, rotated.files, record, now);
      }
      if rotated.status.Running? {
        PruneCarried(config, rotated, record, now);
        FilesCarriedTwice(config, d.files, rotated.files, Prune(rotated, config, now).files, shift, 0, shift, [], record, now);
      } else if config.maxAge.Some? {
        PruneStopped(rotated, config, 1, now);
      }
    }
  }

  lemma UntouchedAt(o: Files, m: RotationManifest)
    requires Startable(o, m)
    ensures At(o, m, Untouched, o)
  {
    forall name: Name ensures name.IsRotationName() ==> name !in o {
    }
  }

  // ----- writing the record -----

  /** A file that was complete lines holds `lines` and `torn` from now on. */
  lemma WritingGoesOn(content: Content, earlier: seq<Line>, lines: seq<Line>, torn: seq<Byte>, gain: seq<Line>,
                      record: Line, now: int)
    requires content.Log? && content.bytes == Encode(earlier) && lines == earlier + gain
    requires (forall i :: 0 <= i < |lines| ==> NEWLINE !in lines[i]) && NEWLINE !in torn && torn <= record
    ensures GoesOn(SlotOf(Some(content)), SlotOf(Some(Log(Encode(lines) + torn, now))), gain, record, now)
  {
    forall i | 0 <= i < |earlier| ensures NEWLINE !in earlier[i] {
      assert earlier[i] == lines[i];
    }
    assert Encode(earlier) + [] == Encode(earlier);
    LinesOfLog(Some(content), earlier, []);
    LinesOfLog(Some(Log(Encode(lines) + torn, now)), lines, torn);
  }

  /** The bytes after a write that stopped after `written` bytes of the record's line. */
  lemma WrittenBytes(lines: seq<Line>, record: Line, written: nat)
    requires written <= |record| + 1
    ensures Encode(lines) + (record + [NEWLINE])[..written] ==
      if written == |record| + 1 then Encode(lines + [record]) + [] else Encode(lines) + record[..written]
  {
    if written == |record| + 1 {
      EncodeOneMore(lines, record);
      assert (record + [NEWLINE])[..written] == record + [NEWLINE];
    } else {
      assert (record + [NEWLINE])[..written] == record[..written];
    }
  }

  lemma AddedLines(lines: seq<Line>, record: Line)
    requires NEWLINE !in record && forall i :: 0 <= i < |lines| ==> NEWLINE !in lines[i]
    ensures forall i :: 0 <= i < |lines + [record]| ==> NEWLINE !in (lines + [record])[i]
  {
  }

  /** A whole line, or a part of it, after what the active file held. */
  lemma LineGoesOn(content: Content, lines: seq<Line>, record: Line, written: nat, now: int)
    requires content.Log? && content.bytes == Encode(lines) && written <= |record| + 1
    requires NEWLINE !in record && forall i :: 0 <= i < |lines| ==> NEWLINE !in lines[i]
    ensures GoesOn(SlotOf(Some(content)), SlotOf(Some(Log(content.bytes + (record + [NEWLINE])[..written], now))),
                   if written == |record| + 1 then [record] else [], record, now)
  {
    WrittenBytes(lines, record, written);
    if written == |record| + 1 {
      AddedLines(lines, record);
      WritingGoesOn(content, lines, lines + [record], [], [record], record, now);
    } else {
      NothingGained(lines);
      WritingGoesOn(content, lines, lines, record[..written], [], record, now);
    }
  }

  /** Appending the line to an active file without a torn tail. */
  lemma LineCarried(config: Config, d: Disk, lines: seq<Line>, record: Line, now: int)
    requires config.maxRotated >= 1 && d.status.Running? && Manifest !in d.files
    requires Active in d.files && d.files[Active].Log? && d.files[Active].bytes == Encode(lines)
    requires NEWLINE !in record && forall i :: 0 <= i < |lines| ==> NEWLINE !in lines[i]
    ensures var r := Append(d, Active, record + [NEWLINE], now);
      && (0, if Reached(d, record) then [record] else []) in Ways(config, d.files, r.files, record, now)
      && Manifest !in r.files
  {
    var r := Append(d, Active, record + [NEWLINE], now);
    var written := if d.fuel > 0 || d.tear > |record| + 1 then |record| + 1 else d.tear;
    if written == 0 {
      assert d.files[Active].bytes + (record + [NEWLINE])[..0] == d.files[Active].bytes;
      assert r.files == d.files;
      FilesUnchanged(config, d.files, record, now);
    } else {
      LineGoesOn(d.files[Active], lines, record, written, now);
      ActiveCarried(config, d.files, r.files, d.files[Active].bytes + (record + [NEWLINE])[..written],
                    if Reached(d, record) then [record] else [], record, now);
    }
  }

  lemma EmptyFile(content: Option<Content>)
    requires BytesOf(content) == []
    ensures LinesOf(content) == [] && TornPart(content) == []
  {
    var nothing: seq<Line> := [];
    assert BytesOf(content) == Encode(nothing) + BytesOf(content);
    LinesOfLog(content, nothing, BytesOf(content));
  }

  lemma NoLinesGoOn(before: Option<Content>, after: Content, record: Line, now: int)
    requires after.Log? && after.modified == now
    requires LinesOf(before) == [] && LinesOf(Some(after)) == [] && TornPart(Some(after)) == []
    ensures GoesOn(SlotOf(before), SlotOf(Some(after)), [], record, now)
  {
  }

  /** A new file without any bytes goes on where there was none. */
  lemma CreationGoesOn(before: Option<Content>, after: Content, record: Line, now: int)
    requires before.None? && after.Log? && after.bytes == [] && after.modified == now
    ensures GoesOn(SlotOf(before), SlotOf(Some(after)), [], record, now)
  {
    NoContentNoLines();
    EmptyFile(Some(after));
    NoLinesGoOn(before, after, record, now);
  }

  /** The active file is created empty if it is absent. */
  lemma CreationCarried(config: Config, d: Disk, record: Line, now: int)
    requires config.maxRotated >= 1 && d.status.Running? && Manifest !in d.files && Active !in d.files
    ensures var r := Put(d, Active, Log([], now));
      (0, []) in Ways(config, d.files, r.files, record, now) && Manifest !in r.files
  {
    var r := Put(d, Active, Log([], now));
    if d.fuel > 0 {
      CreationGoesOn(Get(d.files, Active), Log([], now), record, now);
      ActiveCarried(config, d.files, r.files, [], [], record, now);
    } else {
      FilesUnchanged(config, d.files, record, now);
    }
  }

  function AddedBy(prepared: Disk, record: Line): seq<Line> {
    if Reached(prepared, record) then [record] else []
  }

  lemma WriteToNewCarried(config: Config, d: Disk, record: Line, now: int)
    requires ValidConfig(config) && d.status.Running? && Manifest !in d.files && Active !in d.files && NEWLINE !in record
    ensures var prepared := Prepared(d, now);
      && (0, AddedBy(prepared, record)) in Ways(config, d.files, Written(prepared, record, now), record, now)
      && Manifest !in Written(prepared, record, now)
  {
    var prepared := Prepared(d, now);
    var added, files := AddedBy(prepared, record), Written(prepared, record, now);
    CreationCarried(config, d, record, now);
    if prepared.status.Running? {
      LineCarried(config, prepared, [], record, now);
      FilesCarriedTwice(config, d.files, prepared.files, files, 0, 0, 0, added, record, now);
      assert (0, added) in Ways(config, d.files, files, record, now);
    } else {
      assert added == [] && files == prepared.files;
      assert (0, added) in Ways(config, d.files, files, record, now);
    }
  }

  lemma WriteCarried(config: Config, d: Disk, lines: seq<Line>, record: Line, now: int)
    requires ValidConfig(config) && d.status.Running? && Manifest !in d.files
    requires if Active in d.files then d.files[Active].Log? && d.files[Active].bytes == Encode(lines) else lines == []
    requires NEWLINE !in record && forall i :: 0 <= i < |lines| ==> NEWLINE !in lines[i]
    ensures var prepared := Prepared(d, now);
      && (0, AddedBy(prepared, record)) in Ways(config, d.files, Written(prepared, record, now), record, now)
      && Manifest !in Written(prepared, record, now)
  {
    if Active in d.files {
      LineCarried(config, d, lines, record, now);
    } else {
      WriteToNewCarried(config, d, record, now);
    }
  }

  // ----- a whole call -----

  /** The records of the active file if the log is at rest. */
  lemma ActiveAtRest(sh: Shadow, g: Grammar, config: Config, files: Files, history: seq<Line>, t: int)
    requires Explains(sh, g, config, files, history, t) && AtRest(sh)
    ensures Active in files ==> files[Active].Log? && files[Active].bytes == Encode(sh.lines[0])
    ensures Active !in files ==> sh.lines[0] == []
    ensures AllRecords(g, sh.lines[0])
  {
    if Active in files {
      ActiveOfLogAtRest(sh, g, config, files, history, t);
    } else {
      BaseHasNoRotationFiles(sh, g, config);
      assert SlotHolds(g, config, sh.full, 0, sh.lines[0], []);
    }
  }

  lemma PrunedAndRotatedCarried(sh: Shadow, g: Grammar, config: Config, d: Disk, history: seq<Line>,
                                record: Line, transaction: string, now: int)
    returns (shift: nat, sh': Shadow)
    requires d.status.Running? && Explains(sh, g, config, d.files, history, now) && AtRest(sh)
    requires ValidConfig(config) && ValidTransaction(transaction)
    ensures var r := RotateBeforeAppend(Prune(d, config, now), config, |record| + 1, transaction, now);
      && (shift, []) in Ways(config, d.files, r.files, record, now)
      && (r.status.Running? ==> Manifest !in r.files && Explains(sh', g, config, r.files, history, now) && AtRest(sh'))
    ensures Active !in d.files ==> shift == 0
  {
    NothingPending(sh, g, config, d.files, history, now);
    var pruned := Prune(d, config, now);
    PruneCarried(config, d, record, now);
    sh' := PruneExplained(sh, g, config, d, history, now);
    shift := 0;
    if pruned.status.Running? {
      shift := RotateCarried(sh', g, config, pruned, history, |record| + 1, transaction, record, now);
      var rotated := RotateBeforeAppend(pruned, config, |record| + 1, transaction, now);
      FilesCarriedTwice(config, d.files, pruned.files, rotated.files, 0, shift, shift, [], record, now);
      sh' := RotateExplained(sh', g, config, pruned, history, |record| + 1, transaction, now);
    }
  }

  lemma WriteAfterRotation(config: Config, d: Disk, lines: seq<Line>, record: Line, transaction: string, now: int, shift: nat)
    requires ValidConfig(config) && d.status.Running? && NEWLINE !in record
    requires forall i :: 0 <= i < |lines| ==> NEWLINE !in lines[i]
    requires var rotated := RotateBeforeAppend(Prune(d, config, now), config, |record| + 1, transaction, now);
      && rotated.status.Running? && Manifest !in rotated.files
      && (if Active in rotated.files then rotated.files[Active].Log? && rotated.files[Active].bytes == Encode(lines)
          else lines == [])
      && (shift, []) in Ways(config, d.files, rotated.files, record, now)
    ensures (shift, AddedBy(OpenForAppend(d, config, record, transaction, now), record))
      in Ways(config, d.files, AppendRecord(d, config, record, transaction, now).files, record, now)
  {
    var rotated := RotateBeforeAppend(Prune(d, config, now), config, |record| + 1, transaction, now);
    AppendStages(d, config, record, transaction, now);
    WriteCarried(config, rotated, lines, record, now);
    FilesCarriedTwice(config, d.files, rotated.files, Written(Prepared(rotated, now), record, now), shift, 0, shift,
                      AddedBy(Prepared(rotated, now), record), record, now);
  }

  lemma AppendCarried(sh: Shadow, g: Grammar, config: Config, d: Disk, history: seq<Line>,
                      record: Line, transaction: string, now: int)
    returns (shift: nat)
    requires d.status.Running? && Explains(sh, g, config, d.files, history, now) && AtRest(sh)
    requires ValidConfig(config) && ValidTransaction(transaction) && IsRecord(g, record)
    ensures var r := AppendRecord(d, config, record, transaction, now);
      var added := AddedBy(OpenForAppend(d, config, record, transaction, now), record);
      (shift, added) in Ways(config, d.files, r.files, record, now)
    ensures Active !in d.files ==> shift == 0
  {
    var sh';
    shift, sh' := PrunedAndRotatedCarried(sh, g, config, d, history, record, transaction, now);
    var rotated := RotateBeforeAppend(Prune(d, config, now), config, |record| + 1, transaction, now);
    if rotated.status.Running? {
      ActiveAtRest(sh', g, config, rotated.files, history, now);
      WriteAfterRotation(config, d, sh'.lines[0], record, transaction, now, shift);
    } else {
      AppendStages(d, config, record, transaction, now);
    }
  }
}
