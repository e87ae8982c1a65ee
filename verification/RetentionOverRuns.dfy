/** What every run retains: which records, and what becomes of them in each step. */
module RetentionOverRuns {
  import opened Common
  import opened Storage
  import opened RotationSpec
  import opened TailRecovery
  import opened AuditLogSpec
  import opened AuditHistory
  import opened RetainedHistory
  import opened Retention
  import opened RetentionOfSteps

  /** The records that a step adds to the history. */
  function AddedTo(before: seq<Line>, after: seq<Line>): seq<Line>
    requires |before| <= |after|
  {
    after[|before|..]
  }

  lemma ReadyCarried(sh: Shadow, g: Grammar, config: Config, w: World, e: Event, d: Disk) returns (shift: nat)
    requires e.AppendCall? && ValidEvent(g, e) && ValidConfig(config)
    requires d == ReadyDisk(w, g, config, e) && d.status.Running?
    requires Explains(sh, g, config, d.files, w.history, e.now) && AtRest(sh)
    ensures var w' := Step(w, g, config, e);
      && |w.history| <= |w'.history| <= |w.history| + 1
      && w'.history == w.history + AddedTo(w.history, w'.history)
      && (shift, AddedTo(w.history, w'.history)) in Ways(config, d.files, w'.files, e.record, e.now)
    ensures Active !in d.files ==> shift == 0
  {
    shift := AppendCarried(sh, g, config, d, w.history, e.record, e.transaction, e.now);
    var added := AddedBy(OpenForAppend(d, config, e.record, e.transaction, e.now), e.record);
    var w' := Step(w, g, config, e);
    NothingGained(w.history);
    assert w'.history == w.history + added;
    assert AddedTo(w.history, w'.history) == added;
  }

  lemma FreshCarried(sh: Shadow, g: Grammar, config: Config, w: World, e: Event) returns (shift: nat)
    requires e.AppendCall? && ValidEvent(g, e) && ValidConfig(config) && w.instance.Fresh?
    requires Explains(sh, g, config, w.files, w.history, e.now)
    ensures var w' := Step(w, g, config, e);
      && |w.history| <= |w'.history| <= |w.history| + 1
      && w'.history == w.history + AddedTo(w.history, w'.history)
      && (shift, AddedTo(w.history, w'.history)) in Ways(config, w.files, w'.files, e.record, e.now)
  {
    var d := Disk(w.files, e.fuel, e.tear, Running);
    var ready := ReadyDisk(w, g, config, e);
    var first := RecoverLogCarried(sh, g, config, d, w.history, e.record, e.now);
    shift := first;
    var w' := Step(w, g, config, e);
    if ready.status.Running? {
      var sh' := RecoverLogExplained(sh, g, config, d, w.history, e.now);
      var second := ReadyCarried(sh', g, config, w, e, ready);
      shift := first + second;
      FilesCarriedTwice(config, w.files, ready.files, w'.files, first, second, shift,
                        AddedTo(w.history, w'.history), e.record, e.now);
    } else {
      NothingAdded(w.history);
    }
  }

  lemma NothingAdded(history: seq<Line>)
    ensures AddedTo(history, history) == [] && history + [] == history
  {
  }

  /** One call carries the slots on, whatever interrupts it. */
  lemma CallCarried(sh: Shadow, g: Grammar, config: Config, w: World, e: Event) returns (shift: nat)
    requires e.AppendCall? && ValidEvent(g, e) && ValidConfig(config) && WorldExplained(sh, g, config, w, e.now)
    requires UsedAtRest(w, e)
    ensures var w' := Step(w, g, config, e);
      && |w.history| <= |w'.history| <= |w.history| + 1
      && w'.history == w.history + AddedTo(w.history, w'.history)
      && (shift, AddedTo(w.history, w'.history)) in Ways(config, w.files, w'.files, e.record, e.now)
  {
    match w.instance
    case Fresh =>
      shift := FreshCarried(sh, g, config, w, e);
    case Ready =>
      RestfulIsAtRest(sh, g, config, w.files, w.history, e.now);
      shift := ReadyCarried(sh, g, config, w, e, ReadyDisk(w, g, config, e));
    case _ =>
      shift := 0;
      FilesUnchanged(config, w.files, e.record, e.now);
      NothingAdded(w.history);
  }

  /**
   Every step of every run, whatever interrupts it and however the log is
   configured, carries the slots on: nothing is lost except from the last slot,
   by a rotation, or with an expired backup, and only the step's own record is
   added.
   */
  lemma EveryStepCarries(g: Grammar, config: Config, events: seq<Event>, e: Event) returns (shift: nat)
    requires ValidConfig(config) && ValidRun(g, config, events + [e]) && e.AppendCall?
    ensures var w := Run(EMPTY_WORLD, g, config, events);
      var w' := Step(w, g, config, e);
      && w.history <= w'.history && AddedTo(w.history, w'.history) in [[], [e.record]]
      && (shift, AddedTo(w.history, w'.history)) in Ways(config, w.files, w'.files, e.record, e.now)
  {
    ValidRunParts(g, config, events, e);
    var sh := RunExplained(g, config, events, e.now, false);
    shift := CallCarried(sh, g, config, Run(EMPTY_WORLD, g, config, events), e);
  }

  /** In particular, a record goes on in its slot, or in the next one, unless it was in the last slot or had expired. */
  lemma RecordsStay(g: Grammar, config: Config, events: seq<Event>, e: Event) returns (shift: nat)
    requires ValidConfig(config) && ValidRun(g, config, events + [e]) && e.AppendCall?
    ensures var w := Run(EMPTY_WORLD, g, config, events);
      var w' := Step(w, g, config, e);
      && shift <= 1
      && forall slot: nat, record :: slot < config.maxRotated && record in SlotLines(w.files, slot) ==>
           || record in SlotLines(w'.files, slot + shift)
           || (ThroughManifest(w.files, slot).Some? && Expired(ThroughManifest(w.files, slot).value, config, e.now))
  {
    shift := EveryStepCarries(g, config, events, e);
    var w := Run(EMPTY_WORLD, g, config, events);
    var w' := Step(w, g, config, e);
    var a, b := ViewOf(w.files, config.maxRotated), ViewOf(w'.files, config.maxRotated);
    var added := AddedTo(w.history, w'.history);
    WayIs(config, w.files, w'.files, a, b, shift, Installs(w'.files), added, e.record, e.now);
    forall slot: nat, record | slot < config.maxRotated && record in SlotLines(w.files, slot)
      ensures || record in SlotLines(w'.files, slot + shift)
              || (ThroughManifest(w.files, slot).Some? && Expired(ThroughManifest(w.files, slot).value, config, e.now))
    {
      RecordStays(config, a, b, shift, Installs(w'.files), added, e.record, e.now, slot, record);
    }
  }

  lemma RecordStays(config: Config, a: View, b: View, shift: nat, dropping: bool, added: seq<Line>,
                    written: Line, now: int, slot: nat, record: Line)
    requires Carried(config, a, b, shift, dropping, added, written, now)
    requires slot < |a| - 1 && record in a[slot].lines && (a[slot].content.None? ==> a[slot].lines == [])
    ensures record in b[slot + shift].lines || (a[slot].content.Some? && Expired(a[slot].content.value, config, now))
  {
    assert SlotCarried(config, a, b, shift, dropping, added, slot + shift, written, now);
  }

  // ----- without an age limit -----

  lemma {:induction false} OldestFirst(view: View, slot: nat)
    requires slot < |view|
    ensures view[|view| - 1].lines <= LinesFrom(view, slot)
    decreases |view| - slot
  {
    if slot < |view| - 1 {
      OldestFirst(view, slot + 1);
    } else {
      assert LinesFrom(view, slot + 1) == [];
      assert LinesFrom(view, slot) == view[slot].lines;
    }
  }

  lemma CutBefore(a: seq<Line>, b: seq<Line>, k: nat)
    requires k <= |a|
    ensures k <= |a + b| && (a + b)[k..] == a[k..] + b
  {
  }

  lemma LastLines(view: View, slot: nat)
    requires slot == |view| - 1
    ensures LinesFrom(view, slot) == view[slot].lines && LinesFrom(view, slot + 1) == []
  {
  }

  lemma {:induction false} LinesInPlace(a: View, b: View, k: nat, slot: nat)
    requires 1 <= slot < |a| == |b| && forall s: nat :: 1 <= s < |a| - 1 ==> b[s].lines == a[s].lines
    requires k <= |a[|a| - 1].lines| && b[|a| - 1].lines == a[|a| - 1].lines[k..]
    ensures k <= |LinesFrom(a, slot)| && LinesFrom(b, slot) == LinesFrom(a, slot)[k..]
    decreases |a| - slot
  {
    if slot < |a| - 1 {
      LinesInPlace(a, b, k, slot + 1);
      CutBefore(LinesFrom(a, slot + 1), a[slot].lines, k);
    } else {
      LastLines(a, slot);
      LastLines(b, slot);
    }
  }

  /** Every slot's records stay, but the last slot's can go. */
  lemma LinesStay(config: Config, a: View, b: View, dropping: bool, added: seq<Line>, record: Line, now: int, slot: nat)
    requires Carried(config, a, b, 0, dropping, added, record, now) && config.maxAge.None? && 1 <= slot < |a|
    ensures b[slot].lines == a[slot].lines || (slot == |a| - 1 && b[slot].lines == [])
  {
    assert SlotCarried(config, a, b, 0, dropping, added, slot, record, now);
    NothingGained(a[slot].lines);
  }

  /** Every slot's records but the last slot's are the next slot's now. */
  lemma MovedLines(config: Config, a: View, b: View, dropping: bool, added: seq<Line>, record: Line, now: int, slot: nat)
    requires Carried(config, a, b, 1, dropping, added, record, now) && config.maxAge.None? && slot < |a| - 1
    ensures b[slot + 1].lines == a[slot].lines
  {
    assert SlotCarried(config, a, b, 1, dropping, added, slot + 1, record, now);
    NothingGained(a[slot].lines);
  }

  lemma {:induction false} LinesMoved(a: View, b: View, slot: nat)
    requires slot < |a| == |b| && forall s: nat :: s < |a| - 1 ==> b[s + 1].lines == a[s].lines
    ensures |a[|a| - 1].lines| <= |LinesFrom(a, slot)|
    ensures LinesFrom(b, slot + 1) == LinesFrom(a, slot)[|a[|a| - 1].lines|..]
    decreases |a| - slot
  {
    if slot < |a| - 1 {
      LinesMoved(a, b, slot + 1);
      CutBefore(LinesFrom(a, slot + 1), a[slot].lines, |a[|a| - 1].lines|);
    } else {
      LastLines(a, slot);
    }
  }

  lemma LinesCarriedInPlace(config: Config, a: View, b: View, dropping: bool, added: seq<Line>, record: Line, now: int)
    requires Carried(config, a, b, 0, dropping, added, record, now) && config.maxAge.None?
    ensures LinesWithout(a, b, added)
  {
    var last := |a| - 1;
    assert SlotCarried(config, a, b, 0, dropping, added, 0, record, now);
    forall s: nat | 1 <= s < |a| ensures b[s].lines == a[s].lines || (s == last && b[s].lines == []) {
      LinesStay(config, a, b, dropping, added, record, now, s);
    }
    var k := if b[last].lines == a[last].lines then 0 else |a[last].lines|;
    LinesInPlace(a, b, k, 1);
    CutBefore(LinesFrom(a, 1), a[0].lines, k);
    Associative(LinesFrom(a, 1)[k..], a[0].lines, added);
    assert LinesFrom(b, 0) == LinesFrom(a, 0)[k..] + added;
  }

  lemma LinesCarriedOn(config: Config, a: View, b: View, dropping: bool, added: seq<Line>, record: Line, now: int)
    requires Carried(config, a, b, 1, dropping, added, record, now) && config.maxAge.None?
    ensures LinesWithout(a, b, added)
  {
    assert SlotCarried(config, a, b, 1, dropping, added, 0, record, now);
    forall s: nat | s < |a| - 1 ensures b[s + 1].lines == a[s].lines {
      MovedLines(config, a, b, dropping, added, record, now, s);
    }
    LinesMoved(a, b, 0);
  }

  /** The records of all slots, without those of the last one or with them, and then `added`. */
  ghost predicate LinesWithout(a: View, b: View, added: seq<Line>)
    requires |a| > 0
  {
    var oldest, before, after := a[|a| - 1].lines, LinesFrom(a, 0), LinesFrom(b, 0);
    after == before + added || (|oldest| <= |before| && after == before[|oldest|..] + added)
  }

  lemma LinesCarried(config: Config, a: View, b: View, shift: nat, dropping: bool, added: seq<Line>, record: Line, now: int)
    requires Carried(config, a, b, shift, dropping, added, record, now) && config.maxAge.None?
    ensures LinesWithout(a, b, added) && a[|a| - 1].lines <= LinesFrom(a, 0)
  {
    OldestFirst(a, 0);
    if shift == 0 {
      LinesCarriedInPlace(config, a, b, dropping, added, record, now);
    } else {
      LinesCarriedOn(config, a, b, dropping, added, record, now);
    }
  }

  lemma Associative(a: seq<Line>, b: seq<Line>, c: seq<Line>)
    ensures a + (b + c) == a + b + c
  {
  }

  /**
   Without an age limit, exactly what a step does to the retained records: those
   of the last slot may be dropped, as a whole, and the step's record is added.
   */
  lemma EveryStepRetains(g: Grammar, config: Config, events: seq<Event>, e: Event)
    requires ValidConfig(config) && config.maxAge.None? && ValidRun(g, config, events + [e])
    ensures var w := Run(EMPTY_WORLD, g, config, events);
      var w' := Step(w, g, config, e);
      var before, after := RetainedLines(w.files, config.maxRotated), RetainedLines(w'.files, config.maxRotated);
      var oldest := SlotLines(w.files, config.maxRotated);
      && w.history <= w'.history
      && var added := AddedTo(w.history, w'.history);
      && (added == [] || (e.AppendCall? && added == [e.record]))
      && (after == before + added || (oldest <= before && after == before[|oldest|..] + added))
  {
    var w := Run(EMPTY_WORLD, g, config, events);
    var w' := Step(w, g, config, e);
    if e.AppendCall? {
      var shift := EveryStepCarries(g, config, events, e);
      var a, b := ViewOf(w.files, config.maxRotated), ViewOf(w'.files, config.maxRotated);
      var added := AddedTo(w.history, w'.history);
      WayIs(config, w.files, w'.files, a, b, shift, Installs(w'.files), added, e.record, e.now);
      LinesCarried(config, a, b, shift, Installs(w'.files), added, e.record, e.now);
    } else {
      NothingAdded(w.history);
      NothingGained(RetainedLines(w.files, config.maxRotated));
    }
  }

  /** One of the two newest files holds a record. */
  ghost predicate NewestHeld(view: View) {
    |view| > 1 && (view[0].lines != [] || view[1].lines != [])
  }

  lemma NewestStays(config: Config, a: View, b: View, shift: nat, dropping: bool, added: seq<Line>, record: Line, now: int)
    requires Carried(config, a, b, shift, dropping, added, record, now) && config.maxAge.None?
    requires added != [] || NewestHeld(a)
    ensures NewestHeld(b)
  {
    assert SlotCarried(config, a, b, shift, dropping, added, 0, record, now);
    assert SlotCarried(config, a, b, shift, dropping, added, 1, record, now);
    NothingGained(a[0].lines);
    NothingGained(a[1].lines);
  }

  ghost predicate NewestHeldIn(w: World, config: Config) {
    w.history != [] ==> NewestHeld(ViewOf(w.files, config.maxRotated))
  }

  lemma StepHoldsNewest(g: Grammar, config: Config, events: seq<Event>, e: Event)
    requires ValidConfig(config) && config.maxAge.None? && ValidRun(g, config, events + [e])
    requires NewestHeldIn(Run(EMPTY_WORLD, g, config, events), config)
    ensures NewestHeldIn(Step(Run(EMPTY_WORLD, g, config, events), g, config, e), config)
  {
    var w := Run(EMPTY_WORLD, g, config, events);
    var w' := Step(w, g, config, e);
    if e.AppendCall? && w'.history != [] {
      var shift := EveryStepCarries(g, config, events, e);
      var a, b := ViewOf(w.files, config.maxRotated), ViewOf(w'.files, config.maxRotated);
      var added := AddedTo(w.history, w'.history);
      WayIs(config, w.files, w'.files, a, b, shift, Installs(w'.files), added, e.record, e.now);
      NewestStays(config, a, b, shift, Installs(w'.files), added, e.record, e.now);
    }
  }

  lemma {:induction false} NewestAlwaysHeld(g: Grammar, config: Config, events: seq<Event>)
    requires ValidConfig(config) && config.maxAge.None? && ValidRun(g, config, events)
    ensures NewestHeldIn(Run(EMPTY_WORLD, g, config, events), config)
    decreases |events|
  {
    if events != [] {
      var init, e := events[..|events| - 1], events[|events| - 1];
      assert init + [e] == events;
      ValidRunParts(g, config, init, e);
      NewestAlwaysHeld(g, config, init);
      StepHoldsNewest(g, config, init, e);
    }
  }

  lemma LinesFromNewest(view: View)
    requires NewestHeld(view)
    ensures LinesFrom(view, 0) != []
  {
    assert LinesFrom(view, 1) == LinesFrom(view, 2) + view[1].lines;
    assert LinesFrom(view, 0) == LinesFrom(view, 1) + view[0].lines;
  }

  // ----- the retained records and the history -----

  lemma {:induction false} LinesFromIsFlat(view: View, lines: seq<seq<Line>>, e: nat, slot: nat)
    requires |view| == |lines| && e <= |lines| && slot <= |lines|
    requires forall s: nat :: s < |view| ==> view[s].lines == if s < e then lines[s] else []
    ensures LinesFrom(view, slot) == if slot <= e then Flat(lines[slot..e]) else []
    decreases |lines| - slot
  {
    if slot < |lines| {
      LinesFromIsFlat(view, lines, e, slot + 1);
      if slot < e {
        assert lines[slot..e][1..] == lines[slot + 1..e];
      } else if slot == e {
        assert lines[slot..e] == [];
      }
    } else if slot == e {
      assert lines[slot..e] == [];
    }
  }

  lemma {:induction false} BytesAreEncoded(view: View, slot: nat)
    requires slot <= |view|
    requires forall s: nat :: slot <= s < |view| ==> BytesOf(view[s].content) == Encode(view[s].lines)
    ensures BytesFrom(view, slot) == Encode(LinesFrom(view, slot))
    decreases |view| - slot
  {
    if slot == |view| {
      assert BytesFrom(view, slot) == [] && LinesFrom(view, slot) == [];
    } else {
      BytesAreEncoded(view, slot + 1);
      EncodeAppend(LinesFrom(view, slot + 1), view[slot].lines);
      assert BytesFrom(view, slot) == BytesFrom(view, slot + 1) + BytesOf(view[slot].content);
    }
  }

  lemma SlotThroughManifest(sh: Shadow, g: Grammar, config: Config, files: Files, history: seq<Line>, t: int, slot: nat)
    requires Explains(sh, g, config, files, history, t) && slot <= config.maxRotated
    ensures ThroughManifest(files, slot) ==
      if sh.rotation.Some? && sh.rotation.value.1.Dropped? && slot == config.maxRotated then None
      else Get(sh.base, Home(slot))
  {
    BaseHasNoRotationFiles(sh, g, config);
    match sh.rotation
    case None => NothingPending(sh, g, config, files, history, t);
    case Some((m, p)) => PointView(sh.base, m, p, files, slot);
  }

  /** The slot is complete records, those of `lines` if there is a file, and then `torn`. */
  ghost predicate Contains(g: Grammar, config: Config, slot: Slot, lines: seq<Line>, torn: seq<Byte>) {
    && BytesOf(slot.content) == Encode(slot.lines) + slot.torn
    && slot.torn == torn
    && slot.lines == (if slot.content.Some? then lines else [])
    && (slot.content.Some? ==> Fits(config, BytesOf(slot.content), lines, torn))
    && AllRecords(g, slot.lines)
  }

  lemma ContentsOf(g: Grammar, config: Config, content: Option<Content>, lines: seq<Line>, torn: seq<Byte>)
    requires content.None? ==> torn == []
    requires content.Some? ==>
      && content.value.Log? && content.value.bytes == Encode(lines) + torn && AllRecords(g, lines) && NEWLINE !in torn
      && Fits(config, content.value.bytes, lines, torn)
    ensures Contains(g, config, SlotOf(content), lines, torn)
  {
    var slot := SlotOf(content);
    if content.Some? {
      LinesOfLog(content, lines, torn);
    } else {
      NoContentNoLines();
      NothingContained(g, config, slot, lines);
    }
  }

  lemma NothingContained(g: Grammar, config: Config, slot: Slot, lines: seq<Line>)
    requires slot == Slot(None, [], [])
    ensures Contains(g, config, slot, lines, [])
  {
    assert Encode([]) + [] == [];
  }

  /** What stands behind a slot: a file with the slot's records, or nothing. */
  lemma SlotStands(sh: Shadow, g: Grammar, config: Config, files: Files, history: seq<Line>, t: int, slot: nat)
    requires Explains(sh, g, config, files, history, t) && slot <= config.maxRotated
    ensures var content, torn := ThroughManifest(files, slot), if slot == 0 then sh.torn else [];
      && (content.None? ==> slot == 0 ==> sh.torn == [])
      && (content.Some? ==>
            && content.value.Log? && content.value.bytes == Encode(sh.lines[slot]) + torn
            && AllRecords(g, sh.lines[slot]) && NEWLINE !in torn
            && Fits(config, content.value.bytes, sh.lines[slot], torn))
  {
    SlotThroughManifest(sh, g, config, files, history, t, slot);
    BaseHasNoRotationFiles(sh, g, config);
    assert SlotHolds(g, config, sh.full, slot, sh.lines[slot], if slot == 0 then sh.torn else []);
    assert Get(sh.base, Home(slot)) == Get(sh.full, Home(slot)) || Home(slot) !in sh.base;
  }

  /** What every slot holds: complete records, and at the end of the first one what a crash left. */
  lemma SlotContents(sh: Shadow, g: Grammar, config: Config, files: Files, history: seq<Line>, t: int, slot: nat)
    requires Explains(sh, g, config, files, history, t) && slot <= config.maxRotated
    ensures Contains(g, config, SlotOf(ThroughManifest(files, slot)), sh.lines[slot], if slot == 0 then sh.torn else [])
  {
    SlotStands(sh, g, config, files, history, t, slot);
    ContentsOf(g, config, ThroughManifest(files, slot), sh.lines[slot], if slot == 0 then sh.torn else []);
  }

  /** How many slots are still there: the last one goes when the oldest backup is dropped. */
  function LiveSlots(sh: Shadow, config: Config): nat {
    if sh.rotation.Some? && sh.rotation.value.1.Dropped? then config.maxRotated else config.maxRotated + 1
  }

  lemma RetainedIsFlat(sh: Shadow, g: Grammar, config: Config, files: Files, history: seq<Line>, t: int)
    requires Explains(sh, g, config, files, history, t) && config.maxAge.None?
    ensures RetainedLines(files, config.maxRotated) == Flat(sh.lines[..LiveSlots(sh, config)])
  {
    var e, view := LiveSlots(sh, config), ViewOf(files, config.maxRotated);
    forall s: nat | s < |view| ensures view[s].lines == if s < e then sh.lines[s] else [] {
      SlotContents(sh, g, config, files, history, t, s);
      SlotThroughManifest(sh, g, config, files, history, t, s);
      assert SlotHolds(g, config, sh.full, s, sh.lines[s], if s == 0 then sh.torn else []);
      assert Get(sh.base, Home(s)) == Get(sh.full, Home(s));
    }
    LinesFromIsFlat(view, sh.lines, e, 0);
    assert sh.lines[0..e] == sh.lines[..e];
  }

  lemma EncodedWithTorn(view: View)
    requires |view| > 0 && BytesOf(view[0].content) == Encode(view[0].lines) + view[0].torn
    requires forall s: nat :: 1 <= s < |view| ==> BytesOf(view[s].content) == Encode(view[s].lines)
    ensures BytesFrom(view, 0) == Encode(LinesFrom(view, 0)) + view[0].torn
  {
    BytesAreEncoded(view, 1);
    EncodeAppend(LinesFrom(view, 1), view[0].lines);
    BytesAssociative(Encode(LinesFrom(view, 1)), Encode(view[0].lines), view[0].torn);
  }

  lemma BytesAssociative(a: seq<Byte>, b: seq<Byte>, c: seq<Byte>)
    ensures a + (b + c) == a + b + c
  {
  }

  lemma LayoutIsRetained(sh: Shadow, g: Grammar, config: Config, files: Files, history: seq<Line>, t: int)
    requires Explains(sh, g, config, files, history, t)
    ensures Logical(files, config.maxRotated) == Encode(RetainedLines(files, config.maxRotated)) + sh.torn
    ensures TornPart(ThroughManifest(files, 0)) == sh.torn
  {
    var view := ViewOf(files, config.maxRotated);
    forall s: nat | s < |view|
      ensures BytesOf(view[s].content) == Encode(view[s].lines) + view[s].torn
      ensures view[s].torn == if s == 0 then sh.torn else []
    {
      SlotContents(sh, g, config, files, history, t, s);
    }
    forall s: nat | 1 <= s < |view| ensures BytesOf(view[s].content) == Encode(view[s].lines) {
      assert Encode(view[s].lines) + [] == Encode(view[s].lines);
    }
    EncodedWithTorn(view);
  }

  /** At any time the files, read through the manifest, are the retained records and at most a torn line. */
  lemma LogicalIsRetained(g: Grammar, config: Config, events: seq<Event>)
    requires ValidConfig(config) && ValidRun(g, config, events)
    ensures var files := Run(EMPTY_WORLD, g, config, events).files;
      var torn := TornPart(ThroughManifest(files, 0));
      Logical(files, config.maxRotated) == Encode(RetainedLines(files, config.maxRotated)) + torn && NEWLINE !in torn
  {
    var w := Run(EMPTY_WORLD, g, config, events);
    var sh := RunExplained(g, config, events, 0, false);
    LayoutIsRetained(sh, g, config, w.files, w.history, 0);
  }

  /**
   Without an age limit, at every moment, also between a crash and the next
   opening: the retained records are the end of the history, and at least its
   last record, which so survives any crash.
   */
  lemma RetainedAtAnyTime(g: Grammar, config: Config, events: seq<Event>)
    requires ValidConfig(config) && config.maxAge.None? && ValidRun(g, config, events)
    ensures var w := Run(EMPTY_WORLD, g, config, events);
      var retained := RetainedLines(w.files, config.maxRotated);
      && IsSuffix(retained, w.history)
      && (w.history != [] ==> retained != [] && retained[|retained| - 1] == w.history[|w.history| - 1])
  {
    var w := Run(EMPTY_WORLD, g, config, events);
    var sh := RunExplained(g, config, events, 0, false);
    RetainedIsFlat(sh, g, config, w.files, w.history, 0);
    FlatSplit(sh.lines, LiveSlots(sh, config));
    SuffixOfSuffix(RetainedLines(w.files, config.maxRotated), Flat(sh.lines), w.history);
    NewestAlwaysHeld(g, config, events);
    if w.history != [] {
      LinesFromNewest(ViewOf(w.files, config.maxRotated));
    }
  }

  lemma {:induction false} WithoutManifest(files: Files, max: nat, slot: nat)
    requires Manifest !in files && slot <= max + 1
    ensures BytesFrom(ViewOf(files, max), slot) == Retained(files, slot, max)
    decreases max + 1 - slot
  {
    if slot <= max {
      WithoutManifest(files, max, slot + 1);
      assert BytesOf(ThroughManifest(files, slot)) == BytesUnder(files, Home(slot));
    }
  }

  /** The last record of all is the last one of the first slot. */
  lemma LastOfFlat(lines: seq<seq<Line>>, history: seq<Line>)
    requires lines != [] && lines[0] != [] && IsSuffix(Flat(lines), history)
    ensures history != [] && history[|history| - 1] == lines[0][|lines[0]| - 1]
  {
    var flat := Flat(lines);
    assert flat[|flat| - 1] == lines[0][|lines[0]| - 1];
    assert flat[|flat| - 1] == history[|history| - |flat|..][|flat| - 1];
  }

  lemma LastOfView(view: View)
    requires view != [] && view[0].lines != []
    ensures var all, first := LinesFrom(view, 0), view[0].lines;
      all != [] && all[|all| - 1] == first[|first| - 1]
  {
  }

  /** The files of a log at rest whose first slot holds a record. */
  lemma RestingFiles(sh: Shadow, g: Grammar, config: Config, files: Files, history: seq<Line>, t: int)
    requires Explains(sh, g, config, files, history, t) && AtRest(sh) && sh.lines[0] != []
    ensures var retained := RetainedLines(files, config.maxRotated);
      && Retained(files, 0, config.maxRotated) == Encode(retained)
      && retained != [] && history != [] && retained[|retained| - 1] == history[|history| - 1]
  {
    var view := ViewOf(files, config.maxRotated);
    NothingPending(sh, g, config, files, history, t);
    LayoutIsRetained(sh, g, config, files, history, t);
    WithoutManifest(files, config.maxRotated, 0);
    assert Encode(LinesFrom(view, 0)) + [] == Encode(LinesFrom(view, 0));
    FirstSlotAtRest(sh, g, config, files, history, t);
    LastOfView(view);
    LastOfFlat(sh.lines, history);
  }

  lemma FirstSlotAtRest(sh: Shadow, g: Grammar, config: Config, files: Files, history: seq<Line>, t: int)
    requires Explains(sh, g, config, files, history, t) && AtRest(sh)
    ensures SlotLines(files, 0) == sh.lines[0]
  {
    ActiveLines(sh, g, config, files, history, t);
    NothingPending(sh, g, config, files, history, t);
  }

  /** What the files of a log at rest hold after an acknowledged append. */
  ghost predicate HoldsAcknowledged(config: Config, files: Files, history: seq<Line>, record: Line, contiguous: bool) {
    var retained := RetainedLines(files, config.maxRotated);
    && Restful(files)
    && Retained(files, 0, config.maxRotated) == Encode(retained)
    && retained != [] && retained[|retained| - 1] == record
    && (contiguous ==> IsSuffix(retained, history))
  }

  lemma RestingLog(sh: Shadow, g: Grammar, config: Config, files: Files, history: seq<Line>, t: int, contiguous: bool)
    requires Explains(sh, g, config, files, history, t) && AtRest(sh) && sh.lines[0] != []
    requires NoExpiredBackup(config, files, 1, t) && history != []
    requires contiguous ==> sh.ordered || config.maxAge.None?
    ensures HoldsAcknowledged(config, files, history, history[|history| - 1], contiguous)
  {
    RestfulIsAtRest(sh, g, config, files, history, t);
    RestingFiles(sh, g, config, files, history, t);
    if contiguous {
      RestingSuffix(sh, g, config, files, history, t);
    }
  }

  lemma AcknowledgedFiles(g: Grammar, config: Config, events: seq<Event>, e: Event, contiguous: bool)
    requires ValidConfig(config) && ValidRun(g, config, events + [e]) && e.AppendCall?
    requires Answer(Run(EMPTY_WORLD, g, config, events), g, config, e).status.Running?
    requires contiguous ==> config.maxAge.None? || ClockOrdered(events + [e])
    ensures var w := Run(EMPTY_WORLD, g, config, events);
      var w' := Step(w, g, config, e);
      && w'.history == w.history + [e.record]
      && HoldsAcknowledged(config, w'.files, w'.history, e.record, contiguous)
  {
    var w' := Step(Run(EMPTY_WORLD, g, config, events), g, config, e);
    var sh := AcknowledgedExplained(g, config, events, e, contiguous && config.maxAge.Some?);
    RestingLog(sh, g, config, w'.files, w'.history, e.now, contiguous);
  }

  /**
   An acknowledged append: its record is the last of the history and the last in
   the files, and the files, read from the oldest backup to the active file, are
   exactly the retained records. These are an end of the history, unless there is
   an age limit and the clock has gone back.
   */
  lemma AcknowledgedIsRetained(g: Grammar, config: Config, events: seq<Event>, e: Event)
    requires ValidConfig(config) && ValidRun(g, config, events + [e]) && e.AppendCall?
    requires Answer(Run(EMPTY_WORLD, g, config, events), g, config, e).status.Running?
    ensures var w := Run(EMPTY_WORLD, g, config, events);
      var w' := Step(w, g, config, e);
      var retained := RetainedLines(w'.files, config.maxRotated);
      && w'.history == w.history + [e.record]
      && Restful(w'.files)
      && Retained(w'.files, 0, config.maxRotated) == Encode(retained)
      && retained != [] && retained[|retained| - 1] == e.record
      && (config.maxAge.None? || ClockOrdered(events + [e]) ==> IsSuffix(retained, w'.history))
  {
    AcknowledgedFiles(g, config, events, e, config.maxAge.None? || ClockOrdered(events + [e]));
  }

  lemma AcknowledgedExplained(g: Grammar, config: Config, events: seq<Event>, e: Event, ordered: bool) returns (sh: Shadow)
    requires ValidConfig(config) && ValidRun(g, config, events + [e]) && e.AppendCall?
    requires Answer(Run(EMPTY_WORLD, g, config, events), g, config, e).status.Running?
    requires ordered ==> ClockOrdered(events + [e])
    ensures var w := Run(EMPTY_WORLD, g, config, events);
      var w' := Step(w, g, config, e);
      && w'.history == w.history + [e.record]
      && Explains(sh, g, config, w'.files, w'.history, e.now)
      && AtRest(sh) && sh.lines[0] != [] && NoExpiredBackup(config, w'.files, 1, e.now)
    ensures sh.ordered == ordered
  {
    ValidRunParts(g, config, events, e);
    if ordered {
      ClockOrderedParts(events, e);
    }
    sh := RunExplained(g, config, events, e.now, ordered);
    sh := CallExplained(sh, g, config, Run(EMPTY_WORLD, g, config, events), e);
  }

  /** With every removed backup expired and none expired left, the retained records are an end of the history. */
  lemma RestingSuffix(sh: Shadow, g: Grammar, config: Config, files: Files, history: seq<Line>, t: int)
    requires Explains(sh, g, config, files, history, t) && AtRest(sh) && NoExpiredBackup(config, files, 1, t)
    requires sh.ordered || config.maxAge.None?
    ensures IsSuffix(RetainedLines(files, config.maxRotated), history)
  {
    var suffix, upTo := RetainedAtRest(sh, g, config, files, history, t);
    RetainedAtRestIsFlat(sh, g, config, files, history, t, upTo);
  }

  lemma RetainedAtRestIsFlat(sh: Shadow, g: Grammar, config: Config, files: Files, history: seq<Line>, t: int, e: nat)
    requires Explains(sh, g, config, files, history, t) && AtRest(sh) && e <= |sh.lines|
    requires forall s: nat :: s < e ==> Get(files, Home(s)) == Get(sh.full, Home(s))
    requires forall s: nat :: e <= s <= config.maxRotated ==> Home(s) !in files
    ensures RetainedLines(files, config.maxRotated) == Flat(sh.lines[..e])
  {
    var view := ViewOf(files, config.maxRotated);
    forall s: nat | s < |view| ensures view[s].lines == if s < e then sh.lines[s] else [] {
      SlotContents(sh, g, config, files, history, t, s);
      SlotThroughManifest(sh, g, config, files, history, t, s);
      assert SlotHolds(g, config, sh.full, s, sh.lines[s], []);
    }
    LinesFromIsFlat(view, sh.lines, e, 0);
    assert sh.lines[0..e] == sh.lines[..e];
  }
}
