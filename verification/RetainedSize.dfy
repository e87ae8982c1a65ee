/** What a size limit means for the retained files, at every moment of every run. */
module RetainedSize {
  import opened Storage
  import opened TailRecovery
  import opened AuditLogSpec
  import opened AuditHistory
  import opened RetainedHistory
  import opened Retention
  import opened RetentionOverRuns

  /** Some append of the run was given this record. */
  ghost predicate Appended(events: seq<Event>, record: Line) {
    exists i :: 0 <= i < |events| && events[i].AppendCall? && events[i].record == record
  }

  ghost predicate PartOfAppended(events: seq<Event>, torn: seq<Byte>) {
    torn == [] || exists record: Line :: Appended(events, record) && torn <= record
  }

  lemma AppendedLater(events: seq<Event>, e: Event, record: Line)
    requires Appended(events, record)
    ensures Appended(events + [e], record)
  {
    var i :| 0 <= i < |events| && events[i].AppendCall? && events[i].record == record;
    assert (events + [e])[i] == events[i];
  }

  lemma AppendedLast(events: seq<Event>, e: Event)
    requires e.AppendCall?
    ensures Appended(events + [e], e.record)
  {
    assert (events + [e])[|events|] == e;
  }

  lemma PartLater(events: seq<Event>, e: Event, torn: seq<Byte>)
    requires PartOfAppended(events, torn)
    ensures PartOfAppended(events + [e], torn)
  {
    if torn != [] {
      var record: Line :| Appended(events, record) && torn <= record;
      AppendedLater(events, e, record);
    }
  }

  lemma TornCarried(config: Config, a: View, b: View, shift: nat, dropping: bool, added: seq<Line>, record: Line, now: int)
    requires Carried(config, a, b, shift, dropping, added, record, now)
    ensures b[0].torn == a[0].torn || b[0].torn <= record
  {
    assert SlotCarried(config, a, b, shift, dropping, added, 0, record, now);
  }

  lemma TornStep(g: Grammar, config: Config, events: seq<Event>, e: Event)
    requires ValidConfig(config) && ValidRun(g, config, events + [e])
    requires PartOfAppended(events, TornPart(ThroughManifest(Run(EMPTY_WORLD, g, config, events).files, 0)))
    ensures PartOfAppended(events + [e],
              TornPart(ThroughManifest(Step(Run(EMPTY_WORLD, g, config, events), g, config, e).files, 0)))
  {
    var w := Run(EMPTY_WORLD, g, config, events);
    var w' := Step(w, g, config, e);
    PartLater(events, e, TornPart(ThroughManifest(w.files, 0)));
    if e.AppendCall? {
      var shift := EveryStepCarries(g, config, events, e);
      var a, b := ViewOf(w.files, config.maxRotated), ViewOf(w'.files, config.maxRotated);
      var added := AddedTo(w.history, w'.history);
      WayIs(config, w.files, w'.files, a, b, shift, Installs(w'.files), added, e.record, e.now);
      TornCarried(config, a, b, shift, Installs(w'.files), added, e.record, e.now);
      AppendedLast(events, e);
    }
  }

  /** Anything after the last newline is a part of a record that was to be appended. */
  lemma {:induction false} TornIsPartOfRecord(g: Grammar, config: Config, events: seq<Event>)
    requires ValidConfig(config) && ValidRun(g, config, events)
    ensures PartOfAppended(events, TornPart(ThroughManifest(Run(EMPTY_WORLD, g, config, events).files, 0)))
    decreases |events|
  {
    if events == [] {
      NoContentNoLines();
    } else {
      var init, e := events[..|events| - 1], events[|events| - 1];
      assert init + [e] == events;
      ValidRunParts(g, config, init, e);
      TornIsPartOfRecord(g, config, init);
      TornStep(g, config, init, e);
    }
  }

  lemma {:induction false} HistoryWasAppended(g: Grammar, config: Config, events: seq<Event>, record: Line)
    requires record in Run(EMPTY_WORLD, g, config, events).history
    ensures Appended(events, record)
    decreases |events|
  {
    var init, e := events[..|events| - 1], events[|events| - 1];
    assert init + [e] == events;
    if record in Run(EMPTY_WORLD, g, config, init).history {
      HistoryWasAppended(g, config, init, record);
      AppendedLater(init, e, record);
    } else {
      AppendedLast(init, e);
    }
  }

  /** Within the limit, or at most one record, be it whole or torn. */
  ghost predicate WithinLimit(events: seq<Event>, bytes: seq<Byte>, limit: nat) {
    |bytes| <= limit || exists record: Line :: Appended(events, record) && bytes <= record + [NEWLINE]
  }

  lemma {:induction false} InFlat(lines: seq<seq<Line>>, slot: nat, record: Line)
    requires slot < |lines| && record in lines[slot]
    ensures record in Flat(lines)
    decreases |lines|
  {
    if slot > 0 {
      InFlat(lines[1..], slot - 1, record);
    }
  }

  lemma InHistory(sh: Shadow, g: Grammar, config: Config, files: Files, history: seq<Line>, t: int, slot: nat, record: Line)
    requires Explains(sh, g, config, files, history, t) && slot <= config.maxRotated && record in sh.lines[slot]
    ensures record in history
  {
    InFlat(sh.lines, slot, record);
    assert record in history[|history| - |Flat(sh.lines)|..];
  }

  /** The size limit, at every moment of every run and for every slot, read through the manifest. */
  lemma SizeLimitHolds(g: Grammar, config: Config, events: seq<Event>, slot: nat)
    requires ValidConfig(config) && config.maxBytes.Some? && ValidRun(g, config, events) && slot <= config.maxRotated
    ensures WithinLimit(events, BytesOf(ThroughManifest(Run(EMPTY_WORLD, g, config, events).files, slot)), config.maxBytes.value)
  {
    var w := Run(EMPTY_WORLD, g, config, events);
    var content := ThroughManifest(w.files, slot);
    var sh := RunExplained(g, config, events, 0, false);
    SlotContents(sh, g, config, w.files, w.history, 0, slot);
    if |BytesOf(content)| > config.maxBytes.value {
      var lines, torn := LinesOf(content), TornPart(content);
      if lines == [] {
        assert BytesOf(content) == torn;
        TornIsPartOfRecord(g, config, events);
        var record: Line :| Appended(events, record) && torn <= record;
        assert torn <= record + [NEWLINE];
      } else {
        var record := lines[0];
        assert lines == [record] && Encode([record]) + [] == record + [NEWLINE];
        InHistory(sh, g, config, w.files, w.history, 0, slot, record);
        HistoryWasAppended(g, config, events, record);
      }
    }
  }

  lemma LimitIsBounded(events: seq<Event>, bytes: seq<Byte>, limit: nat, bound: nat)
    requires WithinLimit(events, bytes, limit) && limit <= bound
    requires forall i :: 0 <= i < |events| && events[i].AppendCall? ==> |events[i].record| + 1 <= bound
    ensures |bytes| <= bound
  {
  }

  lemma {:induction false} TotalSize(view: View, slot: nat, bound: nat)
    requires slot <= |view| && forall s: nat :: slot <= s < |view| ==> |BytesOf(view[s].content)| <= bound
    ensures |BytesFrom(view, slot)| <= (|view| - slot) * bound
    decreases |view| - slot
  {
    if slot < |view| {
      TotalSize(view, slot + 1, bound);
      assert (|view| - slot) * bound == (|view| - (slot + 1)) * bound + bound;
    }
  }

  /**
   The retained bytes are at any time at most the number of files times the
   limit, or times the largest record and its newline.
   */
  lemma RetainedSizeIsBounded(g: Grammar, config: Config, events: seq<Event>, bound: nat)
    requires ValidConfig(config) && config.maxBytes.Some? && ValidRun(g, config, events)
    requires config.maxBytes.value <= bound
    requires forall i :: 0 <= i < |events| && events[i].AppendCall? ==> |events[i].record| + 1 <= bound
    ensures |Logical(Run(EMPTY_WORLD, g, config, events).files, config.maxRotated)| <= (config.maxRotated + 1) * bound
  {
    var files := Run(EMPTY_WORLD, g, config, events).files;
    var view := ViewOf(files, config.maxRotated);
    forall s: nat | s < |view| ensures |BytesOf(view[s].content)| <= bound {
      SizeLimitHolds(g, config, events, s);
      LimitIsBounded(events, BytesOf(ThroughManifest(files, s)), config.maxBytes.value, bound);
    }
    TotalSize(view, 0, bound);
  }
}
