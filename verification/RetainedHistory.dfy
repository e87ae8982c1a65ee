/** What every run of the audit log guarantees about the bytes that are retained. */
module RetainedHistory {
  import opened Common
  import opened Storage
  import opened RotationSpec
  import opened TailRecovery
  import opened CrashConvergence
  import opened AuditLogSpec
  import opened AuditHistory

  ghost predicate ValidEvent(g: Grammar, e: Event) {
    e.AppendCall? ==> IsRecord(g, e.record) && ValidTransaction(e.transaction)
  }

  /** Calls append records. */
  ghost predicate ValidEvents(g: Grammar, events: seq<Event>) {
    forall i :: 0 <= i < |events| ==> ValidEvent(g, events[i])
  }

  /** The clock readings of the calls never go back. */
  predicate ClockOrdered(events: seq<Event>) {
    forall i, j :: 0 <= i < j < |events| && events[i].AppendCall? && events[j].AppendCall? ==> events[i].now <= events[j].now
  }

  predicate NotAfter(events: seq<Event>, t: int) {
    forall i :: 0 <= i < |events| && events[i].AppendCall? ==> events[i].now <= t
  }

  /** A run whose calls are valid and use a ready instance only while the log is in order. */
  ghost predicate ValidRun(g: Grammar, config: Config, events: seq<Event>) {
    && ValidEvents(g, events)
    && forall i :: 0 <= i < |events| ==> UsedAtRest(Run(EMPTY_WORLD, g, config, events[..i]), events[i])
  }

  lemma ValidRunParts(g: Grammar, config: Config, events: seq<Event>, e: Event)
    requires ValidRun(g, config, events + [e])
    ensures ValidRun(g, config, events) && UsedAtRest(Run(EMPTY_WORLD, g, config, events), e) && ValidEvent(g, e)
  {
    var all := events + [e];
    assert all[|events|] == e && all[..|events|] == events;
    forall i | 0 <= i < |events| ensures all[i] == events[i] && all[..i] == events[..i] {
    }
  }

  lemma ClockOrderedParts(events: seq<Event>, e: Event)
    requires ClockOrdered(events + [e])
    ensures ClockOrdered(events) && (e.AppendCall? ==> NotAfter(events, e.now))
  {
    var all := events + [e];
    assert all[|events|] == e;
    assert forall i :: 0 <= i < |events| ==> all[i] == events[i];
  }

  ghost predicate WorldExplained(sh: Shadow, g: Grammar, config: Config, w: World, t: int) {
    Explains(sh, g, config, w.files, w.history, t)
  }

  /** A log that is in order has neither a pending rotation nor a torn line. */
  lemma RestfulIsAtRest(sh: Shadow, g: Grammar, config: Config, files: Files, history: seq<Line>, t: int)
    requires Explains(sh, g, config, files, history, t)
    ensures Restful(files) <==> AtRest(sh)
  {
    BaseHasNoRotationFiles(sh, g, config);
    assert SlotHolds(g, config, sh.full, 0, sh.lines[0], sh.torn);
    match sh.rotation
    case Some((m, p)) => NoRotationFilesAt(sh.base, m, p, files);
    case None =>
      if sh.lines[0] != [] {
        EncodeEnds(sh.lines[0]);
      }
      CompleteEndIs(Encode(sh.lines[0]), sh.torn);
  }

  lemma RecoverLogExplained(sh: Shadow, g: Grammar, config: Config, d: Disk, history: seq<Line>, now: int)
    returns (sh': Shadow)
    requires d.status.Running? && Explains(sh, g, config, d.files, history, now) && ValidConfig(config)
    ensures sh'.ordered == sh.ordered
    ensures var r := RecoverLog(d, g, config, now);
      && Explains(sh', g, config, r.files, history, now)
      && (r.status.Running? ==> AtRest(sh'))
  {
    sh' := FinishRotationExplained(sh, g, config, d, history, now);
    sh' := RecoverTailsExplained(sh', g, config, FinishRotation(d), history, 0, now);
  }

  /** The backups never have a torn tail: recovering them changes nothing. */
  lemma {:induction false} BackupTailsComplete(sh: Shadow, g: Grammar, config: Config, d: Disk, history: seq<Line>,
                                               slot: nat, now: int)
    requires d.status.Running? && Explains(sh, g, config, d.files, history, now) && sh.rotation.None? && slot >= 1
    ensures RecoverTailsFrom(d, g, config.maxRotated, slot, now) == d
    decreases config.maxRotated + 1 - slot
  {
    if slot <= config.maxRotated {
      assert SlotHolds(g, config, sh.full, slot, sh.lines[slot], []);
      assert Get(sh.base, Home(slot)) == Get(sh.full, Home(slot)) || Home(slot) !in sh.base;
      if Home(slot) in d.files {
        assert Encode(sh.lines[slot]) + [] == Encode(sh.lines[slot]);
        CompleteLogAccepted(g, sh.lines[slot]);
      }
      BackupTailsComplete(sh, g, config, d, history, slot + 1, now);
    }
  }

  lemma CallExplained(sh: Shadow, g: Grammar, config: Config, w: World, e: Event) returns (sh': Shadow)
    requires e.AppendCall? && ValidEvent(g, e) && ValidConfig(config) && WorldExplained(sh, g, config, w, e.now)
    requires UsedAtRest(w, e)
    ensures sh'.ordered == sh.ordered
    ensures var w' := Step(w, g, config, e);
      && WorldExplained(sh', g, config, w', e.now)
      && (Answer(w, g, config, e).status.Running? ==>
            && w'.history == w.history + [e.record]
            && AtRest(sh') && sh'.lines[0] != []
            && NoExpiredBackup(config, w'.files, 1, e.now))
  {
    var d := Disk(w.files, e.fuel, e.tear, Running);
    sh' := sh;
    if w.instance.Fresh? {
      sh' := RecoverLogExplained(sh, g, config, d, w.history, e.now);
    } else {
      RestfulIsAtRest(sh, g, config, w.files, w.history, e.now);
    }
    var ready := ReadyDisk(w, g, config, e);
    if ready.status.Running? {
      sh' := AppendExplained(sh', g, config, ready, w.history, e.record, e.transaction, e.now);
    }
  }

  /**
   Every run from an empty directory is explained: the retained history is a
   suffix, less removed backups. If the clock readings never go back, the
   removed ones have expired.
   */
  lemma {:induction false} RunExplained(g: Grammar, config: Config, events: seq<Event>, t: int, ordered: bool)
    returns (sh: Shadow)
    requires ValidConfig(config) && ValidRun(g, config, events)
    requires ordered ==> ClockOrdered(events) && NotAfter(events, t)
    ensures sh.ordered == ordered
    ensures WorldExplained(sh, g, config, Run(EMPTY_WORLD, g, config, events), t)
    decreases |events|
  {
    if events == [] {
      sh := EmptyExplained(g, config, t, ordered);
    } else {
      var init, e := events[..|events| - 1], events[|events| - 1];
      assert init + [e] == events;
      ValidRunParts(g, config, init, e);
      if ordered {
        ClockOrderedParts(init, e);
      }
      sh := RunExplained(g, config, init, if e.AppendCall? then e.now else t, ordered);
      sh := StepExplained(sh, g, config, init, e, t);
    }
  }

  lemma StepExplained(sh: Shadow, g: Grammar, config: Config, events: seq<Event>, e: Event, t: int) returns (sh': Shadow)
    requires ValidEvent(g, e) && ValidConfig(config) && UsedAtRest(Run(EMPTY_WORLD, g, config, events), e)
    requires WorldExplained(sh, g, config, Run(EMPTY_WORLD, g, config, events), if e.AppendCall? then e.now else t)
    requires sh.ordered && e.AppendCall? ==> e.now <= t
    ensures sh'.ordered == sh.ordered
    ensures WorldExplained(sh', g, config, Run(EMPTY_WORLD, g, config, events + [e]), t)
  {
    assert (events + [e])[..|events|] == events;
    var w := Run(EMPTY_WORLD, g, config, events);
    sh' := sh;
    if e.AppendCall? {
      sh' := CallExplained(sh, g, config, w, e);
      var w' := Step(w, g, config, e);
      Later(sh', g, config, w'.files, w'.history, e.now, t);
    }
  }

  lemma EmptyExplained(g: Grammar, config: Config, t: int, ordered: bool) returns (sh: Shadow)
    ensures sh.ordered == ordered
    ensures WorldExplained(sh, g, config, EMPTY_WORLD, t)
  {
    sh := Shadow(map[], seq(config.maxRotated + 1, _ => []), [], map[], None, ordered);
    FlatOfEmpty(sh.lines);
  }

  lemma {:induction false} FlatOfEmpty(lines: seq<seq<Line>>)
    requires forall i :: 0 <= i < |lines| ==> lines[i] == []
    ensures Flat(lines) == []
  {
    if lines != [] {
      FlatOfEmpty(lines[1..]);
    }
  }

  // ----- after an acknowledged append -----

  function BytesUnder(files: Files, name: Name): seq<Byte> {
    if name in files && files[name].Log? then files[name].bytes else []
  }

  /** The retained bytes, oldest backup first, down to `slot`. */
  function Retained(files: Files, slot: nat, max: nat): seq<Byte>
    decreases max + 1 - slot
  {
    if slot > max then [] else Retained(files, slot + 1, max) + BytesUnder(files, Home(slot))
  }

  /** The first slot whose backup was removed, or one past the last slot. */
  ghost function FirstMissing(full: Files, base: Files, slot: nat, max: nat): (e: nat)
    requires slot <= max + 1
    ensures slot <= e <= max + 1
    ensures forall s: nat :: slot <= s < e ==> (Home(s) in full ==> Home(s) in base)
    ensures e <= max ==> Home(e) in full && Home(e) !in base
    decreases max + 1 - slot
  {
    if slot > max || (Home(slot) in full && Home(slot) !in base) then slot
    else FirstMissing(full, base, slot + 1, max)
  }

  /** With no expired backup left, the removed ones are the oldest ones. */
  lemma NoneAfterFirstMissing(sh: Shadow, g: Grammar, config: Config, t: int, e: nat)
    requires Stands(sh, g, config, t) && NoExpiredBackup(config, sh.base, 1, t)
    requires sh.ordered || config.maxAge.None?
    requires e <= config.maxRotated && Home(e) in sh.full && Home(e) !in sh.base
    ensures e >= 1 && forall s: nat :: e <= s <= config.maxRotated ==> Home(s) !in sh.base
  {
    assert Get(sh.base, Home(e)) != Get(sh.full, Home(e));
    assert forall s: nat :: s <= config.maxRotated && Home(s) in sh.base ==>
      Get(sh.base, Home(s)) == Get(sh.full, Home(s));
  }

  lemma {:induction false} RetainedIs(sh: Shadow, g: Grammar, config: Config, t: int, slot: nat, e: nat)
    requires Stands(sh, g, config, t) && sh.torn == []
    requires slot <= config.maxRotated + 1 && e <= config.maxRotated + 1
    requires forall s: nat :: s < e ==> (Home(s) in sh.full ==> Home(s) in sh.base)
    requires forall s: nat :: e <= s <= config.maxRotated ==> Home(s) !in sh.base
    ensures Retained(sh.base, slot, config.maxRotated) == Encode(Flat(if slot <= e then sh.lines[slot..e] else []))
    decreases config.maxRotated + 1 - slot
  {
    if slot <= config.maxRotated {
      RetainedIs(sh, g, config, t, slot + 1, e);
      assert SlotHolds(g, config, sh.full, slot, sh.lines[slot], []);
      assert Get(sh.base, Home(slot)) == Get(sh.full, Home(slot)) || Home(slot) !in sh.base;
      if slot < e {
        assert sh.lines[slot..e][1..] == sh.lines[slot + 1..e];
        EncodeAppend(Flat(sh.lines[slot + 1..e]), sh.lines[slot]);
      } else if slot == e {
        assert sh.lines[slot..e] == [];
      }
    }
  }

  /** The records up to the first missing backup are those of the end of the history, and all that is there. */
  lemma RetainedAtRest(sh: Shadow, g: Grammar, config: Config, files: Files, history: seq<Line>, t: int)
    returns (suffix: seq<Line>, e: nat)
    requires Explains(sh, g, config, files, history, t) && AtRest(sh) && NoExpiredBackup(config, files, 1, t)
    requires sh.ordered || config.maxAge.None?
    ensures IsSuffix(suffix, history) && Retained(files, 0, config.maxRotated) == Encode(suffix)
    ensures sh.lines[0] != [] ==> suffix != []
    ensures e <= |sh.lines| && suffix == Flat(sh.lines[..e])
    ensures forall s: nat :: s < e ==> Get(files, Home(s)) == Get(sh.full, Home(s))
    ensures forall s: nat :: e <= s <= config.maxRotated ==> Home(s) !in files
  {
    e := FirstMissing(sh.full, sh.base, 0, config.maxRotated);
    if e <= config.maxRotated {
      NoneAfterFirstMissing(sh, g, config, t, e);
    }
    RetainedIs(sh, g, config, t, 0, e);
    suffix := Flat(sh.lines[..e]);
    assert sh.lines[0..e] == sh.lines[..e];
    FlatSplit(sh.lines, e);
    SuffixOfSuffix(suffix, Flat(sh.lines), history);
    forall s: nat | s < e ensures Get(files, Home(s)) == Get(sh.full, Home(s)) {
      assert Get(sh.base, Home(s)) == Get(sh.full, Home(s)) || Home(s) !in sh.base;
    }
  }

  /**
   The active file after an acknowledged append: the old one and the new line,
   as long as it is empty or the size limit has room for the line and the age
   limit is not reached; otherwise the new line alone.
   */
  lemma ActiveAfterAppend(sh: Shadow, g: Grammar, config: Config, d: Disk, history: seq<Line>,
                          record: Line, transaction: string, now: int)
    requires d.status.Running? && Explains(sh, g, config, d.files, history, now) && AtRest(sh)
    requires ValidConfig(config) && ValidTransaction(transaction) && IsRecord(g, record)
    requires AppendRecord(d, config, record, transaction, now).status.Running?
    ensures var active := if Active in d.files then d.files[Active] else Log([], now);
      var keeps := active.Log?
        && (active.bytes == []
            || ((config.maxBytes.Some? ==> |active.bytes| + |record| + 1 <= config.maxBytes.value)
                && (config.maxAge.Some? ==> now - active.modified < config.maxAge.value)));
      Get(AppendRecord(d, config, record, transaction, now).files, Active)
        == Some(Log(BytesUnder(if keeps then d.files else map[], Active) + (record + [NEWLINE]), now))
  {
    var pruned := Prune(d, config, now);
    var sh' := PruneExplained(sh, g, config, d, history, now);
    sh' := RotateExplained(sh', g, config, pruned, history, |record| + 1, transaction, now);
    var prepared := OpenForAppend(d, config, record, transaction, now);
    assert (record + [NEWLINE])[..|record| + 1] == record + [NEWLINE];
    assert prepared.status.Running? && prepared.fuel > 0;
  }
}
