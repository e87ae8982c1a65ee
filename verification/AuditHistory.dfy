/**
 The retained files are the end of the history of records that reached the
 disk, over every run of appends, rotations, prunings, crashes and restarts.
 */
module AuditHistory {
  import opened Common
  import opened Storage
  import opened RotationSpec
  import opened TailRecovery
  import opened CrashConvergence
  import opened AuditLogSpec

  type Line = seq<Byte>

  predicate IsSuffix(s: seq<Line>, whole: seq<Line>) {
    |s| <= |whole| && whole[|whole| - |s|..] == s
  }

  /** The records of all slots, oldest first: the last slot, then the one before it, down to slot 0. */
  function Flat(slots: seq<seq<Line>>): seq<Line> {
    if slots == [] then [] else Flat(slots[1..]) + slots[0]
  }

  /**
   A witness of how the files came about. `full` is the layout as it would be if
   no expired backup had been removed, and `lines` its records by slot; `torn`
   is what a crash left after the last newline of the active file; `base` is the
   layout that the pending rotation started on, or the layout itself; `ordered`
   says that the clock readings have never gone back.
   */
  datatype Shadow = Shadow(
    full: Files,
    lines: seq<seq<Line>>,
    torn: seq<Byte>,
    base: Files,
    rotation: Option<(RotationManifest, Point)>,
    ordered: bool)

  /** With a size limit, a file is within the limit or holds at most one record, be it whole or torn. */
  predicate Fits(config: Config, bytes: seq<Byte>, lines: seq<Line>, torn: seq<Byte>) {
    config.maxBytes.Some? ==> |bytes| <= config.maxBytes.value || lines == [] || (|lines| == 1 && torn == [])
  }

  ghost predicate SlotHolds(g: Grammar, config: Config, files: Files, slot: nat, lines: seq<Line>, torn: seq<Byte>) {
    if Home(slot) in files then
      && files[Home(slot)].Log?
      && files[Home(slot)].bytes == Encode(lines) + torn
      && AllRecords(g, lines)
      && (slot > 0 ==> lines != [])
      && Fits(config, files[Home(slot)].bytes, lines, torn)
    else
      lines == [] && torn == []
  }

  /** The slots of `files` hold exactly `lines`. */
  ghost predicate Holds(g: Grammar, config: Config, files: Files, lines: seq<seq<Line>>, torn: seq<Byte>) {
    && |lines| == config.maxRotated + 1
    && NEWLINE !in torn
    && !HasRotationFiles(files)
    && forall slot: nat :: slot <= config.maxRotated ==>
         SlotHolds(g, config, files, slot, lines[slot], if slot == 0 then torn else [])
  }

  /** With an age limit, backups can have been removed. */
  ghost predicate OnlyBackupsMissing(config: Config, full: Files, base: Files) {
    forall name: Name ::
      || Get(base, name) == Get(full, name)
      || (config.maxAge.Some? && name.Backup? && 1 <= name.index <= config.maxRotated && name !in base && name in full)
  }

  /** No file is newer than `t` or than a file of a lower slot, and what is missing has expired. */
  ghost predicate Timely(config: Config, full: Files, base: Files, t: int) {
    && (forall slot: nat :: slot <= config.maxRotated && Home(slot) in full ==>
          full[Home(slot)].Log? && full[Home(slot)].modified <= t)
    && (forall i: nat, j: nat :: i < j <= config.maxRotated && Home(i) in full && Home(j) in full ==>
          full[Home(i)].Log? && full[Home(j)].Log? && full[Home(i)].modified >= full[Home(j)].modified)
    && (forall name: Name :: name in full && name !in base ==> Expired(full[name], config, t))
  }

  /** What holds of the layouts of `sh`, whatever is pending. */
  ghost predicate Stands(sh: Shadow, g: Grammar, config: Config, t: int) {
    && Holds(g, config, sh.full, sh.lines, sh.torn)
    && OnlyBackupsMissing(config, sh.full, sh.base)
    && (sh.ordered ==> Timely(config, sh.full, sh.base, t))
  }

  ghost predicate RestsOn(sh: Shadow, config: Config, files: Files) {
    match sh.rotation
    case None => files == sh.base
    case Some((m, p)) =>
      && sh.torn == [] && sh.lines != [] && sh.lines[0] != [] && m.maxRotated == config.maxRotated
      && Startable(sh.base, m) && At(sh.base, m, p, files)
      && p != Untouched && p != Point.Complete
  }

  ghost predicate Explains(sh: Shadow, g: Grammar, config: Config, files: Files, history: seq<Line>, t: int) {
    && Stands(sh, g, config, t)
    && RestsOn(sh, config, files)
    && IsSuffix(Flat(sh.lines), history)
  }

  /** The log is not in the middle of anything. */
  predicate AtRest(sh: Shadow) {
    sh.rotation.None? && sh.torn == []
  }

  lemma {:induction false} FlatSplit(slots: seq<seq<Line>>, k: nat)
    requires k <= |slots|
    ensures Flat(slots) == Flat(slots[k..]) + Flat(slots[..k])
  {
    if k == 0 {
      assert slots[0..] == slots;
    } else {
      FlatSplit(slots[1..], k - 1);
      assert slots[1..][k - 1..] == slots[k..];
      assert slots[1..][..k - 1] == slots[..k][1..];
    }
  }

  lemma SuffixOfSuffix(a: seq<Line>, b: seq<Line>, c: seq<Line>)
    requires IsSuffix(b, c) && |a| <= |b| && b[|b| - |a|..] == a
    ensures IsSuffix(a, c)
  {
  }

  lemma Later(sh: Shadow, g: Grammar, config: Config, files: Files, history: seq<Line>, t: int, t': int)
    requires Explains(sh, g, config, files, history, t) && (sh.ordered ==> t <= t')
    ensures Explains(sh, g, config, files, history, t')
  {
  }

  lemma BaseHasNoRotationFiles(sh: Shadow, g: Grammar, config: Config)
    requires Holds(g, config, sh.full, sh.lines, sh.torn) && OnlyBackupsMissing(config, sh.full, sh.base)
    ensures !HasRotationFiles(sh.base)
    ensures Get(sh.base, Active) == Get(sh.full, Active)
  {
    forall name: Name | name.IsRotationName() ensures name !in sh.base {
      assert Get(sh.base, name) == Get(sh.full, name);
    }
  }

  // ----- a completed rotation shifts every slot -----

  function ShiftedFiles(files: Files, max: nat): Files {
    map name | name in files.Keys + (set i | 1 <= i <= max :: Backup(i)) && Shifted(files, max, name).Some?
      :: Shifted(files, max, name).value
  }

  lemma ShiftedFilesAre(files: Files, max: nat)
    ensures IsShiftOf(files, max, ShiftedFiles(files, max))
  {
    forall name: Name ensures Get(ShiftedFiles(files, max), name) == Shifted(files, max, name) {
      if name.Backup? && 1 <= name.index <= max {
        assert name in (set i | 1 <= i <= max :: Backup(i));
      }
    }
  }

  lemma ShiftHolds(g: Grammar, config: Config, full: Files, lines: seq<seq<Line>>)
    requires Holds(g, config, full, lines, []) && config.maxRotated >= 1 && lines[0] != []
    ensures Holds(g, config, ShiftedFiles(full, config.maxRotated), [[]] + lines[..config.maxRotated], [])
  {
    var max := config.maxRotated;
    var full', lines' := ShiftedFiles(full, max), [[]] + lines[..max];
    ShiftedFilesAre(full, max);
    forall slot: nat | slot <= max ensures SlotHolds(g, config, full', slot, lines'[slot], []) {
      assert Get(full', Home(slot)) == Shifted(full, max, Home(slot));
      if slot >= 1 {
        assert SlotHolds(g, config, full, slot - 1, lines[slot - 1], []);
      }
    }
    forall name: Name | name.IsRotationName() ensures name !in full' {
      assert Get(full', name) == Shifted(full, max, name);
    }
  }

  lemma ShiftMissing(config: Config, full: Files, base: Files, files: Files)
    requires OnlyBackupsMissing(config, full, base) && IsShiftOf(base, config.maxRotated, files)
    ensures OnlyBackupsMissing(config, ShiftedFiles(full, config.maxRotated), files)
  {
    var max := config.maxRotated;
    var full' := ShiftedFiles(full, max);
    ShiftedFilesAre(full, max);
    forall name: Name
      ensures || Get(files, name) == Get(full', name)
              || (config.maxAge.Some? && name.Backup? && 1 <= name.index <= max && name !in files && name in full')
    {
      assert Get(files, name) == Shifted(base, max, name);
      assert Get(full', name) == Shifted(full, max, name);
      if name.Backup? && 1 <= name.index <= max {
        assert Get(base, Home(name.index - 1)) == Get(full, Home(name.index - 1)) || Home(name.index - 1) !in base;
      } else {
        assert Get(base, name) == Get(full, name) || name.Backup?;
      }
    }
  }

  /** Where the files of the shifted layout come from. */
  lemma ShiftedFrom(full: Files, max: nat, slot: nat)
    requires slot <= max
    ensures Get(ShiftedFiles(full, max), Home(slot)) == if slot == 0 then None else Get(full, Home(slot - 1))
  {
    ShiftedFilesAre(full, max);
    assert Get(ShiftedFiles(full, max), Home(slot)) == Shifted(full, max, Home(slot));
  }

  lemma ShiftTimely(config: Config, full: Files, base: Files, files: Files, t: int)
    requires Timely(config, full, base, t) && OnlyBackupsMissing(config, full, base)
    requires IsShiftOf(base, config.maxRotated, files)
    ensures Timely(config, ShiftedFiles(full, config.maxRotated), files, t)
  {
    var max := config.maxRotated;
    var full' := ShiftedFiles(full, max);
    ShiftedFilesAre(full, max);
    forall slot: nat | slot <= max && Home(slot) in full' ensures full'[Home(slot)].Log? && full'[Home(slot)].modified <= t {
      ShiftedFrom(full, max, slot);
      assert Home(slot - 1) in full;
    }
    forall i: nat, j: nat | i < j <= max && Home(i) in full' && Home(j) in full'
      ensures full'[Home(i)].Log? && full'[Home(j)].Log? && full'[Home(i)].modified >= full'[Home(j)].modified
    {
      ShiftedFrom(full, max, i);
      ShiftedFrom(full, max, j);
      assert Home(i - 1) in full && Home(j - 1) in full;
    }
    forall name: Name | name in full' && name !in files ensures Expired(full'[name], config, t) {
      ShiftedMissing(config, full, base, files, name);
    }
  }

  /** What is missing after a shift was missing one slot before. */
  lemma ShiftedMissing(config: Config, full: Files, base: Files, files: Files, name: Name)
    requires OnlyBackupsMissing(config, full, base) && IsShiftOf(base, config.maxRotated, files)
    requires name in ShiftedFiles(full, config.maxRotated) && name !in files
    ensures name.Backup? && 1 <= name.index <= config.maxRotated
    ensures var before := Home(name.index - 1);
      before in full && before !in base && ShiftedFiles(full, config.maxRotated)[name] == full[before]
  {
    var max := config.maxRotated;
    ShiftedFilesAre(full, max);
    assert Get(files, name) == Shifted(base, max, name);
    assert Get(ShiftedFiles(full, max), name) == Shifted(full, max, name);
    assert Get(base, name) == Get(full, name) || (name.Backup? && 1 <= name.index <= max);
  }

  lemma FlatShift(lines: seq<seq<Line>>, max: nat, history: seq<Line>)
    requires |lines| == max + 1 && IsSuffix(Flat(lines), history)
    ensures IsSuffix(Flat([[]] + lines[..max]), history)
  {
    var kept := lines[..max];
    FlatSplit(lines, max);
    assert ([[]] + kept)[1..] == kept;
    assert Flat([[]] + kept) == Flat(kept);
    SuffixOfSuffix(Flat(kept), Flat(lines), history);
  }

  /** What a shift of every slot makes of the layouts. */
  lemma ShiftStands(sh: Shadow, g: Grammar, config: Config, files: Files, t: int, sh': Shadow)
    requires Stands(sh, g, config, t) && sh.torn == [] && config.maxRotated >= 1 && sh.lines[0] != []
    requires IsShiftOf(sh.base, config.maxRotated, files)
    requires sh' == Shadow(ShiftedFiles(sh.full, config.maxRotated), [[]] + sh.lines[..config.maxRotated], [],
                           files, None, sh.ordered)
    ensures Stands(sh', g, config, t)
  {
    ShiftHolds(g, config, sh.full, sh.lines);
    ShiftMissing(config, sh.full, sh.base, files);
    if sh.ordered {
      ShiftTimely(config, sh.full, sh.base, files, t);
    }
  }

  /** A rotation that completes on `sh.base`: every slot is shifted. */
  lemma RotationCompletes(sh: Shadow, g: Grammar, config: Config, files: Files, history: seq<Line>, t: int)
    returns (sh': Shadow)
    requires Stands(sh, g, config, t) && sh.torn == []
    requires IsSuffix(Flat(sh.lines), history) && config.maxRotated >= 1 && sh.lines[0] != []
    requires IsShiftOf(sh.base, config.maxRotated, files)
    ensures sh'.ordered == sh.ordered
    ensures Explains(sh', g, config, files, history, t) && AtRest(sh')
  {
    sh' := Shadow(ShiftedFiles(sh.full, config.maxRotated), [[]] + sh.lines[..config.maxRotated], [],
                  files, None, sh.ordered);
    ShiftStands(sh, g, config, files, t, sh');
    FlatShift(sh.lines, config.maxRotated, history);
  }

  lemma FinishRotationExplained(sh: Shadow, g: Grammar, config: Config, d: Disk, history: seq<Line>, t: int)
    returns (sh': Shadow)
    requires d.status.Running? && Explains(sh, g, config, d.files, history, t) && config.maxRotated >= 1
    ensures sh'.ordered == sh.ordered
    ensures var r := FinishRotation(d);
      && Explains(sh', g, config, r.files, history, t)
      && (r.status.Running? ==> sh'.rotation.None?)
  {
    BaseHasNoRotationFiles(sh, g, config);
    match sh.rotation
    case None =>
      sh' := sh;
      assert Manifest.IsRotationName();
    case Some((m, p)) =>
      var p' := FinishRotationAt(sh.base, m, p, d);
      sh' := PointExplained(sh, g, config, m, p', FinishRotation(d).files, history, t);
  }

  /** What point `p` of a rotation on `sh.base` amounts to. */
  lemma PointExplained(sh: Shadow, g: Grammar, config: Config, m: RotationManifest, p: Point, files: Files,
                       history: seq<Line>, t: int)
    returns (sh': Shadow)
    requires Stands(sh, g, config, t) && sh.torn == []
    requires IsSuffix(Flat(sh.lines), history) && config.maxRotated >= 1 && sh.lines[0] != []
    requires m.maxRotated == config.maxRotated && Startable(sh.base, m) && At(sh.base, m, p, files)
    ensures sh'.ordered == sh.ordered
    ensures Explains(sh', g, config, files, history, t) && sh'.torn == []
    ensures sh'.rotation.None? <==> p == Untouched || p == Point.Complete
  {
    OpenedLayout(sh.base, m, p, files);
    if p == Point.Complete {
      sh' := RotationCompletes(sh, g, config, files, history, t);
    } else {
      sh' := sh.(rotation := if p == Untouched then None else Some((m, p)));
    }
  }

  // ----- tails -----

  /** Recovering one tail: the active file loses what a crash left after its last newline, or is refused. */
  lemma RecoverTailExplained(sh: Shadow, g: Grammar, config: Config, d: Disk, history: seq<Line>, slot: nat, now: int)
    returns (sh': Shadow)
    requires d.status.Running? && Explains(sh, g, config, d.files, history, now) && sh.rotation.None?
    requires slot <= config.maxRotated
    ensures sh'.ordered == sh.ordered
    ensures var r := RecoverTail(d, g, Home(slot), now);
      && Explains(sh', g, config, r.files, history, now) && sh'.rotation.None?
      && (r.status.Running? && slot == 0 ==> sh'.torn == [])
      && (sh.torn == [] ==> sh'.torn == [])
  {
    sh' := sh;
    BaseHasNoRotationFiles(sh, g, config);
    assert SlotHolds(g, config, sh.full, slot, sh.lines[slot], if slot == 0 then sh.torn else []);
    if Home(slot) in d.files {
      assert Get(sh.base, Home(slot)) == Get(sh.full, Home(slot));
      RecoverTailEffect(d, g, Home(slot), sh.lines[slot], if slot == 0 then sh.torn else [], now);
      if RecoverTail(d, g, Home(slot), now).files != d.files {
        assert sh.lines[0 := sh.lines[0]] == sh.lines;
        sh' := ActiveReplaced(sh, g, config, history, Encode(sh.lines[0]), sh.lines[0], [], now);
      }
    }
  }

  lemma RecoverTailEffect(d: Disk, g: Grammar, name: Name, lines: seq<Line>, torn: seq<Byte>, now: int)
    requires d.status.Running? && name in d.files && d.files[name].Log?
    requires d.files[name].bytes == Encode(lines) + torn && AllRecords(g, lines) && NEWLINE !in torn
    ensures var r := RecoverTail(d, g, name, now);
      && (r.files == d.files || (torn != [] && r.files == d.files[name := Log(Encode(lines), now)]))
      && (r.status.Running? ==> torn == [] || r.files != d.files)
  {
    var bytes := d.files[name].bytes;
    RustTailOnLog(g, lines, torn);
    if lines == [] {
      assert bytes == torn;
      RustTailWithoutNewline(g, torn);
    } else {
      assert bytes[..|Encode(lines)|] == Encode(lines);
      ApplyTailEffect(d, name, RustTail(g, bytes), lines, torn, now);
    }
  }

  lemma ApplyTailEffect(d: Disk, name: Name, outcome: TailOutcome, lines: seq<Line>, torn: seq<Byte>, now: int)
    requires d.status.Running? && name in d.files && d.files[name].Log?
    requires |d.files[name].bytes| == |Encode(lines)| + |torn|
    requires d.files[name].bytes[..|Encode(lines)|] == Encode(lines)
    requires if torn == [] then outcome.Complete? else outcome == Truncate(|Encode(lines)|) || outcome.Refused?
    ensures var r := ApplyTail(d, name, outcome, now);
      && (r.files == d.files || (torn != [] && r.files == d.files[name := Log(Encode(lines), now)]))
      && (r.status.Running? ==> torn == [] || r.files != d.files)
  {
    if outcome.Truncate? {
      assert d.files[name := Log(Encode(lines), now)][name].bytes != d.files[name].bytes;
    }
  }

  /** The active file gets new bytes; nothing else changes. */
  lemma ActiveReplaced(sh: Shadow, g: Grammar, config: Config, history: seq<Line>,
                       bytes: seq<Byte>, lines: seq<Line>, torn: seq<Byte>, now: int)
    returns (sh': Shadow)
    requires Stands(sh, g, config, now) && sh.rotation.None?
    requires bytes == Encode(lines) + torn && NEWLINE !in torn && AllRecords(g, lines) && Fits(config, bytes, lines, torn)
    requires IsSuffix(Flat(sh.lines[0 := lines]), history)
    ensures Explains(sh', g, config, sh'.base, history, now)
    ensures sh' == Shadow(sh.full[Active := Log(bytes, now)], sh.lines[0 := lines], torn,
                          sh.base[Active := Log(bytes, now)], None, sh.ordered)
  {
    sh' := Shadow(sh.full[Active := Log(bytes, now)], sh.lines[0 := lines], torn,
                  sh.base[Active := Log(bytes, now)], None, sh.ordered);
    forall slot: nat | slot <= config.maxRotated
      ensures SlotHolds(g, config, sh'.full, slot, sh'.lines[slot], if slot == 0 then torn else [])
    {
      assert SlotHolds(g, config, sh.full, slot, sh.lines[slot], if slot == 0 then sh.torn else []);
    }
    forall name: Name | name.IsRotationName() ensures name !in sh'.full {
      assert name !in sh.full;
    }
    if sh.ordered {
      WrittenTimely(config, sh.full, sh.base, bytes, now);
    }
  }

  lemma WrittenTimely(config: Config, full: Files, base: Files, bytes: seq<Byte>, now: int)
    requires Timely(config, full, base, now)
    ensures Timely(config, full[Active := Log(bytes, now)], base[Active := Log(bytes, now)], now)
  {
    var full' := full[Active := Log(bytes, now)];
    forall i: nat, j: nat | i < j <= config.maxRotated && Home(i) in full' && Home(j) in full'
      ensures full'[Home(i)].Log? && full'[Home(j)].Log? && full'[Home(i)].modified >= full'[Home(j)].modified
    {
      assert Home(j) in full;
      if i > 0 {
        assert Home(i) in full;
      }
    }
  }

  lemma {:induction false} RecoverTailsExplained(sh: Shadow, g: Grammar, config: Config, d: Disk, history: seq<Line>,
                                                 slot: nat, now: int)
    returns (sh': Shadow)
    requires Explains(sh, g, config, d.files, history, now)
    requires d.status.Running? ==> sh.rotation.None? && (slot > 0 ==> sh.torn == [])
    ensures sh'.ordered == sh.ordered
    ensures var r := RecoverTailsFrom(d, g, config.maxRotated, slot, now);
      && Explains(sh', g, config, r.files, history, now)
      && (r.status.Running? ==> AtRest(sh'))
    decreases config.maxRotated + 1 - slot
  {
    sh' := sh;
    if slot <= config.maxRotated {
      if d.status.Running? {
        sh' := RecoverTailExplained(sh, g, config, d, history, slot, now);
      }
      sh' := RecoverTailsExplained(sh', g, config, RecoverTail(d, g, Home(slot), now), history, slot + 1, now);
    }
  }

  // ----- pruning -----

  ghost predicate NoExpiredBackup(config: Config, files: Files, from: nat, now: int) {
    forall i: nat :: from <= i <= config.maxRotated && Backup(i) in files ==> !Expired(files[Backup(i)], config, now)
  }

  /** Pruning removes expired backups and nothing else, and all of them if it is not interrupted. */
  lemma {:induction false} PruneEffect(d: Disk, config: Config, index: nat, now: int)
    requires index >= 1
    ensures var r := PruneFrom(d, config, index, now);
      && (forall name: Name ::
            || Get(r.files, name) == Get(d.files, name)
            || (name.Backup? && index <= name.index <= config.maxRotated && name !in r.files && name in d.files
                && Expired(d.files[name], config, now)))
      && (r.status.Running? ==> d.status.Running? && NoExpiredBackup(config, r.files, index, now))
      && (r.status.Failed? ==> d.status.Failed?)
    decreases config.maxRotated + 1 - index
  {
    if index <= config.maxRotated {
      var backup := Backup(index);
      var next := if d.status.Running? && backup in d.files && Expired(d.files[backup], config, now)
                  then Sync(Remove(d, backup)) else d;
      PruneEffect(next, config, index + 1, now);
      var r := PruneFrom(next, config, index + 1, now);
      assert Get(r.files, backup) == Get(next.files, backup);
    }
  }

  /** Uninterrupted pruning leaves a backup in the range exactly if it is not a log older than the age limit. */
  lemma PrunedExactly(d: Disk, config: Config, now: int, name: Name)
    requires Prune(d, config, now).status.Running?
    ensures var files := Prune(d, config, now).files;
      var expired := name.Backup? && 1 <= name.index <= config.maxRotated && name in d.files
        && d.files[name].Log? && config.maxAge.Some? && now - d.files[name].modified >= config.maxAge.value;
      Get(files, name) == if expired then None else Get(d.files, name)
  {
    if config.maxAge.Some? {
      PruneEffect(d, config, 1, now);
    }
  }

  lemma PruneExplained(sh: Shadow, g: Grammar, config: Config, d: Disk, history: seq<Line>, now: int)
    returns (sh': Shadow)
    requires Explains(sh, g, config, d.files, history, now) && AtRest(sh)
    ensures sh'.ordered == sh.ordered
    ensures var r := Prune(d, config, now);
      && Explains(sh', g, config, r.files, history, now) && AtRest(sh')
      && Get(r.files, Active) == Get(d.files, Active)
      && (r.status.Running? ==> NoExpiredBackup(config, r.files, 1, now))
      && (r.status.Failed? ==> d.status.Failed?)
  {
    sh' := sh;
    if config.maxAge.Some? {
      PruneEffect(d, config, 1, now);
      var r := Prune(d, config, now);
      sh' := sh.(base := r.files);
      forall name: Name
        ensures || Get(sh'.base, name) == Get(sh.full, name)
                || (name.Backup? && 1 <= name.index <= config.maxRotated && name !in sh'.base && name in sh.full)
        ensures sh.ordered && name in sh.full && name !in sh'.base ==> Expired(sh.full[name], config, now)
      {
        assert || Get(r.files, name) == Get(d.files, name)
               || (name.Backup? && 1 <= name.index <= config.maxRotated && name !in r.files && name in d.files
                   && Expired(d.files[name], config, now));
        assert Get(d.files, name) == Get(sh.full, name) || name !in d.files;
      }
    }
  }

  // ----- rotating and appending -----

  predicate ValidTransaction(transaction: string) {
    forall i :: 0 <= i < |transaction| ==> IsTransactionChar(transaction[i])
  }

  lemma RotateExplained(sh: Shadow, g: Grammar, config: Config, d: Disk, history: seq<Line>,
                        size: nat, transaction: string, now: int)
    returns (sh': Shadow)
    requires Explains(sh, g, config, d.files, history, now) && AtRest(sh)
    requires ValidConfig(config) && ValidTransaction(transaction)
    requires d.status.Running? ==> NoExpiredBackup(config, d.files, 1, now)
    ensures sh'.ordered == sh.ordered
    ensures var r := RotateBeforeAppend(d, config, size, transaction, now);
      && Explains(sh', g, config, r.files, history, now)
      && sh'.torn == []
      && (r.status.Failed? ==> d.status.Failed?)
      && (r.status.Running? ==>
            && AtRest(sh') && NoExpiredBackup(config, r.files, 1, now)
            && (Active in r.files ==> r == d && !MustRotate(d.files[Active], config, size, now)))
  {
    sh' := sh;
    if d.status.Running? && Active in d.files && MustRotate(d.files[Active], config, size, now) {
      BaseHasNoRotationFiles(sh, g, config);
      assert SlotHolds(g, config, sh.full, 0, sh.lines[0], []);
      assert Get(sh.base, Active) == Get(sh.full, Active);
      var m := NewManifest(d.files, transaction, config.maxRotated);
      NewManifestStartable(d.files, transaction, config.maxRotated);
      var p := RotateCurrentAt(d, transaction, config.maxRotated);
      var rotated := RotateCurrent(d, transaction, config.maxRotated);
      sh' := PointExplained(sh, g, config, m, p, rotated.files, history, now);
      if rotated.status.Running? {
        OpenedLayout(d.files, m, p, rotated.files);
        assert Get(rotated.files, Active) == Shifted(d.files, config.maxRotated, Active);
        sh' := PruneExplained(sh', g, config, rotated, history, now);
      } else {
        PruneStopped(rotated, config, 1, now);
      }
    }
  }

  lemma FlatAppend(lines: seq<seq<Line>>, record: Line, history: seq<Line>)
    requires lines != [] && IsSuffix(Flat(lines), history)
    ensures IsSuffix(Flat(lines[0 := lines[0] + [record]]), history + [record])
  {
    var lines' := lines[0 := lines[0] + [record]];
    assert lines'[1..] == lines[1..];
    assert Flat(lines') == Flat(lines) + [record];
    assert (history + [record])[|history + [record]| - |Flat(lines')|..]
        == history[|history| - |Flat(lines)|..] + [record];
  }

  lemma EncodeOneMore(lines: seq<Line>, record: Line)
    ensures Encode(lines + [record]) == Encode(lines) + (record + [NEWLINE])
  {
    EncodeAppend(lines, [record]);
    assert Encode([record]) == record + [NEWLINE];
  }

  /** A line that needs no rotation leaves the file within the limit, and so does a part of it. */
  lemma LineFits(config: Config, content: Content, lines: seq<Line>, record: Line, written: nat, now: int)
    requires content.Log? && content.bytes == Encode(lines) && written <= |record| + 1
    requires !MustRotate(content, config, |record| + 1, now) && (lines != [] ==> content.bytes != [])
    ensures var bytes := content.bytes + (record + [NEWLINE])[..written];
      Fits(config, bytes, if written == |record| + 1 then lines + [record] else lines,
           if written == |record| + 1 then [] else record[..written])
  {
  }

  /** Writing a record to the active file: the whole line, or a torn part of it, or nothing. */
  lemma LineExplained(sh: Shadow, g: Grammar, config: Config, d: Disk, history: seq<Line>, record: Line, now: int)
    returns (sh': Shadow)
    requires d.status.Running? && Explains(sh, g, config, d.files, history, now) && AtRest(sh)
    requires Active in d.files && d.files[Active].Log? && !MustRotate(d.files[Active], config, |record| + 1, now)
    requires IsRecord(g, record)
    ensures sh'.ordered == sh.ordered
    ensures var r := Append(d, Active, record + [NEWLINE], now);
      && Explains(sh', g, config, r.files, if Reached(d, record) then history + [record] else history, now)
      && sh'.rotation.None?
      && (Reached(d, record) ==> sh'.torn == [] && sh'.lines[0] != [])
  {
    var r := Append(d, Active, record + [NEWLINE], now);
    if Reached(d, record) {
      assert (record + [NEWLINE])[..|record| + 1] == record + [NEWLINE];
      sh' := WholeLineExplained(sh, g, config, d, history, record, now);
    } else if d.tear == 0 {
      assert d.files[Active].bytes + (record + [NEWLINE])[..0] == d.files[Active].bytes;
      assert r.files == d.files;
      sh' := sh;
    } else {
      assert (record + [NEWLINE])[..d.tear] == record[..d.tear];
      sh' := TornLineExplained(sh, g, config, d, history, record, d.tear, now);
    }
  }

  /** What the active file of a log at rest holds. */
  lemma ActiveOfLogAtRest(sh: Shadow, g: Grammar, config: Config, files: Files, history: seq<Line>, now: int)
    requires Explains(sh, g, config, files, history, now) && AtRest(sh) && Active in files
    ensures files[Active].Log? && files[Active].bytes == Encode(sh.lines[0]) && AllRecords(g, sh.lines[0])
    ensures sh.lines[0] != [] ==> files[Active].bytes != []
  {
    BaseHasNoRotationFiles(sh, g, config);
    assert SlotHolds(g, config, sh.full, 0, sh.lines[0], []);
    if sh.lines[0] != [] {
      EncodeEnds(sh.lines[0]);
    }
  }

  lemma WholeLineExplained(sh: Shadow, g: Grammar, config: Config, d: Disk, history: seq<Line>, record: Line, now: int)
    returns (sh': Shadow)
    requires Explains(sh, g, config, d.files, history, now) && AtRest(sh) && IsRecord(g, record)
    requires Active in d.files && d.files[Active].Log? && !MustRotate(d.files[Active], config, |record| + 1, now)
    ensures sh'.ordered == sh.ordered
    ensures Explains(sh', g, config,
                     d.files[Active := Log(d.files[Active].bytes + (record + [NEWLINE]), now)], history + [record], now)
    ensures AtRest(sh') && sh'.lines[0] != []
  {
    ActiveOfLogAtRest(sh, g, config, d.files, history, now);
    var bytes, lines := d.files[Active].bytes, sh.lines[0];
    LineFits(config, d.files[Active], lines, record, |record| + 1, now);
    EncodeOneMore(lines, record);
    FlatAppend(sh.lines, record, history);
    assert (record + [NEWLINE])[..|record| + 1] == record + [NEWLINE];
    sh' := ActiveReplaced(sh, g, config, history + [record], bytes + (record + [NEWLINE]), lines + [record], [], now);
  }

  lemma TornLineExplained(sh: Shadow, g: Grammar, config: Config, d: Disk, history: seq<Line>, record: Line,
                          written: nat, now: int)
    returns (sh': Shadow)
    requires Explains(sh, g, config, d.files, history, now) && AtRest(sh) && IsRecord(g, record) && written <= |record|
    requires Active in d.files && d.files[Active].Log? && !MustRotate(d.files[Active], config, |record| + 1, now)
    ensures sh'.ordered == sh.ordered
    ensures Explains(sh', g, config,
                     d.files[Active := Log(d.files[Active].bytes + record[..written], now)], history, now)
    ensures sh'.rotation.None?
  {
    ActiveOfLogAtRest(sh, g, config, d.files, history, now);
    var bytes, lines := d.files[Active].bytes, sh.lines[0];
    LineFits(config, d.files[Active], lines, record, written, now);
    assert (record + [NEWLINE])[..written] == record[..written];
    assert sh.lines[0 := lines] == sh.lines;
    sh' := ActiveReplaced(sh, g, config, history, bytes + record[..written], lines, record[..written], now);
  }

  /** The disk once the active file exists. */
  function Prepared(d: Disk, now: int): Disk {
    if Active in d.files then d else Put(d, Active, Log([], now))
  }

  /** The files after the write of the record to the active file. */
  function Written(prepared: Disk, record: Line, now: int): Files
    requires prepared.status.Running? ==> Active in prepared.files && prepared.files[Active].Log?
  {
    if prepared.status.Running? then Append(prepared, Active, record + [NEWLINE], now).files else prepared.files
  }

  /** A write that is not interrupted has reached the file, and touches no backup. */
  lemma WriteOutcome(config: Config, d: Disk, record: Line, now: int)
    requires d.status.Running? && (Active in d.files ==> d.files[Active].Log?)
    requires NoExpiredBackup(config, d.files, 1, now)
    ensures var prepared := Prepared(d, now);
      var r := if prepared.status.Running? then Sync(Sync(Append(prepared, Active, record + [NEWLINE], now))) else prepared;
      && !r.status.Failed?
      && (r.status.Running? ==> Reached(prepared, record) && NoExpiredBackup(config, r.files, 1, now))
  {
  }

  /** Creating the active file, if it is absent, and writing the record to it. */
  lemma WriteExplained(sh: Shadow, g: Grammar, config: Config, d: Disk, history: seq<Line>, record: Line, now: int)
    returns (sh': Shadow)
    requires d.status.Running? && Explains(sh, g, config, d.files, history, now) && AtRest(sh)
    requires Active in d.files ==> !MustRotate(d.files[Active], config, |record| + 1, now)
    requires IsRecord(g, record)
    ensures sh'.ordered == sh.ordered
    ensures Active in d.files ==> d.files[Active].Log?
    ensures var prepared := Prepared(d, now);
      && Explains(sh', g, config, Written(prepared, record, now),
                  if Reached(prepared, record) then history + [record] else history, now)
      && (Reached(prepared, record) ==> AtRest(sh') && sh'.lines[0] != [])
  {
    sh' := sh;
    var prepared := Prepared(d, now);
    if Active in d.files {
      ActiveOfLogAtRest(sh, g, config, d.files, history, now);
      sh' := LineExplained(sh, g, config, d, history, record, now);
    } else if prepared.status.Running? {
      sh' := CreationExplained(sh, g, config, d, history, now);
      sh' := LineExplained(sh', g, config, prepared, history, record, now);
    }
  }

  lemma CreationExplained(sh: Shadow, g: Grammar, config: Config, d: Disk, history: seq<Line>, now: int)
    returns (sh': Shadow)
    requires d.status.Running? && Explains(sh, g, config, d.files, history, now) && AtRest(sh)
    requires Active !in d.files
    ensures sh'.ordered == sh.ordered
    ensures Explains(sh', g, config, d.files[Active := Log([], now)], history, now) && AtRest(sh')
  {
    BaseHasNoRotationFiles(sh, g, config);
    assert SlotHolds(g, config, sh.full, 0, sh.lines[0], []);
    assert sh.lines[0 := []] == sh.lines;
    sh' := ActiveReplaced(sh, g, config, history, [], [], [], now);
  }

  /** What an append leaves, stage by stage. */
  lemma AppendStages(d: Disk, config: Config, record: Line, transaction: string, now: int)
    requires d.status.Running?
    ensures var rotated := RotateBeforeAppend(Prune(d, config, now), config, |record| + 1, transaction, now);
      var prepared := OpenForAppend(d, config, record, transaction, now);
      var r := AppendRecord(d, config, record, transaction, now);
      && (!rotated.status.Running? ==> prepared == rotated && r == rotated && !Reached(prepared, record))
      && (rotated.status.Running? && (Active in rotated.files ==> rotated.files[Active].Log?) ==>
            && prepared == Prepared(rotated, now)
            && r.files == Written(prepared, record, now))
  {
  }

  lemma OpenExplained(sh: Shadow, g: Grammar, config: Config, d: Disk, history: seq<Line>,
                      record: Line, transaction: string, now: int)
    returns (sh': Shadow)
    requires d.status.Running? && Explains(sh, g, config, d.files, history, now) && AtRest(sh)
    requires ValidConfig(config) && ValidTransaction(transaction)
    ensures sh'.ordered == sh.ordered
    ensures var r := RotateBeforeAppend(Prune(d, config, now), config, |record| + 1, transaction, now);
      && Explains(sh', g, config, r.files, history, now)
      && !r.status.Failed?
      && (r.status.Running? ==>
            && AtRest(sh') && NoExpiredBackup(config, r.files, 1, now)
            && (Active in r.files ==> !MustRotate(r.files[Active], config, |record| + 1, now)))
  {
    sh' := PruneExplained(sh, g, config, d, history, now);
    sh' := RotateExplained(sh', g, config, Prune(d, config, now), history, |record| + 1, transaction, now);
  }

  /** An append on a log that is at rest, whatever interrupts it. */
  lemma AppendExplained(sh: Shadow, g: Grammar, config: Config, d: Disk, history: seq<Line>,
                        record: Line, transaction: string, now: int)
    returns (sh': Shadow)
    requires d.status.Running? && Explains(sh, g, config, d.files, history, now) && AtRest(sh)
    requires ValidConfig(config) && ValidTransaction(transaction) && IsRecord(g, record)
    ensures sh'.ordered == sh.ordered
    ensures var r := AppendRecord(d, config, record, transaction, now);
      var prepared := OpenForAppend(d, config, record, transaction, now);
      var history' := if Reached(prepared, record) then history + [record] else history;
      && Explains(sh', g, config, r.files, history', now)
      && !r.status.Failed?
      && (r.status.Running? ==>
            && Reached(prepared, record) && AtRest(sh') && sh'.lines[0] != []
            && NoExpiredBackup(config, r.files, 1, now))
  {
    sh' := OpenExplained(sh, g, config, d, history, record, transaction, now);
    var rotated := RotateBeforeAppend(Prune(d, config, now), config, |record| + 1, transaction, now);
    if rotated.status.Running? {
      sh' := WriteExplained(sh', g, config, rotated, history, record, now);
      WriteOutcome(config, rotated, record, now);
    }
    AppendStages(d, config, record, transaction, now);
  }
}
