/**
 What one step of a run does to the retained records, read through the manifest
 of a pending rotation: every record stays where it is or moves on by one slot
 with all the others, unless it was in the last slot or in an expired backup.
 */
module Retention {
  import opened Common
  import opened Storage
  import opened RotationSpec
  import opened TailRecovery
  import opened AuditLogSpec
  import opened AuditHistory

  /** Where slot `slot` is to be read, given the phase of the manifest that is present. */
  function ThroughManifest(files: Files, slot: nat): Option<Content> {
    if Manifest !in files || !files[Manifest].Document? then Get(files, Home(slot))
    else
      var m := files[Manifest].manifest;
      var staged := Get(files, Staged(m.transaction, slot));
      if m.phase == STAGING then Either(Get(files, Home(slot)), staged)
      else if slot >= m.maxRotated then staged
      else Either(staged, Get(files, Backup(slot + 1)))
  }

  function BytesOf(content: Option<Content>): seq<Byte> {
    if content.Some? && content.value.Log? then content.value.bytes else []
  }

  function LinesOf(content: Option<Content>): seq<Line> {
    CompleteLines(BytesOf(content))
  }

  function TornPart(content: Option<Content>): seq<Byte> {
    BytesOf(content)[CompleteEnd(BytesOf(content))..]
  }

  function SlotLines(files: Files, slot: nat): seq<Line> {
    LinesOf(ThroughManifest(files, slot))
  }

  // ----- how the contents of the slots go on -----

  /** What one slot holds: its file, the file's records, and what follows them. */
  datatype Slot = Slot(content: Option<Content>, lines: seq<Line>, torn: seq<Byte>)

  function SlotOf(content: Option<Content>): Slot {
    Slot(content, LinesOf(content), TornPart(content))
  }

  /** An append or a truncation at this time wrote the file. */
  predicate WrittenAt(content: Option<Content>, now: int) {
    content.Some? && content.value.Log? && content.value.modified == now
  }

  /** The records of `x` go on in `y`, with `gain` after them, and anything torn is a part of `record`. */
  predicate GoesOn(x: Slot, y: Slot, gain: seq<Line>, record: Line, now: int) {
    && y.lines == x.lines + gain
    && (y == x || (WrittenAt(y.content, now) && y.torn <= record))
  }

  predicate ExpiredAway(config: Config, x: Slot, y: Slot, now: int) {
    y.content.None? && y.lines == [] && x.content.Some? && Expired(x.content.value, config, now)
  }

  /** What becomes of the content that reaches slot `slot`: only the active file is created or gains records. */
  predicate ContentCarried(config: Config, x: Slot, y: Slot, slot: nat, gain: seq<Line>,
                           record: Line, now: int) {
    if slot == 0 then GoesOn(x, y, gain, record, now)
    else if x.content.None? then y == x
    else GoesOn(x, y, [], record, now) || ExpiredAway(config, x, y, now)
  }

  /** A manifest in its second phase is present: the oldest backup may have been dropped already. */
  predicate Installs(files: Files) {
    Manifest in files && files[Manifest].Document? && files[Manifest].manifest.phase == INSTALLING
  }

  /** What the slots hold, the active file first. */
  type View = seq<Slot>

  ghost function ViewOf(files: Files, max: nat): (view: View)
    ensures |view| == max + 1 && forall slot :: 0 <= slot <= max ==> view[slot] == SlotOf(ThroughManifest(files, slot))
  {
    seq(max + 1, slot requires 0 <= slot <= max => SlotOf(ThroughManifest(files, slot)))
  }

  /** The records of the slots, oldest slot first, down to `slot`. */
  ghost function LinesFrom(view: View, slot: nat): seq<Line>
    decreases |view| - slot
  {
    if slot >= |view| then [] else LinesFrom(view, slot + 1) + view[slot].lines
  }

  /** The bytes of the slots in the same order. */
  ghost function BytesFrom(view: View, slot: nat): seq<Byte>
    decreases |view| - slot
  {
    if slot >= |view| then [] else BytesFrom(view, slot + 1) + BytesOf(view[slot].content)
  }

  /** The retained bytes at any time, oldest slot first. */
  ghost function Logical(files: Files, max: nat): seq<Byte> {
    BytesFrom(ViewOf(files, max), 0)
  }

  /** The retained records at any time. */
  ghost function RetainedLines(files: Files, max: nat): seq<Line> {
    LinesFrom(ViewOf(files, max), 0)
  }

  /**
   Where slot `slot` of the later layout comes from, if the slots moved on by
   `shift` in between. If `dropping`, the last slot may be lost already.
   */
  predicate SlotCarried(config: Config, before: View, after: View, shift: nat, dropping: bool, added: seq<Line>,
                        slot: nat, record: Line, now: int)
    requires slot < |before| == |after|
  {
    if slot < shift then Refilled(after[slot], added, record)
    else
      || ContentCarried(config, before[slot - shift], after[slot], slot, added, record, now)
      || (dropping && shift == 0 && slot == |after| - 1 && after[slot].content.None? && after[slot].lines == []
          && before[0].lines != [])
  }

  /** The slot was emptied, and holds what was added since. */
  predicate Refilled(slot: Slot, added: seq<Line>, record: Line) {
    slot.lines == added && slot.torn <= record
  }

  /**
   The slots of `after` are those of `before`, moved on by at most one slot, and
   only if there was something in the first. What is missing was in the last
   slot or expired, and only the first slot gains records, `added`.
   */
  ghost predicate Carried(config: Config, before: View, after: View, shift: nat, dropping: bool, added: seq<Line>,
                          record: Line, now: int) {
    && 1 < |before| == |after|
    && shift <= 1
    && (shift == 1 ==> before[0].lines != [])
    && forall slot: nat :: slot < |after| ==> SlotCarried(config, before, after, shift, dropping, added, slot, record, now)
  }

  lemma NothingGained(lines: seq<Line>)
    ensures lines + [] == lines
  {
  }

  lemma Unchanged(config: Config, view: View, dropping: bool, record: Line, now: int)
    requires |view| > 1
    ensures Carried(config, view, view, 0, dropping, [], record, now)
  {
    forall slot: nat | slot < |view| ensures SlotCarried(config, view, view, 0, dropping, [], slot, record, now) {
      NothingGained(view[slot].lines);
    }
  }

  // The ways in which one stage carries the slots on.

  lemma MoveCarries(config: Config, a: View, b: View, record: Line, now: int)
    requires 1 < |a| == |b| && a[0].lines != [] && b[0].lines == [] && b[0].torn == []
    requires forall slot :: 1 <= slot < |b| ==> b[slot] == a[slot - 1]
    ensures Carried(config, a, b, 1, false, [], record, now)
  {
    forall slot: nat | slot < |b| ensures SlotCarried(config, a, b, 1, false, [], slot, record, now) {
      if slot >= 1 {
        NothingGained(a[slot - 1].lines);
      }
    }
  }

  lemma PlacesCarry(config: Config, a: View, b: View, dropping: bool, record: Line, now: int)
    requires 1 < |a| == |b| && (dropping ==> a[0].lines != [])
    requires forall slot :: 0 <= slot < |b| ==>
      b[slot] == a[slot] || (dropping && slot == |b| - 1 && b[slot].content.None? && b[slot].lines == [])
    ensures Carried(config, a, b, 0, dropping, [], record, now)
  {
    forall slot: nat | slot < |b| ensures SlotCarried(config, a, b, 0, dropping, [], slot, record, now) {
      NothingGained(a[slot].lines);
    }
  }

  lemma FirstCarries(config: Config, a: View, b: View, added: seq<Line>, record: Line, now: int)
    requires 1 < |a| == |b| && GoesOn(a[0], b[0], added, record, now)
    requires forall slot :: 1 <= slot < |b| ==> b[slot] == a[slot]
    ensures Carried(config, a, b, 0, false, added, record, now)
  {
    forall slot: nat | slot < |b| ensures SlotCarried(config, a, b, 0, false, added, slot, record, now) {
      NothingGained(a[slot].lines);
    }
  }

  lemma ContentCarriedTwice(config: Config, x: Slot, y: Slot, z: Slot,
                            slot: nat, gain: seq<Line>, record: Line, now: int)
    requires ValidConfig(config)
    requires ContentCarried(config, x, y, slot, [], record, now) && ContentCarried(config, y, z, slot, gain, record, now)
    ensures ContentCarried(config, x, z, slot, gain, record, now)
    ensures slot == 0 ==> y.lines == x.lines
  {
    NothingGained(x.lines);
  }

  /** The first stretch kept a slot, and the second moved it on. */
  lemma ContentCarriedOn(config: Config, x: Slot, y: Slot, z: Slot,
                         slot: nat, record: Line, now: int, gain: seq<Line>)
    requires ValidConfig(config) && (slot == 0 ==> y.lines != []) && (x.content.None? ==> x.lines == [])
    requires ContentCarried(config, x, y, slot, [], record, now) && ContentCarried(config, y, z, slot + 1, gain, record, now)
    ensures ContentCarried(config, x, z, slot + 1, gain, record, now)
    ensures slot == 0 ==> y.lines == x.lines
  {
    NothingGained(x.lines);
  }

  lemma RefilledAgain(config: Config, y: Slot, z: Slot, gain: seq<Line>, record: Line, now: int)
    requires Refilled(y, [], record) && ContentCarried(config, y, z, 0, gain, record, now)
    ensures Refilled(z, gain, record)
  {
    assert [] + gain == gain;
  }

  lemma CarriedAfterMove(config: Config, a: View, b: View, c: View, dropping: bool, added: seq<Line>,
                         slot: nat, record: Line, now: int)
    requires ValidConfig(config) && slot < |a| == |b| == |c|
    requires SlotCarried(config, a, b, 1, false, [], 0, record, now)
    requires SlotCarried(config, a, b, 1, false, [], slot, record, now)
    requires SlotCarried(config, b, c, 0, dropping, added, slot, record, now) && |c| > 1
    ensures SlotCarried(config, a, c, 1, dropping, added, slot, record, now)
  {
    assert ContentCarried(config, b[slot], c[slot], slot, added, record, now);
    if slot == 0 {
      RefilledAgain(config, b[0], c[0], added, record, now);
    } else {
      ContentCarriedTwice(config, a[slot - 1], b[slot], c[slot], slot, added, record, now);
    }
  }

  lemma MovedAfterCarry(config: Config, a: View, b: View, c: View, dropping: bool, added: seq<Line>,
                        slot: nat, record: Line, now: int)
    requires ValidConfig(config) && slot < |a| == |b| == |c| && b[0].lines != []
    requires slot > 0 ==>
      SlotCarried(config, a, b, 0, false, [], slot - 1, record, now) && (a[slot - 1].content.None? ==> a[slot - 1].lines == [])
    requires SlotCarried(config, b, c, 1, dropping, added, slot, record, now)
    ensures SlotCarried(config, a, c, 1, dropping, added, slot, record, now)
  {
    if slot > 0 {
      ContentCarriedOn(config, a[slot - 1], b[slot - 1], c[slot], slot - 1, record, now, added);
    }
  }

  lemma CarriedInPlace(config: Config, a: View, b: View, c: View, dropping: bool, added: seq<Line>,
                       slot: nat, record: Line, now: int)
    requires ValidConfig(config) && slot < |a| == |b| == |c|
    requires b[0].lines == a[0].lines
    requires SlotCarried(config, a, b, 0, false, [], slot, record, now)
    requires SlotCarried(config, b, c, 0, dropping, added, slot, record, now)
    ensures SlotCarried(config, a, c, 0, dropping, added, slot, record, now)
  {
    if ContentCarried(config, b[slot], c[slot], slot, added, record, now) {
      ContentCarriedTwice(config, a[slot], b[slot], c[slot], slot, added, record, now);
    }
  }

  /** Two stretches of a step, of which at most one moved the slots on. */
  lemma CarriedTwice(config: Config, a: View, b: View, c: View, first: nat, second: nat, shift: nat,
                     dropping: bool, added: seq<Line>, record: Line, now: int)
    requires ValidConfig(config) && shift == first + second
    requires Carried(config, a, b, first, false, [], record, now)
    requires Carried(config, b, c, second, dropping, added, record, now)
    requires forall slot :: 0 <= slot < |a| && a[slot].content.None? ==> a[slot].lines == []
    ensures Carried(config, a, c, shift, dropping, added, record, now)
  {
    assert SlotCarried(config, a, b, first, false, [], 0, record, now);
    NothingGained(a[0].lines);
    forall slot: nat | slot < |c| ensures SlotCarried(config, a, c, shift, dropping, added, slot, record, now) {
      assert SlotCarried(config, b, c, second, dropping, added, slot, record, now);
      if second == 1 {
        assert slot > 0 ==> SlotCarried(config, a, b, 0, false, [], slot - 1, record, now);
        MovedAfterCarry(config, a, b, c, dropping, added, slot, record, now);
      } else {
        assert SlotCarried(config, a, b, first, false, [], slot, record, now);
        if first == 1 {
          CarriedAfterMove(config, a, b, c, dropping, added, slot, record, now);
        } else {
          CarriedInPlace(config, a, b, c, dropping, added, slot, record, now);
        }
      }
    }
  }

  /** How `before` can have become `after`: by how many slots the contents moved on, and what was added. */
  ghost function Ways(config: Config, before: Files, after: Files, record: Line, now: int): iset<(nat, seq<Line>)> {
    iset way: (nat, seq<Line>) |
      Carried(config, ViewOf(before, config.maxRotated), ViewOf(after, config.maxRotated),
              way.0, Installs(after), way.1, record, now)
  }

  lemma IsWay(config: Config, before: Files, after: Files, a: View, b: View, shift: nat, dropping: bool,
              added: seq<Line>, record: Line, now: int)
    requires a == ViewOf(before, config.maxRotated) && b == ViewOf(after, config.maxRotated) && dropping == Installs(after)
    requires Carried(config, a, b, shift, dropping, added, record, now)
    ensures (shift, added) in Ways(config, before, after, record, now)
  {
  }

  lemma WayIs(config: Config, before: Files, after: Files, a: View, b: View, shift: nat, dropping: bool,
              added: seq<Line>, record: Line, now: int)
    requires a == ViewOf(before, config.maxRotated) && b == ViewOf(after, config.maxRotated) && dropping == Installs(after)
    requires (shift, added) in Ways(config, before, after, record, now)
    ensures Carried(config, a, b, shift, dropping, added, record, now)
  {
  }

  lemma FilesUnchanged(config: Config, files: Files, record: Line, now: int)
    requires config.maxRotated >= 1
    ensures (0, []) in Ways(config, files, files, record, now)
  {
    var view := ViewOf(files, config.maxRotated);
    Unchanged(config, view, Installs(files), record, now);
    IsWay(config, files, files, view, view, 0, Installs(files), [], record, now);
  }

  lemma NoContentNoLines()
    ensures LinesOf(None) == [] && TornPart(None) == []
  {
    SplitWithoutNewline([]);
  }

  lemma AllHaveLines(files: Files, max: nat)
    ensures var view := ViewOf(files, max);
      forall slot :: 0 <= slot < |view| && view[slot].content.None? ==> view[slot].lines == []
  {
    NoContentNoLines();
  }

  lemma FilesCarriedTwice(config: Config, a: Files, b: Files, c: Files, first: nat, second: nat, shift: nat,
                          added: seq<Line>, record: Line, now: int)
    requires ValidConfig(config) && Manifest !in b && shift == first + second
    requires (first, []) in Ways(config, a, b, record, now) && (second, added) in Ways(config, b, c, record, now)
    ensures (shift, added) in Ways(config, a, c, record, now)
  {
    var max := config.maxRotated;
    var u, v, w := ViewOf(a, max), ViewOf(b, max), ViewOf(c, max);
    AllHaveLines(a, max);
    WayIs(config, a, b, u, v, first, false, [], record, now);
    WayIs(config, b, c, v, w, second, Installs(c), added, record, now);
    CarriedTwice(config, u, v, w, first, second, shift, Installs(c), added, record, now);
    IsWay(config, a, c, u, w, shift, Installs(c), added, record, now);
  }
}
