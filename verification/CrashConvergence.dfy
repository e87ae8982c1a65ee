/**
 A rotation that is interrupted anywhere, any number of times, and resumed by
 reopening the log, moves forward along one line of disk layouts. Its end is
 the layout of one atomic shift.
 */
module CrashConvergence {
  import opened Common
  import opened Storage
  import opened RotationSpec

  /**
   The layouts that a rotation passes through, in order. In `Declaring` and
   `Switching` a manifest is being written under its temporary name.
   */
  datatype Point =
    | Untouched
    | Declaring
    | Staging(staged: nat)
    | Switching
    | Installing(installed: nat)
    | Dropped
    | Complete
  {
    predicate WritesManifest() {
      Declaring? || Switching?
    }

    /** The position of this layout on the line. */
    function Order(max: nat): nat {
      match this
      case Untouched => 0
      case Declaring => 1
      case Staging(k) => 2 + k
      case Switching => max + 4
      case Installing(k) => max + 5 + k
      case Dropped => 2 * max + 6
      case Complete => 2 * max + 7
    }

    function StagedSlots(max: nat): nat {
      match this
      case Untouched => 0
      case Declaring => 0
      case Staging(k) => k
      case _ => max + 1
    }

    function InstalledSlots(max: nat): nat {
      match this
      case Installing(k) => k
      case Dropped => max
      case Complete => max
      case _ => 0
    }

    predicate Within(max: nat) {
      && (Staging? ==> staged <= max + 1)
      && (Installing? ==> installed <= max)
    }
  }

  /** What stands under `name` at point `p` of the rotation that `m` declared on the layout `o`. */
  function Held(o: Files, m: RotationManifest, p: Point, name: Name): Option<Content> {
    var staged := p.StagedSlots(m.maxRotated);
    var installed := p.InstalledSlots(m.maxRotated);
    match name
    case Active => if staged > 0 then None else Get(o, Active)
    case Backup(i) =>
      if 1 <= i <= installed then Get(o, Home(i - 1))
      else if 1 <= i < staged then None
      else Get(o, name)
    case Staged(t, slot) =>
      if t == m.transaction && installed <= slot < staged && !(slot == m.maxRotated && (p.Dropped? || p.Complete?))
      then Get(o, Home(slot))
      else None
    case Manifest =>
      (match p
       case Staging(_) => Some(Document(m))
       case Switching => Some(Document(m))
       case Installing(_) => Some(Document(m.(phase := INSTALLING)))
       case Dropped => Some(Document(m.(phase := INSTALLING)))
       case _ => None)
    case ManifestTemp(_) => None
  }

  /** The files are exactly those of point `p`; a manifest being written may hold anything. */
  ghost predicate At(o: Files, m: RotationManifest, p: Point, files: Files) {
    && p.Within(m.maxRotated)
    && (forall name: Name :: name != ManifestTemp(m.transaction) ==> Get(files, name) == Held(o, m, p, name))
    && (ManifestTemp(m.transaction) in files <==> p.WritesManifest())
  }

  /** `m` is the manifest of a rotation that can start on `o`: no rotation file is left from before. */
  ghost predicate Startable(o: Files, m: RotationManifest) {
    && !HasRotationFiles(o)
    && Active in o
    && ValidManifest(m) && m.phase == STAGING
    && (forall i: nat :: i in m.backups <==> 1 <= i <= m.maxRotated && Backup(i) in o)
  }

  /** The layout of one atomic shift: backup 1 is the old active file, backup i + 1 the old backup i. */
  function Shifted(o: Files, max: nat, name: Name): Option<Content> {
    match name
    case Active => None
    case Backup(i) => if 1 <= i <= max then Get(o, Home(i - 1)) else Get(o, name)
    case _ => Get(o, name)
  }

  ghost predicate IsShiftOf(o: Files, max: nat, files: Files) {
    forall name: Name :: Get(files, name) == Shifted(o, max, name)
  }

  lemma CompleteIsShift(o: Files, m: RotationManifest, files: Files)
    requires Startable(o, m)
    ensures At(o, m, Complete, files) <==> IsShiftOf(o, m.maxRotated, files)
  {
    forall name: Name ensures Held(o, m, Complete, name) == Shifted(o, m.maxRotated, name) {
      assert name.IsRotationName() ==> name !in o;
    }
    if IsShiftOf(o, m.maxRotated, files) {
      assert Get(files, ManifestTemp(m.transaction)) == Shifted(o, m.maxRotated, ManifestTemp(m.transaction));
    }
    if At(o, m, Complete, files) {
      assert ManifestTemp(m.transaction) !in files;
      forall name: Name ensures Get(files, name) == Shifted(o, m.maxRotated, name) {
      }
    }
  }

  /** Staging a slot: nothing to do if it is staged, and otherwise one layout further. */
  lemma StageSlotAt(o: Files, m: RotationManifest, k: nat, d: Disk, slot: nat) returns (p: Point)
    requires Startable(o, m) && d.status.Running? && At(o, m, Staging(k), d.files)
    requires slot <= k && slot <= m.maxRotated
    ensures var r := StageSlot(d, m.transaction, slot, Expected(m, slot));
      && !r.status.Failed?
      && At(o, m, p, r.files)
      && p.Staging? && k <= p.staged <= k + 1
      && (slot < k ==> r == d && p == Staging(k))
      && (r.status.Running? ==> p == Staging(if slot < k then k else k + 1))
      && (d.fuel >= 2 ==> r.status.Running?)
      && (r.status.Running? ==> r.fuel + 2 >= d.fuel)
  {
    var r := StageSlot(d, m.transaction, slot, Expected(m, slot));
    var source, stage := Home(slot), Staged(m.transaction, slot);
    assert Get(d.files, source) == Held(o, m, Staging(k), source);
    assert Get(d.files, stage) == Held(o, m, Staging(k), stage);
    if slot < k {
      p := Staging(k);
    } else if !Expected(m, slot) {
      p := Staging(k + 1);
      assert At(o, m, p, r.files);
    } else if d.fuel == 0 {
      p := Staging(k);
    } else {
      p := Staging(k + 1);
      assert r.files == Moved(d.files, source, stage);
      forall name: Name | name != ManifestTemp(m.transaction)
        ensures Get(r.files, name) == Held(o, m, p, name)
      {
        assert Get(d.files, name) == Held(o, m, Staging(k), name);
        if name != source && name != stage {
          assert Get(r.files, name) == Get(d.files, name);
        }
      }
    }
  }

  lemma StageFromAt(o: Files, m: RotationManifest, k: nat, d: Disk, slot: nat) returns (p: Point)
    requires Startable(o, m) && d.status.Running? && At(o, m, Staging(k), d.files)
    requires slot <= k
    ensures var r := StageFrom(d, m, slot);
      && !r.status.Failed?
      && At(o, m, p, r.files)
      && p.Staging? && k <= p.staged
      && (r.status.Running? ==> p == Staging(m.maxRotated + 1))
      && (d.fuel >= 2 * (m.maxRotated + 1 - k) ==>
            r.status.Running? && r.fuel + 2 * (m.maxRotated + 1 - k) >= d.fuel)
    decreases m.maxRotated + 1 - slot
  {
    if slot > m.maxRotated {
      p := Staging(k);
    } else {
      var next := StageSlot(d, m.transaction, slot, Expected(m, slot));
      p := StageSlotAt(o, m, k, d, slot);
      if next.status.Running? {
        p := StageFromAt(o, m, p.staged, next, slot + 1);
      } else {
        StageFromStopped(next, m, slot + 1);
      }
    }
  }

  /** Installing a slot: nothing to do if it is installed, and otherwise one layout further. */
  lemma InstallSlotAt(o: Files, m: RotationManifest, k: nat, d: Disk, slot: nat) returns (p: Point)
    requires Startable(o, m) && d.status.Running? && At(o, m, Installing(k), d.files)
    requires slot <= k && slot < m.maxRotated
    ensures var r := InstallSlot(d, m.transaction, slot, Expected(m, slot));
      && !r.status.Failed?
      && At(o, m, p, r.files)
      && p.Installing? && k <= p.installed <= k + 1
      && (slot < k ==> r == d && p == Installing(k))
      && (r.status.Running? ==> p == Installing(if slot < k then k else k + 1))
      && (d.fuel >= 2 ==> r.status.Running?)
      && (r.status.Running? ==> r.fuel + 2 >= d.fuel)
  {
    var r := InstallSlot(d, m.transaction, slot, Expected(m, slot));
    var stage, target := Staged(m.transaction, slot), Backup(slot + 1);
    assert Get(d.files, stage) == Held(o, m, Installing(k), stage);
    assert Get(d.files, target) == Held(o, m, Installing(k), target);
    p := Installing(if slot < k || (Expected(m, slot) && d.fuel == 0) then k else k + 1);
    forall name: Name | name != ManifestTemp(m.transaction)
      ensures Get(r.files, name) == Held(o, m, p, name)
    {
      assert Get(d.files, name) == Held(o, m, Installing(k), name);
      if name != stage && name != target {
        assert Get(r.files, name) == Get(d.files, name);
      }
    }
  }

  lemma InstallFromAt(o: Files, m: RotationManifest, k: nat, d: Disk, slot: nat) returns (p: Point)
    requires Startable(o, m) && d.status.Running? && At(o, m, Installing(k), d.files)
    requires slot <= k
    ensures var r := InstallFrom(d, m, slot);
      && !r.status.Failed?
      && At(o, m, p, r.files)
      && p.Installing? && k <= p.installed
      && (r.status.Running? ==> p == Installing(m.maxRotated))
      && (d.fuel >= 2 * (m.maxRotated - k) ==>
            r.status.Running? && r.fuel + 2 * (m.maxRotated - k) >= d.fuel)
    decreases m.maxRotated - slot
  {
    if slot >= m.maxRotated {
      p := Installing(k);
    } else {
      var next := InstallSlot(d, m.transaction, slot, Expected(m, slot));
      p := InstallSlotAt(o, m, k, d, slot);
      if next.status.Running? {
        p := InstallFromAt(o, m, p.installed, next, slot + 1);
      } else {
        InstallFromStopped(next, m, slot + 1);
      }
    }
  }

  lemma InstallFromPhase(d: Disk, m: RotationManifest, phase: string, slot: nat)
    ensures InstallFrom(d, m.(phase := phase), slot) == InstallFrom(d, m, slot)
    decreases m.maxRotated - slot
  {
    if slot < m.maxRotated {
      InstallFromPhase(InstallSlot(d, m.transaction, slot, Expected(m, slot)), m, phase, slot + 1);
    }
  }

  /** Writing a manifest: it is in place, or its temporary file is left, or nothing happened. */
  lemma WriteManifestOutcome(d: Disk, m: RotationManifest)
    requires d.status.Running? && ManifestTemp(m.transaction) !in d.files
    ensures var r := WriteManifest(d, m);
      && !r.status.Failed?
      && (d.fuel >= 6 ==> r.status.Running? && r.fuel + 6 == d.fuel)
      && (r.status.Running? ==> d.fuel >= 6)
      && (d.fuel == 0 ==> r.files == d.files)
      && (1 <= d.fuel <= 4 ==>
            && r.files.Keys == d.files.Keys + {ManifestTemp(m.transaction)}
            && (forall name: Name :: name != ManifestTemp(m.transaction) ==> Get(r.files, name) == Get(d.files, name)))
      && (d.fuel >= 5 ==> r.files == d.files[Manifest := Document(m)])
  {
  }

  /** Dropping the staged backup N and the manifest, from either of the two layouts it can start in. */
  lemma DiscardAt(o: Files, m: RotationManifest, from: Point, d: Disk) returns (p: Point)
    requires Startable(o, m) && d.status.Running? && At(o, m, from, d.files)
    requires from == Installing(m.maxRotated) || from == Dropped
    ensures var r := Discard(d, m);
      && !r.status.Failed?
      && At(o, m, p, r.files)
      && (p == from || p == Dropped || p == Complete)
      && from.Order(m.maxRotated) <= p.Order(m.maxRotated)
      && (r.status.Running? ==> p == Complete)
      && (d.fuel >= 4 ==> r.status.Running?)
  {
    var r := Discard(d, m);
    var oldest := Staged(m.transaction, m.maxRotated);
    assert Get(d.files, oldest) == Held(o, m, from, oldest);
    assert Get(d.files, Manifest) == Held(o, m, from, Manifest);
    p := if Manifest !in r.files then Complete else if oldest in r.files then from else Dropped;
    forall name: Name | name != ManifestTemp(m.transaction)
      ensures Get(r.files, name) == Held(o, m, p, name)
    {
      assert Get(d.files, name) == Held(o, m, from, name);
      if name != oldest && name != Manifest {
        assert Get(r.files, name) == Get(d.files, name);
      }
    }
  }

  /** The points at which a manifest is in place and no other one is being written. */
  predicate Resumable(p: Point) {
    p.Staging? || p.Installing? || p.Dropped?
  }

  /** An upper bound on the primitives that the rest of the rotation takes. */
  function Need(max: nat, p: Point): nat {
    match p
    case Untouched => 4 * max + 18
    case Staging(k) => 2 * (if k <= max then max + 1 - k else 0) + 2 * max + 10
    case Installing(k) => 2 * (if k <= max then max - k else 0) + 4
    case _ => 4
  }

  lemma InstallAndDiscardAt(o: Files, m: RotationManifest, from: Point, d: Disk) returns (p: Point)
    requires Startable(o, m) && d.status.Running? && At(o, m, from, d.files)
    requires from.Installing? || from.Dropped?
    ensures var r := Discard(InstallFrom(d, m, 0), m);
      && !r.status.Failed?
      && At(o, m, p, r.files)
      && (p.Installing? || p == Dropped || p == Complete)
      && from.Order(m.maxRotated) <= p.Order(m.maxRotated)
      && (r.status.Running? ==> p == Complete)
      && (d.fuel >= Need(m.maxRotated, from) ==> r.status.Running?)
  {
    if from.Dropped? {
      InstalledNoWork(o, m, d, 0);
      p := DiscardAt(o, m, from, d);
    } else {
      var installed := InstallFrom(d, m, 0);
      p := InstallFromAt(o, m, from.installed, d, 0);
      if installed.status.Running? {
        p := DiscardAt(o, m, p, installed);
      }
    }
  }

  /** Once the old backup N is dropped, every install finds its target in place. */
  lemma InstalledNoWork(o: Files, m: RotationManifest, d: Disk, slot: nat)
    requires Startable(o, m) && d.status.Running? && At(o, m, Dropped, d.files)
    ensures InstallFrom(d, m, slot) == d
    decreases m.maxRotated - slot
  {
    if slot < m.maxRotated {
      var stage, target := Staged(m.transaction, slot), Backup(slot + 1);
      assert Get(d.files, stage) == Held(o, m, Dropped, stage);
      assert Get(d.files, target) == Held(o, m, Dropped, target);
      assert InstallSlot(d, m.transaction, slot, Expected(m, slot)) == d;
      InstalledNoWork(o, m, d, slot + 1);
    }
  }

  /** The second manifest write, after all slots are staged. */
  lemma SwitchAt(o: Files, m: RotationManifest, d: Disk) returns (p: Point)
    requires Startable(o, m) && d.status.Running? && At(o, m, Staging(m.maxRotated + 1), d.files)
    ensures var r := WriteManifest(d, m.(phase := INSTALLING));
      && !r.status.Failed?
      && At(o, m, p, r.files)
      && p == (if d.fuel == 0 then Staging(m.maxRotated + 1) else if d.fuel <= 4 then Switching else Installing(0))
      && (r.status.Running? ==> p == Installing(0))
      && (d.fuel >= 6 ==> r.status.Running? && r.fuel + 6 == d.fuel)
  {
    var next := m.(phase := INSTALLING);
    var r := WriteManifest(d, next);
    WriteManifestOutcome(d, next);
    p := if d.fuel == 0 then Staging(m.maxRotated + 1) else if d.fuel <= 4 then Switching else Installing(0);
    forall name: Name | name != ManifestTemp(m.transaction)
      ensures Get(r.files, name) == Held(o, m, p, name)
    {
      assert Get(d.files, name) == Held(o, m, Staging(m.maxRotated + 1), name);
    }
  }

  /** The staging half of a recovery, and all that follows it. */
  lemma RecoverStagingAt(o: Files, m: RotationManifest, k: nat, d: Disk) returns (p: Point)
    requires Startable(o, m) && d.status.Running? && At(o, m, Staging(k), d.files)
    ensures var r := Discard(InstallFrom(Stage(d, m), m, 0), m);
      && !r.status.Failed?
      && At(o, m, p, r.files)
      && Staging(k).Order(m.maxRotated) <= p.Order(m.maxRotated)
      && p != Untouched && p != Declaring
      && (r.status.Running? ==> p == Complete)
      && (d.fuel >= Need(m.maxRotated, Staging(k)) ==> r.status.Running?)
  {
    var next := m.(phase := INSTALLING);
    var staged := StageFrom(d, m, 0);
    p := StageFromAt(o, m, k, d, 0);
    if staged.status.Running? {
      var switched := WriteManifest(staged, next);
      p := SwitchAt(o, m, staged);
      if switched.status.Running? {
        p := InstallAndDiscardAt(o, m, p, switched);
      } else {
        InstallFromStopped(switched, m, 0);
      }
    } else {
      assert WriteManifest(staged, next).files == staged.files;
      InstallFromStopped(WriteManifest(staged, next), m, 0);
    }
  }

  /** One recovery, from any layout in which it is possible, with any budget. */
  lemma RecoverManifestAt(o: Files, m: RotationManifest, from: Point, d: Disk) returns (p: Point)
    requires Startable(o, m) && d.status.Running? && At(o, m, from, d.files)
    requires Resumable(from)
    ensures Manifest in d.files
    ensures var r := RecoverManifest(d);
      && !r.status.Failed?
      && At(o, m, p, r.files)
      && from.Order(m.maxRotated) <= p.Order(m.maxRotated)
      && p != Untouched && p != Declaring
      && (r.status.Running? ==> p == Complete)
      && (d.fuel >= Need(m.maxRotated, from) ==> r.status.Running?)
  {
    assert Get(d.files, Manifest) == Held(o, m, from, Manifest);
    if from.Staging? {
      p := RecoverStagingAt(o, m, from.staged, d);
    } else {
      InstallFromPhase(d, m, INSTALLING, 0);
      p := InstallAndDiscardAt(o, m, from, d);
    }
  }

  lemma NoRotationFilesAt(o: Files, m: RotationManifest, p: Point, files: Files)
    requires Startable(o, m) && At(o, m, p, files)
    ensures HasRotationFiles(files) <==> p != Untouched && p != Complete
  {
    if p == Untouched || p == Complete {
      forall name: Name | name.IsRotationName() ensures name !in files {
        if name != ManifestTemp(m.transaction) {
          assert Get(files, name) == Held(o, m, p, name);
        }
      }
    } else if p.WritesManifest() {
      assert ManifestTemp(m.transaction).IsRotationName();
    } else {
      assert Get(files, Manifest) == Held(o, m, p, Manifest);
      assert Manifest.IsRotationName();
    }
  }

  /** Reopening the log after an interruption, with `fuel` primitives until the next one. */
  function Reopen(files: Files, fuel: nat): Disk {
    FinishRotation(Disk(files, fuel, 0, Running))
  }

  /**
   Reopening is refused exactly while a manifest's temporary file is left, and
   then it changes nothing. Otherwise it moves forward, and it completes the
   rotation if the budget allows.
   */
  lemma FinishRotationAt(o: Files, m: RotationManifest, from: Point, d: Disk) returns (p: Point)
    requires Startable(o, m) && d.status.Running? && At(o, m, from, d.files)
    ensures var r := FinishRotation(d);
      && At(o, m, p, r.files)
      && from.Order(m.maxRotated) <= p.Order(m.maxRotated)
      && (r.status.Failed? <==> from.WritesManifest())
      && (from.WritesManifest() ==> r.files == d.files)
      && (r.status.Running? ==> p == (if from == Untouched then Untouched else Complete))
      && (from == Untouched ==> p == Untouched)
      && (!from.WritesManifest() && d.fuel >= Need(m.maxRotated, from) ==> r.status.Running?)
  {
    NoRotationFilesAt(o, m, from, d.files);
    assert Get(d.files, Manifest) == Held(o, m, from, Manifest);
    if Resumable(from) {
      p := RecoverManifestAt(o, m, from, d);
      NoRotationFilesAt(o, m, p, RecoverManifest(d).files);
    } else {
      p := from;
      if from.Switching? {
        SwitchingRefused(o, m, d);
      }
    }
  }

  lemma SwitchingRefused(o: Files, m: RotationManifest, d: Disk)
    requires Startable(o, m) && d.status.Running? && At(o, m, Switching, d.files)
    ensures Manifest in d.files && RecoverManifest(d) == Refuse(d, RecoveryFailed)
  {
    assert Get(d.files, Manifest) == Held(o, m, Switching, Manifest);
    AllStagedNoWork(o, m, d, 0);
    InstallFromStopped(Refuse(d, RecoveryFailed), m, 0);
  }

  lemma AllStagedNoWork(o: Files, m: RotationManifest, d: Disk, slot: nat)
    requires Startable(o, m) && d.status.Running? && At(o, m, Switching, d.files)
    ensures StageFrom(d, m, slot) == d
    decreases m.maxRotated + 1 - slot
  {
    if slot <= m.maxRotated {
      var source, stage := Home(slot), Staged(m.transaction, slot);
      assert Get(d.files, source) == Held(o, m, Switching, source);
      assert Get(d.files, stage) == Held(o, m, Switching, stage);
      assert StageSlot(d, m.transaction, slot, Expected(m, slot)) == d;
      AllStagedNoWork(o, m, d, slot + 1);
    }
  }

  /** The log can rotate on `o`: its active file exists and no rotation is pending. */
  ghost predicate CanRotate(o: Files, transaction: string, max: nat) {
    && !HasRotationFiles(o)
    && Active in o
    && max >= 1
    && forall i :: 0 <= i < |transaction| ==> IsTransactionChar(transaction[i])
  }

  lemma NewManifestStartable(o: Files, transaction: string, max: nat)
    requires CanRotate(o, transaction, max)
    ensures Startable(o, NewManifest(o, transaction, max))
  {
    var m := NewManifest(o, transaction, max);
    assert forall i :: 0 <= i < |m.backups| ==> m.backups[i] in m.backups;
  }

  lemma RotateCurrentAt(d: Disk, transaction: string, max: nat) returns (p: Point)
    requires d.status.Running? && CanRotate(d.files, transaction, max)
    ensures var r := RotateCurrent(d, transaction, max);
      && At(d.files, NewManifest(d.files, transaction, max), p, r.files)
      && !r.status.Failed?
      && (p == Untouched <==> d.fuel == 0)
      && (r.status.Running? ==> p == Complete)
      && (d.fuel >= Need(max, Untouched) ==> r.status.Running?)
  {
    var o, fuel := d.files, d.fuel;
    var m := NewManifest(o, transaction, max);
    NewManifestStartable(o, transaction, max);
    assert ManifestTemp(transaction).IsRotationName();
    WriteManifestOutcome(d, m);
    var declared := WriteManifest(d, m);
    p := if fuel == 0 then Untouched else if fuel <= 4 then Declaring else Staging(0);
    forall name: Name | name != ManifestTemp(transaction)
      ensures Get(declared.files, name) == Held(o, m, p, name)
    {
      assert name.IsRotationName() ==> name !in o;
    }
    if declared.status.Running? {
      p := RecoverManifestAt(o, m, p, declared);
    }
  }

  /** Reopens the log after each crash, until it opens or the schedule of budgets is used up. */
  function Reopenings(d: Disk, schedule: seq<nat>): Disk
    decreases |schedule|
  {
    if schedule == [] || d.status.Running? then d
    else Reopenings(Reopen(d.files, schedule[0]), schedule[1..])
  }

  /** A rotation that may crash, followed by reopenings that may crash. */
  function RotationRun(o: Files, transaction: string, max: nat, fuel: nat, schedule: seq<nat>): Disk {
    Reopenings(RotateCurrent(Disk(o, fuel, 0, Running), transaction, max), schedule)
  }

  lemma {:induction false} ReopeningsAt(o: Files, m: RotationManifest, from: Point, d: Disk, schedule: seq<nat>)
    returns (p: Point)
    requires Startable(o, m) && At(o, m, from, d.files)
    requires d.status.Running? ==> from == Untouched || from == Complete
    requires d.status.Failed? ==> from.WritesManifest()
    ensures var r := Reopenings(d, schedule);
      && At(o, m, p, r.files)
      && from.Order(m.maxRotated) <= p.Order(m.maxRotated)
      && (p == Untouched <==> from == Untouched)
      && (r.status.Running? ==> p == (if from == Untouched then Untouched else Complete))
      && (r.status.Failed? ==> p.WritesManifest())
    decreases |schedule|
  {
    if schedule == [] || d.status.Running? {
      p := from;
    } else {
      p := FinishRotationAt(o, m, from, Disk(d.files, schedule[0], 0, Running));
      p := ReopeningsAt(o, m, p, Reopen(d.files, schedule[0]), schedule[1..]);
    }
  }

  /** Each slot that is to be retained is in its old place, staged, or in its new place. */
  ghost predicate EverySlotSurvives(o: Files, transaction: string, max: nat, files: Files) {
    forall slot: nat :: slot < max && Home(slot) in o ==>
      || Get(files, Home(slot)) == Get(o, Home(slot))
      || Get(files, Staged(transaction, slot)) == Get(o, Home(slot))
      || Get(files, Backup(slot + 1)) == Get(o, Home(slot))
  }

  /**
   Crash convergence. Whatever the budget of the rotation and of every
   reopening after it: if the log opens, the layout is that of one atomic
   shift, unless the rotation crashed before its first primitive and the layout
   is the old one. If it refuses to open, a manifest's temporary file is the
   reason. No retained record file is lost at any time.
   */
  lemma CrashConvergence(o: Files, transaction: string, max: nat, fuel: nat, schedule: seq<nat>)
    requires CanRotate(o, transaction, max)
    ensures var r := RotationRun(o, transaction, max, fuel, schedule);
      && (r.status.Running? && fuel == 0 ==> r.files == o)
      && (r.status.Running? && fuel > 0 ==> IsShiftOf(o, max, r.files))
      && (r.status.Failed? ==> ManifestTemp(transaction) in r.files)
      && EverySlotSurvives(o, transaction, max, r.files)
  {
    var m := NewManifest(o, transaction, max);
    NewManifestStartable(o, transaction, max);
    var p := RotateCurrentAt(Disk(o, fuel, 0, Running), transaction, max);
    var d := RotateCurrent(Disk(o, fuel, 0, Running), transaction, max);
    p := ReopeningsAt(o, m, p, d, schedule);
    var r := RotationRun(o, transaction, max, fuel, schedule);
    if r.status.Running? {
      OpenedLayout(o, m, p, r.files);
    }
    SlotsSurviveAt(o, m, p, r.files);
  }

  lemma OpenedLayout(o: Files, m: RotationManifest, p: Point, files: Files)
    requires Startable(o, m) && At(o, m, p, files)
    ensures p == Untouched ==> files == o
    ensures p == Complete ==> IsShiftOf(o, m.maxRotated, files)
  {
    if p == Untouched {
      forall name: Name ensures Get(files, name) == Get(o, name) {
        assert name.IsRotationName() ==> name !in o;
      }
      SameFiles(files, o);
    }
    CompleteIsShift(o, m, files);
  }

  lemma SlotsSurviveAt(o: Files, m: RotationManifest, p: Point, files: Files)
    requires Startable(o, m) && At(o, m, p, files)
    ensures EverySlotSurvives(o, m.transaction, m.maxRotated, files)
  {
    forall slot: nat | slot < m.maxRotated && Home(slot) in o
      ensures || Get(files, Home(slot)) == Get(o, Home(slot))
              || Get(files, Staged(m.transaction, slot)) == Get(o, Home(slot))
              || Get(files, Backup(slot + 1)) == Get(o, Home(slot))
    {
      assert Get(files, Home(slot)) == Held(o, m, p, Home(slot));
      assert Get(files, Staged(m.transaction, slot)) == Held(o, m, p, Staged(m.transaction, slot));
      assert Get(files, Backup(slot + 1)) == Held(o, m, p, Backup(slot + 1));
    }
  }

  lemma SameFiles(a: Files, b: Files)
    requires forall name: Name :: Get(a, name) == Get(b, name)
    ensures a == b
  {
    forall name: Name ensures name in a <==> name in b {
      assert Get(a, name) == Get(b, name);
    }
    forall name: Name | name in a ensures a[name] == b[name] {
      assert Get(a, name) == Get(b, name);
    }
  }

  /**
   When the next reopening is refused, exactly: it is refused if and only if
   the crash left a manifest's temporary file, whatever its budget, and then no
   file changes. If none is left and the budget suffices, the log opens.
   */
  lemma RefusedExactlyWhileManifestIsHalfWritten(
    o: Files, transaction: string, max: nat, fuel: nat, schedule: seq<nat>, next: nat)
    requires CanRotate(o, transaction, max)
    ensures var files := RotationRun(o, transaction, max, fuel, schedule).files;
      && (Reopen(files, next).status.Failed? <==> ManifestTemp(transaction) in files)
      && (ManifestTemp(transaction) in files ==> Reopen(files, next).files == files)
      && (ManifestTemp(transaction) !in files && next >= 4 * max + 18 ==> Reopen(files, next).status.Running?)
  {
    var m := NewManifest(o, transaction, max);
    NewManifestStartable(o, transaction, max);
    var p := RotateCurrentAt(Disk(o, fuel, 0, Running), transaction, max);
    p := ReopeningsAt(o, m, p, RotateCurrent(Disk(o, fuel, 0, Running), transaction, max), schedule);
    var files := RotationRun(o, transaction, max, fuel, schedule).files;
    var _ := FinishRotationAt(o, m, p, Disk(files, next, 0, Running));
  }

  /** A crash just after the temporary file is created, which no later reopening gets past. */
  lemma HalfWrittenManifestBlocksForever(o: Files, transaction: string, max: nat, schedule: seq<nat>)
    requires CanRotate(o, transaction, max) && schedule != []
    ensures RotationRun(o, transaction, max, 1, schedule).status.Failed?
  {
    var m := NewManifest(o, transaction, max);
    NewManifestStartable(o, transaction, max);
    var p := RotateCurrentAt(Disk(o, 1, 0, Running), transaction, max);
    var d := RotateCurrent(Disk(o, 1, 0, Running), transaction, max);
    assert ManifestTemp(transaction) in d.files;
    StaysRefused(o, m, p, d, schedule);
  }

  lemma {:induction false} StaysRefused(o: Files, m: RotationManifest, p: Point, d: Disk, schedule: seq<nat>)
    requires Startable(o, m) && At(o, m, p, d.files) && p.WritesManifest() && !d.status.Running?
    requires schedule != [] || d.status.Failed?
    ensures Reopenings(d, schedule).status.Failed?
    decreases |schedule|
  {
    if schedule != [] {
      var _ := FinishRotationAt(o, m, p, Disk(d.files, schedule[0], 0, Running));
      StaysRefused(o, m, p, Reopen(d.files, schedule[0]), schedule[1..]);
    }
  }
}
