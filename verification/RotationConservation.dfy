/**
 At every point of a rotation the directory holds exactly the record files that
 it held before, up to the point where the oldest backup is dropped.
 */
module RotationConservation {
  import opened Common
  import opened Storage
  import opened RotationSpec
  import opened CrashConvergence
  import opened RecoveryFromAnyLayout

  predicate OldestIsGone(p: Point) {
    p.Dropped? || p.Complete?
  }

  /** The records of `o` that point `p` still holds. */
  ghost function Remaining(o: Files, m: RotationManifest, p: Point): multiset<Content> {
    var oldest := Backup(m.maxRotated);
    if OldestIsGone(p) && oldest in o then Kept(o) - multiset{o[oldest]} else Kept(o)
  }

  /** Two layouts that differ only on `changed`, where the second is as point `q` wants it. */
  lemma StepBackAt(o: Files, m: RotationManifest, q: Point, before: Files, p: Point, files: Files, changed: set<Name>)
    requires At(o, m, p, files) && q.Within(m.maxRotated)
    requires forall name: Name :: name !in changed ==> Get(before, name) == Get(files, name)
    requires forall name: Name :: name !in changed && name != ManifestTemp(m.transaction) ==>
      Held(o, m, q, name) == Held(o, m, p, name)
    requires forall name: Name :: name in changed && name != ManifestTemp(m.transaction) ==>
      Get(before, name) == Held(o, m, q, name)
    requires ManifestTemp(m.transaction) in before <==> q.WritesManifest()
    ensures At(o, m, q, before)
  {
    forall name: Name | name != ManifestTemp(m.transaction)
      ensures Get(before, name) == Held(o, m, q, name)
    {
      if name !in changed {
        assert Get(files, name) == Held(o, m, p, name);
      }
    }
  }

  /** From point `q` to point `p` one slot moves, by a rename from `from` to `to` if it is occupied. */
  predicate OneMove(m: RotationManifest, p: Point, q: Point, to: Name, from: Name) {
    || (p.Staging? && 0 < p.staged <= m.maxRotated + 1 && q == Staging(p.staged - 1)
        && to == Staged(m.transaction, p.staged - 1) && from == Home(p.staged - 1))
    || (p.Installing? && 0 < p.installed <= m.maxRotated && q == Installing(p.installed - 1)
        && to == Backup(p.installed) && from == Staged(m.transaction, p.installed - 1))
  }

  /** What a move changes: `to` holds afterwards what `from` held before, and nothing else differs. */
  lemma HeldBeforeMove(o: Files, m: RotationManifest, p: Point, q: Point, to: Name, from: Name)
    requires Startable(o, m) && OneMove(m, p, q, to, from)
    ensures Held(o, m, q, from) == Held(o, m, p, to)
    ensures Held(o, m, q, to) == None && Held(o, m, p, from) == None
    ensures forall name: Name :: name != to && name != from ==> Held(o, m, q, name) == Held(o, m, p, name)
  {
    assert p.Staging? ==> Staged(m.transaction, p.staged - 1) !in o;
  }

  /** Undoing one rename of the rotation, if its slot was occupied. */
  lemma StepBackMove(o: Files, m: RotationManifest, p: Point, q: Point, files: Files, to: Name, from: Name)
    returns (before: Files)
    requires Startable(o, m) && At(o, m, p, files) && OneMove(m, p, q, to, from)
    ensures At(o, m, q, before) && Kept(before) == Kept(files)
  {
    HeldBeforeMove(o, m, p, q, to, from);
    assert Get(files, to) == Held(o, m, p, to);
    assert Get(files, from) == Held(o, m, p, from);
    if to in files {
      before := Moved(files, to, from);
      KeptMoved(files, to, from);
    } else {
      before := files;
    }
    StepBackAt(o, m, q, before, p, files, {to, from});
  }

  /** Undoing the creation of a temporary manifest. */
  lemma StepBackTemporary(o: Files, m: RotationManifest, p: Point, q: Point, files: Files) returns (before: Files)
    requires Startable(o, m) && At(o, m, p, files)
    requires (p == Declaring && q == Untouched) || (p == Switching && q == Staging(m.maxRotated + 1))
    ensures At(o, m, q, before) && Kept(before) == Kept(files)
  {
    before := files - {ManifestTemp(m.transaction)};
    assert Records(before) == Records(files);
    StepBackAt(o, m, q, before, p, files, {ManifestTemp(m.transaction)});
  }

  /** Undoing the placement, the replacement or the removal of the manifest. */
  lemma StepBackManifest(o: Files, m: RotationManifest, p: Point, q: Point, files: Files) returns (before: Files)
    requires Startable(o, m) && At(o, m, p, files)
    requires || (p == Staging(0) && q == Untouched)
             || (p == Installing(0) && q == Staging(m.maxRotated + 1))
             || (p == Complete && q == Dropped)
    ensures At(o, m, q, before) && Kept(before) == Kept(files)
  {
    before := if q == Untouched then files - {Manifest}
              else files[Manifest := Document(if q.Staging? then m else m.(phase := INSTALLING))];
    assert Records(before) == Records(files);
    StepBackAt(o, m, q, before, p, files, {Manifest});
  }

  /** Undoing the removal of the staged oldest backup. */
  lemma StepBackDrop(o: Files, m: RotationManifest, files: Files) returns (before: Files)
    requires Startable(o, m) && At(o, m, Dropped, files)
    ensures At(o, m, Installing(m.maxRotated), before)
    ensures var oldest := Backup(m.maxRotated);
      Kept(before) == Kept(files) + if oldest in o then multiset{o[oldest]} else multiset{}
  {
    var staged, oldest := Staged(m.transaction, m.maxRotated), Backup(m.maxRotated);
    assert Get(files, staged) == Held(o, m, Dropped, staged);
    before := if oldest in o then files[staged := o[oldest]] else files;
    StepBackAt(o, m, Installing(m.maxRotated), before, Dropped, files, {staged});
    if oldest in o {
      KeptRemoved(before, staged);
      assert before - {staged} == files;
    }
  }

  /** The point before `p` on the line. */
  function PointBefore(m: RotationManifest, p: Point): Point
    requires p != Untouched
  {
    match p
    case Declaring => Untouched
    case Staging(k) => if k == 0 then Untouched else Staging(k - 1)
    case Switching => Staging(m.maxRotated + 1)
    case Installing(k) => if k == 0 then Staging(m.maxRotated + 1) else Installing(k - 1)
    case Dropped => Installing(m.maxRotated)
    case Complete => Dropped
  }

  lemma PointBeforeIsEarlier(m: RotationManifest, p: Point)
    requires p != Untouched && p.Within(m.maxRotated)
    ensures PointBefore(m, p).Order(m.maxRotated) < p.Order(m.maxRotated)
    ensures OldestIsGone(PointBefore(m, p)) <==> p == Complete
  {
  }

  /** The layout one point before `p`, reached by undoing the last primitive. */
  lemma StepBack(o: Files, m: RotationManifest, p: Point, files: Files) returns (before: Files)
    requires Startable(o, m) && At(o, m, p, files) && p != Untouched
    ensures At(o, m, PointBefore(m, p), before)
    ensures Kept(before) == if p == Dropped && Backup(m.maxRotated) in o then Kept(files) + multiset{o[Backup(m.maxRotated)]}
                            else Kept(files)
  {
    var q := PointBefore(m, p);
    if p.WritesManifest() {
      before := StepBackTemporary(o, m, p, q, files);
    } else if p.Dropped? {
      before := StepBackDrop(o, m, files);
    } else if p.Staging? && p.staged > 0 {
      before := StepBackMove(o, m, p, q, files, Staged(m.transaction, p.staged - 1), Home(p.staged - 1));
    } else if p.Installing? && p.installed > 0 {
      before := StepBackMove(o, m, p, q, files, Backup(p.installed), Staged(m.transaction, p.installed - 1));
    } else {
      before := StepBackManifest(o, m, p, q, files);
    }
  }

  /** What stepping back from `p` to `q` says about the records still held. */
  lemma RemainingOneStepOn(o: Files, m: RotationManifest, p: Point, q: Point, before: multiset<Content>, now: multiset<Content>)
    requires OldestIsGone(q) <==> p == Complete
    requires before == Remaining(o, m, q)
    requires before == if p == Dropped && Backup(m.maxRotated) in o then now + multiset{o[Backup(m.maxRotated)]} else now
    ensures now == Remaining(o, m, p)
  {
    if p == Dropped && Backup(m.maxRotated) in o {
      assert Kept(o) == now + multiset{o[Backup(m.maxRotated)]};
    }
  }

  /** At the start of a rotation all old records are there. */
  lemma KeptUntouched(o: Files, m: RotationManifest, files: Files)
    requires Startable(o, m) && At(o, m, Untouched, files)
    ensures Kept(files) == Remaining(o, m, Untouched)
  {
    OpenedLayout(o, m, Untouched, files);
  }

  /** Every layout of a rotation holds exactly the old records, less the oldest backup once that is dropped. */
  lemma {:induction false} KeptAt(o: Files, m: RotationManifest, p: Point, files: Files)
    requires Startable(o, m) && At(o, m, p, files)
    ensures Kept(files) == Remaining(o, m, p)
    decreases p.Order(m.maxRotated)
  {
    if p == Untouched {
      KeptUntouched(o, m, files);
    } else {
      var q := PointBefore(m, p);
      var before := StepBack(o, m, p, files);
      PointBeforeIsEarlier(m, p);
      KeptAt(o, m, q, before);
      RemainingOneStepOn(o, m, p, q, Kept(before), Kept(files));
    }
  }

  /**
   Slot conservation over every run: whatever crashes, the directory holds all
   the old record files, each as often as before, except that the old backup
   `max` may be missing; and it is missing whenever the log has opened again on
   the shifted layout.
   */
  lemma RunConservesRecords(o: Files, transaction: string, max: nat, fuel: nat, schedule: seq<nat>)
    requires CanRotate(o, transaction, max)
    ensures var r := RotationRun(o, transaction, max, fuel, schedule);
      && (Kept(r.files) != Kept(o) ==>
            Backup(max) in o && Kept(r.files) == Kept(o) - multiset{o[Backup(max)]} && !r.status.Failed?)
      && (r.status.Running? && fuel > 0 && Backup(max) in o ==> Kept(r.files) == Kept(o) - multiset{o[Backup(max)]})
  {
    var m := NewManifest(o, transaction, max);
    NewManifestStartable(o, transaction, max);
    var p := RotateCurrentAt(Disk(o, fuel, 0, Running), transaction, max);
    p := ReopeningsAt(o, m, p, RotateCurrent(Disk(o, fuel, 0, Running), transaction, max), schedule);
    KeptAt(o, m, p, RotationRun(o, transaction, max, fuel, schedule).files);
  }
}
