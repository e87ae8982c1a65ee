/**
 Manifest recovery on an arbitrary directory, not only on one that a rotation
 can leave: when it succeeds, what it then leaves behind, and that it never
 overwrites a record file.
 */
module RecoveryFromAnyLayout {
  import opened Common
  import opened Storage
  import opened RotationSpec

  /** The contents of all files, with multiplicity. */
  ghost function Total(files: Files): multiset<Content>
    decreases files.Keys
  {
    if files.Keys == {} then multiset{}
    else
      var name := AnyName(files);
      Total(files - {name}) + multiset{files[name]}
  }

  ghost function AnyName(files: Files): Name
    requires files.Keys != {}
    ensures AnyName(files) in files
  {
    var name :| name in files.Keys;
    name
  }

  lemma TotalUnfolds(files: Files)
    requires files.Keys != {}
    ensures Total(files) == Total(files - {AnyName(files)}) + multiset{files[AnyName(files)]}
  {
  }

  lemma RemovalsCommute(files: Files, a: Name, b: Name)
    ensures (files - {a}) - {b} == (files - {b}) - {a}
  {
  }

  lemma {:induction false} TotalWithout(files: Files, name: Name)
    requires name in files
    ensures Total(files) == Total(files - {name}) + multiset{files[name]}
    decreases files.Keys
  {
    var first := AnyName(files);
    TotalUnfolds(files);
    if first != name {
      TotalWithout(files - {first}, name);
      TotalWithout(files - {name}, first);
      RemovalsCommute(files, first, name);
    }
  }

  /** The active file, the backups and the staged files. */
  function Records(files: Files): Files {
    map name | name in files && name.HoldsRecords() :: files[name]
  }

  /** The contents that are records, with multiplicity. */
  ghost function Kept(files: Files): multiset<Content> {
    Total(Records(files))
  }

  /** A rename onto a free name moves a content and loses none. */
  lemma KeptMoved(files: Files, source: Name, target: Name)
    requires source in files && target !in files
    requires source.HoldsRecords() && target.HoldsRecords()
    ensures Kept(Moved(files, source, target)) == Kept(files)
  {
    var after := Moved(files, source, target);
    TotalWithout(Records(files), source);
    TotalWithout(Records(after), target);
    SameRest(files, source, target);
  }

  lemma SameRest(files: Files, source: Name, target: Name)
    requires source in files && target !in files
    ensures Records(Moved(files, source, target)) - {target} == Records(files) - {source}
  {
  }

  lemma KeptRemoved(files: Files, name: Name)
    requires name in files && name.HoldsRecords()
    ensures Kept(files) == Kept(files - {name}) + multiset{files[name]}
  {
    TotalWithout(Records(files), name);
    assert Records(files - {name}) == Records(files) - {name};
  }

  lemma StageSlotKeeps(d: Disk, transaction: string, slot: nat, expected: bool)
    ensures Kept(StageSlot(d, transaction, slot, expected).files) == Kept(d.files)
  {
    var source, stage := Home(slot), Staged(transaction, slot);
    if source in d.files && stage !in d.files {
      KeptMoved(d.files, source, stage);
    }
  }

  lemma {:induction false} StageFromKeeps(d: Disk, m: RotationManifest, slot: nat)
    ensures Kept(StageFrom(d, m, slot).files) == Kept(d.files)
    decreases m.maxRotated + 1 - slot
  {
    if slot <= m.maxRotated {
      StageSlotKeeps(d, m.transaction, slot, Expected(m, slot));
      StageFromKeeps(StageSlot(d, m.transaction, slot, Expected(m, slot)), m, slot + 1);
    }
  }

  lemma InstallSlotKeeps(d: Disk, transaction: string, slot: nat, expected: bool)
    ensures Kept(InstallSlot(d, transaction, slot, expected).files) == Kept(d.files)
  {
    var stage, target := Staged(transaction, slot), Backup(slot + 1);
    if stage in d.files && target !in d.files {
      KeptMoved(d.files, stage, target);
    }
  }

  lemma {:induction false} InstallFromKeeps(d: Disk, m: RotationManifest, slot: nat)
    ensures Kept(InstallFrom(d, m, slot).files) == Kept(d.files)
    decreases m.maxRotated - slot
  {
    if slot < m.maxRotated {
      InstallSlotKeeps(d, m.transaction, slot, Expected(m, slot));
      InstallFromKeeps(InstallSlot(d, m.transaction, slot, Expected(m, slot)), m, slot + 1);
    }
  }

  lemma WriteManifestKeeps(d: Disk, m: RotationManifest)
    ensures Kept(WriteManifest(d, m).files) == Kept(d.files)
  {
    assert Records(WriteManifest(d, m).files) == Records(d.files);
  }

  /** The disk when every install step has been done and only the discarding is left. */
  function Installed(d: Disk, m: RotationManifest): Disk {
    InstallFrom(if m.phase == STAGING then Stage(d, m) else d, m, 0)
  }

  /**
   Recovery loses no record file, whatever the layout it finds: a refused one
   keeps them all, and any other loses at most one content, the staged backup
   N, after every install step has succeeded.
   */
  lemma RecoveryKeepsRecords(d: Disk)
    requires d.status.Running? && Manifest in d.files
    ensures var r := RecoverManifest(d);
      && (r.status.Failed? ==> Kept(r.files) == Kept(d.files))
      && (Kept(r.files) != Kept(d.files) ==>
            && d.files[Manifest].Document?
            && var m := d.files[Manifest].manifest;
               var installed := Installed(d, m);
               var oldest := Staged(m.transaction, m.maxRotated);
            && installed.status.Running?
            && oldest in installed.files
            && Kept(d.files) == Kept(r.files) + multiset{installed.files[oldest]})
  {
    if d.files[Manifest].Document? && ValidManifest(d.files[Manifest].manifest) {
      var m := d.files[Manifest].manifest;
      var oldest := Staged(m.transaction, m.maxRotated);
      StageFromKeeps(d, m, 0);
      WriteManifestKeeps(StageFrom(d, m, 0), m.(phase := INSTALLING));
      var installed := Installed(d, m);
      InstallFromKeeps(if m.phase == STAGING then Stage(d, m) else d, m, 0);
      DiscardKeeps(installed, m);
    }
  }

  lemma DiscardKeeps(d: Disk, m: RotationManifest)
    ensures var r := Discard(d, m);
      var oldest := Staged(m.transaction, m.maxRotated);
      && (r.status.Failed? ==> r == d)
      && (Kept(r.files) == Kept(d.files)
          || (d.status.Running? && oldest in d.files && Kept(d.files) == Kept(r.files) + multiset{d.files[oldest]}))
  {
    var r := Discard(d, m);
    var oldest := Staged(m.transaction, m.maxRotated);
    if d.status.Running? && oldest in d.files && oldest !in r.files {
      KeptRemoved(d.files, oldest);
      assert Records(r.files) == Records(d.files - {oldest});
    } else {
      assert Records(r.files) == Records(d.files);
    }
  }

  predicate ExactlyOne(a: bool, b: bool) {
    a != b
  }

  /** What the staging phase can work with: an expected slot is in one of its two places, any other in none. */
  predicate CanStage(files: Files, m: RotationManifest, slot: nat) {
    var home, staged := Home(slot) in files, Staged(m.transaction, slot) in files;
    if slot == 0 || slot in m.backups then ExactlyOne(home, staged) else !home && !staged
  }

  predicate CanInstall(files: Files, m: RotationManifest, slot: nat) {
    var staged, target := Staged(m.transaction, slot) in files, Backup(slot + 1) in files;
    if slot == 0 || slot in m.backups then ExactlyOne(staged, target) else !staged && !target
  }

  /** The layout after staging every slot from `slot` on. */
  function AfterStaging(files: Files, m: RotationManifest, slot: nat, name: Name): Option<Content> {
    match name
    case Active => if slot == 0 then None else Get(files, Active)
    case Backup(i) => if slot <= i <= m.maxRotated && i != 0 then None else Get(files, name)
    case Staged(t, i) =>
      if t == m.transaction && slot <= i <= m.maxRotated then Either(Get(files, Home(i)), Get(files, name))
      else Get(files, name)
    case _ => Get(files, name)
  }

  /** The layout after installing every slot from `slot` on. */
  function AfterInstalling(files: Files, m: RotationManifest, slot: nat, name: Name): Option<Content> {
    match name
    case Backup(i) =>
      if slot < i <= m.maxRotated then Either(Get(files, Staged(m.transaction, i - 1)), Get(files, name))
      else Get(files, name)
    case Staged(t, i) =>
      if t == m.transaction && slot <= i < m.maxRotated then None else Get(files, name)
    case _ => Get(files, name)
  }

  lemma {:induction false} StageFromOutcome(d: Disk, m: RotationManifest, slot: nat)
    requires d.status.Running? && d.fuel >= 2 * (m.maxRotated + 1 - slot)
    ensures var r := StageFrom(d, m, slot);
      && !r.status.Interrupted?
      && (r.status.Running? <==> forall s: nat :: slot <= s <= m.maxRotated ==> CanStage(d.files, m, s))
      && (r.status.Running? && slot <= m.maxRotated ==> r.fuel >= d.fuel - 2 * (m.maxRotated + 1 - slot))
      && (r.status.Running? && slot > m.maxRotated ==> r == d)
      && (r.status.Running? ==> forall name: Name :: Get(r.files, name) == AfterStaging(d.files, m, slot, name))
    decreases m.maxRotated + 1 - slot
  {
    if slot <= m.maxRotated {
      var next := StageSlot(d, m.transaction, slot, Expected(m, slot));
      assert CanStage(d.files, m, slot) <==> next.status.Running?;
      if next.status.Running? {
        assert forall s: nat :: slot < s ==> (CanStage(next.files, m, s) <==> CanStage(d.files, m, s));
        StageFromOutcome(next, m, slot + 1);
        var r := StageFrom(next, m, slot + 1);
        if r.status.Running? {
          forall name: Name ensures Get(r.files, name) == AfterStaging(d.files, m, slot, name) {
            assert Get(r.files, name) == AfterStaging(next.files, m, slot + 1, name);
          }
        }
      } else {
        StageFromStopped(next, m, slot + 1);
      }
    }
  }

  lemma {:induction false} InstallFromOutcome(d: Disk, m: RotationManifest, slot: nat)
    requires d.status.Running? && d.fuel >= 2 * (m.maxRotated - slot)
    ensures var r := InstallFrom(d, m, slot);
      && !r.status.Interrupted?
      && (r.status.Running? <==> forall s: nat :: slot <= s < m.maxRotated ==> CanInstall(d.files, m, s))
      && (r.status.Running? && slot < m.maxRotated ==> r.fuel >= d.fuel - 2 * (m.maxRotated - slot))
      && (r.status.Running? && slot >= m.maxRotated ==> r == d)
      && (r.status.Running? ==> forall name: Name :: Get(r.files, name) == AfterInstalling(d.files, m, slot, name))
    decreases m.maxRotated - slot
  {
    if slot < m.maxRotated {
      var next := InstallSlot(d, m.transaction, slot, Expected(m, slot));
      assert CanInstall(d.files, m, slot) <==> next.status.Running?;
      if next.status.Running? {
        assert forall s: nat :: slot < s ==> (CanInstall(next.files, m, s) <==> CanInstall(d.files, m, s));
        InstallFromOutcome(next, m, slot + 1);
        var r := InstallFrom(next, m, slot + 1);
        if r.status.Running? {
          forall name: Name ensures Get(r.files, name) == AfterInstalling(d.files, m, slot, name) {
            assert Get(r.files, name) == AfterInstalling(next.files, m, slot + 1, name);
          }
        }
      } else {
        InstallFromStopped(next, m, slot + 1);
      }
    }
  }

  /** The layouts that can be reconciled with the manifest that is found on them. */
  ghost predicate Reconcilable(files: Files)
    requires Manifest in files
  {
    && files[Manifest].Document?
    && var m := files[Manifest].manifest;
    && m.formatVersion == 1 && m.operation == "rotate" && m.activePresent
    && (m.phase == STAGING || m.phase == INSTALLING)
    && (forall i :: 0 <= i < |m.transaction| ==>
          var c := m.transaction[i];
          '0' <= c <= '9' || 'a' <= c <= 'z' || 'A' <= c <= 'Z' || c == '-')
    && m.maxRotated > 0
    && (forall i :: 0 <= i < |m.backups| ==> 1 <= m.backups[i] <= m.maxRotated)
    && (forall i, j :: 0 <= i < j < |m.backups| ==> m.backups[i] < m.backups[j])
    && (m.phase == STAGING ==>
          && ManifestTemp(m.transaction) !in files
          && forall slot: nat :: slot <= m.maxRotated ==> CanStage(files, m, slot))
    && (m.phase == INSTALLING ==> forall slot: nat :: slot < m.maxRotated ==> CanInstall(files, m, slot))
  }

  /** The layout that a successful recovery leaves behind. */
  function AfterRecovery(files: Files, m: RotationManifest, name: Name): Option<Content> {
    match name
    case Active => if m.phase == STAGING then None else Get(files, Active)
    case Backup(i) =>
      if 1 <= i <= m.maxRotated then
        Either(
          Get(files, Staged(m.transaction, i - 1)),
          Get(files, if m.phase == STAGING then Home(i - 1) else name))
      else Get(files, name)
    case Staged(t, slot) =>
      if t == m.transaction && slot <= m.maxRotated then None else Get(files, name)
    case Manifest => None
    case ManifestTemp(_) => Get(files, name)
  }

  /**
   Exactly when recovery succeeds, given enough primitives, on any directory,
   and the layout it then leaves. In the installing phase neither the active
   file nor the staged backup N is looked at.
   */
  lemma RecoverySucceedsExactly(d: Disk)
    requires d.status.Running? && Manifest in d.files
    requires d.files[Manifest].Document? ==> d.fuel >= 4 * d.files[Manifest].manifest.maxRotated + 12
    ensures var r := RecoverManifest(d);
      && !r.status.Interrupted?
      && (r.status.Running? <==> Reconcilable(d.files))
      && (r.status.Running? ==>
            forall name: Name :: Get(r.files, name) == AfterRecovery(d.files, d.files[Manifest].manifest, name))
  {
    if d.files[Manifest].Document? && ValidManifest(d.files[Manifest].manifest) {
      var m := d.files[Manifest].manifest;
      if m.phase == STAGING {
        StagingSucceedsExactly(d, m);
      } else {
        InstallFromOutcome(d, m, 0);
      }
      var installed := Installed(d, m);
      if installed.status.Running? {
        forall name: Name ensures Get(Discard(installed, m).files, name) == AfterRecovery(d.files, m, name) {
          if m.phase == STAGING {
            RecoveredFromStaging(d, m, name);
          } else {
            RecoveredFromInstalling(d, m, name);
          }
        }
      }
    }
  }

  lemma RecoveredFromInstalling(d: Disk, m: RotationManifest, name: Name)
    requires ValidManifest(m) && m.phase == INSTALLING && Installed(d, m).status.Running?
    requires forall n: Name :: Get(Installed(d, m).files, n) == AfterInstalling(d.files, m, 0, n)
    requires Installed(d, m).fuel >= 4
    ensures Get(Discard(Installed(d, m), m).files, name) == AfterRecovery(d.files, m, name)
  {
    var installed, oldest := Installed(d, m), Staged(m.transaction, m.maxRotated);
    assert Discard(installed, m).files == installed.files - {oldest, Manifest};
    assert Get(installed.files, name) == AfterInstalling(d.files, m, 0, name);
  }

  lemma RecoveredFromStaging(d: Disk, m: RotationManifest, name: Name)
    requires ValidManifest(m) && m.phase == STAGING && Installed(d, m).status.Running?
    requires forall slot: nat :: slot <= m.maxRotated ==> CanStage(d.files, m, slot)
    requires forall n: Name :: Get(Installed(d, m).files, n) == AfterInstalling(Stage(d, m).files, m, 0, n)
    requires forall n: Name :: n != Manifest ==> Get(Stage(d, m).files, n) == AfterStaging(d.files, m, 0, n)
    requires Installed(d, m).fuel >= 4
    ensures Get(Discard(Installed(d, m), m).files, name) == AfterRecovery(d.files, m, name)
  {
    var installed, oldest := Installed(d, m), Staged(m.transaction, m.maxRotated);
    assert Discard(installed, m).files == installed.files - {oldest, Manifest};
    if name != oldest && name != Manifest {
      assert Get(installed.files, name) == AfterInstalling(Stage(d, m).files, m, 0, name);
      assert Get(Stage(d, m).files, name) == AfterStaging(d.files, m, 0, name);
      if name.Backup? && 1 <= name.index <= m.maxRotated {
        var from := Staged(m.transaction, name.index - 1);
        assert Get(Stage(d, m).files, from) == AfterStaging(d.files, m, 0, from);
        assert CanStage(d.files, m, name.index - 1);
      }
    }
  }

  lemma StagingSucceedsExactly(d: Disk, m: RotationManifest)
    requires d.status.Running? && Manifest in d.files && d.files[Manifest] == Document(m)
    requires ValidManifest(m) && m.phase == STAGING && d.fuel >= 4 * m.maxRotated + 12
    ensures var r := Installed(d, m);
      && !r.status.Interrupted?
      && (r.status.Running? <==> Reconcilable(d.files))
      && (r.status.Running? ==> r.fuel >= 4)
      && (r.status.Running? ==>
            forall name: Name :: Get(r.files, name) == AfterInstalling(Stage(d, m).files, m, 0, name))
      && (r.status.Running? ==>
            forall name: Name :: name != Manifest ==> Get(Stage(d, m).files, name) == AfterStaging(d.files, m, 0, name))
  {
    var staged := StageFrom(d, m, 0);
    StageFromOutcome(d, m, 0);
    var switched := Stage(d, m);
    if staged.status.Running? {
      var temporary := ManifestTemp(m.transaction);
      assert Get(staged.files, temporary) == AfterStaging(d.files, m, 0, temporary);
      if temporary in d.files {
        InstallFromStopped(switched, m, 0);
      } else {
        assert switched.files == staged.files[Manifest := Document(m.(phase := INSTALLING))];
        forall name: Name | name != Manifest
          ensures Get(switched.files, name) == AfterStaging(d.files, m, 0, name)
        {
          assert Get(staged.files, name) == AfterStaging(d.files, m, 0, name);
        }
        forall slot: nat | slot < m.maxRotated ensures CanInstall(switched.files, m, slot) {
          assert CanStage(d.files, m, slot);
          assert Get(switched.files, Staged(m.transaction, slot))
              == AfterStaging(d.files, m, 0, Staged(m.transaction, slot));
          assert Get(switched.files, Backup(slot + 1)) == AfterStaging(d.files, m, 0, Backup(slot + 1));
        }
        InstallFromOutcome(switched, m, 0);
      }
    } else {
      InstallFromStopped(switched, m, 0);
    }
  }

  /** A slot that the recovery renames: it can be handled, and so can every slot before it. */
  ghost predicate WillMove(files: Files, m: RotationManifest, first: nat, slot: nat) {
    if m.phase == STAGING then
      && first <= slot <= m.maxRotated
      && Home(slot) in files
      && forall s: nat :: first <= s <= slot ==> CanStage(files, m, s)
    else
      && first <= slot < m.maxRotated
      && Staged(m.transaction, slot) in files
      && forall s: nat :: first <= s <= slot ==> CanInstall(files, m, s)
  }

  lemma {:induction false} StageFromMoves(d: Disk, m: RotationManifest, slot: nat)
    requires d.status.Running? && d.fuel >= 2 * (m.maxRotated + 1 - slot) && m.phase == STAGING
    ensures var r := StageFrom(d, m, slot);
      && (forall s: nat :: s < slot ==> (Home(s) in r.files <==> Home(s) in d.files))
      && (r.files != d.files <==> exists s: nat :: WillMove(d.files, m, slot, s))
    decreases m.maxRotated + 1 - slot
  {
    if slot <= m.maxRotated {
      var next := StageSlot(d, m.transaction, slot, Expected(m, slot));
      var r := StageFrom(d, m, slot);
      if !next.status.Running? {
        StageFromStopped(next, m, slot + 1);
        assert !CanStage(d.files, m, slot);
      } else {
        StageFromMoves(next, m, slot + 1);
        assert CanStage(d.files, m, slot);
        if Home(slot) in d.files {
          assert Home(slot) !in r.files;
          assert WillMove(d.files, m, slot, slot);
        } else {
          assert next == d;
          assert r == StageFrom(next, m, slot + 1);
          var rest := slot + 1;
          if s: nat :| WillMove(d.files, m, slot, s) {
            assert WillMove(d.files, m, rest, s);
          }
          if s: nat :| WillMove(d.files, m, rest, s) {
            assert WillMove(d.files, m, slot, s);
          }
        }
      }
    }
  }

  lemma {:induction false} InstallFromMoves(d: Disk, m: RotationManifest, slot: nat)
    requires d.status.Running? && d.fuel >= 2 * (m.maxRotated - slot) && m.phase == INSTALLING
    ensures var r := InstallFrom(d, m, slot);
      && (forall s: nat :: s < slot ==> (Staged(m.transaction, s) in r.files <==> Staged(m.transaction, s) in d.files))
      && (r.files != d.files <==> exists s: nat :: WillMove(d.files, m, slot, s))
    decreases m.maxRotated - slot
  {
    if slot < m.maxRotated {
      var next := InstallSlot(d, m.transaction, slot, Expected(m, slot));
      var r := InstallFrom(d, m, slot);
      if !next.status.Running? {
        InstallFromStopped(next, m, slot + 1);
        assert !CanInstall(d.files, m, slot);
      } else {
        InstallFromMoves(next, m, slot + 1);
        assert CanInstall(d.files, m, slot);
        if Staged(m.transaction, slot) in d.files {
          assert Staged(m.transaction, slot) !in r.files;
          assert WillMove(d.files, m, slot, slot);
        } else {
          assert next == d;
          assert r == InstallFrom(next, m, slot + 1);
          var rest := slot + 1;
          if s: nat :| WillMove(d.files, m, slot, s) {
            assert WillMove(d.files, m, rest, s);
          }
          if s: nat :| WillMove(d.files, m, rest, s) {
            assert WillMove(d.files, m, slot, s);
          }
        }
      }
    }
  }

  /**
   A refused recovery leaves the directory as it found it exactly when no slot
   can be moved before the one that is refused. The design document promises
   that no refusal mutates the filesystem; `RefusalAfterMove` is a case against
   that.
   */
  lemma RefusalLeavesFilesAloneExactly(d: Disk)
    requires d.status.Running? && Manifest in d.files && !Reconcilable(d.files)
    requires d.files[Manifest].Document? ==> d.fuel >= 4 * d.files[Manifest].manifest.maxRotated + 12
    ensures var r := RecoverManifest(d);
      && r.status.Failed?
      && (r.files == d.files <==>
            || !d.files[Manifest].Document?
            || !ValidManifest(d.files[Manifest].manifest)
            || forall slot: nat :: !WillMove(d.files, d.files[Manifest].manifest, 0, slot))
  {
    RecoverySucceedsExactly(d);
    if d.files[Manifest].Document? && ValidManifest(d.files[Manifest].manifest) {
      var m := d.files[Manifest].manifest;
      if m.phase == STAGING {
        StageFromMoves(d, m, 0);
        StageFromOutcome(d, m, 0);
        var staged, switched := StageFrom(d, m, 0), Stage(d, m);
        StagingSucceedsExactly(d, m);
        if staged.status.Running? {
          var temporary := ManifestTemp(m.transaction);
          assert Get(staged.files, temporary) == AfterStaging(d.files, m, 0, temporary);
        }
        assert switched.files == staged.files && !switched.status.Running?;
        InstallFromStopped(switched, m, 0);
      } else {
        InstallFromMoves(d, m, 0);
        InstallFromOutcome(d, m, 0);
      }
    }
  }

  /** An unexpected backup is noticed only after the active file has been staged. */
  lemma RefusalAfterMove(active: Content, backup: Content)
    ensures var m := RotationManifest(1, "t", 1, "rotate", STAGING, true, []);
      var files := map[Manifest := Document(m), Active := active, Backup(1) := backup];
      var r := RecoverManifest(Disk(files, 100, 0, Running));
      r.status == Failed(RecoveryFailed) && r.files != files && Active !in r.files
  {
    var m := RotationManifest(1, "t", 1, "rotate", STAGING, true, []);
    var files := map[Manifest := Document(m), Active := active, Backup(1) := backup];
    var d := Disk(files, 100, 0, Running);
    var first := StageSlot(d, "t", 0, true);
    assert first.status.Running? && Active !in first.files && Backup(1) in first.files;
    var second := StageSlot(first, "t", 1, false);
    assert second == Refuse(first, RecoveryFailed);
    assert StageFrom(d, m, 0) == StageFrom(first, m, 1) == StageFrom(second, m, 2) == second;
    InstallFromStopped(second, m, 0);
  }
}
