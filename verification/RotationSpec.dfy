/**
 What one rotation of the audit log does to the disk, step by step.

 Slot 0 is the active file and slot i is backup i. A rotation of N backups
 stages slots 0..N, then installs staged slot i - 1 as backup i for i in 1..N,
 drops staged slot N and removes the manifest.
 */
module RotationSpec {
  import opened Storage

  const STAGING := "staging"
  const INSTALLING := "installing"

  /** The name that holds slot `slot` outside a rotation. */
  function Home(slot: nat): Name {
    if slot == 0 then Active else Backup(slot)
  }

  predicate IsTransactionChar(c: char) {
    '0' <= c <= '9' || 'a' <= c <= 'z' || 'A' <= c <= 'Z' || c == '-'
  }

  predicate StrictlyIncreasing(s: seq<nat>) {
    forall i, j :: 0 <= i < j < |s| ==> s[i] < s[j]
  }

  predicate ValidManifest(m: RotationManifest) {
    && m.formatVersion == 1
    && m.operation == "rotate"
    && (m.phase == STAGING || m.phase == INSTALLING)
    && m.activePresent
    && m.maxRotated != 0
    && (forall i :: 0 <= i < |m.transaction| ==> IsTransactionChar(m.transaction[i]))
    && (forall i :: 0 <= i < |m.backups| ==> 1 <= m.backups[i] <= m.maxRotated)
    && StrictlyIncreasing(m.backups)
  }

  /** Whether the manifest says that the slot was occupied when the rotation began. */
  predicate Expected(m: RotationManifest, slot: nat) {
    slot == 0 || slot in m.backups
  }

  function StageSlot(d: Disk, transaction: string, slot: nat, expected: bool): Disk {
    if !d.status.Running? then d
    else
      var source := Home(slot);
      var stage := Staged(transaction, slot);
      if !expected then
        if source in d.files || stage in d.files then Refuse(d, RecoveryFailed) else d
      else if source in d.files && stage in d.files then Refuse(d, RecoveryFailed)
      else if source in d.files then Sync(Rename(d, source, stage))
      else if stage in d.files then d
      else Refuse(d, RecoveryFailed)
  }

  /** Stages `slot`, `slot` + 1, ..., N. */
  function StageFrom(d: Disk, m: RotationManifest, slot: nat): Disk
    decreases m.maxRotated + 1 - slot
  {
    if slot > m.maxRotated then d
    else StageFrom(StageSlot(d, m.transaction, slot, Expected(m, slot)), m, slot + 1)
  }

  function InstallSlot(d: Disk, transaction: string, slot: nat, expected: bool): Disk {
    if !d.status.Running? then d
    else
      var stage := Staged(transaction, slot);
      var target := Backup(slot + 1);
      if !expected then
        if stage in d.files || target in d.files then Refuse(d, RecoveryFailed) else d
      else if stage in d.files && target in d.files then Refuse(d, RecoveryFailed)
      else if stage in d.files then Sync(Rename(d, stage, target))
      else if target in d.files then d
      else Refuse(d, RecoveryFailed)
  }

  /** Installs `slot`, `slot` + 1, ..., N - 1. */
  function InstallFrom(d: Disk, m: RotationManifest, slot: nat): Disk
    decreases m.maxRotated - slot
  {
    if slot >= m.maxRotated then d
    else InstallFrom(InstallSlot(d, m.transaction, slot, Expected(m, slot)), m, slot + 1)
  }

  function WriteManifest(d: Disk, m: RotationManifest): (r: Disk)
    ensures r.status.Running? ==> Manifest in r.files
  {
    var temporary := ManifestTemp(m.transaction);
    if temporary in d.files then Refuse(d, RecoveryFailed)
    else
      var created := Sync(Put(d, temporary, Garbled));
      var written := Sync(Put(created, temporary, Document(m)));
      if written.status.Running? then Sync(Rename(written, temporary, Manifest)) else written
  }

  /** The staging half of a recovery, ending with the manifest of the next phase. */
  function Stage(d: Disk, m: RotationManifest): Disk {
    WriteManifest(StageFrom(d, m, 0), m.(phase := INSTALLING))
  }

  /** Drops the staged backup N, if there is one, and then the manifest. */
  function Discard(d: Disk, m: RotationManifest): Disk {
    var oldest := Staged(m.transaction, m.maxRotated);
    var dropped := if d.status.Running? && oldest in d.files then Sync(Remove(d, oldest)) else d;
    Sync(Remove(dropped, Manifest))
  }

  /** Completes the rotation that the manifest on the disk declares. */
  function RecoverManifest(d: Disk): Disk
    requires d.status.Running? ==> Manifest in d.files
  {
    if !d.status.Running? then d
    else if !d.files[Manifest].Document? || !ValidManifest(d.files[Manifest].manifest) then
      Refuse(d, RecoveryFailed)
    else
      var m := d.files[Manifest].manifest;
      var staged := if m.phase == STAGING then Stage(d, m) else d;
      Discard(InstallFrom(staged, m, 0), m)
  }

  /** The backups among `from`..`max` that exist, in ascending order. */
  function Occupied(files: Files, from: nat, max: nat): (occupied: seq<nat>)
    ensures forall i :: i in occupied <==> from <= i <= max && Backup(i) in files
    ensures StrictlyIncreasing(occupied)
    decreases max + 1 - from
  {
    if from > max then []
    else
      var rest := Occupied(files, from + 1, max);
      assert forall i :: 0 <= i < |rest| ==> rest[i] in rest;
      if Backup(from) in files then [from] + rest else rest
  }

  function NewManifest(files: Files, transaction: string, max: nat): RotationManifest {
    RotationManifest(1, transaction, max, "rotate", STAGING, true, Occupied(files, 1, max))
  }

  /** Starts a rotation by declaring it, and carries it out. */
  function RotateCurrent(d: Disk, transaction: string, max: nat): Disk {
    var declared := WriteManifest(d, NewManifest(d.files, transaction, max));
    RecoverManifest(declared)
  }

  predicate HasRotationFiles(files: Files) {
    exists name :: name in files && name.IsRotationName()
  }

  /**
   What opening the log does about rotations: it completes a declared one, and
   refuses to go on while any file of a rotation is left.
   */
  function FinishRotation(d: Disk): Disk {
    var recovered := if d.status.Running? && Manifest in d.files then RecoverManifest(d) else d;
    if HasRotationFiles(recovered.files) then Refuse(recovered, RecoveryFailed) else recovered
  }

  lemma StageFromStopped(d: Disk, m: RotationManifest, slot: nat)
    requires !d.status.Running?
    ensures StageFrom(d, m, slot) == d
    decreases m.maxRotated + 1 - slot
  {
  }

  lemma InstallFromStopped(d: Disk, m: RotationManifest, slot: nat)
    requires !d.status.Running?
    ensures InstallFrom(d, m, slot) == d
    decreases m.maxRotated - slot
  {
  }
}
