/**
 The audit log as the object that the host holds: its methods change one
 directory in place, and do to it exactly what the functions of `RotationSpec`
 and `AuditLogSpec` say. A method that does not return `Running` has stopped
 where it was, as an early return with an error does.
 */
module AuditLogs {
  import opened Storage
  import opened Directories
  import opened TailRecovery
  import RotationSpec
  import AuditLogSpec

  class AuditLog {
    const directory: Directory
    const config: AuditLogSpec.Config
    const grammar: Grammar
    var recoveryComplete: bool
    var closed: bool
    /** The records whose whole lines have reached the active file. */
    ghost var history: seq<seq<Byte>>

    constructor (directory: Directory, config: AuditLogSpec.Config, grammar: Grammar)
      ensures this.directory == directory && this.config == config && this.grammar == grammar
      ensures !recoveryComplete && !closed && history == []
    {
      this.directory, this.config, this.grammar := directory, config, grammar;
      recoveryComplete, closed, history := false, false, [];
    }

    method Close()
      modifies this
      ensures World() == old(World()).(instance := AuditLogSpec.ClosedByHost)
      ensures closed && recoveryComplete == old(recoveryComplete)
    {
      closed := true;
    }

    // ----- rotation -----

    method StageSlot(transaction: string, slot: nat, expected: bool) returns (status: Status)
      modifies directory
      ensures directory.View(status)
           == RotationSpec.StageSlot(old(directory.View(Running)), transaction, slot, expected)
    {
      var source := RotationSpec.Home(slot);
      var stage := Staged(transaction, slot);
      var sourceExists, stageExists := source in directory.files, stage in directory.files;
      if !expected {
        return if sourceExists || stageExists then Failed(RecoveryFailed) else Running;
      }
      if sourceExists && stageExists {
        return Failed(RecoveryFailed);
      }
      if sourceExists {
        status := directory.Rename(source, stage);
        if status.Running? {
          status := directory.Sync();
        }
      } else {
        status := if stageExists then Running else Failed(RecoveryFailed);
      }
    }

    method InstallSlot(transaction: string, slot: nat, expected: bool) returns (status: Status)
      modifies directory
      ensures directory.View(status)
           == RotationSpec.InstallSlot(old(directory.View(Running)), transaction, slot, expected)
    {
      var stage := Staged(transaction, slot);
      var target := Backup(slot + 1);
      var stageExists, targetExists := stage in directory.files, target in directory.files;
      if !expected {
        return if stageExists || targetExists then Failed(RecoveryFailed) else Running;
      }
      if stageExists && targetExists {
        return Failed(RecoveryFailed);
      }
      if stageExists {
        status := directory.Rename(stage, target);
        if status.Running? {
          status := directory.Sync();
        }
      } else {
        status := if targetExists then Running else Failed(RecoveryFailed);
      }
    }

    method WriteManifest(m: RotationManifest) returns (status: Status)
      modifies directory
      ensures directory.View(status) == RotationSpec.WriteManifest(old(directory.View(Running)), m)
    {
      var temporary := ManifestTemp(m.transaction);
      if temporary in directory.files {
        return Failed(RecoveryFailed);
      }
      status := directory.Put(temporary, Garbled);
      if status.Running? {
        status := directory.Sync();
      }
      if status.Running? {
        status := directory.Put(temporary, Document(m));
      }
      if status.Running? {
        status := directory.Sync();
      }
      if status.Running? {
        status := directory.Rename(temporary, Manifest);
      }
      if status.Running? {
        status := directory.Sync();
      }
    }

    /** Stages the active file and every backup, and moves the manifest on to the next phase. */
    method Stage(m: RotationManifest) returns (status: Status)
      modifies directory
      ensures directory.View(status) == RotationSpec.Stage(old(directory.View(Running)), m)
    {
      status := StageSlot(m.transaction, 0, true);
      var slot := 1;
      while slot <= m.maxRotated && status.Running?
        invariant slot <= m.maxRotated + 1
        invariant RotationSpec.StageFrom(directory.View(status), m, slot)
               == RotationSpec.StageFrom(old(directory.View(Running)), m, 0)
      {
        status := StageSlot(m.transaction, slot, slot in m.backups);
        slot := slot + 1;
      }
      if !status.Running? {
        RotationSpec.StageFromStopped(directory.View(status), m, slot);
        return;
      }
      status := WriteManifest(m.(phase := RotationSpec.INSTALLING));
    }

    method Install(m: RotationManifest) returns (status: Status)
      modifies directory
      ensures directory.View(status) == RotationSpec.InstallFrom(old(directory.View(Running)), m, 0)
    {
      status := Running;
      var index := 1;
      while index <= m.maxRotated && status.Running?
        invariant 1 <= index <= m.maxRotated + 1
        invariant RotationSpec.InstallFrom(directory.View(status), m, index - 1)
               == RotationSpec.InstallFrom(old(directory.View(Running)), m, 0)
      {
        status := InstallSlot(m.transaction, index - 1, index == 1 || index - 1 in m.backups);
        index := index + 1;
      }
      if !status.Running? {
        RotationSpec.InstallFromStopped(directory.View(status), m, index - 1);
      }
    }

    method RecoverManifest() returns (status: Status)
      requires Manifest in directory.files
      modifies directory
      ensures directory.View(status) == RotationSpec.RecoverManifest(old(directory.View(Running)))
    {
      if !directory.files[Manifest].Document? || !RotationSpec.ValidManifest(directory.files[Manifest].manifest) {
        return Failed(RecoveryFailed);
      }
      var m := directory.files[Manifest].manifest;
      status := Running;
      if m.phase == RotationSpec.STAGING {
        status := Stage(m);
      }
      if !status.Running? {
        RotationSpec.InstallFromStopped(directory.View(status), m, 0);
        return;
      }
      status := Install(m);
      var oldest := Staged(m.transaction, m.maxRotated);
      if status.Running? && oldest in directory.files {
        status := directory.Remove(oldest);
        if status.Running? {
          status := directory.Sync();
        }
      }
      if status.Running? {
        status := directory.Remove(Manifest);
      }
      if status.Running? {
        status := directory.Sync();
      }
    }

    method RotateCurrent(transaction: string) returns (status: Status)
      modifies directory
      ensures directory.View(status)
           == RotationSpec.RotateCurrent(old(directory.View(Running)), transaction, config.maxRotated)
    {
      var backups: seq<nat> := [];
      var index := 1;
      while index <= config.maxRotated
        invariant 1 <= index <= config.maxRotated + 1
        invariant backups + RotationSpec.Occupied(directory.files, index, config.maxRotated)
               == RotationSpec.Occupied(directory.files, 1, config.maxRotated)
      {
        if Backup(index) in directory.files {
          backups := backups + [index];
        }
        index := index + 1;
      }
      var m := RotationManifest(1, transaction, config.maxRotated, "rotate", RotationSpec.STAGING, true, backups);
      assert backups == RotationSpec.Occupied(directory.files, 1, config.maxRotated);
      status := WriteManifest(m);
      if status.Running? {
        status := RecoverManifest();
      }
    }

    // ----- opening -----

    method RecoverTail(name: Name, now: int) returns (status: Status)
      modifies directory
      ensures directory.View(status) == AuditLogSpec.RecoverTail(old(directory.View(Running)), grammar, name, now)
    {
      if name !in directory.files {
        return Running;
      }
      if !directory.files[name].Log? {
        return Failed(Corrupt);
      }
      var content := directory.files[name].bytes;
      var outcome := DecideTail(content);
      match outcome {
        case Complete =>
          status := Running;
        case Refused =>
          status := Failed(Corrupt);
        case Truncate(completeEnd) =>
          status := directory.Put(name, Log(Recovered(content, outcome), now));
          if status.Running? {
            status := directory.Sync();
          }
          if status.Running? {
            status := directory.Sync();
          }
      }
    }

    /** Checks every complete line and then the rest, without changing anything. */
    method DecideTail(content: seq<Byte>) returns (outcome: TailOutcome)
      ensures outcome == RustTail(grammar, content)
    {
      var completeEnd := CompleteEnd(content);
      var records := if completeEnd == 0 then [] else content[..completeEnd - 1];
      var lines := Split(records);
      for i := 0 to |lines|
        invariant forall k :: 0 <= k < i ==> lines[k] != [] && grammar.isObject(lines[k])
      {
        if lines[i] == [] || !grammar.isObject(lines[i]) {
          return Refused;
        }
      }
      var tail := content[completeEnd..];
      if tail == [] {
        return TailOutcome.Complete;
      }
      if !grammar.isUtf8(tail) || grammar.isJson(tail) {
        return Refused;
      }
      return Truncate(completeEnd);
    }

    method RecoverTails(now: int) returns (status: Status)
      modifies directory
      ensures directory.View(status) == AuditLogSpec.RecoverLog(old(directory.View(Running)), grammar, config, now)
    {
      status := Running;
      if Manifest in directory.files {
        status := RecoverManifest();
      }
      if status.Running? && RotationSpec.HasRotationFiles(directory.files) {
        status := Failed(RecoveryFailed);
      }
      var slot := 0;
      while slot <= config.maxRotated && status.Running?
        invariant slot <= config.maxRotated + 1
        invariant AuditLogSpec.RecoverTailsFrom(directory.View(status), grammar, config.maxRotated, slot, now)
               == AuditLogSpec.RecoverLog(old(directory.View(Running)), grammar, config, now)
      {
        status := RecoverTail(RotationSpec.Home(slot), now);
        slot := slot + 1;
      }
      if !status.Running? {
        AuditLogSpec.RecoverTailsStopped(directory.View(status), grammar, config.maxRotated, slot, now);
      }
    }

    // ----- appending -----

    method PruneExpiredBackups(now: int) returns (status: Status)
      modifies directory
      ensures directory.View(status) == AuditLogSpec.Prune(old(directory.View(Running)), config, now)
    {
      status := Running;
      if config.maxAge.None? {
        return;
      }
      var index := 1;
      while index <= config.maxRotated && status.Running?
        invariant 1 <= index <= config.maxRotated + 1
        invariant AuditLogSpec.PruneFrom(directory.View(status), config, index, now)
               == AuditLogSpec.PruneFrom(old(directory.View(Running)), config, 1, now)
      {
        var backup := Backup(index);
        if backup in directory.files && AuditLogSpec.Expired(directory.files[backup], config, now) {
          status := directory.Remove(backup);
          if status.Running? {
            status := directory.Sync();
          }
        }
        index := index + 1;
      }
      if !status.Running? {
        AuditLogSpec.PruneStopped(directory.View(status), config, index, now);
      }
    }

    method RotateBeforeAppend(size: nat, transaction: string, now: int) returns (status: Status)
      modifies directory
      ensures directory.View(status)
           == AuditLogSpec.RotateBeforeAppend(old(directory.View(Running)), config, size, transaction, now)
    {
      status := Running;
      if Active in directory.files && AuditLogSpec.MustRotate(directory.files[Active], config, size, now) {
        status := RotateCurrent(transaction);
        if status.Running? {
          status := PruneExpiredBackups(now);
        } else {
          AuditLogSpec.PruneStopped(directory.View(status), config, 1, now);
        }
      }
    }

    /** The state of this instance, as far as it decides what the next append does. */
    function Instance(): AuditLogSpec.Instance
      reads this
    {
      if closed then AuditLogSpec.ClosedByHost
      else if recoveryComplete then AuditLogSpec.Ready
      else AuditLogSpec.Fresh
    }

    /** What the next append finds. */
    ghost function World(): AuditLogSpec.World
      reads this, directory
    {
      AuditLogSpec.World(directory.files, Instance(), history)
    }

    /** A call of this instance: when it is interrupted by an error, the caller goes on. */
    function Call(record: seq<Byte>, transaction: string, now: int): AuditLogSpec.Event
      reads directory
    {
      AuditLogSpec.AppendCall(record, transaction, now, directory.fuel, directory.tear, true)
    }

    method EnsureReady(now: int) returns (status: Status)
      modifies this, directory
      ensures directory.View(status)
           == AuditLogSpec.ReadyDisk(old(World()), grammar, config, old(Call([], "", now)))
      ensures closed == old(closed) && recoveryComplete == (old(recoveryComplete) || status.Running?)
      ensures history == old(history)
      ensures old(closed) ==> status == Failed(Closed) && directory.files == old(directory.files)
    {
      if closed {
        return Failed(Closed);
      }
      status := Running;
      if !recoveryComplete {
        recoveryComplete := true;
        status := RecoverTails(now);
        if !status.Running? {
          recoveryComplete := false;
        }
      }
    }

    /** Everything up to the point where the record can be written to the active file. */
    method OpenForAppend(record: seq<Byte>, transaction: string, now: int) returns (status: Status)
      modifies directory
      ensures directory.View(status)
           == AuditLogSpec.OpenForAppend(old(directory.View(Running)), config, record, transaction, now)
    {
      status := PruneExpiredBackups(now);
      if status.Running? {
        status := RotateBeforeAppend(|record| + 1, transaction, now);
      }
      if status.Running? {
        if Active !in directory.files {
          status := directory.Put(Active, Log([], now));
        } else if !directory.files[Active].Log? {
          status := Failed(Corrupt);
        }
      }
    }

    method Append(record: seq<Byte>, transaction: string, now: int) returns (status: Status)
      modifies this, directory
      ensures directory.View(status)
           == AuditLogSpec.Answer(old(World()), grammar, config, old(Call(record, transaction, now)))
      ensures World() == AuditLogSpec.Step(old(World()), grammar, config, old(Call(record, transaction, now)))
      ensures old(closed) ==> status == Failed(Closed) && World() == old(World())
    {
      status := EnsureReady(now);
      if !status.Running? {
        return;
      }
      status := OpenForAppend(record, transaction, now);
      if AuditLogSpec.Reached(directory.View(status), record) {
        history := history + [record];
      }
      if status.Running? {
        status := directory.Append(Active, record + [NEWLINE], now);
      }
      if status.Running? {
        status := directory.Sync();
      }
      if status.Running? {
        status := directory.Sync();
      }
    }
  }
}
