/**
 The directory that holds one audit log, as a map from symbolic names to
 contents, and the filesystem primitives that change it.

 A `Disk` carries a budget of primitives. When the budget is used up the next
 primitive does not happen and the operation is `Interrupted`: this stands for a
 kill of the process as well as for an I/O error that is returned. Every
 operation is the identity on a disk that is no longer `Running`, so a chain of
 operations stops where the first of them stopped.
 */
module Storage {
  import opened Common

  type Byte = b: int | 0 <= b < 256

  /** `Staged(t, 0)` is the staged active file, `Staged(t, i)` the staged backup `i`. */
  datatype Name =
    | Active
    | Backup(index: nat)
    | Staged(transaction: string, slot: nat)
    | Manifest
    | ManifestTemp(transaction: string)
  {
    /** The names that start with the log's name followed by ".rotation.". */
    predicate IsRotationName() {
      Staged? || Manifest? || ManifestTemp?
    }

    /** The names whose contents are audit records. */
    predicate HoldsRecords() {
      Active? || Backup? || Staged?
    }
  }

  datatype RotationManifest = RotationManifest(
    formatVersion: int,
    transaction: string,
    maxRotated: nat,
    operation: string,
    phase: string,
    activePresent: bool,
    backups: seq<nat>)

  /** `Garbled` is a file that was created but whose document was not fully written. */
  datatype Content =
    | Log(bytes: seq<Byte>, modified: int)
    | Document(manifest: RotationManifest)
    | Garbled

  type Files = map<Name, Content>

  datatype AuditError = RecoveryFailed | Corrupt | Closed

  datatype Status = Running | Failed(error: AuditError) | Interrupted

  /** `tear` is how many bytes of an interrupted record write still reach the disk. */
  datatype Disk = Disk(files: Files, fuel: nat, tear: nat, status: Status)

  function Get(files: Files, name: Name): Option<Content> {
    if name in files then Some(files[name]) else None
  }

  /** The effect of a rename, which replaces whatever the target held. */
  function Moved(files: Files, source: Name, target: Name): Files
    requires source in files
  {
    (files - {source})[target := files[source]]
  }

  function Refuse(d: Disk, error: AuditError): Disk {
    if d.status.Running? then d.(status := Failed(error)) else d
  }

  /** One atomic primitive: it happens entirely, or the budget is used up and it does not happen. */
  function Primitive(d: Disk, after: Files): Disk {
    if !d.status.Running? then d
    else if d.fuel == 0 then d.(status := Interrupted)
    else d.(files := after, fuel := d.fuel - 1)
  }

  function Rename(d: Disk, source: Name, target: Name): Disk
    requires d.status.Running? ==> source in d.files
  {
    if d.status.Running? then Primitive(d, Moved(d.files, source, target)) else d
  }

  function Remove(d: Disk, name: Name): Disk {
    Primitive(d, d.files - {name})
  }

  function Put(d: Disk, name: Name, content: Content): Disk {
    Primitive(d, d.files[name := content])
  }

  /** Syncing a file or the parent directory changes no name and no content. */
  function Sync(d: Disk): Disk {
    Primitive(d, d.files)
  }

  /**
   Appends bytes to the log file `name`. A write that is interrupted may have
   put any prefix of its bytes on the disk.
   */
  function Append(d: Disk, name: Name, bytes: seq<Byte>, now: int): Disk
    requires d.status.Running? ==> name in d.files && d.files[name].Log?
  {
    if !d.status.Running? then d
    else
      var written := if d.fuel > 0 || d.tear > |bytes| then |bytes| else d.tear;
      var modified := if written == 0 then d.files[name].modified else now;
      var after := d.files[name := Log(d.files[name].bytes + bytes[..written], modified)];
      if d.fuel == 0 then d.(files := after, status := Interrupted)
      else d.(files := after, fuel := d.fuel - 1)
  }
}
