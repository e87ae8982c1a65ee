/** The mutable directory behind one audit log. */
module Directories {
  import opened Storage

  /** The primitives of `Storage` as operations that change one directory in place. */
  class Directory {
    var files: Files
    var fuel: nat
    var tear: nat

    constructor (files: Files, fuel: nat, tear: nat)
      ensures this.files == files && this.fuel == fuel && this.tear == tear
    {
      this.files, this.fuel, this.tear := files, fuel, tear;
    }

    function View(status: Status): Disk
      reads this
    {
      Disk(files, fuel, tear, status)
    }

    method Step(after: Files) returns (status: Status)
      modifies this
      ensures View(status) == Primitive(old(View(Running)), after)
    {
      if fuel == 0 {
        return Interrupted;
      }
      files, fuel := after, fuel - 1;
      status := Running;
    }

    method Rename(source: Name, target: Name) returns (status: Status)
      requires source in files
      modifies this
      ensures View(status) == Storage.Rename(old(View(Running)), source, target)
    {
      status := Step(Moved(files, source, target));
    }

    method Remove(name: Name) returns (status: Status)
      modifies this
      ensures View(status) == Storage.Remove(old(View(Running)), name)
    {
      status := Step(files - {name});
    }

    method Put(name: Name, content: Content) returns (status: Status)
      modifies this
      ensures View(status) == Storage.Put(old(View(Running)), name, content)
    {
      status := Step(files[name := content]);
    }

    method Sync() returns (status: Status)
      modifies this
      ensures View(status) == Storage.Sync(old(View(Running)))
    {
      status := Step(files);
    }

    method Append(name: Name, bytes: seq<Byte>, now: int) returns (status: Status)
      requires name in files && files[name].Log?
      modifies this
      ensures View(status) == Storage.Append(old(View(Running)), name, bytes, now)
    {
      var written := if fuel > 0 || tear > |bytes| then |bytes| else tear;
      var modified := if written == 0 then files[name].modified else now;
      files := files[name := Log(files[name].bytes + bytes[..written], modified)];
      if fuel == 0 {
        return Interrupted;
      }
      fuel := fuel - 1;
      status := Running;
    }
  }
}
