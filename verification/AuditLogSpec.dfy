/** One audit log as a function of the disk: opening it, appending to it, and whole runs. */
module AuditLogSpec {
  import opened Common
  import opened Storage
  import opened RotationSpec
  import opened TailRecovery

  datatype Config = Config(maxBytes: Option<nat>, maxAge: Option<nat>, maxRotated: nat)

  predicate ValidConfig(config: Config) {
    && config.maxBytes != Some(0)
    && config.maxAge != Some(0)
    && config.maxRotated != 0
  }

  /** Carries out the decision about the tail of the log file `name`. */
  function ApplyTail(d: Disk, name: Name, outcome: TailOutcome, now: int): Disk
    requires name in d.files && d.files[name].Log?
  {
    match outcome
    case Complete => d
    case Refused => Refuse(d, Corrupt)
    case Truncate(_) => Sync(Sync(Put(d, name, Log(Recovered(d.files[name].bytes, outcome), now))))
  }

  function RecoverTail(d: Disk, g: Grammar, name: Name, now: int): Disk {
    if !d.status.Running? || name !in d.files then d
    else if !d.files[name].Log? then Refuse(d, Corrupt)
    else ApplyTail(d, name, RustTail(g, d.files[name].bytes), now)
  }

  /** Recovers the tails of `slot`, `slot` + 1, ..., `max`. */
  function RecoverTailsFrom(d: Disk, g: Grammar, max: nat, slot: nat, now: int): Disk
    decreases max + 1 - slot
  {
    if slot > max then d else RecoverTailsFrom(RecoverTail(d, g, Home(slot), now), g, max, slot + 1, now)
  }

  /** Everything that opening the log does before its first append. */
  function RecoverLog(d: Disk, g: Grammar, config: Config, now: int): Disk {
    RecoverTailsFrom(FinishRotation(d), g, config.maxRotated, 0, now)
  }

  predicate Expired(content: Content, config: Config, now: int) {
    content.Log? && config.maxAge.Some? && now - content.modified >= config.maxAge.value
  }

  /** Removes the expired backups among `index`, `index` + 1, ..., `maxRotated`, in this order. */
  function PruneFrom(d: Disk, config: Config, index: nat, now: int): Disk
    decreases config.maxRotated + 1 - index
  {
    if index > config.maxRotated then d
    else
      var backup := Backup(index);
      var next :=
        if d.status.Running? && backup in d.files && Expired(d.files[backup], config, now)
        then Sync(Remove(d, backup))
        else d;
      PruneFrom(next, config, index + 1, now)
  }

  function Prune(d: Disk, config: Config, now: int): Disk {
    if config.maxAge.None? then d else PruneFrom(d, config, 1, now)
  }

  predicate MustRotate(active: Content, config: Config, size: nat, now: int) {
    && active.Log?
    && active.bytes != []
    && ((config.maxBytes.Some? && |active.bytes| + size > config.maxBytes.value) || Expired(active, config, now))
  }

  function RotateBeforeAppend(d: Disk, config: Config, size: nat, transaction: string, now: int): Disk {
    if d.status.Running? && Active in d.files && MustRotate(d.files[Active], config, size, now)
    then Prune(RotateCurrent(d, transaction, config.maxRotated), config, now)
    else d
  }

  /** Everything up to the point where the record can be written to the active file. */
  function OpenForAppend(d: Disk, config: Config, record: seq<Byte>, transaction: string, now: int): Disk {
    var rotated := RotateBeforeAppend(Prune(d, config, now), config, |record| + 1, transaction, now);
    if !rotated.status.Running? then rotated
    else if Active !in rotated.files then Put(rotated, Active, Log([], now))
    else if rotated.files[Active].Log? then rotated
    else Refuse(rotated, Corrupt)
  }

  function AppendRecord(d: Disk, config: Config, record: seq<Byte>, transaction: string, now: int): Disk {
    var prepared := OpenForAppend(d, config, record, transaction, now);
    if !prepared.status.Running? then prepared
    else Sync(Sync(Append(prepared, Active, record + [NEWLINE], now)))
  }

  /** The whole line of the record reached the active file, acknowledged or not. */
  predicate Reached(prepared: Disk, record: seq<Byte>) {
    prepared.status.Running? && (prepared.fuel > 0 || prepared.tear >= |record| + 1)
  }

  // ----- runs -----

  /** A log instance has yet to recover, is ready, was killed, or is closed. */
  datatype Instance = Fresh | Ready | Ended | ClosedByHost

  datatype World = World(files: Files, instance: Instance, history: seq<seq<Byte>>)

  /**
   An append with the number of primitives until the next interruption, a
   restart, or a close. The interruption kills the process, or, if it
   `survives`, is an I/O error that the caller gets as the append's answer.
   */
  datatype Event =
    | AppendCall(record: seq<Byte>, transaction: string, now: int, fuel: nat, tear: nat, survives: bool)
    | Restart
    | Close

  /** The disk when the log is ready for the append. */
  function ReadyDisk(w: World, g: Grammar, config: Config, e: Event): Disk
    requires e.AppendCall?
  {
    var d := Disk(w.files, e.fuel, e.tear, Running);
    match w.instance
    case Fresh => RecoverLog(d, g, config, e.now)
    case Ready => d
    case Ended => d.(status := Interrupted)
    case ClosedByHost => d.(status := Failed(Closed))
  }

  /** What the caller of the append gets, with the disk that is left. */
  function Answer(w: World, g: Grammar, config: Config, e: Event): Disk
    requires e.AppendCall?
  {
    var ready := ReadyDisk(w, g, config, e);
    if ready.status.Running? then AppendRecord(ready, config, e.record, e.transaction, e.now) else ready
  }

  /** The append gets as far as writing, and its whole line reaches the file. */
  predicate LineReaches(w: World, g: Grammar, config: Config, e: Event)
    requires e.AppendCall?
  {
    var ready := ReadyDisk(w, g, config, e);
    ready.status.Running? && Reached(OpenForAppend(ready, config, e.record, e.transaction, e.now), e.record)
  }

  /** An instance that has recovered stays ready whatever becomes of its appends, unless it is killed. */
  function NextInstance(w: World, ready: Disk, answer: Disk, survives: bool): Instance {
    if w.instance.Ended? || w.instance.ClosedByHost? then w.instance
    else if answer.status.Interrupted? && !survives then Ended
    else if ready.status.Running? then Ready
    else Fresh
  }

  /** The history grows by every record whose whole line reached the active file. */
  function Step(w: World, g: Grammar, config: Config, e: Event): World {
    match e
    case Restart => w.(instance := Fresh)
    case Close => if w.instance.Ended? then w else w.(instance := ClosedByHost)
    case AppendCall(record, _, _, _, _, survives) =>
      var ready := ReadyDisk(w, g, config, e);
      var answer := Answer(w, g, config, e);
      World(
        answer.files,
        NextInstance(w, ready, answer, survives),
        if LineReaches(w, g, config, e) then w.history + [record] else w.history)
  }

  function Run(w: World, g: Grammar, config: Config, events: seq<Event>): World
    decreases |events|
  {
    if events == [] then w
    else Step(Run(w, g, config, events[..|events| - 1]), g, config, events[|events| - 1])
  }

  /** An empty directory and a log instance that has not been used. */
  const EMPTY_WORLD := World(map[], Fresh, [])

  /** No rotation is pending, and the active file ends with a complete line. */
  predicate Restful(files: Files) {
    && !HasRotationFiles(files)
    && (Active in files ==>
          files[Active].Log? && CompleteEnd(files[Active].bytes) == |files[Active].bytes|)
  }

  /**
   The recovery guarantee covers an instance that is ready only while it finds
   the log in order. It always does after an append that succeeded; after one
   that failed, the caller may have to restart.
   */
  predicate UsedAtRest(w: World, e: Event) {
    e.AppendCall? && w.instance.Ready? ==> Restful(w.files)
  }

  lemma RecoverTailsStopped(d: Disk, g: Grammar, max: nat, slot: nat, now: int)
    requires !d.status.Running?
    ensures RecoverTailsFrom(d, g, max, slot, now) == d
    decreases max + 1 - slot
  {
  }

  lemma PruneStopped(d: Disk, config: Config, index: nat, now: int)
    requires !d.status.Running?
    ensures PruneFrom(d, config, index, now) == d
    decreases config.maxRotated + 1 - index
  {
  }
}
