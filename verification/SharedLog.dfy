/**
 * Several column families behind one write-ahead log, as a machine of small steps:
 * write, switch, flush, delete a log, create, drop, crash, and recovery step by step.
 * What is on disk survives a crash; everything else is rebuilt from it.
 */
module SharedLogs {
  import opened Core

  type FamilyId = nat
  type LogNo = nat

  /** A write of one family, with the number it was given. */
  datatype Item = Item(sn: SeqNo, op: string)

  /** An operand is a record for the merge operator. */
  datatype Record = Record(family: FamilyId, op: string, operand: bool)

  /** A write batch: one log record.  Record i has number first + i. */
  datatype Batch = Batch(first: SeqNo, records: seq<Record>)
  {
    function Last(): int {
      first + |records| - 1
    }
  }

  datatype Log = Log(number: LogNo, batches: seq<Batch>)

  /** What a family's manifest says: its tables' contents in order of writing, its log number, its last sequence. */
  datatype Manifest = Manifest(tables: seq<Item>, logNumber: LogNo, lastSeq: SeqNo)

  /** What is on disk.  `families` and nextId are the FAMILIES file; nextFile is in the default family's manifest. */
  datatype Disk = Disk(logs: seq<Log>, manifests: map<FamilyId, Manifest>, families: set<FamilyId>, nextId: FamilyId,
                       nextFile: nat)

  /** A family's memtables, and the logs they were opened on. */
  datatype Memory = Memory(mem: seq<Item>, memLog: LogNo, imm: Option<seq<Item>>, immLog: LogNo)
  {
    function Unsaved(): seq<Item> {
      if imm.Some? then imm.value else []
    }
  }

  /** An open database.  `pending` is a batch that is in the log and not yet in the memtables. */
  datatype Running = Running(
    cfs: map<FamilyId, Memory>, creating: map<FamilyId, Memory>,
    log: LogNo, lastSeq: SeqNo, nextId: FamilyId, nextFile: nat,
    pending: Option<Batch>, doomed: LogNo)

  /**
   * `history` is every batch the database has committed to.  `todo` are the families
   * whose recovery edit is not in their manifest yet; `save` is save_manifest.
   */
  datatype State =
    | Down(disk: Disk, history: seq<Batch>)
    | Opening(disk: Disk, history: seq<Batch>, created: set<FamilyId>, nextId: FamilyId, half: Option<FamilyId>)
    | Up(disk: Disk, history: seq<Batch>, run: Running, todo: set<FamilyId>, save: bool)

  const DEFAULT: FamilyId := 0

  // ---- A family's part of batches and logs ----

  /** The records of one family in a batch, with their numbers. */
  function Part(id: FamilyId, b: Batch): seq<Item> {
    PartUpTo(id, b, |b.records|)
  }

  function PartUpTo(id: FamilyId, b: Batch, n: nat): seq<Item>
    requires n <= |b.records|
  {
    if n == 0 then []
    else
      var init := PartUpTo(id, b, n - 1);
      if b.records[n - 1].family == id then init + [Item(b.first + n - 1, b.records[n - 1].op)] else init
  }

  function Parts(id: FamilyId, bs: seq<Batch>): seq<Item> {
    if bs == [] then [] else Parts(id, bs[..|bs| - 1]) + Part(id, bs[|bs| - 1])
  }

  /** The records of one family in the logs numbered `from` and up. */
  function Items(id: FamilyId, logs: seq<Log>, from: LogNo): seq<Item> {
    if logs == [] then []
    else
      var last := logs[|logs| - 1];
      Items(id, logs[..|logs| - 1], from) + if last.number >= from then Parts(id, last.batches) else []
  }

  function PendingPart(id: FamilyId, pending: Option<Batch>): seq<Item> {
    if pending.Some? then Part(id, pending.value) else []
  }

  // ---- Log numbers ----

  /** OldestLiveLog, going through the families in order of their ids. */
  function OldestLiveLog(disk: Disk, run: Running, n: FamilyId): LogNo
    requires run.cfs.Keys <= disk.manifests.Keys
  {
    if n == 0 then run.log
    else
      var rest := OldestLiveLog(disk, run, n - 1);
      if n - 1 in run.cfs then Min(rest, Needed(disk.manifests[n - 1], run.cfs[n - 1])) else rest
  }

  /** The oldest log a family needs. */
  function Needed(m: Manifest, c: Memory): LogNo {
    Min(m.logNumber, if c.imm.Some? then c.immLog else c.memLog)
  }

  function Min(a: nat, b: nat): nat {
    if a < b then a else b
  }

  /** min_log: the smallest log number of the registered families below n. */
  function MinLog(disk: Disk, n: FamilyId): LogNo
    requires DEFAULT in disk.manifests && disk.families <= disk.manifests.Keys
  {
    if n == 0 then disk.manifests[DEFAULT].logNumber
    else
      var rest := MinLog(disk, n - 1);
      if n - 1 in disk.families then Min(rest, disk.manifests[n - 1].logNumber) else rest
  }

  /** The largest last sequence of the registered families below n. */
  function MaxManifestSeq(disk: Disk, n: FamilyId): SeqNo
    requires disk.families <= disk.manifests.Keys
  {
    if n == 0 then 0
    else
      var rest := MaxManifestSeq(disk, n - 1);
      if n - 1 in disk.families then Max(rest, disk.manifests[n - 1].lastSeq) else rest
  }

  /** The largest sequence number in a log's batches, or `acc`. */
  function MaxBatchSeq(bs: seq<Batch>, acc: SeqNo): SeqNo {
    if bs == [] then acc
    else
      var rest := MaxBatchSeq(bs[..|bs| - 1], acc);
      if bs[|bs| - 1].Last() > rest then bs[|bs| - 1].Last() else rest
  }

  /** max_sequence after replaying the logs numbered `from` and up. */
  function MaxLogSeq(logs: seq<Log>, from: LogNo, acc: SeqNo): SeqNo {
    if logs == [] then acc
    else
      var rest := MaxLogSeq(logs[..|logs| - 1], from, acc);
      if logs[|logs| - 1].number >= from then MaxBatchSeq(logs[|logs| - 1].batches, rest) else rest
  }

  /** MarkFileNumberUsed for every replayed log. */
  function MarkUsed(logs: seq<Log>, from: LogNo, next: nat): nat {
    if logs == [] then next
    else
      var rest := MarkUsed(logs[..|logs| - 1], from, next);
      if logs[|logs| - 1].number >= from then Max(rest, logs[|logs| - 1].number + 1) else rest
  }

  // ---- The steps ----

  datatype Event =
    | Append(batch: Batch)            // the batch is in the log
    | Apply                           // and now in the memtables: it is acknowledged
    | Switch(id: FamilyId)            // MakeRoomForWrite: new log, new memtable
    | Flush(id: FamilyId)             // CompactMemTable
    | MarkObsolete                    // RemoveObsoleteFiles decides which logs go
    | DeleteLog(index: nat)           // and one of them goes
    | Allocate(count: nat)            // file numbers are used for something else
    | BeginCreate                     // a family's directory and manifest
    | FinishCreate(id: FamilyId)      // FAMILIES names it
    | Drop(id: FamilyId)              // FAMILIES names it no more
    | RemoveDirectory(id: FamilyId)   // what is left of a dropped family goes
    | Crash
    | Open                            // FAMILIES is read, the manifests are
    | MissingManifest                 // a missing family, as BeginCreate
    | MissingRegister                 // as FinishCreate
    // the logs are replayed, which takes file numbers; a new one is opened unless the last is reused
    | Replay(reuse: bool, save: bool, taken: nat)
    | Install(id: FamilyId)           // a family's recovery edit goes to its manifest

  /** A step, or None if the database never takes it in this state. */
  function Step(s: State, e: Event): Option<State> {
    match s
    case Down(disk, history) =>
      if e.Open? then Some(Opening(disk, history, {}, disk.nextId, None)) else None
    case Opening(disk, history, created, nextId, half) =>
      if e.Crash? then Some(Down(disk, history))
      else if e.MissingManifest? && half.None? then
        var disk' := disk.(manifests := disk.manifests[nextId := Manifest([], 0, 0)]);
        Some(Opening(disk', history, created, nextId + 1, Some(nextId)))
      else if e.MissingRegister? && half.Some? then
        var disk' := disk.(families := disk.families + {half.value}, nextId := nextId);
        Some(Opening(disk', history, created + {half.value}, nextId, None))
      else if e.Replay? && half.None? && DEFAULT in disk.manifests && disk.families <= disk.manifests.Keys then
        Some(ReplayLogs(disk, history, created, nextId, e.reuse, e.save, e.taken))
      else None
    case Up(disk, history, run, todo, save) =>
      if e.Crash? then
        Some(Down(disk, history + if run.pending.Some? then [run.pending.value] else []))
      else if todo != {} then
        (if e.Install? && e.id in todo && e.id in run.cfs && e.id in disk.manifests then
          Some(InstallEdit(disk, history, run, todo, save, e.id)) else None)
      else StepUp(disk, history, run, save, e)
  }

  function InstallEdit(disk: Disk, history: seq<Batch>, run: Running, todo: set<FamilyId>, save: bool,
                       id: FamilyId): State
    requires id in run.cfs && id in disk.manifests
  {
    var run' := run.(cfs := run.cfs[id := run.cfs[id].(imm := None)]);
    if save || run.cfs[id].Unsaved() != [] || disk.manifests[id].logNumber == 0 then
      Up(Flushed(disk, run, id), history, run', todo - {id}, save)
    else Up(disk, history, run', todo - {id}, save)
  }

  /**
   * A family's manifest after its unsaved writes are in a table; it records the file
   * numbers if it is the default one's.
   */
  function Flushed(disk: Disk, run: Running, id: FamilyId): Disk
    requires id in run.cfs && id in disk.manifests
  {
    var m, c := disk.manifests[id], run.cfs[id];
    disk.(manifests := disk.manifests[id := Manifest(m.tables + c.Unsaved(), c.memLog, run.lastSeq)],
          nextFile := if id == DEFAULT then run.nextFile else disk.nextFile)
  }

  function StepUp(disk: Disk, history: seq<Batch>, run: Running, save: bool, e: Event): Option<State> {
    match e
    case Append(b) =>
      if run.pending.None? && disk.logs != [] && b.first == run.lastSeq + 1
         && forall r <- b.records :: r.family < disk.nextId && r.family !in run.creating
      then Some(Up(disk.(logs := AppendTo(disk.logs, b)), history, run.(pending := Some(b)), {}, save))
      else None
    case Apply =>
      if run.pending.Some? then
        var b := run.pending.value;
        var cfs := map id | id in run.cfs :: run.cfs[id].(mem := run.cfs[id].mem + Part(id, b));
        Some(Up(disk, history + [b], run.(cfs := cfs, lastSeq := run.lastSeq + |b.records|, pending := None), {}, save))
      else None
    case Switch(id) =>
      if run.pending.None? && id in run.cfs && run.cfs[id].imm.None? then
        var c := run.cfs[id];
        Some(Up(disk.(logs := disk.logs + [Log(run.nextFile, [])]), history,
                run.(cfs := run.cfs[id := Memory([], run.nextFile, Some(c.mem), c.memLog)],
                     log := run.nextFile, nextFile := run.nextFile + 1), {}, save))
      else None
    case Flush(id) =>
      if id in run.cfs && run.cfs[id].imm.Some? && id in disk.manifests then
        Some(Up(Flushed(disk, run, id), history, run.(cfs := run.cfs[id := run.cfs[id].(imm := None)]), {}, save))
      else None
    case MarkObsolete =>
      if run.cfs.Keys <= disk.manifests.Keys then
        Some(Up(disk, history, run.(doomed := Max(run.doomed, OldestLiveLog(disk, run, run.nextId))), {}, save))
      else None
    case DeleteLog(i) =>
      if i < |disk.logs| && disk.logs[i].number < run.doomed then
        Some(Up(disk.(logs := disk.logs[..i] + disk.logs[i + 1..]), history, run, {}, save))
      else None
    case Allocate(n) =>
      Some(Up(disk, history, run.(nextFile := run.nextFile + n), {}, save))
    case BeginCreate =>
      Some(Up(disk.(manifests := disk.manifests[run.nextId := Manifest([], run.log, run.lastSeq)]), history,
              run.(creating := run.creating[run.nextId := Memory([], run.log, None, 0)], nextId := run.nextId + 1),
              {}, save))
    case FinishCreate(id) =>
      if id in run.creating then
        Some(Up(disk.(families := run.cfs.Keys + {id}, nextId := run.nextId), history,
                run.(cfs := run.cfs[id := run.creating[id]], creating := run.creating - {id}), {}, save))
      else None
    case Drop(id) =>
      if id in run.cfs && id != DEFAULT then
        Some(Up(disk.(families := run.cfs.Keys - {id}, nextId := run.nextId), history,
                run.(cfs := run.cfs - {id}), {}, save))
      else None
    case RemoveDirectory(id) =>
      if id !in disk.families && id !in run.creating then
        Some(Up(disk.(manifests := disk.manifests - {id}), history, run, {}, save))
      else None
    case _ => None
  }

  function AppendTo(logs: seq<Log>, b: Batch): seq<Log>
    requires logs != []
  {
    var last := logs[|logs| - 1];
    logs[..|logs| - 1] + [Log(last.number, last.batches + [b])]
  }

  /**
   * Recover's replay, and the new log if the last one is not reused.  The default
   * family's tables, written on the way, take file numbers: the next one is `taken`
   * further than the logs alone make it.
   */
  function ReplayLogs(disk: Disk, history: seq<Batch>, created: set<FamilyId>, nextId: FamilyId,
                      reuse: bool, save: bool, taken: nat): State
    requires DEFAULT in disk.manifests && disk.families <= disk.manifests.Keys
  {
    var minLog := MinLog(disk, disk.nextId);
    var lastSeq := MaxLogSeq(disk.logs, minLog, MaxManifestSeq(disk, disk.nextId));
    var nextFile := MarkUsed(disk.logs, minLog, disk.nextFile) + taken;
    var replayed := disk.logs != [] && disk.logs[|disk.logs| - 1].number >= minLog;
    if reuse && replayed && disk.families == {DEFAULT} then
      var last, m := disk.logs[|disk.logs| - 1], disk.manifests[DEFAULT];
      var c := Memory(Parts(DEFAULT, last.batches), last.number,
                      Some(Items(DEFAULT, disk.logs[..|disk.logs| - 1], m.logNumber)), m.logNumber);
      Up(disk, history, Running(map[DEFAULT := c], map[], last.number, lastSeq, nextId, nextFile, None, 0),
         {DEFAULT}, true)
    else
      Up(disk.(logs := disk.logs + [Log(nextFile, [])]), history,
         Running(FreshMemories(disk, created, nextFile), map[], nextFile, lastSeq, nextId, nextFile + 1, None, 0),
         disk.families, save || replayed)
  }

  /** Every family on the new log, with what it has to install. */
  function FreshMemories(disk: Disk, created: set<FamilyId>, log: LogNo): map<FamilyId, Memory>
    requires disk.families <= disk.manifests.Keys
  {
    map id | id in disk.families ::
      Memory([], if id in created then 0 else log,
             Some(Items(id, disk.logs, disk.manifests[id].logNumber)), disk.manifests[id].logNumber)
  }

  /** A database that was just created. */
  const NEW_DISK := Disk([], map[DEFAULT := Manifest([], 0, 0)], {DEFAULT}, 1, 2)

  function Run(s: State, es: seq<Event>): Option<State> {
    if es == [] then Some(s)
    else
      match Run(s, es[..|es| - 1])
      case None => None
      case Some(t) => Step(t, es[|es| - 1])
  }
}
