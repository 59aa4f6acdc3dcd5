/**
 * Recover and RecoverLogFile: every family's part of every log it still needs is
 * collected, in files written whenever a memtable is full and at the end of each log,
 * but nothing is installed.  Whatever the sizes, the outcome is SharedLogs.ReplayLogs.
 */
module LogRecoveries {
  import opened Core
  import opened SharedLogs
  import opened SharedLogProofs
  import opened LogEngines

  /** What a log adds to what a family has to install. */
  ghost function Replayed(m: Manifest, id: FamilyId, log: Log): seq<Item> {
    if m.logNumber <= log.number then Parts(id, log.batches) else []
  }

  /** The memtable of a family, if it has one in this log. */
  ghost function Held(mems: map<FamilyId, seq<Item>>, id: FamilyId): seq<Item> {
    if id in mems then mems[id] else []
  }

  /** A family's share of some batches, if it is replaying. */
  ghost function Wanted(id: FamilyId, replaying: set<FamilyId>, bs: seq<Batch>): seq<Item> {
    if id in replaying then Parts(id, bs) else []
  }

  /** What has been collected of a log: in files, and in memtables. */
  ghost predicate Collected(disk: Disk, edits: map<FamilyId, seq<Item>>, mems: map<FamilyId, seq<Item>>,
                            before: map<FamilyId, seq<Item>>, replaying: set<FamilyId>, bs: seq<Batch>) {
    && edits.Keys == disk.families == before.Keys && mems.Keys <= replaying
    && forall id :: id in disk.families ==> edits[id] + Held(mems, id) == before[id] + Wanted(id, replaying, bs)
  }

  lemma NothingCollected(disk: Disk, edits: map<FamilyId, seq<Item>>, replaying: set<FamilyId>)
    requires edits.Keys == disk.families
    ensures Collected(disk, edits, map[], edits, replaying, [])
  {
  }

  lemma OnlyNotFull(id: FamilyId, mems0: map<FamilyId, seq<Item>>, mems: map<FamilyId, seq<Item>>,
                    edit0: seq<Item>, edit: seq<Item>, full: bool)
    requires FlushedIfFull(id, mems0, mems, edit0, edit, full) && id in mems
    ensures !full
  {
  }

  /** Writing memtables out collects no more and no less. */
  lemma StillCollected(disk: Disk, edits: map<FamilyId, seq<Item>>, mems: map<FamilyId, seq<Item>>,
                       edits': map<FamilyId, seq<Item>>, mems': map<FamilyId, seq<Item>>,
                       before: map<FamilyId, seq<Item>>, replaying: set<FamilyId>, bs: seq<Batch>,
                       full: FamilyId -> bool)
    requires Collected(disk, edits, mems, before, replaying, bs)
    requires edits'.Keys == disk.families && mems'.Keys <= mems.Keys
    requires forall id :: id in disk.families ==> FlushedIfFull(id, mems, mems', edits[id], edits'[id], full(id))
    ensures Collected(disk, edits', mems', before, replaying, bs)
  {
    hide FlushedIfFull;
    forall id | id in disk.families ensures edits'[id] + Held(mems', id) == before[id] + Wanted(id, replaying, bs) {
      FlushKeeps(id, mems, mems', edits[id], edits'[id], full(id));
    }
  }

  /** A batch inserted into the memtables that were there, and new ones. */
  lemma InsertedHolds(edit: seq<Item>, id: FamilyId, mems0: map<FamilyId, seq<Item>>, mems: map<FamilyId, seq<Item>>,
                      before: seq<Item>, replaying: set<FamilyId>, bs: seq<Batch>, b: Batch)
    requires mems0.Keys <= replaying == mems.Keys
    requires id in mems ==> mems[id] == Held(mems0, id) + Part(id, b)
    requires edit + Held(mems0, id) == before + Wanted(id, replaying, bs)
    ensures edit + Held(mems, id) == before + Wanted(id, replaying, bs + [b])
  {
    hide Parts, Part;
    WantedSnoc(id, replaying, bs, b);
    if id in replaying {
      assert edit + (Held(mems0, id) + Part(id, b)) == edit + Held(mems0, id) + Part(id, b);
      assert before + (Wanted(id, replaying, bs) + Part(id, b)) == before + Wanted(id, replaying, bs) + Part(id, b);
    }
  }

  /** Which memtables are full after the k-th batch. */
  function Nth(full: (nat, FamilyId) -> bool, k: nat): FamilyId -> bool {
    (id: FamilyId) => full(k, id)
  }

  /** One of the memtables is full. */
  ghost predicate AnyFull(ids: set<FamilyId>, full: FamilyId -> bool) {
    exists id :: id in ids && full(id)
  }

  /** Some memtable is full after one of a log's first n batches. */
  ghost predicate SomeFull(n: nat, ids: set<FamilyId>, full: (nat, FamilyId) -> bool) {
    exists k: nat :: k < n && AnyFull(ids, Nth(full, k))
  }

  lemma SomeFullSnoc(n: nat, ids: set<FamilyId>, full: (nat, FamilyId) -> bool)
    ensures SomeFull(n + 1, ids, full) <==> SomeFull(n, ids, full) || AnyFull(ids, Nth(full, n))
  {
    if SomeFull(n, ids, full) {
      var k: nat :| k < n && AnyFull(ids, Nth(full, k));
      assert k < n + 1;
    }
    if AnyFull(ids, Nth(full, n)) {
      assert n < n + 1;
    }
  }

  /** The families that still need a log. */
  ghost function Needing(disk: Disk, l: Log): set<FamilyId>
    requires disk.families <= disk.manifests.Keys
  {
    set id | id in disk.families && disk.manifests[id].logNumber <= l.number
  }

  /** A log is reused: it is the last one and needed, the default family is alone, and no memtable was ever full. */
  ghost predicate Reusable(disk: Disk, i: nat, reuse: bool, full: (nat, FamilyId) -> bool)
    requires i < |disk.logs| && disk.families <= disk.manifests.Keys
  {
    && reuse && i == |disk.logs| - 1 && disk.families == {DEFAULT}
    && !SomeFull(|disk.logs[i].batches|, Needing(disk, disk.logs[i]), full)
  }

  /** The answers for one log. */
  function OfLog(full: (LogNo, nat, FamilyId) -> bool, log: LogNo): (nat, FamilyId) -> bool {
    (k: nat, id: FamilyId) => full(log, k, id)
  }

  /** The last log is needed by some family and is reused. */
  ghost predicate LastReused(disk: Disk, from: LogNo, reuse: bool, full: (LogNo, nat, FamilyId) -> bool)
    requires disk.families <= disk.manifests.Keys
  {
    && disk.logs != []
    && var i: nat := |disk.logs| - 1;
    disk.logs[i].number >= from && Reusable(disk, i, reuse, OfLog(full, disk.logs[i].number))
  }

  /** What becomes of one memtable when the full ones are written out: it is a file, or it stays. */
  ghost predicate FlushedIfFull(id: FamilyId, mems0: map<FamilyId, seq<Item>>, mems: map<FamilyId, seq<Item>>,
                                edit0: seq<Item>, edit: seq<Item>, full: bool) {
    && (id in mems <==> id in mems0 && !full)
    && (id in mems ==> mems[id] == mems0[id])
    && edit == if id in mems0 && full then edit0 + mems0[id] else edit0
  }

  lemma FlushKeeps(id: FamilyId, mems0: map<FamilyId, seq<Item>>, mems: map<FamilyId, seq<Item>>,
                   edit0: seq<Item>, edit: seq<Item>, full: bool)
    requires FlushedIfFull(id, mems0, mems, edit0, edit, full)
    ensures edit + Held(mems, id) == edit0 + Held(mems0, id)
  {
  }

  class Recoverer {
    const disk: Disk
    /** recovery_edits_: the contents of the files each family is to get. */
    var edits: map<FamilyId, seq<Item>>
    /** The default family's memtable and the log, if the last log is reused. */
    var mem: Option<seq<Item>>
    var log: Option<LogNo>
    var maxSequence: SeqNo
    /** The next file number of the default family, whose numbers the logs share. */
    var nextFile: nat

    constructor (disk: Disk)
      requires Registered(disk)
      ensures this.disk == disk && Valid() && mem == None && log == None
      ensures maxSequence == MaxManifestSeq(disk, disk.nextId) && nextFile == disk.nextFile
      ensures forall id :: id in disk.families ==> edits[id] == []
    {
      this.disk := disk;
      edits := map id | id in disk.families :: [];
      mem, log, maxSequence, nextFile := None, None, 0, disk.nextFile;
      new;
      var id := 0;
      while id < disk.nextId
        invariant 0 <= id <= disk.nextId && maxSequence == MaxManifestSeq(disk, id)
        invariant mem == None && log == None && nextFile == disk.nextFile && edits == map f | f in disk.families :: []
      {
        if id in disk.families {
          maxSequence := Max(maxSequence, disk.manifests[id].lastSeq);
        }
        id := id + 1;
      }
    }

    ghost predicate Valid()
      reads this
    {
      Registered(disk) && edits.Keys == disk.families
    }

    /** A memtable becomes a level-0 file of the family's edit, under the family's next file number. */
    method WriteLevel0Table(id: FamilyId, contents: seq<Item>)
      requires Valid() && id in disk.families
      modifies this`edits, this`nextFile
      ensures Valid() && edits == old(edits)[id := old(edits)[id] + contents]
      ensures nextFile == old(nextFile) + if id == DEFAULT then 1 else 0
    {
      if id == DEFAULT {
        nextFile := nextFile + 1;
      }
      edits := edits[id := edits[id] + contents];
    }

    /** Memtables that are too large, and only those, are written out; `full` says which. */
    method FlushFull(mems0: map<FamilyId, seq<Item>>, full: FamilyId -> bool)
      returns (mems: map<FamilyId, seq<Item>>, flushed: bool)
      requires Valid() && mems0.Keys <= disk.families
      modifies this`edits, this`nextFile
      ensures nextFile == old(nextFile) + if DEFAULT in mems0 && full(DEFAULT) then 1 else 0
      ensures Valid() && mems.Keys <= mems0.Keys && (!flushed ==> edits == old(edits) && mems == mems0)
      ensures flushed == AnyFull(mems0.Keys, full)
      ensures forall id :: id in disk.families ==> FlushedIfFull(id, mems0, mems, old(edits)[id], edits[id], full(id))
    {
      mems, flushed := mems0, false;
      var id := 0;
      while id < disk.nextId
        invariant 0 <= id <= disk.nextId
        invariant nextFile == old(nextFile) + if DEFAULT < id && DEFAULT in mems0 && full(DEFAULT) then 1 else 0
        invariant Valid() && mems.Keys <= mems0.Keys && (!flushed ==> edits == old(edits) && mems == mems0)
        invariant flushed ==> AnyFull(mems0.Keys, full)
        invariant forall f :: f in mems0 && f < id && full(f) ==> flushed
        invariant forall f :: f in disk.families ==>
                    FlushedIfFull(f, mems0, mems, old(edits)[f], edits[f], f < id && full(f))
      {
        if id in mems && full(id) {
          WriteLevel0Table(id, mems[id]);
          mems, flushed := mems - {id}, true;
        }
        id := id + 1;
      }
    }

    /** Replay one log.  `full(k)` says which memtables are full after its k-th batch. */
    method RecoverLogFile(l: Log, lastLog: bool, reuse: bool, full: (nat, FamilyId) -> bool) returns (reused: bool)
      requires Valid() && mem == None && log == None
      modifies this
      ensures Valid()
      ensures reused <==> reuse && lastLog && disk.families == {DEFAULT}
                          && !SomeFull(|l.batches|, Needing(disk, l), full)
      ensures maxSequence == MaxBatchSeq(l.batches, old(maxSequence)) && old(nextFile) <= nextFile
      ensures !reused ==> mem == None && log == None
                          && forall id | id in disk.families ::
                               edits[id] == old(edits)[id] + Replayed(disk.manifests[id], id, l)
      ensures reused ==> edits == old(edits) && log == Some(l.number)
                         && mem == Some(Replayed(disk.manifests[DEFAULT], DEFAULT, l))
    {
      var replaying := set id | id in disk.families && disk.manifests[id].logNumber <= l.number;
      hide SomeFull, AnyFull;
      var mems, compactions := ReadRecords(l, replaying, full);
      if reuse && lastLog && compactions == 0 && disk.families == {DEFAULT} {
        mem, log := Some(if DEFAULT in mems then mems[DEFAULT] else []), Some(l.number);
        Cancel(edits[DEFAULT], Held(mems, DEFAULT), Wanted(DEFAULT, replaying, l.batches));
        return true;
      }
      WriteRest(mems);
      return false;
    }

    /** The records go to the memtables of the families that still need them. */
    method ReadRecords(l: Log, replaying: set<FamilyId>, full: (nat, FamilyId) -> bool)
      returns (mems: map<FamilyId, seq<Item>>, compactions: nat)
      requires Valid() && replaying <= disk.families
      modifies this`edits, this`maxSequence, this`nextFile
      ensures old(nextFile) <= nextFile
      ensures Valid() && (compactions == 0 ==> edits == old(edits))
      ensures compactions > 0 <==> SomeFull(|l.batches|, replaying, full)
      ensures l.batches != [] ==> forall id :: id in mems ==> !full(|l.batches| - 1, id)
      ensures maxSequence == MaxBatchSeq(l.batches, old(maxSequence))
      ensures Collected(disk, edits, mems, old(edits), replaying, l.batches)
    {
      hide Parts, MaxBatchSeq, Collected, SomeFull, AnyFull;
      mems, compactions := map[], 0;
      var k: nat := 0;
      NothingCollected(disk, edits, replaying);
      NoBatches(maxSequence);
      NoneFull(replaying, full);
      while k < |l.batches|
        invariant 0 <= k <= |l.batches| && old(nextFile) <= nextFile
        invariant Valid() && (compactions == 0 ==> edits == old(edits))
        invariant compactions > 0 <==> SomeFull(k, replaying, full)
        invariant k > 0 ==> forall id :: id in mems ==> !full(k - 1, id)
        invariant maxSequence == MaxBatchSeq(l.batches[..k], old(maxSequence))
        invariant Collected(disk, edits, mems, old(edits), replaying, l.batches[..k])
      {
        assert l.batches[..k + 1] == l.batches[..k] + [l.batches[k]];
        MaxBatchSeqSnoc(l.batches[..k], l.batches[k], old(maxSequence));
        var flushed;
        mems, flushed := ReadRecord(l.batches[k], mems, old(edits), replaying, l.batches[..k], Nth(full, k));
        if flushed {
          compactions := compactions + 1;
        }
        SomeFullSnoc(k, replaying, full);
        assert forall id :: id in mems ==> !Nth(full, k)(id);
        k := k + 1;
      }
      assert l.batches[..k] == l.batches;
    }

    /** One record: missing memtables are made, the batch inserted, full memtables written out. */
    method ReadRecord(b: Batch, mems0: map<FamilyId, seq<Item>>, ghost before: map<FamilyId, seq<Item>>,
                      replaying: set<FamilyId>, ghost bs: seq<Batch>, full: FamilyId -> bool)
      returns (mems: map<FamilyId, seq<Item>>, flushed: bool)
      requires Valid() && replaying <= disk.families && Collected(disk, edits, mems0, before, replaying, bs)
      modifies this`edits, this`maxSequence, this`nextFile
      ensures old(nextFile) <= nextFile
      ensures Valid() && Collected(disk, edits, mems, before, replaying, bs + [b]) && (!flushed ==> edits == old(edits))
      ensures flushed == AnyFull(replaying, full) && forall id :: id in mems ==> !full(id)
      ensures maxSequence == if b.Last() > old(maxSequence) then b.Last() else old(maxSequence)
    {
      hide Collected, AnyFull, FlushedIfFull;
      var inserted := InsertRecord(b, mems0, before, replaying, bs);
      ghost var edits0 := edits;
      mems, flushed := FlushFull(inserted, full);
      forall id | id in mems ensures !full(id) {
        OnlyNotFull(id, inserted, mems, edits0[id], edits[id], full(id));
      }
      StillCollected(disk, edits0, inserted, edits, mems, before, replaying, bs + [b], full);
    }

    /** The batch goes to the memtables, made if they are missing. */
    method InsertRecord(b: Batch, mems0: map<FamilyId, seq<Item>>, ghost before: map<FamilyId, seq<Item>>,
                        replaying: set<FamilyId>, ghost bs: seq<Batch>)
      returns (mems: map<FamilyId, seq<Item>>)
      requires Valid() && replaying <= disk.families && Collected(disk, edits, mems0, before, replaying, bs)
      modifies this`maxSequence
      ensures Collected(disk, edits, mems, before, replaying, bs + [b]) && mems.Keys == replaying
      ensures maxSequence == if b.Last() > old(maxSequence) then b.Last() else old(maxSequence)
    {
      hide Parts, Part;
      var made := map id | id in replaying :: if id in mems0 then mems0[id] else [];
      mems := InsertInto(b, made);
      forall id | id in disk.families
        ensures edits[id] + Held(mems, id) == before[id] + Wanted(id, replaying, bs + [b])
      {
        InsertedHolds(edits[id], id, mems0, mems, before[id], replaying, bs, b);
      }
      if b.Last() > maxSequence {
        maxSequence := b.Last();
      }
    }

    /** What is left in memtables at the end of a log is written out. */
    method WriteRest(mems: map<FamilyId, seq<Item>>)
      requires Valid() && mems.Keys <= disk.families
      modifies this`edits, this`nextFile
      ensures old(nextFile) <= nextFile
      ensures Valid() && forall id :: id in disk.families ==> edits[id] == old(edits)[id] + Held(mems, id)
    {
      var id := 0;
      while id < disk.nextId
        invariant 0 <= id <= disk.nextId && Valid() && old(nextFile) <= nextFile
        invariant forall f :: f in disk.families ==>
                    edits[f] == if f < id then old(edits)[f] + Held(mems, f) else old(edits)[f]
      {
        if id in mems {
          WriteLevel0Table(id, mems[id]);
        }
        id := id + 1;
      }
    }

    /** min_log: the smallest log number of any family. */
    method SmallestLogNumber() returns (minLog: LogNo)
      requires Valid()
      ensures minLog == MinLog(disk, disk.nextId)
    {
      minLog := disk.manifests[DEFAULT].logNumber;
      var id := 0;
      while id < disk.nextId
        invariant 0 <= id <= disk.nextId && minLog == MinLog(disk, id)
      {
        if id in disk.families {
          minLog := Min(minLog, disk.manifests[id].logNumber);
        }
        id := id + 1;
      }
    }

    /** Every family has collected its part of these logs. */
    ghost predicate AllItems(logs: seq<Log>)
      reads this`edits
      requires Registered(disk) && edits.Keys == disk.families
    {
      forall id :: id in disk.families ==> edits[id] == Items(id, logs, disk.manifests[id].logNumber)
    }

    /** The last of some logs is reused: the default family has its part of it in its memtable. */
    ghost predicate Reused(logs: seq<Log>)
      reads this`edits, this`log, this`mem
      requires Registered(disk) && edits.Keys == disk.families
    {
      && disk.families == {DEFAULT} && logs != [] && AllItems(logs[..|logs| - 1])
      && log == Some(logs[|logs| - 1].number) && mem == Some(Parts(DEFAULT, logs[|logs| - 1].batches))
    }

    /** The next log is replayed, or skipped because no family needs it. */
    method ReplayOne(i: nat, minLog: LogNo, reuse: bool, full: (nat, FamilyId) -> bool) returns (reused: bool)
      requires Valid() && mem == None && log == None && i < |disk.logs| && minLog == MinLog(disk, disk.nextId)
      requires AllItems(disk.logs[..i])
      modifies this
      ensures old(nextFile) <= nextFile
      ensures Valid()
      ensures reused <==> disk.logs[i].number >= minLog && Reusable(disk, i, reuse, full)
      ensures reused ==> i == |disk.logs| - 1 && Reused(disk.logs[..i + 1])
      ensures if reused then log.Some? else mem == None && log == None && AllItems(disk.logs[..i + 1])
      ensures maxSequence ==
              if disk.logs[i].number >= minLog then MaxBatchSeq(disk.logs[i].batches, old(maxSequence))
              else old(maxSequence)
    {
      hide Items, Parts, MaxBatchSeq, MinLog, SomeFull, Needing;
      var l := disk.logs[i];
      assert disk.logs[..i + 1] == disk.logs[..i] + [l] && disk.logs[..i + 1][..i] == disk.logs[..i];
      MinLogIsMin(disk, disk.nextId);
      forall id | id in disk.families
        ensures Items(id, disk.logs[..i + 1], disk.manifests[id].logNumber) ==
                Items(id, disk.logs[..i], disk.manifests[id].logNumber) + Replayed(disk.manifests[id], id, l)
      {
        ItemsSnoc(id, disk.logs[..i], l, disk.manifests[id].logNumber);
      }
      reused := false;
      if l.number >= minLog {
        reused := RecoverLogFile(l, i == |disk.logs| - 1, reuse, full);
      }
    }

    /** All logs from the oldest that any family needs, in order. */
    method ReplayAll(reuse: bool, full: (LogNo, nat, FamilyId) -> bool) returns (replayed: bool)
      requires Valid() && mem == None && log == None && AllItems([]) && nextFile == disk.nextFile
      modifies this
      ensures Valid()
      ensures var from := MinLog(disk, disk.nextId);
              && maxSequence == MaxLogSeq(disk.logs, from, old(maxSequence))
              && nextFile >= MarkUsed(disk.logs, from, disk.nextFile)
              && replayed == (disk.logs != [] && disk.logs[|disk.logs| - 1].number >= from)
      ensures log.None? ==> mem == None && AllItems(disk.logs)
      ensures log.Some? ==> replayed && Reused(disk.logs)
      ensures log.Some? <==> LastReused(disk, MinLog(disk, disk.nextId), reuse, full)
    {
      hide Items, Parts, MaxLogSeq, MarkUsed, MaxBatchSeq, MinLog, AllItems, Reused, Reusable, OfLog;
      var minLog := SmallestLogNumber();
      replayed := false;
      var i := 0;
      NoLogs(minLog, maxSequence, nextFile);
      assert disk.logs[..0] == [];
      while i < |disk.logs|
        invariant 0 <= i <= |disk.logs| && Valid() && (log.Some? ==> i == |disk.logs|)
        invariant maxSequence == MaxLogSeq(disk.logs[..i], minLog, old(maxSequence))
        invariant nextFile >= MarkUsed(disk.logs[..i], minLog, disk.nextFile)
        invariant replayed == (i > 0 && disk.logs[i - 1].number >= minLog)
        invariant log.None? ==> mem == None && AllItems(disk.logs[..i])
        invariant log.Some? ==> replayed && Reused(disk.logs[..i])
        invariant if i < |disk.logs| || i == 0 then log.None?
                  else log.Some? <==> LastReused(disk, minLog, reuse, full)
      {
        var l := disk.logs[i];
        OneMoreLog(disk.logs, i, minLog, old(maxSequence), disk.nextFile);
        var reused := ReplayOne(i, minLog, reuse, OfLog(full, l.number));
        OnlyTheLast(disk, i, reuse, OfLog(full, l.number));
        if l.number >= minLog {
          nextFile, replayed := Max(nextFile, l.number + 1), true;
        }
        i := i + 1;
      }
      assert disk.logs[..i] == disk.logs;
    }

    /**
     * Recover and the first half of Open: replay, then a new log unless the last one
     * is reused.  The recovery edits wait in memory, to be installed family by family.
     */
    method Recover(ghost history: seq<Batch>, created: set<FamilyId>, nextId: FamilyId, reuse: bool, save0: bool,
                   full: (LogNo, nat, FamilyId) -> bool)
      returns (newDisk: Disk, run: Running, todo: set<FamilyId>, save: bool, ghost reused: bool, ghost taken: nat)
      requires Valid() && mem == None && log == None && AllItems([])
      requires maxSequence == MaxManifestSeq(disk, disk.nextId) && nextFile == disk.nextFile
      modifies this
      ensures reused <==> LastReused(disk, MinLog(disk, disk.nextId), reuse, full)
      ensures Up(newDisk, history, run, todo, save) == ReplayLogs(disk, history, created, nextId, reused, save0, taken)
    {
      hide Items, Parts, MaxLogSeq, MarkUsed, MinLog, MaxManifestSeq, LastReused;
      var replayed := ReplayAll(reuse, full);
      taken := nextFile - MarkUsed(disk.logs, MinLog(disk, disk.nextId), disk.nextFile);
      newDisk, save, reused := disk, save0 || replayed, log.Some?;
      if log.Some? {
        var m := disk.manifests[DEFAULT];
        var c := Memory(mem.value, log.value, Some(edits[DEFAULT]), m.logNumber);
        run := Running(map[DEFAULT := c], map[], log.value, maxSequence, nextId, nextFile, None, 0);
        todo := {DEFAULT};
      } else {
        newDisk := disk.(logs := disk.logs + [Log(nextFile, [])]);
        var cfs := map id | id in disk.families ::
          Memory([], if id in created then 0 else nextFile, Some(edits[id]), disk.manifests[id].logNumber);
        assert cfs == FreshMemories(disk, created, nextFile);
        run := Running(cfs, map[], nextFile, maxSequence, nextId, nextFile + 1, None, 0);
        todo := disk.families;
      }
    }
  }

  lemma Cancel(a: seq<Item>, x: seq<Item>, y: seq<Item>)
    requires a + x == a + y
    ensures x == y
  {
    assert |x| == |y|;
    forall i | 0 <= i < |x| ensures x[i] == y[i] {
      assert (a + x)[|a| + i] == (a + y)[|a| + i];
    }
  }

  lemma WantedSnoc(id: FamilyId, replaying: set<FamilyId>, bs: seq<Batch>, b: Batch)
    ensures Wanted(id, replaying, bs + [b]) == Wanted(id, replaying, bs) + if id in replaying then Part(id, b) else []
  {
    PartsAppend(id, bs, b);
  }

  lemma MaxBatchSeqSnoc(bs: seq<Batch>, b: Batch, acc: SeqNo)
    ensures var rest := MaxBatchSeq(bs, acc);
            MaxBatchSeq(bs + [b], acc) == if b.Last() > rest then b.Last() else rest
  {
    assert (bs + [b])[..|bs|] == bs;
  }

  lemma NoLogs(from: LogNo, acc: SeqNo, next: nat)
    ensures MaxLogSeq([], from, acc) == acc && MarkUsed([], from, next) == next
  {
  }

  lemma OneMoreLog(logs: seq<Log>, i: nat, from: LogNo, acc: SeqNo, next: nat)
    requires i < |logs|
    ensures var rest := MaxLogSeq(logs[..i], from, acc);
            MaxLogSeq(logs[..i + 1], from, acc) ==
            if logs[i].number >= from then MaxBatchSeq(logs[i].batches, rest) else rest
    ensures var rest := MarkUsed(logs[..i], from, next);
            MarkUsed(logs[..i + 1], from, next) ==
            if logs[i].number >= from then Max(rest, logs[i].number + 1) else rest
  {
    assert logs[..i + 1][..i] == logs[..i];
  }

  lemma OnlyTheLast(disk: Disk, i: nat, reuse: bool, full: (nat, FamilyId) -> bool)
    requires i < |disk.logs| && disk.families <= disk.manifests.Keys
    ensures i < |disk.logs| - 1 ==> !Reusable(disk, i, reuse, full)
  {
  }

  lemma NoneFull(ids: set<FamilyId>, full: (nat, FamilyId) -> bool)
    ensures !SomeFull(0, ids, full)
  {
  }

  lemma NoBatches(acc: SeqNo)
    ensures MaxBatchSeq([], acc) == acc
  {
  }
}
