/**
 * The shared log in the engine's own form: the loops over families and logs, and
 * fields updated in place.  Every method is measured against the step machine of
 * SharedLogs, so what is proved of its runs holds of these.
 */
module LogEngines {
  import opened Core
  import opened SharedLogs
  import opened SharedLogProofs

  const MAX_LIVE_LOGS: nat := 3

  /** What MakeRoomForWrite is told about the families from outside the log machinery. */
  datatype Limits = Limits(
    usage: seq<Item> -> nat,            // ApproximateMemoryUsage: never 0, a memtable has its arena
    bufferSize: FamilyId -> nat,        // write_buffer_size
    level0: (FamilyId, nat) -> nat,     // NumLevelFiles(0), at the n-th look
    slowdown: nat, stop: nat)           // kL0_SlowdownWritesTrigger, kL0_StopWritesTrigger
  {
    ghost predicate Valid() {
      forall items :: usage(items) > 0
    }
  }

  datatype Admission = Room | StillWaiting

  /** A write is made, refused as InvalidArgument, or still waits for room. */
  datatype WriteResult = Written | Refused | Waiting

  /** What one look at the families finds: one to switch, or why not. */
  datatype Look = Look(pick: Option<FamilyId>, soft: bool, hard: bool, waiting: bool)

  /** Steps that background threads take while a writer waits. */
  predicate Background(e: Event) {
    e.Flush? || e.MarkObsolete? || e.DeleteLog? || e.Allocate? || e.BeginCreate? || e.FinishCreate? || e.Drop?
      || e.RemoveDirectory?
  }

  class DBImpl {
    var disk: Disk
    var run: Running
    /** The families that have a merge_operator. */
    var merging: set<FamilyId>
    ghost var history: seq<Batch>

    /** A database whose recovery is complete. */
    constructor (disk: Disk, run: Running, merging: set<FamilyId>, ghost history: seq<Batch>)
      requires UpOk(disk, history, run, {}, true)
      ensures Valid() && this.disk == disk && this.run == run && this.merging == merging && this.history == history
    {
      this.disk, this.run, this.merging, this.history := disk, run, merging, history;
    }

    ghost function State(): State
      reads this
    {
      Up(disk, history, run, {}, true)
    }

    ghost predicate Valid()
      reads this
    {
      Ok(State())
    }

    /** The smallest log number that some live family may need. */
    method OldestLive() returns (oldest: LogNo)
      requires Valid()
      ensures oldest == OldestLiveLog(disk, run, run.nextId)
    {
      oldest := run.log;
      var id := 0;
      while id < run.nextId
        invariant 0 <= id <= run.nextId
        invariant oldest == OldestLiveLog(disk, run, id)
      {
        if id in run.cfs {
          var c := run.cfs[id];
          var needed := disk.manifests[id].logNumber;
          if c.imm.Some? {
            needed := Min(needed, c.immLog);
          } else {
            needed := Min(needed, c.memLog);
          }
          oldest := Min(oldest, needed);
        }
        id := id + 1;
      }
    }

    /** One log file is removed. */
    method DeleteLog(i: nat)
      requires Valid() && i < |disk.logs| && disk.logs[i].number < run.doomed
      modifies this`disk
      ensures Valid() && Step(old(State()), Event.DeleteLog(i)) == Some(State())
      ensures disk.logs == old(disk.logs[..i] + disk.logs[i + 1..])
    {
      hide UpOk;
      KeepDeleteLog(disk, history, run, true, i);
      disk := disk.(logs := disk.logs[..i] + disk.logs[i + 1..]);
    }

    /** RemoveObsoleteFiles decides which logs may go. */
    method FindObsolete() returns (oldest: LogNo)
      requires Valid()
      modifies this`run
      ensures Valid() && Step(old(State()), MarkObsolete) == Some(State())
      ensures oldest == OldestLiveLog(disk, old(run), old(run).nextId) <= run.doomed
    {
      hide UpOk;
      NonEmptyLog(State());
      oldest := OldestLive();
      KeepMarkObsolete(disk, history, run, true);
      run := run.(doomed := Max(run.doomed, oldest));
    }

    /** RemoveObsoleteFiles, as far as logs go: one log after another, each a step of its own. */
    method RemoveObsoleteLogs() returns (ghost steps: seq<Event>)
      requires Valid()
      modifies this`disk, this`run
      ensures Valid() && Run(old(State()), steps) == Some(State())
      ensures forall e <- steps :: e.MarkObsolete? || e.DeleteLog?
      ensures disk.logs == Kept(old(disk.logs), OldestLiveLog(old(disk), old(run), old(run).nextId))
    {
      hide Ok, Step, OldestLiveLog;
      ghost var logs := disk.logs;
      var oldest := FindObsolete();
      steps := [MarkObsolete];
      RunOne(old(State()), [], MarkObsolete);
      var i := 0;
      while i < |disk.logs|
        invariant 0 <= i <= |disk.logs| && oldest <= run.doomed
        invariant Valid() && Run(old(State()), steps) == Some(State())
        invariant forall e <- steps :: e.MarkObsolete? || e.DeleteLog?
        invariant disk.logs[..i] + Kept(disk.logs[i..], oldest) == Kept(logs, oldest)
        decreases |disk.logs| - i
      {
        KeptStep(disk.logs, i, oldest);
        if disk.logs[i].number < oldest {
          RunOne(old(State()), steps, Event.DeleteLog(i));
          steps := steps + [Event.DeleteLog(i)];
          DeleteLog(i);
        } else {
          i := i + 1;
        }
      }
      assert disk.logs[..i] == disk.logs;
    }

    /** The batch goes to the log. */
    method AddRecord(b: Batch)
      requires Valid() && run.pending.None? && b.first == run.lastSeq + 1
      requires forall r <- b.records :: r.family < disk.nextId && r.family !in run.creating
      modifies this`disk, this`run
      ensures Valid() && Step(old(State()), Append(b)) == Some(State())
      ensures run == old(run).(pending := Some(b))
    {
      hide AppendTo, Registered, CountersOk, UnbornOk, FamiliesOk, TodoOk;
      NonEmptyLog(State());
      KeepAppend(disk, history, run, true, b);
      hide UpOk;
      disk := disk.(logs := AppendTo(disk.logs, b));
      run := run.(pending := Some(b));
    }

    /** The batch goes to the memtables it was meant for. */
    method ApplyBatch()
      requires Valid() && run.pending.Some?
      modifies this`run, this`history
      ensures Valid() && Step(old(State()), Apply) == Some(State())
    {
      hide UpOk, Part;
      KeepApply(disk, history, run, true);
      var b := run.pending.value;
      var mems := map id | id in run.cfs :: run.cfs[id].mem;
      var inserted := InsertInto(b, mems);
      var cfs := map id | id in run.cfs :: run.cfs[id].(mem := inserted[id]);
      assert cfs == map id | id in run.cfs :: run.cfs[id].(mem := run.cfs[id].mem + Part(id, b));
      run := run.(cfs := cfs, lastSeq := run.lastSeq + |b.records|, pending := None);
      history := history + [b];
    }

    /** The family is there, and takes operands if this is one. */
    predicate Accepts(r: Record)
      reads this
    {
      r.family in run.cfs && (r.operand ==> r.family in merging)
    }

    /** SwitchLog, and the family's new memtable on it. */
    method SwitchMemTable(id: FamilyId)
      requires Valid() && run.pending.None? && id in run.cfs && run.cfs[id].imm.None?
      modifies this`disk, this`run
      ensures Valid() && Step(old(State()), Switch(id)) == Some(State())
      ensures run.pending.None?
      ensures run.cfs == old(run.cfs[id := Memory([], run.nextFile, Some(run.cfs[id].mem), run.cfs[id].memLog)])
    {
      hide UpOk;
      KeepSwitch(disk, history, run, true, id);
      var number := run.nextFile;
      disk := disk.(logs := disk.logs + [Log(number, [])]);
      run := run.(log := number, nextFile := number + 1);
      var c := run.cfs[id];
      run := run.(cfs := run.cfs[id := Memory([], run.log, Some(c.mem), c.memLog)]);
    }

    /** CompactMemTable: the immutable memtable goes to a table, the manifest takes the memtable's log number. */
    method CompactMemTable(id: FamilyId)
      requires Valid() && id in run.cfs && run.cfs[id].imm.Some?
      modifies this`disk, this`run
      ensures Valid() && Step(old(State()), Flush(id)) == Some(State())
    {
      hide Ok;
      NonEmptyLog(State());
      StepKeeps(State(), Flush(id));
      var m, c := disk.manifests[id], run.cfs[id];
      var table := c.imm.value;
      var edit := Manifest(m.tables + table, c.memLog, run.lastSeq);
      disk := disk.(manifests := disk.manifests[id := edit]);
      if id == DEFAULT {
        disk := disk.(nextFile := run.nextFile);
      }
      run := run.(cfs := run.cfs[id := c.(imm := None)]);
    }

    /** CreateColumnFamily: the manifest first, FAMILIES second; a crash in between leaves nothing that counts. */
    method CreateColumnFamily(merges: bool) returns (id: FamilyId)
      requires Valid()
      modifies this`disk, this`run, this`merging
      ensures Valid() && id == old(run).nextId && id in run.cfs && id in disk.families
      ensures merging == old(merging) - {id} + if merges then {id} else {}
      ensures Run(old(State()), [BeginCreate, FinishCreate(id)]) == Some(State())
    {
      hide Ok;
      id := run.nextId;
      StepKeeps(State(), BeginCreate);
      disk := disk.(manifests := disk.manifests[id := Manifest([], run.log, run.lastSeq)]);
      run := run.(creating := run.creating[id := Memory([], run.log, None, 0)], nextId := id + 1);
      RunTwo(old(State()), BeginCreate, FinishCreate(id));
      StepKeeps(State(), FinishCreate(id));
      var onDisk := run.cfs.Keys + {id};
      run := run.(cfs := run.cfs[id := run.creating[id]], creating := run.creating - {id});
      disk := disk.(families := onDisk, nextId := run.nextId);
      merging := merging - {id} + if merges then {id} else {};
    }

    /** DropColumnFamily: FAMILIES is rewritten without it; false is InvalidArgument, for the default family or none. */
    method DropColumnFamily(id: FamilyId) returns (ok: bool)
      requires Valid()
      modifies this`disk, this`run
      ensures Valid() && (ok <==> id in old(run).cfs && id != DEFAULT)
      ensures ok ==> id !in run.cfs && id !in disk.families && Step(old(State()), Drop(id)) == Some(State())
      ensures !ok ==> State() == old(State())
    {
      hide Ok;
      if id !in run.cfs || id == DEFAULT {
        return false;
      }
      StepKeeps(State(), Drop(id));
      run := run.(cfs := run.cfs - {id});
      disk := disk.(families := run.cfs.Keys, nextId := run.nextId);
      return true;
    }

    /** A step of another thread, if it can be taken now. */
    method TakeBackground(e: Event) returns (taken: bool)
      requires Valid() && run.pending.None? && Background(e)
      modifies this`disk, this`run
      ensures Valid() && run.pending.None?
      ensures if taken then Step(old(State()), e) == Some(State()) else State() == old(State())
    {
      hide Ok, StepUp;
      var t := StepUp(disk, [], run, true, e);
      taken := t.Some?;
      if taken {
        BackgroundStep(disk, [], history, run, e);
        StepKeeps(State(), e);
        disk, run := t.value.disk, t.value.run;
      }
    }

    /** Other threads work while the writer waits: the steps of `schedule` that they can take. */
    method Wait(schedule: seq<Event>) returns (ghost steps: seq<Event>)
      requires Valid() && run.pending.None?
      modifies this`disk, this`run
      ensures Valid() && run.pending.None? && Run(old(State()), steps) == Some(State())
      ensures forall e <- steps :: Background(e) && !e.Switch? && e in schedule
    {
      hide Ok, Step;
      steps := [];
      var i := 0;
      while i < |schedule|
        invariant 0 <= i <= |schedule|
        invariant Valid() && run.pending.None? && Run(old(State()), steps) == Some(State())
        invariant forall e <- steps :: Background(e) && !e.Switch? && e in schedule
      {
        if Background(schedule[i]) {
          RunMore(old(State()), steps);
          var taken := TakeBackground(schedule[i]);
          steps := if taken then steps + [schedule[i]] else steps;
        }
        i := i + 1;
      }
    }

    /** The families a writer wants room in: the batch's, and the laggards. */
    method Wanted(families: set<FamilyId>, force: bool, oldest: LogNo) returns (want: set<FamilyId>)
      requires Valid()
      ensures forall id :: id in want <==> Wants(run, families, force, oldest, id)
    {
      hide Ok;
      want := families + if force then {DEFAULT} else {};
      if run.log > oldest + MAX_LIVE_LOGS {
        want := want + set id | id in run.cfs && run.cfs[id].imm.None? && run.cfs[id].memLog <= oldest;
      }
    }

    /** One look at the wanted families: the first one that can be switched, or what there is to wait for. */
    method PickFamily(want: set<FamilyId>, lim: Limits, oldest: LogNo, force: bool, allowDelay: bool, round: nat)
      returns (r: Look)
      requires Valid()
      ensures r.pick.Some? ==>
                && r.pick.value in want && r.pick.value in run.cfs && Full(run, lim, r.pick.value, oldest, force)
                && run.cfs[r.pick.value].imm.None? && lim.level0(r.pick.value, round) < lim.stop
                && forall f :: f < r.pick.value && f in want && f in run.cfs && Full(run, lim, f, oldest, force) ==>
                                 Busy(run, lim, f, round)
      ensures r.pick.None? ==>
                forall f :: f in want && f in run.cfs && Full(run, lim, f, oldest, force) ==> Busy(run, lim, f, round)
      ensures r.pick.None? ==>
                (r.waiting || r.hard <==> exists f :: f in want && f in run.cfs && Full(run, lim, f, oldest, force))
      ensures r.pick.None? ==>
                (r.soft <==> allowDelay && exists f :: f in want && Crowded(run, lim, f, oldest, force, round))
    {
      hide Ok, Full;
      LiveIds(State());
      r := Look(None, false, false, false);
      var id := 0;
      while id < run.nextId && r.pick.None?
        invariant 0 <= id <= run.nextId
        invariant r.pick.Some? ==> id == r.pick.value + 1
        invariant r.pick.Some? ==>
                    && r.pick.value in want && r.pick.value in run.cfs && Full(run, lim, r.pick.value, oldest, force)
                    && run.cfs[r.pick.value].imm.None? && lim.level0(r.pick.value, round) < lim.stop
        invariant forall f :: f in want && f in run.cfs && f < id && Full(run, lim, f, oldest, force) ==>
                                r.pick == Some(f) || Busy(run, lim, f, round)
        invariant r.pick.None? ==>
                    (r.waiting || r.hard <==>
                       exists f :: f in want && f in run.cfs && f < id && Full(run, lim, f, oldest, force))
        invariant r.soft <==>
                    allowDelay && exists f :: f in want && f < id && Crowded(run, lim, f, oldest, force, round)
      {
        if id in want && id in run.cfs {
          if !Full(run, lim, id, oldest, force) {
            r := r.(soft := r.soft || (allowDelay && lim.level0(id, round) >= lim.slowdown));
          } else if run.cfs[id].imm.Some? {
            r := r.(waiting := true);
          } else if lim.level0(id, round) >= lim.stop {
            r := r.(hard := true);
          } else {
            r := r.(pick := Some(id));
          }
        }
        id := id + 1;
      }
    }

    /**
     * MakeRoomForWrite, with what other threads do at each wait as a parameter.  Look
     * after look it switches the first wanted family that must be switched and can be,
     * sleeps once if none can be and level 0 of a wanted family is filling up, waits
     * while some must and none can be switched, and reports room when none must.
     */
    method MakeRoomForWrite(families: set<FamilyId>, force0: bool, lim: Limits, schedule: seq<seq<Event>>)
      returns (outcome: Admission, ghost turns: seq<Turn>)
      requires Valid() && run.pending.None? && lim.Valid()
      modifies this`disk, this`run
      ensures Valid() && run.pending.None? && Run(old(State()), StepsOf(turns)) == Some(State())
      ensures forall n | 0 <= n < |turns| :: Right(old(State()), lim, families, force0, schedule, turns, n)
      ensures run.cfs.Keys <= disk.manifests.Keys
      ensures !Delays(disk, run, lim, families, force0, turns)
      ensures outcome == Room <==> !SomeMust(disk, run, lim, families, Forced(force0, turns))
      ensures outcome == StillWaiting ==> NoneFree(disk, run, lim, families, Forced(force0, turns), |turns|)
      ensures outcome == Room ==> LaggardsFlushing(disk, run)
      ensures outcome == Room ==>
                forall id :: id in families && id in run.cfs ==> lim.usage(run.cfs[id].mem) <= lim.bufferSize(id)
    {
      hide Ok, Step, Oldest, Full, Progress, NoneFree, SomeMust, Wants, Busy, Crowded, Picked, Background, SomeCrowded;
      var allowDelay, force, waits, round := !force0, force0, 0, 0;
      turns := [];
      NoProgress(State(), lim, families, force0, schedule);
      while true
        invariant Valid() && run.pending.None? && round == |turns|
        invariant Progress(old(State()), State(), lim, families, force0, schedule, turns)
        invariant force == Forced(force0, turns) && allowDelay == MayDelay(force0, turns)
        invariant 0 <= waits <= |schedule|
        decreases allowDelay, |schedule| - waits, |Switchable(run)|
      {
        NonEmptyLog(State());
        var oldest := OldestLive();
        var want := Wanted(families, force, oldest);
        var look := PickFamily(want, lim, oldest, force, allowDelay, round);
        LookMeans(disk, run, lim, families, want, force, allowDelay, oldest, round, look);
        ghost var at := State();
        ghost var turn;
        if look.pick.None? && look.soft {
          ghost var work := Wait(if waits < |schedule| then schedule[waits] else []);
          turn := Slept(work);
          AfterTurn(old(State()), at, State(), lim, families, force0, schedule, turns, turn, waits);
          waits, allowDelay := if waits < |schedule| then waits + 1 else waits, false;
        } else if look.pick.None? && (look.waiting || look.hard) {
          if waits == |schedule| {
            ProgressMeans(old(State()), State(), lim, families, force0, schedule, turns);
            return StillWaiting, turns;
          }
          ghost var work := Wait(schedule[waits]);
          turn := Waited(work);
          AfterTurn(old(State()), at, State(), lim, families, force0, schedule, turns, turn, waits);
          waits := waits + 1;
        } else if look.pick.None? {
          RoomMade(disk, run, history, lim, families, force);
          ProgressMeans(old(State()), State(), lim, families, force0, schedule, turns);
          return Room, turns;
        } else {
          var id := look.pick.value;
          var c := run.cfs[id];
          SwitchLeavesFewer(run, id, Memory([], run.nextFile, Some(c.mem), c.memLog));
          SwitchMemTable(id);
          turn := Switched(id);
          OneStep(at, id);
          AfterTurn(old(State()), at, State(), lim, families, force0, schedule, turns, turn, waits);
          force := false;
        }
        turns, round := turns + [turn], round + 1;
      }
    }

    /**
     * Write: the records are checked, then there may be a wait for room, then come log
     * and memtables.  A family that goes away during the wait is not noticed: its
     * records take their numbers and go nowhere.
     */
    method Write(records: seq<Record>, lim: Limits, schedule: seq<seq<Event>>)
      returns (result: WriteResult, ghost waits: seq<Event>)
      requires Valid() && run.pending.None? && lim.Valid()
      modifies this`disk, this`run, this`history
      ensures Valid() && (result == Refused <==> exists r <- records :: !old(Accepts(r)))
      ensures result == Refused ==> State() == old(State())
      ensures forall e <- waits :: e.Switch? || Background(e)
      ensures result == Waiting ==> Run(old(State()), waits) == Some(State())
      ensures result == Written ==>
                Run(old(State()), waits + [Append(Batch(old(run).lastSeq + 1, records)), Apply]) == Some(State())
      ensures result == Written ==>
                Run(old(State()), waits).Some? && HasRoom(Run(old(State()), waits).value, records, lim)
    {
      hide Ok, Step;
      waits := [];
      if exists r <- records :: !Accepts(r) {
        return Refused, waits;
      }
      LiveFamilies(State());
      ghost var start := State();
      ghost var turns;
      var families, outcome := set r | r in records :: r.family, Room;
      outcome, turns := MakeRoomForWrite(families, false, lim, schedule);
      waits := StepsOf(turns);
      TurnKinds(start, lim, families, false, schedule, turns, |turns|);
      assert turns[..|turns|] == turns;
      if outcome == StillWaiting {
        return Waiting, waits;
      }
      forall r | r in records ensures r.family < disk.nextId && r.family !in run.creating {
        WaitsKeep(start, waits, r.family);
      }
      WaitsKeep(start, waits, DEFAULT);
      var b := Batch(run.lastSeq + 1, records);
      ghost var ready := State();
      AddRecord(b);
      RunTwo(ready, Append(b), Apply);
      ApplyBatch();
      RunOn(start, waits, [Append(b), Apply]);
      return Written, waits;
    }
  }

  /** MemTableInserter: each record goes to its family's memtable; numbers count on where there is none. */
  method InsertInto(b: Batch, mems0: map<FamilyId, seq<Item>>) returns (mems: map<FamilyId, seq<Item>>)
    ensures mems.Keys == mems0.Keys && forall id :: id in mems ==> mems[id] == mems0[id] + Part(id, b)
  {
    mems := mems0;
    var i := 0;
    assert forall id :: id in mems ==> mems[id] + [] == mems[id];
    while i < |b.records|
      invariant 0 <= i <= |b.records|
      invariant mems.Keys == mems0.Keys && forall id :: id in mems ==> mems[id] == mems0[id] + PartUpTo(id, b, i)
    {
      var id := b.records[i].family;
      if id in mems {
        mems := mems[id := mems[id] + [Item(b.first + i, b.records[i].op)]];
      }
      i := i + 1;
    }
  }

  /** MakeRoomForWrite's test whether a family's memtable must be switched. */
  predicate Full(run: Running, lim: Limits, id: FamilyId, oldest: LogNo, force: bool)
    requires id in run.cfs
  {
    || (force && id == DEFAULT)
    || lim.usage(run.cfs[id].mem) > lim.bufferSize(id)
    || (run.cfs[id].memLog <= oldest && run.log > oldest + MAX_LIVE_LOGS && lim.usage(run.cfs[id].mem) > 0)
  }

  /** A family that cannot be switched now: its last memtable is not flushed, or level 0 is full. */
  predicate Busy(run: Running, lim: Limits, id: FamilyId, round: nat) {
    id in run.cfs && (run.cfs[id].imm.Some? || lim.level0(id, round) >= lim.stop)
  }

  /** A family with room, but with many files on level 0. */
  predicate Crowded(run: Running, lim: Limits, id: FamilyId, oldest: LogNo, force: bool, round: nat) {
    id in run.cfs && !Full(run, lim, id, oldest, force) && lim.level0(id, round) >= lim.slowdown
  }

  /** Families a writer wants room in. */
  predicate Wants(run: Running, families: set<FamilyId>, force: bool, oldest: LogNo, id: FamilyId) {
    id in families || (force && id == DEFAULT) || (id in run.cfs && Laggard(run, id, oldest))
  }

  /** A wanted family whose memtable must be switched. */
  ghost predicate MustSwitch(run: Running, lim: Limits, families: set<FamilyId>, force: bool, oldest: LogNo,
                             id: FamilyId) {
    id in run.cfs && Wants(run, families, force, oldest, id) && Full(run, lim, id, oldest, force)
  }

  ghost function Oldest(disk: Disk, run: Running): LogNo
    requires run.cfs.Keys <= disk.manifests.Keys
  {
    OldestLiveLog(disk, run, run.nextId)
  }

  /** Some wanted family must be switched. */
  ghost predicate SomeMust(disk: Disk, run: Running, lim: Limits, families: set<FamilyId>, force: bool)
    requires run.cfs.Keys <= disk.manifests.Keys
  {
    exists id :: MustSwitch(run, lim, families, force, Oldest(disk, run), id)
  }

  /** No family that must be switched can be. */
  ghost predicate NoneFree(disk: Disk, run: Running, lim: Limits, families: set<FamilyId>, force: bool, round: nat)
    requires run.cfs.Keys <= disk.manifests.Keys
  {
    forall id :: MustSwitch(run, lim, families, force, Oldest(disk, run), id) ==> Busy(run, lim, id, round)
  }

  /**
   * The first family that must be switched and can be: no memtable of it waits, and level
   * 0 is below the stop trigger.
   */
  ghost predicate Picked(disk: Disk, run: Running, lim: Limits, families: set<FamilyId>, force: bool, round: nat,
                         id: FamilyId)
    requires run.cfs.Keys <= disk.manifests.Keys
  {
    && MustSwitch(run, lim, families, force, Oldest(disk, run), id)
    && run.cfs[id].imm.None? && lim.level0(id, round) < lim.stop
    && forall f: FamilyId :: f < id && MustSwitch(run, lim, families, force, Oldest(disk, run), f) ==>
                               Busy(run, lim, f, round)
  }

  /** Some wanted family has room, but level 0 is at or past the slowdown trigger. */
  ghost predicate SomeCrowded(disk: Disk, run: Running, lim: Limits, families: set<FamilyId>, force: bool, round: nat)
    requires run.cfs.Keys <= disk.manifests.Keys
  {
    exists id :: Wants(run, families, force, Oldest(disk, run), id)
      && Crowded(run, lim, id, Oldest(disk, run), force, round)
  }

  /** What one look led to: a switch, a short sleep, or a wait, and what other threads did meanwhile. */
  datatype Turn = Switched(id: FamilyId) | Slept(work: seq<Event>) | Waited(work: seq<Event>)
  {
    function Steps(): seq<Event> {
      if Switched? then [Switch(id)] else work
    }
  }

  function StepsOf(turns: seq<Turn>): seq<Event> {
    if turns == [] then [] else StepsOf(turns[..|turns| - 1]) + turns[|turns| - 1].Steps()
  }

  /** A forced switch is still due. */
  ghost predicate Forced(force0: bool, turns: seq<Turn>) {
    force0 && forall t <- turns :: !t.Switched?
  }

  /** A write sleeps at most once, a forced one never. */
  ghost predicate MayDelay(force0: bool, turns: seq<Turn>) {
    !force0 && forall t <- turns :: !t.Slept?
  }

  /** It is time to sleep. */
  ghost predicate Delays(disk: Disk, run: Running, lim: Limits, families: set<FamilyId>, force0: bool, turns: seq<Turn>)
    requires run.cfs.Keys <= disk.manifests.Keys
  {
    && NoneFree(disk, run, lim, families, Forced(force0, turns), |turns|) && MayDelay(force0, turns)
    && SomeCrowded(disk, run, lim, families, Forced(force0, turns), |turns|)
  }

  /** Work of other threads that the schedule has. */
  ghost predicate Scheduled(work: seq<Event>, schedule: seq<seq<Event>>) {
    forall e <- work :: Background(e) && !e.Switch? && exists j :: 0 <= j < |schedule| && e in schedule[j]
  }

  /** What is done in this state after these turns is what the look says. */
  ghost predicate RightTurn(s: State, lim: Limits, families: set<FamilyId>, force0: bool, schedule: seq<seq<Event>>,
                            turns: seq<Turn>, turn: Turn)
  {
    && s.Up? && s.run.cfs.Keys <= s.disk.manifests.Keys
    && match turn
       case Switched(id) => Picked(s.disk, s.run, lim, families, Forced(force0, turns), |turns|, id)
       case Slept(work) => Delays(s.disk, s.run, lim, families, force0, turns) && Scheduled(work, schedule)
       case Waited(work) =>
         && NoneFree(s.disk, s.run, lim, families, Forced(force0, turns), |turns|)
         && SomeMust(s.disk, s.run, lim, families, Forced(force0, turns))
         && !Delays(s.disk, s.run, lim, families, force0, turns) && Scheduled(work, schedule)
  }

  /** The n-th turn was right when it was taken. */
  ghost predicate Right(s0: State, lim: Limits, families: set<FamilyId>, force0: bool, schedule: seq<seq<Event>>,
                        turns: seq<Turn>, n: nat)
    requires n < |turns|
  {
    match Run(s0, StepsOf(turns[..n]))
    case None => false
    case Some(s) => RightTurn(s, lim, families, force0, schedule, turns[..n], turns[n])
  }

  /** What a writer's wait has come to: a run of right turns. */
  ghost predicate Progress(s0: State, now: State, lim: Limits, families: set<FamilyId>, force0: bool,
                           schedule: seq<seq<Event>>, turns: seq<Turn>)
  {
    && Run(s0, StepsOf(turns)) == Some(now)
    && forall n | 0 <= n < |turns| :: Right(s0, lim, families, force0, schedule, turns, n)
  }

  lemma ProgressMeans(s0: State, now: State, lim: Limits, families: set<FamilyId>, force0: bool,
                      schedule: seq<seq<Event>>, turns: seq<Turn>)
    requires Progress(s0, now, lim, families, force0, schedule, turns)
    ensures Run(s0, StepsOf(turns)) == Some(now)
    ensures forall n | 0 <= n < |turns| :: Right(s0, lim, families, force0, schedule, turns, n)
  {
  }

  lemma NoProgress(s0: State, lim: Limits, families: set<FamilyId>, force0: bool, schedule: seq<seq<Event>>)
    ensures Progress(s0, s0, lim, families, force0, schedule, [])
    ensures Forced(force0, []) == force0 && MayDelay(force0, []) == !force0
  {
  }

  lemma OneStep(s: State, id: FamilyId)
    ensures Run(s, Switched(id).Steps()) == Step(s, Switch(id))
  {
    RunOne(s, [], Switch(id));
    assert [] + [Switch(id)] == [Switch(id)];
  }

  /** One more right turn. */
  lemma AfterTurn(s0: State, at: State, now: State, lim: Limits, families: set<FamilyId>, force0: bool,
                  schedule: seq<seq<Event>>, turns: seq<Turn>, turn: Turn, waits: nat)
    requires Progress(s0, at, lim, families, force0, schedule, turns) && waits <= |schedule|
    requires at.Up? && at.run.cfs.Keys <= at.disk.manifests.Keys && Run(at, turn.Steps()) == Some(now)
    requires match turn
             case Switched(id) => Picked(at.disk, at.run, lim, families, Forced(force0, turns), |turns|, id)
             case Slept(work) =>
               && Delays(at.disk, at.run, lim, families, force0, turns)
               && forall e <- work ::
                    Background(e) && !e.Switch? && e in (if waits < |schedule| then schedule[waits] else [])
             case Waited(work) =>
               && NoneFree(at.disk, at.run, lim, families, Forced(force0, turns), |turns|)
               && SomeMust(at.disk, at.run, lim, families, Forced(force0, turns)) && waits < |schedule|
               && !Delays(at.disk, at.run, lim, families, force0, turns)
               && forall e <- work :: Background(e) && !e.Switch? && e in schedule[waits]
    ensures Progress(s0, now, lim, families, force0, schedule, turns + [turn])
    ensures Forced(force0, turns + [turn]) == (Forced(force0, turns) && !turn.Switched?)
    ensures MayDelay(force0, turns + [turn]) == (MayDelay(force0, turns) && !turn.Slept?)
  {
    hide Run, Background, NoneFree, SomeMust, Picked, SomeCrowded;
    var all := turns + [turn];
    assert all[..|turns|] == turns;
    assert StepsOf(all) == StepsOf(turns) + turn.Steps();
    RunOn(s0, StepsOf(turns), turn.Steps());
    assert RightTurn(at, lim, families, force0, schedule, turns, turn);
    forall n | 0 <= n < |all| ensures Right(s0, lim, families, force0, schedule, all, n) {
      if n < |turns| {
        assert all[..n] == turns[..n] && all[n] == turns[n];
        assert Right(s0, lim, families, force0, schedule, turns, n);
      }
    }
    assert forall t :: t in all <==> t in turns || t == turn;
  }

  /** The families of these records have room, and laggards are on their way. */
  ghost predicate HasRoom(s: State, records: seq<Record>, lim: Limits) {
    && s.Up? && s.run.cfs.Keys <= s.disk.manifests.Keys && LaggardsFlushing(s.disk, s.run)
    && forall r <- records :: r.family in s.run.cfs ==> lim.usage(s.run.cfs[r.family].mem) <= lim.bufferSize(r.family)
  }

  /** Turns consist of switches and other threads' work. */
  lemma {:induction false} TurnKinds(s0: State, lim: Limits, families: set<FamilyId>, force0: bool,
                                     schedule: seq<seq<Event>>, turns: seq<Turn>, n: nat)
    requires n <= |turns| && forall i | 0 <= i < |turns| :: Right(s0, lim, families, force0, schedule, turns, i)
    ensures forall e <- StepsOf(turns[..n]) :: e.Switch? || Background(e)
  {
    if n > 0 {
      TurnKinds(s0, lim, families, force0, schedule, turns, n - 1);
      assert turns[..n][..n - 1] == turns[..n - 1];
      assert Right(s0, lim, families, force0, schedule, turns, n - 1);
    }
  }

  /** What a look says of the families, in terms of the families. */
  lemma LookMeans(disk: Disk, run: Running, lim: Limits, families: set<FamilyId>, want: set<FamilyId>, force: bool,
                  allowDelay: bool, oldest: LogNo, round: nat, look: Look)
    requires run.cfs.Keys <= disk.manifests.Keys && oldest == OldestLiveLog(disk, run, run.nextId)
    requires forall f :: f in want <==> Wants(run, families, force, oldest, f)
    requires look.pick.Some? ==>
               && look.pick.value in want && look.pick.value in run.cfs
                 && Full(run, lim, look.pick.value, oldest, force)
               && run.cfs[look.pick.value].imm.None? && lim.level0(look.pick.value, round) < lim.stop
               && forall f :: f < look.pick.value && f in want && f in run.cfs && Full(run, lim, f, oldest, force) ==>
                                Busy(run, lim, f, round)
    requires look.pick.None? ==>
               forall f :: f in want && f in run.cfs && Full(run, lim, f, oldest, force) ==> Busy(run, lim, f, round)
    requires look.pick.None? ==>
               (look.waiting || look.hard <==>
                  exists f :: f in want && f in run.cfs && Full(run, lim, f, oldest, force))
    requires look.pick.None? ==>
               (look.soft <==> allowDelay && exists f :: f in want && Crowded(run, lim, f, oldest, force, round))
    ensures look.pick.Some? ==> Picked(disk, run, lim, families, force, round, look.pick.value)
    ensures look.pick.None? ==> NoneFree(disk, run, lim, families, force, round)
    ensures look.pick.None? ==> (look.waiting || look.hard <==> SomeMust(disk, run, lim, families, force))
    ensures look.pick.None? ==> (look.soft <==> allowDelay && SomeCrowded(disk, run, lim, families, force, round))
  {
    hide Full, OldestLiveLog, Wants, Busy, Crowded;
    if look.pick.None? {
      if f :| f in want && f in run.cfs && Full(run, lim, f, oldest, force) {
        assert MustSwitch(run, lim, families, force, Oldest(disk, run), f);
      }
      if f :| f in want && Crowded(run, lim, f, oldest, force, round) {
        assert Wants(run, families, force, Oldest(disk, run), f)
               && Crowded(run, lim, f, Oldest(disk, run), force, round);
      }
    }
  }

  /** Families whose memtable is still on the oldest log, long after, and not being flushed. */
  predicate Laggard(run: Running, id: FamilyId, oldest: LogNo)
    requires id in run.cfs
  {
    run.log > oldest + MAX_LIVE_LOGS && run.cfs[id].imm.None? && run.cfs[id].memLog <= oldest
  }

  /** Every family that needs the oldest log, when that lags far behind, is being flushed. */
  ghost predicate LaggardsFlushing(disk: Disk, run: Running)
    requires run.cfs.Keys <= disk.manifests.Keys
  {
    var oldest := OldestLiveLog(disk, run, run.nextId);
    run.log > oldest + MAX_LIVE_LOGS ==>
      forall id :: id in run.cfs && Needed(disk.manifests[id], run.cfs[id]) <= oldest ==> run.cfs[id].imm.Some?
  }

  /** Where no laggard is left, those that need the oldest log have an immutable memtable. */
  lemma NoLaggardsLeft(disk: Disk, run: Running, history: seq<Batch>, lim: Limits, want: set<FamilyId>, oldest: LogNo,
                       force: bool)
    requires UpOk(disk, history, run, {}, true) && lim.Valid() && oldest == OldestLiveLog(disk, run, run.nextId)
    requires forall id :: id in run.cfs && Laggard(run, id, oldest) ==> id in want
    requires forall id :: id in run.cfs && id in want ==> !Full(run, lim, id, oldest, force)
    ensures LaggardsFlushing(disk, run)
  {
    hide Items, Parts, Increasing, UpTo, Unborn, LogsSorted, NoneBelow, OldestLiveLog;
    forall id | id in run.cfs && run.log > oldest + MAX_LIVE_LOGS && run.cfs[id].imm.None?
      ensures Needed(disk.manifests[id], run.cfs[id]) > oldest
    {
      assert CfOk(id, disk.manifests[id], run.cfs[id], disk.logs, Parts(id, history), PendingPart(id, run.pending),
                  run);
      assert lim.usage(run.cfs[id].mem) > 0;
    }
  }

  /** How many families could be switched. */
  function Switchable(run: Running): set<FamilyId> {
    set id | id in run.cfs && run.cfs[id].imm.None?
  }

  /** A background step does not depend on the history, nor change it. */
  lemma BackgroundStep(disk: Disk, h: seq<Batch>, h': seq<Batch>, run: Running, e: Event)
    requires Background(e) && StepUp(disk, h, run, true, e).Some?
    ensures var t := StepUp(disk, h, run, true, e).value;
            StepUp(disk, h', run, true, e) == Some(Up(t.disk, h', t.run, {}, true)) && t.Up?
              && t.run.pending == run.pending
  {
  }

  /** The logs numbered n and up. */
  function Kept(logs: seq<Log>, n: LogNo): seq<Log> {
    if logs == [] then []
    else if logs[0].number < n then Kept(logs[1..], n)
    else [logs[0]] + Kept(logs[1..], n)
  }

  lemma KeptStep(logs: seq<Log>, i: nat, n: LogNo)
    requires i < |logs|
    ensures logs[i].number < n ==>
              var logs' := logs[..i] + logs[i + 1..];
              logs'[..i] + Kept(logs'[i..], n) == logs[..i] + Kept(logs[i..], n)
    ensures logs[i].number >= n ==> logs[..i + 1] + Kept(logs[i + 1..], n) == logs[..i] + Kept(logs[i..], n)
  {
    var logs' := logs[..i] + logs[i + 1..];
    assert logs'[..i] == logs[..i] && logs'[i..] == logs[i + 1..];
    assert logs[i..][1..] == logs[i + 1..] && logs[..i + 1] == logs[..i] + [logs[i]];
  }

  lemma SwitchLeavesFewer(run: Running, id: FamilyId, c: Memory)
    requires id in run.cfs && run.cfs[id].imm.None? && c.imm.Some?
    ensures |Switchable(run.(cfs := run.cfs[id := c]))| < |Switchable(run)|
  {
    assert Switchable(run.(cfs := run.cfs[id := c])) == Switchable(run) - {id};
    assert id in Switchable(run);
  }

  /** No wanted family must be switched: then there is room, and no laggard is left. */
  lemma RoomMade(disk: Disk, run: Running, history: seq<Batch>, lim: Limits, families: set<FamilyId>, force: bool)
    requires Ok(Up(disk, history, run, {}, true)) && lim.Valid() && run.cfs.Keys <= disk.manifests.Keys
    requires !SomeMust(disk, run, lim, families, force)
    ensures LaggardsFlushing(disk, run)
    ensures forall id :: id in families && id in run.cfs ==> lim.usage(run.cfs[id].mem) <= lim.bufferSize(id)
  {
    hide CfOk, OldestLiveLog;
    var oldest := Oldest(disk, run);
    var want := set id | id in run.cfs && Wants(run, families, force, oldest, id);
    forall id | id in run.cfs && id in want ensures !Full(run, lim, id, oldest, force) {
      assert !MustSwitch(run, lim, families, force, oldest, id);
    }
    NoLaggardsLeft(disk, run, history, lim, want, oldest, force);
    forall id | id in families && id in run.cfs ensures lim.usage(run.cfs[id].mem) <= lim.bufferSize(id) {
      assert id in want;
    }
  }

  lemma DefaultLives(s: State)
    requires Ok(s) && s.Up?
    ensures DEFAULT in s.run.cfs
  {
    assert Registered(s.disk) && FamiliesOk(s.disk, s.history, s.run);
  }

  lemma NonEmptyLog(s: State)
    requires Ok(s) && s.Up?
    ensures s.disk.logs != [] && s.run.cfs.Keys <= s.disk.manifests.Keys
  {
    assert CountersOk(s.disk, s.run) && FamiliesOk(s.disk, s.history, s.run);
  }

  /** What other threads do while a writer waits takes no number, and unsettles no family that could be written to. */
  lemma WaitKeeps(s: State, e: Event, id: FamilyId)
    requires Ok(s) && s.Up? && s.todo == {} && Step(s, e).Some? && (e.Switch? || Background(e))
    ensures var t := Step(s, e).value;
            && t.Up? && t.todo == {} && t.run.lastSeq == s.run.lastSeq
            && (id < s.disk.nextId && id !in s.run.creating ==> id < t.disk.nextId && id !in t.run.creating)
  {
    hide CfOk, Unborn, LogsSorted, Parts, OldestLiveLog;
    assert CountersOk(s.disk, s.run);
  }

  lemma {:induction false} WaitsKeep(s: State, es: seq<Event>, id: FamilyId)
    requires Ok(s) && s.Up? && s.todo == {} && Run(s, es).Some? && forall e <- es :: e.Switch? || Background(e)
    ensures var t := Run(s, es).value;
            && t.Up? && t.todo == {} && t.run.lastSeq == s.run.lastSeq
            && (id < s.disk.nextId && id !in s.run.creating ==> id < t.disk.nextId && id !in t.run.creating)
  {
    if es != [] {
      hide Ok, Step, Background;
      var init := es[..|es| - 1];
      assert forall e <- init :: e in es;
      WaitsKeep(s, init, id);
      RunKeeps(s, init);
      assert es[|es| - 1] in es;
      WaitKeeps(Run(s, init).value, es[|es| - 1], id);
    }
  }

  /** Families that can be written to are registered, and none is still being created. */
  lemma LiveFamilies(s: State)
    requires Ok(s) && s.Up?
    ensures forall id :: id in s.run.cfs ==> id < s.disk.nextId && id !in s.run.creating
  {
    assert Registered(s.disk) && UnbornOk(s.disk, s.history, s.run) && FamiliesOk(s.disk, s.history, s.run);
  }

  lemma LiveIds(s: State)
    requires Ok(s) && s.Up?
    ensures forall id :: id in s.run.cfs ==> id < s.run.nextId
  {
    assert Registered(s.disk) && CountersOk(s.disk, s.run) && FamiliesOk(s.disk, s.history, s.run);
  }

  lemma RunTwo(s: State, e: Event, f: Event)
    requires Step(s, e).Some?
    ensures Run(s, [e, f]) == Step(Step(s, e).value, f)
  {
    assert [] + [e] == [e] && [e] + [f] == [e, f];
    RunOne(s, [], e);
    RunOne(s, [e], f);
  }

  lemma {:induction false} RunOn(s: State, a: seq<Event>, b: seq<Event>)
    requires Run(s, a).Some? && Run(Run(s, a).value, b).Some?
    ensures Run(s, a + b) == Run(Run(s, a).value, b)
  {
    hide Step;
    if b == [] {
      assert a + b == a;
    } else {
      RunOn(s, a, b[..|b| - 1]);
      assert (a + b)[..|a + b| - 1] == a + b[..|b| - 1];
    }
  }

  /** One step more, whichever it is. */
  lemma RunMore(s: State, es: seq<Event>)
    requires Run(s, es).Some?
    ensures forall e :: Run(s, es + [e]) == Step(Run(s, es).value, e)
  {
    hide Step;
    forall e ensures Run(s, es + [e]) == Step(Run(s, es).value, e) {
      RunOne(s, es, e);
    }
  }

  lemma RunOne(s: State, es: seq<Event>, e: Event)
    requires Run(s, es).Some?
    ensures Run(s, es + [e]) == Step(Run(s, es).value, e)
  {
    assert (es + [e])[..|es|] == es;
  }
}
