/**
 * What every step of the shared-log machine keeps: on disk alone, each registered
 * family's tables and its part of the logs from its log number on make up exactly its
 * part of the committed history; in memory, tables, immutable memtable and memtable do.
 */
module SharedLogProofs {
  import opened Core
  import opened SharedLogs

  // ---- The invariant ----

  ghost predicate LogsSorted(logs: seq<Log>) {
    forall i, j | 0 <= i < j < |logs| :: logs[i].number < logs[j].number
  }

  /** Nothing of the family in logs numbered below n. */
  ghost predicate NoneBelow(id: FamilyId, logs: seq<Log>, n: nat) {
    forall i | 0 <= i < |logs| && logs[i].number < n :: Parts(id, logs[i].batches) == []
  }

  ghost predicate NoneIn(id: FamilyId, logs: seq<Log>) {
    forall i | 0 <= i < |logs| :: Parts(id, logs[i].batches) == []
  }

  /** No batch so far has a record of the family. */
  ghost predicate Unborn(id: FamilyId, logs: seq<Log>, history: seq<Batch>, pending: Option<Batch>) {
    NoneIn(id, logs) && Parts(id, history) == [] && PendingPart(id, pending) == []
  }

  /** Numbers increase, up to a bound. */
  ghost predicate Increasing(items: seq<Item>) {
    forall i, j | 0 <= i < j < |items| :: items[i].sn < items[j].sn
  }

  ghost predicate UpTo(items: seq<Item>, bound: SeqNo) {
    forall i | 0 <= i < |items| :: items[i].sn <= bound
  }

  /** A registered family, as far as the disk is concerned. */
  ghost predicate StoredOk(id: FamilyId, m: Manifest, logs: seq<Log>, written: seq<Item>) {
    && m.tables + Items(id, logs, m.logNumber) == written
    && Increasing(written) && UpTo(m.tables, m.lastSeq)
    && (if logs == [] then m.logNumber == 0 else m.logNumber <= logs[|logs| - 1].number)
  }

  ghost predicate Registered(disk: Disk) {
    && DEFAULT in disk.families && disk.families <= disk.manifests.Keys
    && (forall id :: id in disk.families ==> id < disk.nextId)
    && LogsSorted(disk.logs)
    && disk.manifests[DEFAULT].logNumber < disk.nextFile
  }

  ghost predicate DiskOk(disk: Disk, history: seq<Batch>) {
    && Registered(disk)
    && (forall id :: id in disk.families ==> StoredOk(id, disk.manifests[id], disk.logs, Parts(id, history)))
    && (forall id: FamilyId :: id >= disk.nextId ==> Unborn(id, disk.logs, history, None))
  }

  ghost predicate OpeningOk(disk: Disk, history: seq<Batch>, created: set<FamilyId>, nextId: FamilyId,
                            half: Option<FamilyId>) {
    && DiskOk(disk, history)
    && created <= disk.families && disk.nextId <= nextId
    && (forall id :: id in created ==> disk.manifests[id] == Manifest([], 0, 0) && Unborn(id, disk.logs, history, None))
    && (half.Some? ==> disk.nextId <= half.value < nextId && half.value in disk.manifests
                       && disk.manifests[half.value] == Manifest([], 0, 0))
  }

  /** A family of the open database. */
  ghost predicate CfOk(id: FamilyId, m: Manifest, c: Memory, logs: seq<Log>, written: seq<Item>, pending: seq<Item>,
                       run: Running) {
    && m.tables + c.Unsaved() + c.mem == written
    && Items(id, logs, m.logNumber) == c.Unsaved() + c.mem + pending
    && Items(id, logs, c.memLog) == c.mem + pending
    && m.logNumber <= c.memLog <= run.log
    && (if c.imm.Some? then c.immLog == m.logNumber else c.memLog == m.logNumber)
    && (run.doomed <= m.logNumber || NoneBelow(id, logs, run.doomed))
    && Increasing(written) && UpTo(written, run.lastSeq) && UpTo(m.tables, m.lastSeq)
  }

  /** Numbers that are handed out next are above all that are in use. */
  ghost predicate CountersOk(disk: Disk, run: Running) {
    && disk.logs != [] && disk.logs[|disk.logs| - 1].number == run.log < run.nextFile
    && run.doomed <= run.log && disk.nextId <= run.nextId && disk.nextFile <= run.nextFile
    && (run.pending.Some? ==> run.pending.value.first == run.lastSeq + 1)
  }

  /** Families that are not yet, or never were, named in FAMILIES. */
  ghost predicate UnbornOk(disk: Disk, history: seq<Batch>, run: Running) {
    && (forall id :: id in run.creating ==>
          id !in disk.families && id < run.nextId && id in disk.manifests
          && disk.manifests[id].tables == [] && disk.manifests[id].logNumber == run.creating[id].memLog <= run.log
          && run.creating[id].mem == [] && run.creating[id].imm == None)
    && (forall id: FamilyId :: id >= disk.nextId || id in run.creating ==> Unborn(id, disk.logs, history, run.pending))
  }

  ghost predicate FamiliesOk(disk: Disk, history: seq<Batch>, run: Running) {
    && run.cfs.Keys == disk.families <= disk.manifests.Keys
    && (forall id :: id in disk.families ==>
          CfOk(id, disk.manifests[id], run.cfs[id], disk.logs, Parts(id, history), PendingPart(id, run.pending), run))
  }

  /** During recovery, the families of `todo` have an edit to install, and need it. */
  ghost predicate TodoOk(disk: Disk, run: Running, todo: set<FamilyId>, save: bool) {
    && todo <= run.cfs.Keys
    && (todo != {} ==> run.pending == None && run.creating == map[]
                       && (forall id :: id in run.cfs ==> (run.cfs[id].imm.Some? <==> id in todo)))
    && (forall id :: id in todo && id in disk.manifests ==> save || disk.manifests[id].logNumber == 0)
  }

  ghost predicate UpOk(disk: Disk, history: seq<Batch>, run: Running, todo: set<FamilyId>, save: bool) {
    && Registered(disk) && CountersOk(disk, run) && UnbornOk(disk, history, run)
    && FamiliesOk(disk, history, run) && TodoOk(disk, run, todo, save)
  }

  ghost predicate Ok(s: State) {
    match s
    case Down(disk, history) => DiskOk(disk, history)
    case Opening(disk, history, created, nextId, half) => OpeningOk(disk, history, created, nextId, half)
    case Up(disk, history, run, todo, save) => UpOk(disk, history, run, todo, save)
  }

  // ---- Parts and items ----

  lemma PartsAppend(id: FamilyId, bs: seq<Batch>, b: Batch)
    ensures Parts(id, bs + [b]) == Parts(id, bs) + Part(id, b)
  {
    assert (bs + [b])[..|bs|] == bs;
  }

  lemma ItemsSnoc(id: FamilyId, logs: seq<Log>, log: Log, from: LogNo)
    ensures Items(id, logs + [log], from) ==
            Items(id, logs, from) + (if log.number >= from then Parts(id, log.batches) else [])
  {
    assert (logs + [log])[..|logs|] == logs;
  }

  /** A new batch adds its part to what every family reads from the last log. */
  lemma ItemsAppend(id: FamilyId, logs: seq<Log>, b: Batch, from: LogNo)
    requires logs != [] && from <= logs[|logs| - 1].number
    ensures Items(id, AppendTo(logs, b), from) == Items(id, logs, from) + Part(id, b)
  {
    var init, last := logs[..|logs| - 1], logs[|logs| - 1];
    ItemsSnoc(id, init, Log(last.number, last.batches + [b]), from);
    PartsAppend(id, last.batches, b);
  }

  /** Where no log in between has records of the family, its log number may move. */
  lemma {:induction false} ItemsNone(id: FamilyId, logs: seq<Log>, from: LogNo)
    requires NoneIn(id, logs)
    ensures Items(id, logs, from) == []
  {
    if logs != [] {
      var init := logs[..|logs| - 1];
      assert forall i | 0 <= i < |init| :: init[i] == logs[i];
      ItemsNone(id, init, from);
    }
  }

  lemma {:induction false} ItemsAbove(id: FamilyId, logs: seq<Log>, from: LogNo)
    requires forall i | 0 <= i < |logs| :: logs[i].number < from
    ensures Items(id, logs, from) == []
  {
    if logs != [] {
      var init := logs[..|logs| - 1];
      assert forall i | 0 <= i < |init| :: init[i] == logs[i];
      ItemsAbove(id, init, from);
    }
  }

  /** Deleting a log that the family reads nothing from. */
  lemma {:induction false} ItemsDelete(id: FamilyId, logs: seq<Log>, i: nat, from: LogNo)
    requires i < |logs| && (logs[i].number < from || Parts(id, logs[i].batches) == [])
    ensures Items(id, logs[..i] + logs[i + 1..], from) == Items(id, logs, from)
  {
    var rest := logs[..i] + logs[i + 1..];
    if i == |logs| - 1 {
      assert rest == logs[..i];
    } else {
      var init, last := logs[..|logs| - 1], logs[|logs| - 1];
      ItemsDelete(id, init, i, from);
      assert rest == (init[..i] + init[i + 1..]) + [last];
      ItemsSnoc(id, init[..i] + init[i + 1..], last, from);
    }
  }

  /** The numbers of a batch's part. */
  lemma {:induction false} PartNumbers(id: FamilyId, b: Batch, n: nat)
    requires n <= |b.records|
    ensures var p := PartUpTo(id, b, n);
            Increasing(p) && forall i | 0 <= i < |p| :: b.first <= p[i].sn < b.first + n
  {
    if n > 0 {
      PartNumbers(id, b, n - 1);
    }
  }

  lemma IncreasingConcat(a: seq<Item>, b: seq<Item>, bound: SeqNo)
    requires Increasing(a) && Increasing(b) && UpTo(a, bound) && forall i | 0 <= i < |b| :: bound < b[i].sn
    ensures Increasing(a + b)
  {
  }

  // ---- Every step keeps the invariant ----

  lemma AppendCf(id: FamilyId, m: Manifest, c: Memory, logs: seq<Log>, written: seq<Item>, run: Running, b: Batch)
    requires logs != [] && run.doomed <= logs[|logs| - 1].number == run.log
    requires CfOk(id, m, c, logs, written, [], run)
    ensures CfOk(id, m, c, AppendTo(logs, b), written, Part(id, b), run.(pending := Some(b)))
  {
    hide Items, Part, Increasing, UpTo;
    ItemsAppend(id, logs, b, m.logNumber);
    ItemsAppend(id, logs, b, c.memLog);
    var logs' := AppendTo(logs, b);
    assert forall i | 0 <= i < |logs| - 1 :: logs'[i] == logs[i];
    assert NoneBelow(id, logs, run.doomed) && run.doomed <= run.log ==> NoneBelow(id, logs', run.doomed);
    assert c.mem + [] == c.mem && c.Unsaved() + c.mem + [] == c.Unsaved() + c.mem;
  }

  lemma AppendUnborn(id: FamilyId, logs: seq<Log>, history: seq<Batch>, b: Batch)
    requires logs != [] && Unborn(id, logs, history, None) && forall r <- b.records :: r.family != id
    ensures Unborn(id, AppendTo(logs, b), history, Some(b))
  {
    NoRecord(id, b, |b.records|);
    PartsAppend(id, logs[|logs| - 1].batches, b);
    assert forall i | 0 <= i < |logs| - 1 :: AppendTo(logs, b)[i] == logs[i];
  }

  /** A batch without records of the family has no part for it. */
  lemma {:induction false} NoRecord(id: FamilyId, b: Batch, n: nat)
    requires n <= |b.records| && forall r <- b.records :: r.family != id
    ensures PartUpTo(id, b, n) == []
  {
    if n > 0 {
      NoRecord(id, b, n - 1);
      assert b.records[n - 1] in b.records;
    }
  }

  lemma AppendSorted(logs: seq<Log>, b: Batch)
    requires logs != [] && LogsSorted(logs)
    ensures LogsSorted(AppendTo(logs, b)) && |AppendTo(logs, b)| == |logs|
    ensures AppendTo(logs, b)[|logs| - 1].number == logs[|logs| - 1].number
  {
    assert forall i | 0 <= i < |logs| :: AppendTo(logs, b)[i].number == logs[i].number;
  }

  lemma KeepAppend(disk: Disk, history: seq<Batch>, run: Running, save: bool, b: Batch)
    requires UpOk(disk, history, run, {}, save) && StepUp(disk, history, run, save, Append(b)).Some?
    ensures Ok(StepUp(disk, history, run, save, Append(b)).value)
  {
    hide CfOk, Unborn, LogsSorted, AppendTo;
    var logs', run' := AppendTo(disk.logs, b), run.(pending := Some(b));
    AppendSorted(disk.logs, b);
    forall id | id in disk.families
      ensures CfOk(id, disk.manifests[id], run.cfs[id], logs', Parts(id, history), PendingPart(id, run'.pending), run')
    {
      AppendCf(id, disk.manifests[id], run.cfs[id], disk.logs, Parts(id, history), run, b);
    }
    forall id: FamilyId | id >= disk.nextId || id in run.creating ensures Unborn(id, logs', history, run'.pending) {
      assert Unborn(id, disk.logs, history, None);
      AppendUnborn(id, disk.logs, history, b);
    }
  }

  lemma ApplyCf(id: FamilyId, m: Manifest, c: Memory, logs: seq<Log>, history: seq<Batch>, run: Running, run': Running,
                b: Batch)
    requires CfOk(id, m, c, logs, Parts(id, history), Part(id, b), run) && b.first == run.lastSeq + 1
    requires run'.lastSeq == run.lastSeq + |b.records| && run'.log == run.log && run'.doomed == run.doomed
    ensures CfOk(id, m, c.(mem := c.mem + Part(id, b)), logs, Parts(id, history + [b]), [], run')
  {
    hide Items, NoneBelow, Parts;
    var p := Part(id, b);
    PartsAppend(id, history, b);
    PartNumbers(id, b, |b.records|);
    IncreasingConcat(Parts(id, history), p, run.lastSeq);
    assert m.tables + c.Unsaved() + (c.mem + p) == m.tables + c.Unsaved() + c.mem + p;
    assert c.Unsaved() + (c.mem + p) + [] == c.Unsaved() + c.mem + p;
    assert c.mem + p + [] == c.mem + p;
  }

  lemma ApplyUnborn(id: FamilyId, logs: seq<Log>, history: seq<Batch>, b: Batch)
    requires Unborn(id, logs, history, Some(b))
    ensures Unborn(id, logs, history + [b], None)
  {
    PartsAppend(id, history, b);
  }

  lemma KeepApply(disk: Disk, history: seq<Batch>, run: Running, save: bool)
    requires UpOk(disk, history, run, {}, save) && run.pending.Some?
    ensures Ok(StepUp(disk, history, run, save, Apply).value)
  {
    hide CfOk, Unborn, LogsSorted, Part, Parts;
    var b := run.pending.value;
    var t := StepUp(disk, history, run, save, Apply).value;
    forall id | id in disk.families
      ensures CfOk(id, disk.manifests[id], t.run.cfs[id], disk.logs, Parts(id, t.history),
                   PendingPart(id, t.run.pending), t.run)
    {
      ApplyCf(id, disk.manifests[id], run.cfs[id], disk.logs, history, run, t.run, b);
    }
    forall id: FamilyId | id >= disk.nextId || id in run.creating ensures Unborn(id, disk.logs, t.history, None) {
      assert Unborn(id, disk.logs, history, run.pending);
      ApplyUnborn(id, disk.logs, history, b);
    }
  }

  /** A new, empty log adds nothing. */
  lemma NewLogCf(id: FamilyId, m: Manifest, c: Memory, logs: seq<Log>, written: seq<Item>, run: Running, run': Running,
                 added: Log)
    requires CfOk(id, m, c, logs, written, [], run) && added.batches == []
    requires run.log <= added.number == run'.log && run'.doomed == run.doomed && run'.lastSeq == run.lastSeq
    ensures CfOk(id, m, c, logs + [added], written, [], run')
  {
    hide Increasing, UpTo;
    ItemsSnoc(id, logs, added, m.logNumber);
    ItemsSnoc(id, logs, added, c.memLog);
    assert Items(id, logs, m.logNumber) + [] == Items(id, logs, m.logNumber);
    assert Items(id, logs, c.memLog) + [] == Items(id, logs, c.memLog);
    assert NoneBelow(id, logs, run.doomed) ==> NoneBelow(id, logs + [added], run.doomed);
  }

  /** The family whose memtable is switched starts on the new log. */
  lemma SwitchedCf(id: FamilyId, m: Manifest, c: Memory, logs: seq<Log>, written: seq<Item>, run: Running, added: Log)
    requires CfOk(id, m, c, logs + [added], written, [], run) && added.batches == [] && added.number == run.log
    requires c.imm.None?
    requires forall i | 0 <= i < |logs| :: logs[i].number < added.number
    ensures CfOk(id, m, Memory([], added.number, Some(c.mem), c.memLog), logs + [added], written, [], run)
  {
    hide Increasing, UpTo, NoneBelow;
    ItemsSnoc(id, logs, added, added.number);
    ItemsAbove(id, logs, added.number);
    assert m.tables + c.mem + [] == m.tables + [] + c.mem;
    assert c.mem + [] + [] == [] + c.mem + [];
  }

  lemma NewLogUnborn(id: FamilyId, logs: seq<Log>, history: seq<Batch>, added: Log)
    requires Unborn(id, logs, history, None) && added.batches == []
    ensures Unborn(id, logs + [added], history, None)
  {
  }

  lemma NewLogSorted(logs: seq<Log>, added: Log)
    requires LogsSorted(logs) && (logs != [] ==> logs[|logs| - 1].number < added.number)
    ensures LogsSorted(logs + [added]) && forall i | 0 <= i < |logs| :: logs[i].number < added.number
  {
    forall i | 0 <= i < |logs| ensures logs[i].number < added.number {
      assert i == |logs| - 1 || logs[i].number < logs[|logs| - 1].number;
    }
  }

  lemma KeepSwitch(disk: Disk, history: seq<Batch>, run: Running, save: bool, id: FamilyId)
    requires UpOk(disk, history, run, {}, save) && StepUp(disk, history, run, save, Switch(id)).Some?
    ensures Ok(StepUp(disk, history, run, save, Switch(id)).value)
  {
    hide CfOk, Unborn, LogsSorted, Parts;
    var t := StepUp(disk, history, run, save, Switch(id)).value;
    var added := Log(run.nextFile, []);
    NewLogSorted(disk.logs, added);
    forall f | f in disk.families
      ensures CfOk(f, disk.manifests[f], t.run.cfs[f], t.disk.logs, Parts(f, history), PendingPart(f, t.run.pending),
                   t.run)
    {
      NewLogCf(f, disk.manifests[f], run.cfs[f], disk.logs, Parts(f, history), run, t.run, added);
      if f == id {
        SwitchedCf(f, disk.manifests[f], run.cfs[f], disk.logs, Parts(f, history), t.run, added);
      }
    }
    forall f: FamilyId | f >= disk.nextId || f in run.creating ensures Unborn(f, t.disk.logs, history, t.run.pending) {
      assert Unborn(f, disk.logs, history, None);
      NewLogUnborn(f, disk.logs, history, added);
    }
  }

  /** Nothing of the family changes, and what it depends on of the rest neither. */
  lemma SameCf(id: FamilyId, m: Manifest, c: Memory, logs: seq<Log>, written: seq<Item>, pending: seq<Item>,
               run: Running, run': Running)
    requires CfOk(id, m, c, logs, written, pending, run)
    requires run'.log == run.log && run'.lastSeq == run.lastSeq
    requires run'.doomed == run.doomed || run'.doomed <= m.logNumber
    ensures CfOk(id, m, c, logs, written, pending, run')
  {
  }

  lemma FlushedCf(id: FamilyId, m: Manifest, c: Memory, logs: seq<Log>, written: seq<Item>, pending: seq<Item>,
                  run: Running, run': Running)
    requires CfOk(id, m, c, logs, written, pending, run) && c.imm.Some?
    requires run'.log == run.log && run'.lastSeq == run.lastSeq && run'.doomed == run.doomed
    ensures CfOk(id, Manifest(m.tables + c.Unsaved(), c.memLog, run.lastSeq), c.(imm := None), logs, written, pending,
                 run')
  {
    hide Items, NoneBelow;
    var saved := m.tables + c.Unsaved();
    assert saved + [] + c.mem == written;
    assert [] + c.mem + pending == c.mem + pending;
    assert forall i | 0 <= i < |saved| :: saved[i] == written[i];
  }

  /** A flush, or the installation of a recovery edit. */
  lemma KeepFlushed(disk: Disk, history: seq<Batch>, run: Running, todo: set<FamilyId>, save: bool, id: FamilyId)
    requires UpOk(disk, history, run, todo, save) && id in run.cfs && run.cfs[id].imm.Some?
    ensures UpOk(Flushed(disk, run, id), history, run.(cfs := run.cfs[id := run.cfs[id].(imm := None)]), todo - {id},
                 save)
  {
    hide CfOk, Unborn, LogsSorted, Parts;
    var disk', run' := Flushed(disk, run, id), run.(cfs := run.cfs[id := run.cfs[id].(imm := None)]);
    forall f | f in disk.families
      ensures CfOk(f, disk'.manifests[f], run'.cfs[f], disk.logs, Parts(f, history), PendingPart(f, run.pending), run')
    {
      if f == id {
        FlushedCf(f, disk.manifests[f], run.cfs[f], disk.logs, Parts(f, history), PendingPart(f, run.pending), run,
                  run');
      } else {
        SameCf(f, disk.manifests[f], run.cfs[f], disk.logs, Parts(f, history), PendingPart(f, run.pending), run, run');
      }
    }
    LogNumberBelow(disk, history, run, DEFAULT);
  }

  lemma LogNumberBelow(disk: Disk, history: seq<Batch>, run: Running, id: FamilyId)
    requires FamiliesOk(disk, history, run) && id in disk.families
    ensures disk.manifests[id].logNumber <= run.cfs[id].memLog <= run.log
  {
  }

  lemma KeepMarkObsolete(disk: Disk, history: seq<Batch>, run: Running, save: bool)
    requires UpOk(disk, history, run, {}, save)
    ensures Ok(StepUp(disk, history, run, save, MarkObsolete).value)
  {
    hide CfOk, Unborn, LogsSorted, Parts;
    var run' := run.(doomed := Max(run.doomed, OldestLiveLog(disk, run, run.nextId)));
    OldestIsOldest(disk, run, run.nextId);
    forall id | id in disk.families
      ensures CfOk(id, disk.manifests[id], run.cfs[id], disk.logs, Parts(id, history), PendingPart(id, run.pending),
                   run')
    {
      SameCf(id, disk.manifests[id], run.cfs[id], disk.logs, Parts(id, history), PendingPart(id, run.pending), run,
             run');
    }
  }

  /** No live family needs a log older than OldestLiveLog, and the current log is none. */
  lemma {:induction false} OldestIsOldest(disk: Disk, run: Running, n: FamilyId)
    requires run.cfs.Keys <= disk.manifests.Keys
    ensures OldestLiveLog(disk, run, n) <= run.log
    ensures forall id: FamilyId :: id in run.cfs && id < n ==>
              OldestLiveLog(disk, run, n) <= Needed(disk.manifests[id], run.cfs[id]) <= disk.manifests[id].logNumber
    ensures OldestLiveLog(disk, run, n) == run.log
            || exists id: FamilyId ::
                 id in run.cfs && id < n && OldestLiveLog(disk, run, n) == Needed(disk.manifests[id], run.cfs[id])
  {
    if n > 0 {
      OldestIsOldest(disk, run, n - 1);
    }
  }

  lemma DeleteCf(id: FamilyId, m: Manifest, c: Memory, logs: seq<Log>, written: seq<Item>, pending: seq<Item>,
                 run: Running, i: nat)
    requires CfOk(id, m, c, logs, written, pending, run) && i < |logs| && logs[i].number < run.doomed
    ensures CfOk(id, m, c, logs[..i] + logs[i + 1..], written, pending, run)
  {
    hide Items, Increasing, UpTo;
    var logs' := logs[..i] + logs[i + 1..];
    ItemsDelete(id, logs, i, m.logNumber);
    ItemsDelete(id, logs, i, c.memLog);
    assert forall x | 0 <= x < |logs'| :: logs'[x] == if x < i then logs[x] else logs[x + 1];
  }

  lemma DeleteSorted(logs: seq<Log>, i: nat)
    requires LogsSorted(logs) && i < |logs| - 1
    ensures var logs' := logs[..i] + logs[i + 1..];
            LogsSorted(logs') && logs' != [] && logs'[|logs'| - 1] == logs[|logs| - 1]
  {
  }

  lemma DeleteUnborn(id: FamilyId, logs: seq<Log>, history: seq<Batch>, pending: Option<Batch>, i: nat)
    requires Unborn(id, logs, history, pending) && i < |logs|
    ensures Unborn(id, logs[..i] + logs[i + 1..], history, pending)
  {
    var logs' := logs[..i] + logs[i + 1..];
    assert forall x | 0 <= x < |logs'| :: logs'[x] == if x < i then logs[x] else logs[x + 1];
  }

  lemma KeepDeleteLog(disk: Disk, history: seq<Batch>, run: Running, save: bool, i: nat)
    requires UpOk(disk, history, run, {}, save) && StepUp(disk, history, run, save, DeleteLog(i)).Some?
    ensures Ok(StepUp(disk, history, run, save, DeleteLog(i)).value)
  {
    hide CfOk, Unborn, LogsSorted, Parts;
    var logs' := disk.logs[..i] + disk.logs[i + 1..];
    DeleteSorted(disk.logs, i);
    forall id | id in disk.families
      ensures CfOk(id, disk.manifests[id], run.cfs[id], logs', Parts(id, history), PendingPart(id, run.pending), run)
    {
      DeleteCf(id, disk.manifests[id], run.cfs[id], disk.logs, Parts(id, history), PendingPart(id, run.pending), run,
               i);
    }
    forall id: FamilyId | id >= disk.nextId || id in run.creating ensures Unborn(id, logs', history, run.pending) {
      DeleteUnborn(id, disk.logs, history, run.pending, i);
    }
  }

  lemma KeepBeginCreate(disk: Disk, history: seq<Batch>, run: Running, save: bool)
    requires UpOk(disk, history, run, {}, save)
    ensures Ok(StepUp(disk, history, run, save, BeginCreate).value)
  {
    hide CfOk, Unborn, LogsSorted, Parts;
    var t := StepUp(disk, history, run, save, BeginCreate).value;
    assert run.nextId !in disk.families && run.nextId !in run.creating;
    forall id | id in disk.families
      ensures CfOk(id, t.disk.manifests[id], t.run.cfs[id], disk.logs, Parts(id, history),
                   PendingPart(id, run.pending), t.run)
    {
      SameCf(id, disk.manifests[id], run.cfs[id], disk.logs, Parts(id, history), PendingPart(id, run.pending), run,
             t.run);
    }
  }

  /** A family that starts at the current log has nothing anywhere. */
  lemma NewCf(id: FamilyId, m: Manifest, c: Memory, logs: seq<Log>, history: seq<Batch>, pending: Option<Batch>,
              run: Running)
    requires Unborn(id, logs, history, pending)
    requires m.tables == [] && c.mem == [] && c.imm == None && m.logNumber == c.memLog <= run.log
    ensures CfOk(id, m, c, logs, Parts(id, history), PendingPart(id, pending), run)
  {
    ItemsNone(id, logs, m.logNumber);
  }

  lemma KeepFinishCreate(disk: Disk, history: seq<Batch>, run: Running, save: bool, id: FamilyId)
    requires UpOk(disk, history, run, {}, save) && id in run.creating
    ensures Ok(StepUp(disk, history, run, save, FinishCreate(id)).value)
  {
    hide CfOk, Unborn, LogsSorted, Parts;
    var t := StepUp(disk, history, run, save, FinishCreate(id)).value;
    forall f | f in t.disk.families
      ensures CfOk(f, disk.manifests[f], t.run.cfs[f], disk.logs, Parts(f, history), PendingPart(f, run.pending), t.run)
    {
      if f == id {
        NewCf(id, disk.manifests[id], run.creating[id], disk.logs, history, run.pending, t.run);
      } else {
        SameCf(f, disk.manifests[f], run.cfs[f], disk.logs, Parts(f, history), PendingPart(f, run.pending), run, t.run);
      }
    }
  }

  lemma KeepDrop(disk: Disk, history: seq<Batch>, run: Running, save: bool, id: FamilyId)
    requires UpOk(disk, history, run, {}, save) && id in run.cfs && id != DEFAULT
    ensures Ok(StepUp(disk, history, run, save, Drop(id)).value)
  {
    hide CfOk, Unborn, LogsSorted, Parts;
    var t := StepUp(disk, history, run, save, Drop(id)).value;
    forall f | f in t.disk.families
      ensures CfOk(f, disk.manifests[f], t.run.cfs[f], disk.logs, Parts(f, history), PendingPart(f, run.pending), t.run)
    {
      SameCf(f, disk.manifests[f], run.cfs[f], disk.logs, Parts(f, history), PendingPart(f, run.pending), run, t.run);
    }
  }

  lemma KeepOthers(disk: Disk, history: seq<Batch>, run: Running, save: bool, e: Event)
    requires UpOk(disk, history, run, {}, save) && (e.Allocate? || e.RemoveDirectory?)
    requires StepUp(disk, history, run, save, e).Some?
    ensures Ok(StepUp(disk, history, run, save, e).value)
  {
    hide CfOk, Unborn, LogsSorted, Parts;
    var t := StepUp(disk, history, run, save, e).value;
    forall f | f in disk.families
      ensures CfOk(f, t.disk.manifests[f], t.run.cfs[f], disk.logs, Parts(f, history), PendingPart(f, run.pending),
                   t.run)
    {
      SameCf(f, disk.manifests[f], run.cfs[f], disk.logs, Parts(f, history), PendingPart(f, run.pending), run, t.run);
    }
  }

  // ---- Crash and recovery ----

  /** What a family's disk part is worth after a crash: a pending batch counts, for its log record is whole. */
  lemma CrashCf(id: FamilyId, m: Manifest, c: Memory, logs: seq<Log>, history: seq<Batch>, run: Running,
                history': seq<Batch>)
    requires CfOk(id, m, c, logs, Parts(id, history), PendingPart(id, run.pending), run)
    requires logs != [] && logs[|logs| - 1].number == run.log
    requires run.pending.Some? ==> run.pending.value.first == run.lastSeq + 1
    requires history' == history + if run.pending.Some? then [run.pending.value] else []
    ensures StoredOk(id, m, logs, Parts(id, history'))
  {
    hide Items, NoneBelow, Parts;
    var p := PendingPart(id, run.pending);
    assert m.tables + (c.Unsaved() + c.mem + p) == m.tables + c.Unsaved() + c.mem + p;
    if run.pending.Some? {
      PartsAppend(id, history, run.pending.value);
      PartNumbers(id, run.pending.value, |run.pending.value.records|);
      IncreasingConcat(Parts(id, history), p, run.lastSeq);
    } else {
      assert history + [] == history && Parts(id, history) + [] == Parts(id, history);
    }
  }

  lemma CrashUnborn(id: FamilyId, logs: seq<Log>, history: seq<Batch>, pending: Option<Batch>)
    requires Unborn(id, logs, history, pending)
    ensures Unborn(id, logs, history + (if pending.Some? then [pending.value] else []), None)
  {
    if pending.Some? {
      PartsAppend(id, history, pending.value);
    } else {
      assert history + [] == history;
    }
  }

  lemma KeepCrash(disk: Disk, history: seq<Batch>, run: Running, todo: set<FamilyId>, save: bool)
    requires UpOk(disk, history, run, todo, save)
    ensures Ok(Step(Up(disk, history, run, todo, save), Crash).value)
  {
    hide CfOk, Unborn, LogsSorted, Parts, StoredOk;
    var history' := history + if run.pending.Some? then [run.pending.value] else [];
    forall id | id in disk.families ensures StoredOk(id, disk.manifests[id], disk.logs, Parts(id, history')) {
      CrashCf(id, disk.manifests[id], run.cfs[id], disk.logs, history, run, history');
    }
    forall id: FamilyId | id >= disk.nextId ensures Unborn(id, disk.logs, history', None) {
      CrashUnborn(id, disk.logs, history, run.pending);
    }
  }

  lemma UnbornStored(id: FamilyId, logs: seq<Log>, history: seq<Batch>)
    requires Unborn(id, logs, history, None)
    ensures StoredOk(id, Manifest([], 0, 0), logs, Parts(id, history))
  {
    ItemsNone(id, logs, 0);
  }

  lemma KeepMissing(disk: Disk, history: seq<Batch>, created: set<FamilyId>, nextId: FamilyId, half: Option<FamilyId>,
                    e: Event)
    requires OpeningOk(disk, history, created, nextId, half)
    requires e.MissingManifest? || e.MissingRegister?
    requires Step(Opening(disk, history, created, nextId, half), e).Some?
    ensures Ok(Step(Opening(disk, history, created, nextId, half), e).value)
  {
    hide Unborn, LogsSorted, Parts, StoredOk;
    if e.MissingRegister? {
      UnbornStored(half.value, disk.logs, history);
    }
  }

  // Replay finds every log it needs, and numbers above all that are in use.

  lemma {:induction false} MinLogIsMin(disk: Disk, n: FamilyId)
    requires DEFAULT in disk.families && disk.families <= disk.manifests.Keys
    ensures MinLog(disk, n) <= disk.manifests[DEFAULT].logNumber
    ensures forall id: FamilyId :: id in disk.families && id < n ==> MinLog(disk, n) <= disk.manifests[id].logNumber
    ensures exists id: FamilyId :: id in disk.families && MinLog(disk, n) == disk.manifests[id].logNumber
  {
    if n > 0 {
      MinLogIsMin(disk, n - 1);
      if n - 1 in disk.families && disk.manifests[n - 1].logNumber < MinLog(disk, n - 1) {
        assert MinLog(disk, n) == disk.manifests[n - 1].logNumber;
      }
    }
  }

  lemma {:induction false} MaxManifestSeqIsMax(disk: Disk, n: FamilyId)
    requires disk.families <= disk.manifests.Keys
    ensures forall id: FamilyId :: id in disk.families && id < n ==>
              disk.manifests[id].lastSeq <= MaxManifestSeq(disk, n)
  {
    if n > 0 {
      MaxManifestSeqIsMax(disk, n - 1);
    }
  }

  lemma {:induction false} PartsBelowMax(id: FamilyId, bs: seq<Batch>, acc: SeqNo)
    ensures acc <= MaxBatchSeq(bs, acc) && UpTo(Parts(id, bs), MaxBatchSeq(bs, acc))
  {
    if bs != [] {
      PartsBelowMax(id, bs[..|bs| - 1], acc);
      var b := bs[|bs| - 1];
      PartNumbers(id, b, |b.records|);
    }
  }

  /** Everything that is replayed is numbered at most max_sequence. */
  lemma {:induction false} ItemsBelowMax(id: FamilyId, logs: seq<Log>, from: LogNo, start: LogNo, acc: SeqNo)
    requires start <= from
    ensures acc <= MaxLogSeq(logs, start, acc) && UpTo(Items(id, logs, from), MaxLogSeq(logs, start, acc))
  {
    if logs != [] {
      ItemsBelowMax(id, logs[..|logs| - 1], from, start, acc);
      PartsBelowMax(id, logs[|logs| - 1].batches, MaxLogSeq(logs[..|logs| - 1], start, acc));
    }
  }

  lemma {:induction false} MarkUsedIsAbove(logs: seq<Log>, from: LogNo, next: nat)
    ensures next <= MarkUsed(logs, from, next)
    ensures forall i | 0 <= i < |logs| && logs[i].number >= from :: logs[i].number < MarkUsed(logs, from, next)
  {
    if logs != [] {
      var init := logs[..|logs| - 1];
      MarkUsedIsAbove(init, from, next);
      assert forall i | 0 <= i < |init| :: init[i] == logs[i];
    }
  }

  /** The numbers that recovery starts with. */
  lemma RecoveredNumbers(disk: Disk, history: seq<Batch>)
    requires DiskOk(disk, history)
    ensures var from := MinLog(disk, disk.nextId);
            var next := MarkUsed(disk.logs, from, disk.nextFile);
            && disk.nextFile <= next && (forall i | 0 <= i < |disk.logs| :: disk.logs[i].number < next)
            && (disk.logs != [] ==> from <= disk.logs[|disk.logs| - 1].number)
            && (disk.logs == [] ==> forall id :: id in disk.families ==> disk.manifests[id].logNumber == 0)
  {
    hide Unborn, Parts, Items, Increasing, UpTo;
    var from := MinLog(disk, disk.nextId);
    MinLogIsMin(disk, disk.nextId);
    MarkUsedIsAbove(disk.logs, from, disk.nextFile);
    assert StoredOk(DEFAULT, disk.manifests[DEFAULT], disk.logs, Parts(DEFAULT, history));
  }

  lemma RecoveredSeq(disk: Disk, history: seq<Batch>, id: FamilyId)
    requires DiskOk(disk, history) && id in disk.families
    ensures var lastSeq := MaxLogSeq(disk.logs, MinLog(disk, disk.nextId), MaxManifestSeq(disk, disk.nextId));
            UpTo(Parts(id, history), lastSeq) && disk.manifests[id].lastSeq <= lastSeq
  {
    hide Unborn, Parts, Items, LogsSorted, Increasing;
    var m := disk.manifests[id];
    MinLogIsMin(disk, disk.nextId);
    MaxManifestSeqIsMax(disk, disk.nextId);
    ItemsBelowMax(id, disk.logs, m.logNumber, MinLog(disk, disk.nextId), MaxManifestSeq(disk, disk.nextId));
    assert StoredOk(id, m, disk.logs, Parts(id, history));
  }

  /** A family that recovery starts on a new log. */
  lemma RecoveredCf(id: FamilyId, m: Manifest, c: Memory, logs: seq<Log>, history: seq<Batch>, run: Running, added: Log)
    requires StoredOk(id, m, logs, Parts(id, history)) && UpTo(Parts(id, history), run.lastSeq) && added.batches == []
    requires c.mem == [] && c.imm == Some(Items(id, logs, m.logNumber)) && c.immLog == m.logNumber
    requires run.log == added.number && run.doomed == 0 && forall i | 0 <= i < |logs| :: logs[i].number < added.number
    requires c.memLog == added.number || (c.memLog == 0 == m.logNumber && NoneIn(id, logs))
    ensures CfOk(id, m, c, logs + [added], Parts(id, history), [], run)
  {
    hide Parts, Items, Increasing, UpTo, NoneIn, NoneBelow, LogsSorted;
    var items, all := Items(id, logs, m.logNumber), logs + [added];
    NoParts(id);
    ItemsSnoc(id, logs, added, m.logNumber);
    ItemsSnoc(id, logs, added, c.memLog);
    assert Items(id, all, m.logNumber) == items;
    assert Items(id, logs, c.memLog) == [] by {
      if c.memLog == added.number {
        ItemsAbove(id, logs, added.number);
      } else {
        ItemsNone(id, logs, 0);
      }
    }
    assert Items(id, all, c.memLog) == [];
    assert m.logNumber <= c.memLog <= run.log by {
      assert logs != [] ==> logs[|logs| - 1].number < added.number;
    }
    assert c.Unsaved() == items && c.mem == [];
  }

  lemma NoParts(id: FamilyId)
    ensures Parts(id, []) == []
  {
  }

  /** The default family, when it goes on writing to the last log. */
  lemma ReusedCf(m: Manifest, c: Memory, logs: seq<Log>, history: seq<Batch>, run: Running)
    requires logs != [] && StoredOk(DEFAULT, m, logs, Parts(DEFAULT, history))
    requires UpTo(Parts(DEFAULT, history), run.lastSeq)
    requires LogsSorted(logs)
    requires var last := logs[|logs| - 1];
             c == Memory(Parts(DEFAULT, last.batches), last.number,
                         Some(Items(DEFAULT, logs[..|logs| - 1], m.logNumber)), m.logNumber)
             && run.log == last.number && run.doomed == 0
    ensures CfOk(DEFAULT, m, c, logs, Parts(DEFAULT, history), [], run)
  {
    hide Parts;
    var init, last := logs[..|logs| - 1], logs[|logs| - 1];
    assert logs == init + [last];
    ItemsSnoc(DEFAULT, init, last, m.logNumber);
    ItemsSnoc(DEFAULT, init, last, last.number);
    assert forall i | 0 <= i < |init| :: init[i] == logs[i];
    ItemsAbove(DEFAULT, init, last.number);
    var items := Items(DEFAULT, init, m.logNumber);
    assert items + c.mem + [] == items + c.mem && m.tables + items + c.mem == m.tables + (items + c.mem);
  }

  lemma KeepReplayReusing(disk: Disk, history: seq<Batch>, nextId: FamilyId, save: bool, taken: nat)
    requires OpeningOk(disk, history, {}, nextId, None) && disk.families == {DEFAULT} && disk.logs != []
    ensures Ok(ReplayLogs(disk, history, {}, nextId, true, save, taken))
  {
    hide Unborn, LogsSorted, Parts, StoredOk, CfOk, Items;
    var t := ReplayLogs(disk, history, {}, nextId, true, save, taken);
    RecoveredNumbers(disk, history);
    RecoveredSeq(disk, history, DEFAULT);
    ReusedCf(disk.manifests[DEFAULT], t.run.cfs[DEFAULT], disk.logs, history, t.run);
  }

  lemma KeepReplayFresh(disk: Disk, history: seq<Batch>, created: set<FamilyId>, nextId: FamilyId, save: bool,
                        taken: nat)
    requires OpeningOk(disk, history, created, nextId, None)
    ensures Ok(ReplayLogs(disk, history, created, nextId, false, save, taken))
  {
    hide LogsSorted, Parts, StoredOk, CfOk, Items, Unborn;
    var t := ReplayLogs(disk, history, created, nextId, false, save, taken);
    var added := Log(t.run.log, []);
    RecoveredNumbers(disk, history);
    NewLogSorted(disk.logs, added);
    forall id | id in disk.families
      ensures CfOk(id, disk.manifests[id], t.run.cfs[id], t.disk.logs, Parts(id, history), PendingPart(id, None), t.run)
    {
      RecoveredSeq(disk, history, id);
      if id in created {
        UnbornHasNone(id, disk.logs, history);
      }
      RecoveredCf(id, disk.manifests[id], t.run.cfs[id], disk.logs, history, t.run, added);
    }
    forall id: FamilyId | id >= disk.nextId ensures Unborn(id, t.disk.logs, history, None) {
      NewLogUnborn(id, disk.logs, history, added);
    }
  }

  lemma UnbornHasNone(id: FamilyId, logs: seq<Log>, history: seq<Batch>)
    requires Unborn(id, logs, history, None)
    ensures NoneIn(id, logs)
  {
  }

  lemma KeepReplay(disk: Disk, history: seq<Batch>, created: set<FamilyId>, nextId: FamilyId, reuse: bool, save: bool,
                   taken: nat)
    requires OpeningOk(disk, history, created, nextId, None)
    ensures Ok(ReplayLogs(disk, history, created, nextId, reuse, save, taken))
  {
    hide Ok, LogsSorted, Unborn, StoredOk;
    RecoveredNumbers(disk, history);
    if reuse && disk.logs != [] && disk.families == {DEFAULT} {
      KeepReplayReusing(disk, history, nextId, save, taken);
    } else {
      KeepReplayFresh(disk, history, created, nextId, save, taken);
    }
  }

  /** The edit is never skipped where it would be missed: then the log number says nothing was replayed. */
  lemma KeepInstall(disk: Disk, history: seq<Batch>, run: Running, todo: set<FamilyId>, save: bool, id: FamilyId)
    requires UpOk(disk, history, run, todo, save) && id in todo && id in run.cfs && id in disk.manifests
    ensures InstallEdit(disk, history, run, todo, save, id).disk == Flushed(disk, run, id)
    ensures Ok(InstallEdit(disk, history, run, todo, save, id))
  {
    hide CfOk, Unborn, LogsSorted;
    KeepFlushed(disk, history, run, todo, save, id);
  }

  lemma KeepUp(disk: Disk, history: seq<Batch>, run: Running, save: bool, e: Event)
    requires UpOk(disk, history, run, {}, save) && StepUp(disk, history, run, save, e).Some?
    ensures Ok(StepUp(disk, history, run, save, e).value)
  {
    hide UpOk, AppendTo;
    match e
    case Append(b) => KeepAppend(disk, history, run, save, b);
    case Apply => KeepApply(disk, history, run, save);
    case Switch(id) => KeepSwitch(disk, history, run, save, id);
    case Flush(id) =>
      KeepFlushed(disk, history, run, {}, save, id);
      assert {} - {id} == {};
    case MarkObsolete => KeepMarkObsolete(disk, history, run, save);
    case DeleteLog(i) => KeepDeleteLog(disk, history, run, save, i);
    case Allocate(n) => KeepOthers(disk, history, run, save, e);
    case BeginCreate => KeepBeginCreate(disk, history, run, save);
    case FinishCreate(id) => KeepFinishCreate(disk, history, run, save, id);
    case Drop(id) => KeepDrop(disk, history, run, save, id);
    case RemoveDirectory(id) => KeepOthers(disk, history, run, save, e);
    case _ =>
  }

  /** Every step keeps the invariant. */
  lemma StepKeeps(s: State, e: Event)
    requires Ok(s) && Step(s, e).Some?
    ensures Ok(Step(s, e).value)
  {
    hide UpOk, DiskOk, OpeningOk, StepUp, InstallEdit, ReplayLogs;
    match s
    case Down(disk, history) => OpenKeeps(disk, history);
    case Opening(disk, history, created, nextId, half) =>
      if e.Crash? {
        OpeningStored(disk, history, created, nextId, half);
      } else if e.Replay? {
        KeepReplay(disk, history, created, nextId, e.reuse, e.save, e.taken);
      } else {
        KeepMissing(disk, history, created, nextId, half, e);
      }
    case Up(disk, history, run, todo, save) =>
      if e.Crash? {
        KeepCrash(disk, history, run, todo, save);
      } else if todo != {} {
        KeepInstall(disk, history, run, todo, save, e.id);
      } else {
        KeepUp(disk, history, run, save, e);
      }
  }

  lemma OpenKeeps(disk: Disk, history: seq<Batch>)
    requires DiskOk(disk, history)
    ensures OpeningOk(disk, history, {}, disk.nextId, None)
  {
  }

  lemma OpeningStored(disk: Disk, history: seq<Batch>, created: set<FamilyId>, nextId: FamilyId, half: Option<FamilyId>)
    requires OpeningOk(disk, history, created, nextId, half)
    ensures DiskOk(disk, history)
  {
  }

  /** So every reachable state satisfies it. */
  lemma {:induction false} RunKeeps(s: State, es: seq<Event>)
    requires Ok(s) && Run(s, es).Some?
    ensures Ok(Run(s, es).value)
  {
    hide Ok, Step;
    if es != [] {
      RunKeeps(s, es[..|es| - 1]);
      StepKeeps(Run(s, es[..|es| - 1]).value, es[|es| - 1]);
    }
  }

  lemma NewDatabaseOk()
    ensures Ok(Down(NEW_DISK, []))
  {
    forall id: FamilyId ensures Unborn(id, [], [], None) {
    }
    assert StoredOk(DEFAULT, Manifest([], 0, 0), [], Parts(DEFAULT, []));
  }

  // ---- What it means ----

  ghost predicate Reachable(s: State, es: seq<Event>) {
    Run(Down(NEW_DISK, []), es) == Some(s)
  }

  lemma ReachableOk(s: State, es: seq<Event>)
    requires Reachable(s, es)
    ensures Ok(s)
  {
    hide Ok, Step;
    NewDatabaseOk();
    RunKeeps(Down(NEW_DISK, []), es);
  }

  /** What a family's readers find: tables, then what waits to be in one, then the memtable. */
  ghost function Contents(disk: Disk, run: Running, id: FamilyId): seq<Item>
    requires id in disk.manifests && id in run.cfs
  {
    disk.manifests[id].tables + run.cfs[id].Unsaved() + run.cfs[id].mem
  }

  /**
   * In every state the database can reach while open, every family holds exactly its
   * records of the committed batches, in order, and new numbers are above all of them.
   */
  lemma OpenDatabaseIsHistory(s: State, es: seq<Event>, id: FamilyId)
    requires Reachable(s, es) && s.Up? && id in s.disk.families
    ensures id in s.disk.manifests && id in s.run.cfs
    ensures Contents(s.disk, s.run, id) == Parts(id, s.history)
    ensures Increasing(Parts(id, s.history)) && UpTo(Parts(id, s.history), s.run.lastSeq)
  {
    hide Parts, Items, Increasing, UpTo, Unborn, LogsSorted, Step;
    ReachableOk(s, es);
    assert CfOk(id, s.disk.manifests[id], s.run.cfs[id], s.disk.logs, Parts(id, s.history),
                PendingPart(id, s.run.pending), s.run);
  }

  /** The steps of starting up after a crash, crashes on the way included. */
  predicate Recovery(e: Event) {
    e.Open? || e.MissingManifest? || e.MissingRegister? || e.Replay? || e.Install? || e.Crash?
  }

  /** Such a step changes no family's history, and forgets no family. */
  lemma RecoveryStep(s: State, e: Event)
    requires Ok(s) && (s.Up? ==> s.todo != {} || s.run.pending == None) && Recovery(e) && Step(s, e).Some?
    ensures var t := Step(s, e).value;
            t.history == s.history && s.disk.families <= t.disk.families && (t.Up? ==> t.run.pending == None)
  {
    hide CfOk, Unborn, LogsSorted, StoredOk, Parts, Items, Part, AppendTo, FreshMemories, MinLog, MaxLogSeq, MarkUsed;
  }

  lemma {:induction false} RecoveryRun(s: State, es: seq<Event>)
    requires Ok(s) && (s.Up? ==> s.todo != {} || s.run.pending == None)
    requires (forall e <- es :: Recovery(e)) && Run(s, es).Some?
    ensures var t := Run(s, es).value;
            t.history == s.history && s.disk.families <= t.disk.families
              && (t.Up? ==> t.todo != {} || t.run.pending == None)
  {
    hide Ok, Step;
    if es != [] {
      var init := es[..|es| - 1];
      assert forall e <- init :: e in es;
      RecoveryRun(s, init);
      RunKeeps(s, init);
      RecoveryStep(Run(s, init).value, es[|es| - 1]);
    }
  }

  /**
   * Crash an open database in any state it can reach, and start it again, crashing at
   * any point of recovery as often as may be: once it is open, every family holds
   * exactly what it held, plus, if the crash came between log and memtables, its part
   * of that one batch: of the same batch in every family.
   */
  lemma RecoveryRestores(s: State, before: seq<Event>, es: seq<Event>, t: State, id: FamilyId)
    requires Reachable(s, before) && s.Up? && id in s.disk.families
    requires (forall e <- es :: Recovery(e)) && Run(Step(s, Crash).value, es) == Some(t) && t.Up?
    ensures id in t.disk.families && id in t.disk.manifests && id in t.run.cfs
    ensures id in s.disk.manifests && id in s.run.cfs
    ensures Contents(t.disk, t.run, id) == Contents(s.disk, s.run, id) + PendingPart(id, s.run.pending)
  {
    hide Ok, Step, Parts, Unborn, Part;
    var d := CrashState(s);
    ReachableOk(s, before);
    StepKeeps(s, Crash);
    RecoveryRun(d, es);
    RunKeeps(d, es);
    OpenDatabaseIsHistory(s, before, id);
    HistoryInMemory(t, id);
    if s.run.pending.Some? {
      PartsAppend(id, s.history, s.run.pending.value);
    } else {
      assert s.history + [] == s.history;
    }
  }

  lemma CrashState(s: State) returns (d: State)
    requires s.Up?
    ensures Step(s, Crash) == Some(d)
    ensures d == Down(s.disk, s.history + if s.run.pending.Some? then [s.run.pending.value] else [])
  {
    d := Step(s, Crash).value;
  }

  lemma HistoryInMemory(s: State, id: FamilyId)
    requires Ok(s) && s.Up? && id in s.disk.families
    ensures id in s.disk.manifests && id in s.run.cfs && Contents(s.disk, s.run, id) == Parts(id, s.history)
  {
    hide Parts, Items, Increasing, UpTo, Unborn, LogsSorted;
    assert CfOk(id, s.disk.manifests[id], s.run.cfs[id], s.disk.logs, Parts(id, s.history),
                PendingPart(id, s.run.pending), s.run);
  }

  /** Recovery never gets stuck: from disk, it can be taken to an open database. */
  lemma RecoveryGoesOn(s: State)
    requires Ok(s)
    ensures s.Down? ==> Step(s, Open).Some?
    ensures s.Opening? && s.half.None? ==> forall reuse, save, taken :: Step(s, Replay(reuse, save, taken)).Some?
    ensures s.Opening? && s.half.Some? ==> Step(s, MissingRegister).Some?
    ensures s.Up? && s.todo != {} ==> exists id :: id in s.todo && Step(s, Install(id)).Some?
    ensures s.Up? ==> forall id :: id in s.todo && Step(s, Install(id)).Some? ==>
              Step(s, Install(id)).value.todo == s.todo - {id}
  {
    hide CfOk, Unborn, LogsSorted, StoredOk, Parts, Flushed, StepUp, ReplayLogs;
    if s.Up? && s.todo != {} {
      var id :| id in s.todo;
      assert Step(s, Install(id)).Some?;
    }
  }

  /** The family was created once and FAMILIES names it no more. */
  ghost predicate Gone(s: State, id: FamilyId) {
    id < s.disk.nextId && id !in s.disk.families && (s.Up? ==> id !in s.run.creating)
    && (s.Opening? && s.half.Some? ==> id != s.half.value)
  }

  lemma GoneUp(s: State, e: Event, id: FamilyId)
    requires Ok(s) && s.Up? && Gone(s, id) && StepUp(s.disk, s.history, s.run, s.save, e).Some?
    ensures Gone(StepUp(s.disk, s.history, s.run, s.save, e).value, id)
  {
    hide CfOk, Unborn, LogsSorted, Parts, Items, Part, AppendTo, OldestLiveLog;
    assert CountersOk(s.disk, s.run) && Registered(s.disk);
  }

  lemma GoneStep(s: State, e: Event, id: FamilyId)
    requires Ok(s) && Gone(s, id) && Step(s, e).Some?
    ensures Gone(Step(s, e).value, id)
  {
    hide CfOk, Unborn, LogsSorted, StoredOk, Parts, Items, Part, StepUp, FreshMemories, MinLog, MaxLogSeq, MarkUsed;
    if s.Up? && s.todo == {} && !e.Crash? {
      GoneUp(s, e, id);
    }
  }

  /** A dropped family never comes back, and its id is never given to another. */
  lemma {:induction false} DroppedStaysDropped(s: State, es: seq<Event>, id: FamilyId)
    requires Ok(s) && Gone(s, id) && Run(s, es).Some?
    ensures Gone(Run(s, es).value, id)
  {
    hide Ok, Step, Gone;
    if es != [] {
      DroppedStaysDropped(s, es[..|es| - 1], id);
      RunKeeps(s, es[..|es| - 1]);
      GoneStep(Run(s, es[..|es| - 1]).value, es[|es| - 1], id);
    }
  }

  lemma DropMakesGone(s: State, id: FamilyId)
    requires Ok(s) && Step(s, Drop(id)).Some?
    ensures Gone(Step(s, Drop(id)).value, id)
  {
    hide CfOk, Unborn, LogsSorted, StoredOk, Parts;
  }
}
