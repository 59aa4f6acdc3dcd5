/**
 * A write without a batch asks for a new memtable of the default family.  The first
 * switch it leads to is that family's exactly if the family can be switched at that
 * look; if it cannot, and another family holds back the logs, the write reports room
 * with the default family's memtable as it was.
 */
module ForcedWrites {
  import opened Core
  import opened SharedLogs
  import opened SharedLogProofs
  import opened LogEngines

  /** The state in which the n-th look was made. */
  ghost function StateAt(s0: State, turns: seq<Turn>, n: nat): Option<State>
    requires n <= |turns|
  {
    Run(s0, StepsOf(turns[..n]))
  }

  /** The first switch of a forced write is the default family's iff that could be switched at that look. */
  lemma ForcedSwitchIff(s0: State, lim: Limits, families: set<FamilyId>, schedule: seq<seq<Event>>, turns: seq<Turn>,
                        n: nat)
    requires Ok(s0) && n < |turns| && turns[n].Switched? && forall i | 0 <= i < n :: !turns[i].Switched?
    requires forall i | 0 <= i < |turns| :: Right(s0, lim, families, true, schedule, turns, i)
    ensures StateAt(s0, turns, n).Some? && StateAt(s0, turns, n).value.Up?
    ensures turns[n].id == DEFAULT <==> !Busy(StateAt(s0, turns, n).value.run, lim, DEFAULT, n)
  {
    hide Oldest;
    assert Right(s0, lim, families, true, schedule, turns, n);
    var s := StateAt(s0, turns, n).value;
    RunKeeps(s0, StepsOf(turns[..n]));
    DefaultLives(s);
    assert Forced(true, turns[..n]);
    assert MustSwitch(s.run, lim, families, true, Oldest(s.disk, s.run), DEFAULT);
  }

  /** A forced write that finds room has made a switch. */
  lemma ForcedSwitches(s0: State, lim: Limits, families: set<FamilyId>, turns: seq<Turn>, s: State)
    requires Ok(s) && s.Up? && s.run.cfs.Keys <= s.disk.manifests.Keys
    requires !SomeMust(s.disk, s.run, lim, families, Forced(true, turns))
    ensures exists t :: t in turns && t.Switched?
  {
    hide Oldest;
    DefaultLives(s);
    assert MustSwitch(s.run, lim, families, true, Oldest(s.disk, s.run), DEFAULT);
    assert !Forced(true, turns);
  }

  // ---- Where the default family is passed over ----

  /** Memtables of a hundred records, and level 0 empty. */
  const LIMITS := Limits((items: seq<Item>) => 1, (id: FamilyId) => 100, (id: FamilyId, n: nat) => 0, 8, 12)

  /** Two families: the default one on the current log, with nothing to flush, and one that stays on log 2. */
  ghost predicate TwoFamilies(db: DBImpl, log: LogNo)
    reads db
  {
    && db.Valid() && db.run.pending.None? && db.run.cfs.Keys == {DEFAULT, 1} == db.disk.families
    && db.run.nextId == 2 && db.run.creating == map[] && db.run.log == log >= 2 && db.run.nextFile == log + 1
    && db.run.cfs[DEFAULT].imm.None? && db.run.cfs[DEFAULT].memLog == log
    && db.run.cfs[1] == Memory([], 2, None, 0)
    && DEFAULT in db.disk.manifests && db.disk.manifests[DEFAULT].logNumber >= 2
    && 1 in db.disk.manifests && db.disk.manifests[1].logNumber == 2
  }

  /** A new database after its first recovery. */
  const STARTED_DISK := Disk([Log(2, [])], map[DEFAULT := Manifest([], 2, 0)], {DEFAULT}, 1, 3)
  const STARTED := Running(map[DEFAULT := Memory([], 2, None, 0)], map[], 2, 0, 1, 3, None, 0)

  lemma Started()
    ensures UpOk(STARTED_DISK, [], STARTED, {}, true)
  {
    hide UpOk, Ok;
    var s0, s1, s2 := Down(NEW_DISK, []), Opening(NEW_DISK, [], {}, 1, None), REPLAYED;
    NewDatabaseOk();
    FirstReplay();
    StepKeeps(s0, Open);
    StepKeeps(s1, Replay(false, false, 0));
    FirstInstall();
    StepKeeps(s2, Install(DEFAULT));
    SaveNoMatter();
  }

  const REPLAYED := Up(NEW_DISK.(logs := [Log(2, [])]), [],
                       Running(map[DEFAULT := Memory([], 2, Some([]), 0)], map[], 2, 0, 1, 3, None, 0), {DEFAULT},
                         false)

  lemma FirstReplay()
    ensures Step(Opening(NEW_DISK, [], {}, 1, None), Replay(false, false, 0)) == Some(REPLAYED)
  {
    assert MinLog(NEW_DISK, 1) == 0 && Items(DEFAULT, [], 0) == [] && MaxManifestSeq(NEW_DISK, 1) == 0;
    assert MaxLogSeq([], 0, 0) == 0 && MarkUsed([], 0, 2) == 2;
    assert FreshMemories(NEW_DISK, {}, 2) == map[DEFAULT := Memory([], 2, Some([]), 0)];
    assert NEW_DISK.logs + [Log(2, [])] == [Log(2, [])];
    assert ReplayLogs(NEW_DISK, [], {}, 1, false, false, 0) == REPLAYED;
  }

  lemma FirstInstall()
    ensures Step(REPLAYED, Install(DEFAULT)) == Some(Up(STARTED_DISK, [], STARTED, {}, false))
  {
    var m, c: Memory := REPLAYED.disk.manifests[DEFAULT], REPLAYED.run.cfs[DEFAULT];
    assert m.tables + c.Unsaved() == [];
    assert REPLAYED.disk.manifests[DEFAULT := Manifest([], 2, 0)] == STARTED_DISK.manifests;
    assert Flushed(REPLAYED.disk, REPLAYED.run, DEFAULT) == STARTED_DISK;
    assert REPLAYED.run.cfs[DEFAULT := c.(imm := None)] == STARTED.cfs;
    assert {DEFAULT} - {DEFAULT} == {};
  }

  lemma SaveNoMatter()
    requires Ok(Up(STARTED_DISK, [], STARTED, {}, false))
    ensures UpOk(STARTED_DISK, [], STARTED, {}, true)
  {
    hide Registered, CountersOk, UnbornOk, FamiliesOk;
  }

  method NewDatabase() returns (db: DBImpl)
    ensures fresh(db) && TwoFamilies(db, 2)
  {
    hide Ok, UpOk;
    Started();
    db := new DBImpl(STARTED_DISK, STARTED, {}, []);
    ghost var s := db.State();
    var id := db.CreateColumnFamily(false);
    RunTwo(s, BeginCreate, FinishCreate(1));
  }

  /** One more log: the default family is switched and flushed. */
  method NextLog(db: DBImpl, ghost log: LogNo)
    requires TwoFamilies(db, log)
    modifies db
    ensures TwoFamilies(db, log + 1)
  {
    hide Ok;
    NonEmptyLog(db.State());
    db.SwitchMemTable(DEFAULT);
    NonEmptyLog(db.State());
    db.CompactMemTable(DEFAULT);
  }

  /** A database whose second family holds back four logs while the default family waits for its flush. */
  method LaggingDatabase() returns (db: DBImpl)
    ensures fresh(db) && db.Valid() && db.run.pending.None? && db.run.cfs.Keys == {DEFAULT, 1} <= db.disk.manifests.Keys
    ensures db.run.cfs[DEFAULT].imm.Some? && db.run.cfs[DEFAULT].memLog == 6
    ensures db.run.cfs[1] == Memory([], 2, None, 0) && db.run.log == 6 && Oldest(db.disk, db.run) == 2
  {
    hide Ok;
    db := NewDatabase();
    NextLog(db, 2);
    NextLog(db, 3);
    NextLog(db, 4);
    NonEmptyLog(db.State());
    db.SwitchMemTable(DEFAULT);
    NonEmptyLog(db.State());
    OldestOfTwo(db.disk, db.run);
  }

  lemma OldestOfTwo(disk: Disk, run: Running)
    requires run.cfs.Keys == {DEFAULT, 1} <= disk.manifests.Keys && run.nextId == 2 && run.log >= 2
    requires Needed(disk.manifests[DEFAULT], run.cfs[DEFAULT]) >= 2 && Needed(disk.manifests[1], run.cfs[1]) == 2
    ensures Oldest(disk, run) == 2
  {
    assert OldestLiveLog(disk, run, 1) == Min(run.log, Needed(disk.manifests[DEFAULT], run.cfs[DEFAULT]));
  }

  /** There a forced write switches the other family, and finds room, the default family as it was. */
  method ForcedElsewhere() returns (outcome: Admission, db: DBImpl, ghost turns: seq<Turn>)
    ensures outcome == Room && turns == [Switched(1)]
    ensures fresh(db) && db.Valid() && DEFAULT in db.run.cfs && db.run.cfs[DEFAULT].imm.Some?
    ensures db.run.cfs[DEFAULT].memLog == 6
  {
    hide Ok, Oldest, OldestLiveLog;
    db := LaggingDatabase();
    ghost var s := db.State();
    outcome, turns := db.MakeRoomForWrite({}, true, LIMITS, []);
    OnlyTheOther(s, turns, outcome, db.State());
  }

  /** What can have been done there. */
  lemma OnlyTheOther(s: State, turns: seq<Turn>, outcome: Admission, now: State)
    requires Ok(s) && s.Up? && s.todo == {} && s.run.cfs.Keys == {DEFAULT, 1} <= s.disk.manifests.Keys
    requires s.run.cfs[DEFAULT].imm.Some? && s.run.cfs[DEFAULT].memLog == 6 && s.run.pending.None?
    requires s.run.cfs[1] == Memory([], 2, None, 0) && s.run.log == 6 && Oldest(s.disk, s.run) == 2
    requires Run(s, StepsOf(turns)) == Some(now) && now.Up? && now.run.cfs.Keys <= now.disk.manifests.Keys
    requires forall n | 0 <= n < |turns| :: Right(s, LIMITS, {}, true, [], turns, n)
    requires outcome == Room <==> !SomeMust(now.disk, now.run, LIMITS, {}, Forced(true, turns))
    requires outcome == StillWaiting ==> NoneFree(now.disk, now.run, LIMITS, {}, Forced(true, turns), |turns|)
    ensures outcome == Room && turns == [Switched(1)]
    ensures DEFAULT in now.run.cfs && now.run.cfs[DEFAULT] == s.run.cfs[DEFAULT]
  {
    hide Ok, Oldest, Right, RightTurn, Step, SomeMust, NoneFree;
    MustAtFirst(s);
    assert turns == [] ==> now == s && Forced(true, turns);
    assert turns != [];
    FirstTurn(s, turns);
    var t := Switched1(s);
    StepKeeps(s, Switch(1));
    SecondTurn(s, t, turns, outcome, now);
    AfterOne(s);
  }

  /** There is something to do at first. */
  lemma MustAtFirst(s: State)
    requires s.Up? && s.run.cfs.Keys == {DEFAULT, 1} <= s.disk.manifests.Keys
    requires s.run.cfs[1] == Memory([], 2, None, 0) && s.run.log == 6 && Oldest(s.disk, s.run) == 2
    ensures SomeMust(s.disk, s.run, LIMITS, {}, true) && !NoneFree(s.disk, s.run, LIMITS, {}, true, 0)
  {
    hide Oldest;
    assert MustSwitch(s.run, LIMITS, {}, true, 2, 1) && !Busy(s.run, LIMITS, 1, 0);
  }

  /** The first look finds family 1. */
  lemma FirstTurn(s: State, turns: seq<Turn>)
    requires s.Up? && s.run.cfs.Keys == {DEFAULT, 1} <= s.disk.manifests.Keys
    requires s.run.cfs[DEFAULT].imm.Some? && s.run.cfs[1] == Memory([], 2, None, 0)
    requires s.run.log == 6 && Oldest(s.disk, s.run) == 2
    requires turns != [] && Right(s, LIMITS, {}, true, [], turns, 0)
    ensures turns[0] == Switched(1)
  {
    hide Oldest;
    assert turns[..0] == [] && Forced(true, []);
    assert MustSwitch(s.run, LIMITS, {}, true, 2, 1) && !Busy(s.run, LIMITS, 1, 0);
  }

  lemma Switched1(s: State) returns (t: State)
    requires Ok(s) && s.Up? && s.todo == {} && s.run.cfs.Keys == {DEFAULT, 1} && s.run.pending.None?
    requires s.run.cfs[1].imm.None?
    ensures Step(s, Switch(1)) == Some(t) && t.Up? && t.run.cfs.Keys == {DEFAULT, 1}
    ensures t.run.cfs[DEFAULT] == s.run.cfs[DEFAULT] && t.run.cfs[1].imm.Some?
  {
    hide Ok;
    t := Step(s, Switch(1)).value;
  }

  /** After it nothing must be switched. */
  lemma SecondTurn(s: State, t: State, turns: seq<Turn>, outcome: Admission, now: State)
    requires turns != [] && turns[0] == Switched(1) && Step(s, Switch(1)) == Some(t)
    requires t.Up? && t.run.cfs.Keys == {DEFAULT, 1} && t.run.cfs[DEFAULT].imm.Some? && t.run.cfs[1].imm.Some?
    requires t.run.cfs[DEFAULT].memLog == 6 && Ok(t)
    requires forall n | 0 <= n < |turns| :: Right(s, LIMITS, {}, true, [], turns, n)
    requires Run(s, StepsOf(turns)) == Some(now) && now.Up? && now.run.cfs.Keys <= now.disk.manifests.Keys
    requires outcome == Room <==> !SomeMust(now.disk, now.run, LIMITS, {}, Forced(true, turns))
    ensures turns == [Switched(1)] && outcome == Room
  {
    hide Ok, Step, Right, SomeMust, Forced;
    NonEmptyLog(t);
    AfterOne(s);
    NothingMust(t);
    if |turns| == 1 {
      assert turns == [Switched(1)];
    } else {
      assert turns[..1] == [Switched(1)];
      NoSecond(s, t, turns);
    }
  }

  /** One switch is one step, and the forced one. */
  lemma AfterOne(s: State)
    ensures Run(s, StepsOf([Switched(1)])) == Step(s, Switch(1)) && !Forced(true, [Switched(1)])
  {
    hide Step;
    assert [Switched(1)][..0] == [] && [] + [Switch(1)] == [Switch(1)];
    assert StepsOf([Switched(1)]) == [Switch(1)];
    RunOne(s, [], Switch(1));
    assert [Switched(1)][0] in [Switched(1)];
  }

  lemma NothingMust(t: State)
    requires t.Up? && t.run.cfs.Keys == {DEFAULT, 1} <= t.disk.manifests.Keys
    requires t.run.cfs[DEFAULT].imm.Some? && t.run.cfs[1].imm.Some?
    ensures !SomeMust(t.disk, t.run, LIMITS, {}, false)
  {
    hide Oldest;
  }

  /** So no second turn is right. */
  lemma NoSecond(s: State, t: State, turns: seq<Turn>)
    requires |turns| > 1 && turns[..1] == [Switched(1)]
    requires Step(s, Switch(1)) == Some(t) && t.Up? && t.run.cfs.Keys <= t.disk.manifests.Keys
    requires !SomeMust(t.disk, t.run, LIMITS, {}, false)
    ensures !Right(s, LIMITS, {}, true, [], turns, 1)
  {
    hide Run, Step, SomeMust, RightTurn, Forced;
    AfterOne(s);
    NoTurn(t, turns[1]);
  }

  lemma NoTurn(t: State, turn: Turn)
    requires t.Up? && t.run.cfs.Keys <= t.disk.manifests.Keys && !SomeMust(t.disk, t.run, LIMITS, {}, false)
    ensures !RightTurn(t, LIMITS, {}, true, [], [Switched(1)], turn)
  {
    hide MustSwitch, NoneFree, Oldest, SomeMust, Picked;
    assert [Switched(1)][0] in [Switched(1)] && !Forced(true, [Switched(1)]);
    forall id: FamilyId
      ensures Picked(t.disk, t.run, LIMITS, {}, false, 1, id) ==> SomeMust(t.disk, t.run, LIMITS, {}, false)
    {
      PickedMust(t, id);
    }
  }

  lemma PickedMust(t: State, id: FamilyId)
    requires t.Up? && t.run.cfs.Keys <= t.disk.manifests.Keys
    ensures Picked(t.disk, t.run, LIMITS, {}, false, 1, id) ==> SomeMust(t.disk, t.run, LIMITS, {}, false)
  {
    hide Oldest;
  }
}
