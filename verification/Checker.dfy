/**
 * The crash harness's checker: it walks the recovered database against the model and
 * decides whether the batch that was in flight landed.  It accepts a database exactly
 * if that is the model wholly without or wholly with the batch, and says which.
 */
module Checkers {
  import opened Core
  import opened Affines

  const KEY_LENGTH: nat := 16
  const DELETED_BIT: nat := 0x8000_0000

  // ---- Keys ----

  /** %016llu */
  function KeyOf(id: nat): string {
    var digits := Decimal(id);
    Repeat('0', if |digits| < KEY_LENGTH then KEY_LENGTH - |digits| else 0) + digits
  }

  function IdOf(key: string): Option<nat> {
    if |key| != KEY_LENGTH || !AllDigits(key) then None else Some(Number(key))
  }

  predicate AllDigits(s: string) {
    forall c <- s :: IsDigit(c)
  }

  /** The loop of IdOf. */
  method ParseId(key: string) returns (id: Option<nat>)
    ensures id == IdOf(key)
  {
    if |key| != KEY_LENGTH {
      return None;
    }
    var v: nat := 0;
    var i := 0;
    while i < |key|
      invariant 0 <= i <= |key| && AllDigits(key[..i]) && v == Number(key[..i])
    {
      if !IsDigit(key[i]) {
        assert key[i] in key;
        return None;
      }
      assert key[..i + 1][..i] == key[..i] && key[..i + 1] == key[..i] + [key[i]];
      v := v * 10 + DigitValue(key[i]);
      i := i + 1;
    }
    assert key[..i] == key;
    return Some(v);
  }

  /** Every id of up to 16 digits is read back from its key. */
  lemma KeyRoundTrip(id: nat)
    requires id < Power10(KEY_LENGTH)
    ensures |KeyOf(id)| == KEY_LENGTH && IdOf(KeyOf(id)) == Some(id)
  {
    DecimalLength(id, KEY_LENGTH);
    NumberPadded(KEY_LENGTH - |Decimal(id)|, Decimal(id));
    NumberOfDecimal(id);
  }

  // ---- The model ----

  predicate LiveVersion(v: nat) {
    v != 0 && (v / DELETED_BIT) % 2 == 0
  }

  /** w | kDeletedBit */
  function Deleted(w: nat): nat {
    if (w / DELETED_BIT) % 2 == 1 then w else w + DELETED_BIT
  }

  datatype Op = Op(del: bool, id: nat)

  /** Model.Put and Model.Del, one operation after another. */
  function Replay(ver: seq<nat>, wseq: nat, ops: seq<Op>): (r: seq<nat>)
    requires forall op <- ops :: op.id < |ver|
    ensures |r| == |ver|
  {
    if ops == [] then ver
    else
      var rest := Replay(ver, wseq, ops[..|ops| - 1]);
      var op, w := ops[|ops| - 1], wseq + |ops|;
      assert op in ops;
      rest[op.id := if op.del then Deleted(w) else w]
  }

  /** A version with the bit set is no live one, and keeps its number; without it, all are but 0. */
  lemma DeletedIsDead(w: nat)
    requires w < 0x8000_0000
    ensures !LiveVersion(Deleted(w)) && Deleted(w) % 0x8000_0000 == w && Deleted(w) / 0x8000_0000 == 1
    ensures LiveVersion(w) <==> w != 0
  {
  }

  /** The version that operation number n leaves: the number, with the bit for a deletion, and live without it. */
  ghost predicate LeftBy(v: nat, del: bool, n: nat) {
    (LiveVersion(v) <==> !del) && v % 0x8000_0000 == n && v / 0x8000_0000 == if del then 1 else 0
  }

  lemma OneLeaves(del: bool, n: nat)
    requires 1 <= n < 0x8000_0000
    ensures LeftBy(if del then Deleted(n) else n, del, n)
  {
    DeletedIsDead(n);
  }

  /** Operation i is the last one on the id. */
  ghost predicate LastOn(ops: seq<Op>, id: nat, i: nat) {
    i < |ops| && ops[i].id == id && forall j | i < j < |ops| :: ops[j].id != id
  }

  /** Ids without an operation are as before. */
  lemma {:induction false} ReplayOthers(ver: seq<nat>, wseq: nat, ops: seq<Op>, id: nat)
    requires (forall op <- ops :: op.id < |ver|) && id < |ver| && forall i | 0 <= i < |ops| :: ops[i].id != id
    ensures Replay(ver, wseq, ops)[id] == ver[id]
  {
    hide Deleted;
    if ops != [] {
      var init := ops[..|ops| - 1];
      assert forall op <- init :: op in ops;
      ReplayOthers(ver, wseq, init, id);
    }
  }

  /** After a batch, an id is what the last operation on it left. */
  lemma {:induction false} ReplayLast(ver: seq<nat>, wseq: nat, ops: seq<Op>, id: nat, i: nat)
    requires (forall op <- ops :: op.id < |ver|) && id < |ver| && wseq + |ops| < 0x8000_0000 && LastOn(ops, id, i)
    ensures LeftBy(Replay(ver, wseq, ops)[id], ops[i].del, wseq + i + 1)
  {
    hide LeftBy, Deleted;
    var init, n := ops[..|ops| - 1], |ops| - 1;
    if i == n {
      OneLeaves(ops[n].del, wseq + |ops|);
    } else {
      assert forall op <- init :: op in ops;
      assert LastOn(init, id, i);
      ReplayLast(ver, wseq, init, id, i);
    }
  }

  /** The versions of a batch's ids before and after it. */
  method InFlight(ver: seq<nat>, wseq: nat, ops: seq<Op>) returns (before: map<nat, nat>, after: map<nat, nat>)
    requires forall op <- ops :: op.id < |ver|
    ensures before.Keys == after.Keys
    ensures forall id :: id in before ==> id < |ver| && before[id] == ver[id]
    ensures Patched(ver, after) == Replay(ver, wseq, ops)
  {
    before, after := map[], map[];
    var i := 0;
    while i < |ops|
      invariant 0 <= i <= |ops|
      invariant before.Keys == set op | op in ops[..i] :: op.id
      invariant forall id :: id in before ==> id < |ver| && before[id] == ver[id]
    {
      var op := ops[i];
      assert op in ops && ops[..i + 1] == ops[..i] + [op];
      if op.id !in before {
        before := before[op.id := ver[op.id]];
      }
      i := i + 1;
    }
    assert ops[..i] == ops;
    var w, j := wseq, 0;
    while j < |ops|
      invariant 0 <= j <= |ops| && w == wseq + j
      invariant after.Keys == set op | op in ops[..j] :: op.id
      invariant Patched(ver, after) == Replay(ver, wseq, ops[..j])
    {
      var op := ops[j];
      assert op in ops && ops[..j + 1] == ops[..j] + [op] && ops[..j + 1][..j] == ops[..j];
      w := w + 1;
      PatchOne(ver, after, op.id, if op.del then Deleted(w) else w);
      after := after[op.id := if op.del then Deleted(w) else w];
      j := j + 1;
    }
    assert ops[..j] == ops;
  }

  /** The model with the in-flight versions put in. */
  function Patched(ver: seq<nat>, after: map<nat, nat>): (r: seq<nat>)
    ensures |r| == |ver|
  {
    seq(|ver|, id requires 0 <= id < |ver| => if id in after then after[id] else ver[id])
  }

  lemma PatchOne(ver: seq<nat>, after: map<nat, nat>, id: nat, v: nat)
    requires id < |ver|
    ensures Patched(ver, after[id := v]) == Patched(ver, after)[id := v]
  {
  }

  // ---- The database ----

  datatype KeyValue = KeyValue(key: string, value: Value)

  /** The keys are ids of the universe, strictly ascending. */
  ghost predicate Ascending(db: seq<KeyValue>, universe: nat) {
    && (forall j | 0 <= j < |db| :: IdOf(db[j].key).Some? && IdOf(db[j].key).value < universe)
    && (forall i, j | 0 <= i < j < |db| :: IdOf(db[i].key).value < IdOf(db[j].key).value)
  }

  function Find(db: seq<KeyValue>, id: nat): Option<Value> {
    if db == [] then None
    else if IdOf(db[0].key) == Some(id) then Some(db[0].value)
    else Find(db[1..], id)
  }

  lemma {:induction false} FindAt(db: seq<KeyValue>, universe: nat, j: nat)
    requires Ascending(db, universe) && j < |db|
    ensures Find(db, IdOf(db[j].key).value) == Some(db[j].value)
  {
    if j > 0 {
      TailAscends(db, universe);
      FindAt(db[1..], universe, j - 1);
    }
  }

  lemma {:induction false} FindGap(db: seq<KeyValue>, id: nat)
    requires forall j | 0 <= j < |db| :: IdOf(db[j].key) != Some(id)
    ensures Find(db, id) == None
  {
    if db != [] {
      FindGap(db[1..], id);
    }
  }

  lemma TailAscends(db: seq<KeyValue>, universe: nat)
    requires Ascending(db, universe) && db != []
    ensures Ascending(db[1..], universe)
  {
  }

  /** What a version says about a key, against what was found. */
  predicate Matches(valueOf: (nat, nat) -> Value, id: nat, v: nat, found: Option<Value>) {
    if LiveVersion(v) then found == Some(valueOf(id, v)) else found.None?
  }

  /** The database holds exactly what the model says. */
  ghost predicate Equals(db: seq<KeyValue>, ver: seq<nat>, valueOf: (nat, nat) -> Value) {
    Ascending(db, |ver|) && forall id | 0 <= id < |ver| :: Matches(valueOf, id, ver[id], Find(db, id))
  }

  // ---- Deciding ----

  /** inflight_state: what the keys seen so far say about the batch. */
  datatype Verdict = Unknown | Old | New

  /** A checker's knowledge: the model, the batch, the values. */
  datatype Check = Check(ver: seq<nat>, before: map<nat, nat>, after: map<nat, nat>, valueOf: (nat, nat) -> Value)
  {
    ghost predicate Valid() {
      before.Keys == after.Keys && forall id :: id in before ==> id < |ver| && before[id] == ver[id]
    }

    predicate OldOk(id: nat, found: Option<Value>)
      requires id < |ver|
    {
      Matches(valueOf, id, ver[id], found)
    }

    predicate NewOk(id: nat, found: Option<Value>)
      requires id < |ver|
    {
      Matches(valueOf, id, Patched(ver, after)[id], found)
    }

    /** One key's say; None is a mismatch. */
    function Judge(id: nat, found: Option<Value>, st: Verdict): Option<Verdict>
      requires id < |ver|
    {
      if OldOk(id, found) && NewOk(id, found) then Some(st)
      else if OldOk(id, found) then (if st == New then None else Some(Old))
      else if NewOk(id, found) then (if st == Old then None else Some(New))
      else None
    }

    /** All keys below n. */
    ghost function JudgeAll(db: seq<KeyValue>, n: nat): Option<Verdict>
      requires n <= |ver|
    {
      if n == 0 then Some(Unknown)
      else
        match JudgeAll(db, n - 1)
        case None => None
        case Some(st) => Judge(n - 1, Find(db, n - 1), st)
    }

    lemma {:induction false} MismatchStays(db: seq<KeyValue>, m: nat, n: nat)
      requires m <= n <= |ver| && JudgeAll(db, m) == None
      ensures JudgeAll(db, n) == None
    {
      if m < n {
        MismatchStays(db, m, n - 1);
      }
    }

    ghost predicate AllOld(db: seq<KeyValue>, n: nat)
      requires n <= |ver|
    {
      forall id | 0 <= id < n :: OldOk(id, Find(db, id))
    }

    ghost predicate AllNew(db: seq<KeyValue>, n: nat)
      requires n <= |ver|
    {
      forall id | 0 <= id < n :: NewOk(id, Find(db, id))
    }

    /** The verdict says exactly which of the two states the keys are in. */
    lemma {:induction false} JudgeMeans(db: seq<KeyValue>, n: nat)
      requires n <= |ver|
      ensures match JudgeAll(db, n)
              case None => !AllOld(db, n) && !AllNew(db, n)
              case Some(Unknown) => AllOld(db, n) && AllNew(db, n)
              case Some(Old) => AllOld(db, n) && !AllNew(db, n)
              case Some(New) => !AllOld(db, n) && AllNew(db, n)
    {
      if n > 0 {
        JudgeMeans(db, n - 1);
        assert AllOld(db, n) <==> AllOld(db, n - 1) && OldOk(n - 1, Find(db, n - 1));
        assert AllNew(db, n) <==> AllNew(db, n - 1) && NewOk(n - 1, Find(db, n - 1));
      }
    }

    /** An id outside the batch is the same before and after it. */
    lemma NotInFlight(id: nat, found: Option<Value>)
      requires Valid() && id < |ver| && id !in before
      ensures OldOk(id, found) == NewOk(id, found)
    {
      assert id !in after;
    }

    /** `decide` for an in-flight id, the plain comparison for any other. */
    method Decide(id: nat, found: Option<Value>, st0: Verdict) returns (st: Option<Verdict>)
      requires Valid() && id < |ver|
      ensures st == Judge(id, found, st0)
    {
      if id in before {
        var oldOk := Matches(valueOf, id, before[id], found);
        var newOk := Matches(valueOf, id, after[id], found);
        if oldOk && newOk {
          return Some(st0);
        }
        if !oldOk && !newOk {
          return None;
        }
        var state := if oldOk then Old else New;
        if st0 == Unknown {
          return Some(state);
        } else if st0 != state {
          return None;
        }
        return Some(st0);
      }
      NotInFlight(id, found);
      if !Matches(valueOf, id, ver[id], found) {
        return None;
      }
      return Some(st0);
    }

    /** The ids from `due` up to `id` must be absent. */
    method SkipTo(ghost db: seq<KeyValue>, due0: nat, id: nat, st0: Verdict) returns (st: Option<Verdict>)
      requires Valid() && due0 <= id <= |ver|
      requires forall x: nat | due0 <= x < id :: Ascending(db, |ver|) ==> Find(db, x) == None
      requires Ascending(db, |ver|) ==> JudgeAll(db, due0) == Some(st0)
      ensures st.Some? ==> (Ascending(db, |ver|) ==> JudgeAll(db, id) == st)
      ensures st.None? ==> (Ascending(db, |ver|) ==> JudgeAll(db, |ver|) == None)
    {
      hide Ascending;
      var due, now := due0, st0;
      while due < id
        invariant due0 <= due <= id
        invariant Ascending(db, |ver|) ==> JudgeAll(db, due) == Some(now)
      {
        var next := Decide(due, None, now);
        if next.None? {
          if Ascending(db, |ver|) {
            MismatchStays(db, due + 1, |ver|);
          }
          return None;
        }
        due, now := due + 1, next.value;
      }
      return Some(now);
    }
  }

  /** The first j entries are in order, below `due`. */
  ghost predicate Walked(db: seq<KeyValue>, universe: nat, j: nat, due: nat) {
    && j <= |db| && due <= universe && Ascending(db[..j], universe)
    && due == if j == 0 then 0 else IdOf(db[j - 1].key).value + 1
  }

  /** Between the last entry and the next one of an ordered database there is nothing. */
  lemma NothingBetween(db: seq<KeyValue>, universe: nat, j: nat, due: nat, x: nat)
    requires Ascending(db, universe) && Walked(db, universe, j, due) && due <= x
    requires j < |db| ==> x < IdOf(db[j].key).value
    ensures Find(db, x) == None
  {
    forall i | 0 <= i < |db| ensures IdOf(db[i].key) != Some(x) {
      assert i < j - 1 ==> IdOf(db[i].key).value < IdOf(db[j - 1].key).value;
      assert i > j ==> IdOf(db[j].key).value < IdOf(db[i].key).value;
    }
    FindGap(db, x);
  }

  /** The next entry, if it is a key of the universe and not below `due`, keeps the order. */
  lemma WalkOne(db: seq<KeyValue>, universe: nat, j: nat, due: nat, id: nat)
    requires Walked(db, universe, j, due) && j < |db| && IdOf(db[j].key) == Some(id) && due <= id < universe
    ensures Walked(db, universe, j + 1, id + 1)
  {
    var pre := db[..j + 1];
    forall a, b | 0 <= a < b < |pre| ensures IdOf(pre[a].key).value < IdOf(pre[b].key).value {
      assert pre[a] == db[..j][a];
      assert b < j ==> pre[b] == db[..j][b];
      assert a == j - 1 || IdOf(db[..j][a].key).value < IdOf(db[..j][j - 1].key).value;
    }
    forall a | 0 <= a < |pre| ensures IdOf(pre[a].key).Some? && IdOf(pre[a].key).value < universe {
      assert a < j ==> db[..j][a] == pre[a];
    }
  }

  /**
   * Verify's forward scan.  It accepts exactly the two states, and returns true only
   * for the one with the batch, false only for the one without.
   */
  method Verify(c: Check, db: seq<KeyValue>) returns (applied: Option<bool>)
    requires c.Valid()
    ensures applied.Some? <==> Equals(db, c.ver, c.valueOf) || Equals(db, Patched(c.ver, c.after), c.valueOf)
    ensures applied == Some(true) <==> Equals(db, Patched(c.ver, c.after), c.valueOf) && !Equals(db, c.ver, c.valueOf)
    ensures applied == Some(false) <==> Equals(db, c.ver, c.valueOf)
  {
    hide Ascending, Find, IdOf, Matches, Check.JudgeAll, Check.Judge;
    var st := Scan(c, db);
    EqualsMeans(c, db);
    c.JudgeMeans(db, |c.ver|);
    applied := if st.None? then None else Some(st.value == New);
  }

  lemma EqualsMeans(c: Check, db: seq<KeyValue>)
    ensures Equals(db, c.ver, c.valueOf) <==> Ascending(db, |c.ver|) && c.AllOld(db, |c.ver|)
    ensures Equals(db, Patched(c.ver, c.after), c.valueOf) <==> Ascending(db, |c.ver|) && c.AllNew(db, |c.ver|)
  {
  }

  /** The walk itself. */
  method Scan(c: Check, db: seq<KeyValue>) returns (st: Option<Verdict>)
    requires c.Valid()
    ensures st.Some? ==> Ascending(db, |c.ver|) && c.JudgeAll(db, |c.ver|) == st
    ensures st.None? ==> Ascending(db, |c.ver|) ==> c.JudgeAll(db, |c.ver|) == None
  {
    var due: nat, j: nat := 0, 0;
    st := Some(Unknown);
    while j < |db|
      invariant 0 <= j <= |db| && st.Some? && Walked(db, |c.ver|, j, due)
      invariant Ascending(db, |c.ver|) ==> c.JudgeAll(db, due) == st
    {
      if Ascending(db, |c.ver|) {
        AscendingNext(db, |c.ver|, j, due);
      }
      var parsed := ParseId(db[j].key);
      if parsed.None? || parsed.value >= |c.ver| || parsed.value < due {
        return None;
      }
      var id := parsed.value;
      st := ScanOne(c, db, j, due, id, st.value);
      if st.None? {
        return;
      }
      WalkOne(db, |c.ver|, j, due, id);
      due, j := id + 1, j + 1;
    }
    assert db[..j] == db;
    forall x: nat | due <= x < |c.ver| && Ascending(db, |c.ver|) ensures Find(db, x) == None {
      NothingBetween(db, |c.ver|, j, due, x);
    }
    st := c.SkipTo(db, due, |c.ver|, st.value);
  }

  /** In an ordered database the next entry is a key of the universe, and not below `due`. */
  lemma AscendingNext(db: seq<KeyValue>, universe: nat, j: nat, due: nat)
    requires Ascending(db, universe) && Walked(db, universe, j, due) && j < |db|
    ensures IdOf(db[j].key).Some? && due <= IdOf(db[j].key).value < universe
  {
    if j > 0 {
      assert IdOf(db[j - 1].key).value < IdOf(db[j].key).value;
    }
  }

  /** The absent ids before an entry, and the entry. */
  method ScanOne(c: Check, db: seq<KeyValue>, j: nat, due: nat, id: nat, st0: Verdict) returns (st: Option<Verdict>)
    requires c.Valid() && Walked(db, |c.ver|, j, due) && j < |db| && IdOf(db[j].key) == Some(id) && due <= id < |c.ver|
    requires Ascending(db, |c.ver|) ==> c.JudgeAll(db, due) == Some(st0)
    ensures st.Some? ==> (Ascending(db, |c.ver|) ==> c.JudgeAll(db, id + 1) == st)
    ensures st.None? ==> (Ascending(db, |c.ver|) ==> c.JudgeAll(db, |c.ver|) == None)
  {
    hide Ascending, IdOf, Walked;
    forall x: nat | due <= x < id && Ascending(db, |c.ver|) ensures Find(db, x) == None {
      NothingBetween(db, |c.ver|, j, due, x);
    }
    st := c.SkipTo(db, due, id, st0);
    if st.Some? {
      st := c.Decide(id, Some(db[j].value), st.value);
      if Ascending(db, |c.ver|) {
        FindAt(db, |c.ver|, j);
        if st.None? {
          c.MismatchStays(db, id + 1, |c.ver|);
        }
      }
    }
  }

  // ---- In terms of the batch and of what is in the database ----

  /** What a version says is there. */
  function Stored(valueOf: (nat, nat) -> Value, id: nat, v: nat): Option<Value> {
    if v != 0 && (v / 0x8000_0000) % 2 == 0 then Some(valueOf(id, v)) else None
  }

  /** Some entry has this key and value. */
  ghost predicate Contains(db: seq<KeyValue>, id: nat, v: Value) {
    exists j :: 0 <= j < |db| && IdOf(db[j].key) == Some(id) && db[j].value == v
  }

  /** An ordered database that holds, for every id, exactly what is expected. */
  ghost predicate HoldsExactly(db: seq<KeyValue>, n: nat, expected: nat -> Option<Value>) {
    Ascending(db, n) && forall id: nat, v: Value | id < n :: Contains(db, id, v) <==> expected(id) == Some(v)
  }

  /** The state before the batch. */
  function BeforeAt(ver: seq<nat>, valueOf: (nat, nat) -> Value, id: nat): Option<Value> {
    if id < |ver| then Stored(valueOf, id, ver[id]) else None
  }

  function Before(ver: seq<nat>, valueOf: (nat, nat) -> Value): nat -> Option<Value> {
    (id: nat) => BeforeAt(ver, valueOf, id)
  }

  /** The place of the last operation on the id. */
  function LastOp(ops: seq<Op>, id: nat): (i: Option<nat>)
    ensures i.Some? ==> LastOn(ops, id, i.value)
    ensures i.None? ==> forall op <- ops :: op.id != id
  {
    if ops == [] then None
    else if ops[|ops| - 1].id == id then Some(|ops| - 1)
    else
      var i := LastOp(ops[..|ops| - 1], id);
      assert i.Some? ==> forall j | i.value < j < |ops| - 1 :: ops[..|ops| - 1][j] == ops[j];
      i
  }

  /** The state after it: an id holds what its last operation put there. */
  function AfterAt(ver: seq<nat>, wseq: nat, ops: seq<Op>, valueOf: (nat, nat) -> Value, id: nat): Option<Value> {
    match LastOp(ops, id)
    case None => BeforeAt(ver, valueOf, id)
    case Some(i) => if ops[i].del then None else Some(valueOf(id, wseq + i + 1))
  }

  function After(ver: seq<nat>, wseq: nat, ops: seq<Op>, valueOf: (nat, nat) -> Value): nat -> Option<Value> {
    (id: nat) => AfterAt(ver, wseq, ops, valueOf, id)
  }

  /** In an ordered database, finding is containing. */
  lemma FindContains(db: seq<KeyValue>, n: nat, id: nat)
    requires Ascending(db, n)
    ensures forall v: Value :: Contains(db, id, v) <==> Find(db, id) == Some(v)
  {
    if j :| 0 <= j < |db| && IdOf(db[j].key) == Some(id) {
      FindAt(db, n, j);
      assert forall i | 0 <= i < |db| && IdOf(db[i].key) == Some(id) :: i == j;
    } else {
      FindGap(db, id);
    }
  }

  /** Equality with the model, as contents. */
  lemma EqualsContents(db: seq<KeyValue>, ver: seq<nat>, valueOf: (nat, nat) -> Value)
    ensures Equals(db, ver, valueOf) <==> HoldsExactly(db, |ver|, Before(ver, valueOf))
  {
    hide Ascending, Contains, Find;
    if Ascending(db, |ver|) {
      forall id: nat | id < |ver|
        ensures Matches(valueOf, id, ver[id], Find(db, id)) <==>
                forall v: Value :: Contains(db, id, v) <==> Before(ver, valueOf)(id) == Some(v)
      {
        FindContains(db, |ver|, id);
        MatchesStored(valueOf, id, ver[id], Find(db, id));
        if Find(db, id).Some? {
          assert Contains(db, id, Find(db, id).value);
        }
      }
    }
  }

  lemma MatchesStored(valueOf: (nat, nat) -> Value, id: nat, v: nat, found: Option<Value>)
    ensures Matches(valueOf, id, v, found) <==> found == Stored(valueOf, id, v)
  {
  }

  /** The replayed versions store what the batch leaves. */
  lemma ReplayStores(ver: seq<nat>, wseq: nat, ops: seq<Op>, valueOf: (nat, nat) -> Value, id: nat)
    requires (forall op <- ops :: op.id < |ver|) && id < |ver| && wseq + |ops| < 0x8000_0000
    ensures BeforeAt(Replay(ver, wseq, ops), valueOf, id) == AfterAt(ver, wseq, ops, valueOf, id)
  {
    hide Replay, LeftBy, Stored, LastOn;
    var i := LastOp(ops, id);
    if i.Some? {
      LastInside(ops, id, i.value);
      ReplayLast(ver, wseq, ops, id, i.value);
      LeftStored(valueOf, id, Replay(ver, wseq, ops)[id], ops[i.value].del, wseq + i.value + 1);
    } else {
      ReplayOthers(ver, wseq, ops, id);
    }
  }

  lemma LastInside(ops: seq<Op>, id: nat, i: nat)
    requires LastOn(ops, id, i)
    ensures i < |ops|
  {
  }

  lemma LeftStored(valueOf: (nat, nat) -> Value, id: nat, v: nat, del: bool, n: nat)
    requires LeftBy(v, del, n) && n >= 1
    ensures Stored(valueOf, id, v) == if del then None else Some(valueOf(id, n))
  {
  }

  /**
   * The harness's decision about the batch that was in flight: true exactly if the
   * database holds what the batch leaves and that is not what was there before, false
   * exactly if it holds what was there before, and a mismatch otherwise.
   */
  method DecideBatch(ver: seq<nat>, wseq: nat, ops: seq<Op>, valueOf: (nat, nat) -> Value, db: seq<KeyValue>)
    returns (applied: Option<bool>)
    requires (forall op <- ops :: op.id < |ver|) && wseq + |ops| < 0x8000_0000
    ensures applied == Some(false) <==> HoldsExactly(db, |ver|, Before(ver, valueOf))
    ensures applied == Some(true) <==>
              HoldsExactly(db, |ver|, After(ver, wseq, ops, valueOf)) && !HoldsExactly(db, |ver|, Before(ver, valueOf))
  {
    hide Equals, Replay, Patched, BeforeAt, AfterAt, Contains, Ascending;
    var before, after := InFlight(ver, wseq, ops);
    applied := Verify(Check(ver, before, after, valueOf), db);
    EqualsContents(db, ver, valueOf);
    EqualsContents(db, Replay(ver, wseq, ops), valueOf);
    forall id: nat | id < |ver|
      ensures BeforeAt(Replay(ver, wseq, ops), valueOf, id) == AfterAt(ver, wseq, ops, valueOf, id)
    {
      ReplayStores(ver, wseq, ops, valueOf, id);
    }
  }
}
