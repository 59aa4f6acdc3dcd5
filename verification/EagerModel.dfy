/**
 * The harness's model applies every write to a map at once; the engine numbers the
 * writes, keeps them all and folds them when it reads.  Both give every key the same
 * value at every snapshot.
 */
module EagerModels {
  import opened Core
  import opened Visibility
  import A = Affines

  /** A write of a scenario; a range with end <= begin is empty. */
  datatype Write =
    | WPut(family: nat, id: Key, value: Value)
    | WDelete(family: nat, id: Key)
    | WMerge(family: nat, id: Key, operand: Value)
    | WDeleteRange(family: nat, id: Key, end: Key)

  /** A family's keys and their values. */
  type Model = map<Key, Value>

  // ---- The eager model ----

  /** What AffineFullMerge returns for an operand it cannot parse. */
  const BAD_OPERAND: Value := "BAD-OPERAND"

  /** What one write makes of its family's model. */
  function ApplyOne(mop: MergeOperator, m: Model, w: Write): Model {
    match w
    case WPut(_, id, value) => m[id := value]
    case WDelete(_, id) => m - {id}
    case WMerge(_, id, operand) =>
      (match mop.full(id, ValueAt(m, id), [operand])
       case Some(v) => m[id := v]
       case None => m[id := BAD_OPERAND])
    case WDeleteRange(_, begin, end) => map k | k in m && !(begin <= k < end) :: m[k]
  }

  function ValueAt(m: Model, k: Key): Option<Value> {
    if k in m then Some(m[k]) else None
  }

  /** What some writes make of family f's model. */
  function ApplyAll(mop: MergeOperator, m0: Model, ws: seq<Write>, f: nat): Model {
    if ws == [] then m0
    else
      var m := ApplyAll(mop, m0, ws[..|ws| - 1], f);
      var w := ws[|ws| - 1];
      if w.family == f then ApplyOne(mop, m, w) else m
  }

  /** The model of family f after all writes. */
  function Eager(mop: MergeOperator, ws: seq<Write>, f: nat): Model {
    ApplyAll(mop, map[], ws, f)
  }

  /** One step of a scenario: writes, a family created or dropped, or something that writes nothing. */
  datatype Op = OpWrite(writes: seq<Write>) | OpCreate(family: nat) | OpDrop(family: nat) | OpOther

  const MAX_FAMILIES: nat := 4

  /** Steps that stay within the harness's families. */
  predicate WithinFamilies(op: Op) {
    match op
    case OpWrite(writes) => forall w <- writes :: w.family < MAX_FAMILIES
    case OpCreate(f) => f < MAX_FAMILIES
    case OpDrop(f) => f < MAX_FAMILIES
    case OpOther => true
  }

  /** All writes since family f was last created or dropped. */
  function Since(ops: seq<Op>, f: nat): seq<Write> {
    if ops == [] then []
    else
      var before := Since(ops[..|ops| - 1], f);
      match ops[|ops| - 1]
      case OpWrite(writes) => before + writes
      case OpCreate(g) => if g == f then [] else before
      case OpDrop(g) => if g == f then [] else before
      case OpOther => before
  }

  /** Families are made and dropped by the last step that names them; 0 is always there at first. */
  function Live(ops: seq<Op>, f: nat): bool {
    if ops == [] then f == 0
    else
      match ops[|ops| - 1]
      case OpCreate(g) => g == f || Live(ops[..|ops| - 1], f)
      case OpDrop(g) => g != f && Live(ops[..|ops| - 1], f)
      case _ => Live(ops[..|ops| - 1], f)
  }

  lemma {:induction false} EagerConcat(mop: MergeOperator, a: seq<Write>, b: seq<Write>, n: nat, f: nat)
    requires n < |b|
    ensures var m, w := Eager(mop, a + b[..n], f), b[n];
            Eager(mop, a + b[..n + 1], f) == if w.family == f then ApplyOne(mop, m, w) else m
  {
    assert a + b[..n + 1] == (a + b[..n]) + [b[n]];
    assert (a + b[..n + 1])[..|a| + n] == a + b[..n];
  }

  lemma {:induction false} ApplyMore(mop: MergeOperator, a: seq<Write>, b: seq<Write>, f: nat)
    ensures ApplyAll(mop, Eager(mop, a, f), b, f) == Eager(mop, a + b, f)
  {
    hide ApplyOne;
    if b == [] {
      assert a + b == a;
    } else {
      var init := b[..|b| - 1];
      ApplyMore(mop, a, init, f);
      assert (a + b)[..|a + b| - 1] == a + init && (a + b)[|a + b| - 1] == b[|b| - 1];
    }
  }

  /** The models of all families. */
  class ConfModels {
    const mop: MergeOperator
    var m: seq<Model>
    var live: seq<bool>
    ghost var ops: seq<Op>

    constructor (mop: MergeOperator)
      ensures Valid() && ops == [] && this.mop == mop
    {
      this.mop := mop;
      m, live, ops := [map[], map[], map[], map[]], [true, false, false, false], [];
    }

    /** Each family's map is what its writes make of an empty one, one after another. */
    ghost predicate Valid()
      reads this
    {
      && |m| == |live| == MAX_FAMILIES
      && forall f | 0 <= f < MAX_FAMILIES :: m[f] == Eager(mop, Since(ops, f), f) && live[f] == Live(ops, f)
    }

    method ApplyWrite(w: Write)
      requires w.family < |m|
      modifies this`m
      ensures m == old(m)[w.family := ApplyOne(mop, old(m)[w.family], w)]
    {
      var model := m[w.family];
      match w {
        case WPut(_, id, value) =>
          model := model[id := value];
        case WDelete(_, id) =>
          model := model - {id};
        case WMerge(_, id, operand) =>
          var merged := mop.full(id, if id in model then Some(model[id]) else None, [operand]);
          model := model[id := if merged.Some? then merged.value else BAD_OPERAND];
        case WDeleteRange(_, begin, end) =>
          if begin < end {
            model := map k | k in model && !(begin <= k < end) :: model[k];
          } else {
            assert model == map k | k in model && !(begin <= k < end) :: model[k];
          }
      }
      m := m[w.family := model];
    }

    /** ScenarioGen::Apply: created and dropped families start from nothing, writes go to their own family's map. */
    method Apply(op: Op)
      requires Valid() && WithinFamilies(op)
      modifies this
      ensures Valid() && ops == old(ops) + [op]
      ensures match op
              case OpCreate(f) => m == old(m)[f := map[]] && live == old(live)[f := true]
              case OpDrop(f) => m == old(m)[f := map[]] && live == old(live)[f := false]
              case OpWrite(writes) =>
                live == old(live) && forall f | 0 <= f < MAX_FAMILIES :: m[f] == ApplyAll(mop, old(m)[f], writes, f)
              case OpOther => m == old(m) && live == old(live)
    {
      hide Eager, ApplyAll, ApplyOne;
      NothingWritten(mop);
      assert (ops + [op])[..|ops|] == ops;
      match op {
        case OpCreate(f) =>
          m, live := m[f := map[]], live[f := true];
        case OpDrop(f) =>
          m, live := m[f := map[]], live[f := false];
        case OpOther =>
        case OpWrite(writes) =>
          assert forall f | 0 <= f < MAX_FAMILIES :: Since(ops, f) + [] == Since(ops, f);
          var i := 0;
          while i < |writes|
            invariant 0 <= i <= |writes| && |m| == MAX_FAMILIES && live == old(live) && ops == old(ops)
            invariant forall f | 0 <= f < MAX_FAMILIES :: m[f] == Eager(mop, Since(ops, f) + writes[..i], f)
          {
            forall f | 0 <= f < MAX_FAMILIES
              ensures var before, w := Eager(mop, Since(ops, f) + writes[..i], f), writes[i];
                      Eager(mop, Since(ops, f) + writes[..i + 1], f) ==
                      if w.family == f then ApplyOne(mop, before, w) else before
            {
              EagerConcat(mop, Since(ops, f), writes, i, f);
            }
            ApplyWrite(writes[i]);
            i := i + 1;
          }
          assert writes[..i] == writes;
          forall f | 0 <= f < MAX_FAMILIES ensures m[f] == ApplyAll(mop, old(m)[f], writes, f) {
            ApplyMore(mop, Since(ops, f), writes, f);
          }
      }
      ops := ops + [op];
    }
  }

  lemma NothingWritten(mop: MergeOperator)
    ensures forall f :: Eager(mop, [], f) == map[]
  {
  }

  // ---- The engine ----

  /** The entry that write number n makes in family f, if any. */
  function NewEntries(w: Write, n: SeqNo, f: nat): seq<Entry> {
    if w.family != f then []
    else
      match w
      case WPut(_, id, value) => [Entry(id, n, Put, value)]
      case WDelete(_, id) => [Entry(id, n, Deletion, "")]
      case WMerge(_, id, operand) => [Entry(id, n, Merge, operand)]
      case WDeleteRange(_, _, _) => []
  }

  /** The tombstone that it makes, if any. */
  function NewTombs(w: Write, n: SeqNo, f: nat): seq<Tombstone> {
    if w.family == f && w.WDeleteRange? then [Tombstone(w.id, w.end, n, 0)] else []
  }

  /** The entries of family f, newest first, when `base` numbers were given out before the first of the writes. */
  function Entries(ws: seq<Write>, f: nat, base: SeqNo): seq<Entry> {
    if ws == [] then []
    else NewEntries(ws[|ws| - 1], base + |ws|, f) + Entries(ws[..|ws| - 1], f, base)
  }

  /** The tombstones of family f, all in one layer. */
  function Tombstones(ws: seq<Write>, f: nat, base: SeqNo): seq<Tombstone> {
    if ws == [] then []
    else Tombstones(ws[..|ws| - 1], f, base) + NewTombs(ws[|ws| - 1], base + |ws|, f)
  }

  // ---- One more write ----

  /** All numbers that concern k are at most n. */
  ghost predicate NoNewer(es: seq<Entry>, ts: seq<Tombstone>, k: Key, n: SeqNo) {
    && (forall i | 0 <= i < |es| && es[i].key == k :: es[i].sn <= n)
    && (forall t | t in ts && t.Covers(k) :: t.sn <= n)
  }

  /** A newest tombstone hides what it covers from those who see it, and nothing else. */
  lemma TombstoneAdded(ts: seq<Tombstone>, w: Write, n: SeqNo, f: nat, k: Key, s: SeqNo, r: SeqNo)
    ensures Hidden(ts + NewTombs(w, n, f), k, s, r) <==>
            Hidden(ts, k, s, r) || (w.WDeleteRange? && w.family == f && w.id <= k < w.end && s < n <= r)
  {
    if w.WDeleteRange? && w.family == f {
      var t := Tombstone(w.id, w.end, n, 0);
      assert forall x :: x in ts + [t] <==> x in ts || x == t;
    } else {
      assert ts + [] == ts;
    }
  }

  /** A reader that does not see the newest write reads what it read before. */
  lemma UnseenWrite(es: seq<Entry>, ts: seq<Tombstone>, w: Write, n: SeqNo, f: nat, k: Key, r: SeqNo)
    requires r < n
    ensures Resolve(NewEntries(w, n, f) + es, ts + NewTombs(w, n, f), k, r) == Resolve(es, ts, k, r)
  {
    hide Hidden;
    var ts' := ts + NewTombs(w, n, f);
    forall s: SeqNo ensures Hidden(ts', k, s, r) == Hidden(ts, k, s, r) {
      TombstoneAdded(ts, w, n, f, k, s, r);
    }
    HideAlike(es, ts, ts', k, r, ABSENT);
    FoldConcat(NewEntries(w, n, f), es, ts', k, r, ABSENT);
    FoldNothing(NewEntries(w, n, f), ts', k, r, Resolve(es, ts', k, r));
  }

  /** What a write makes of the content of k. */
  function Effect(w: Write, f: nat, k: Key, c: Content): Content {
    if w.family != f then c
    else
      match w
      case WPut(_, id, value) => if id == k then Content(Some(value), []) else c
      case WDelete(_, id) => if id == k then ABSENT else c
      case WMerge(_, id, operand) => if id == k then Push(c, [operand]) else c
      case WDeleteRange(_, begin, end) => if begin <= k < end then ABSENT else c
  }

  /** What the newest write makes of a key that a reader sees all of. */
  lemma SeenWrite(es: seq<Entry>, ts: seq<Tombstone>, w: Write, n: SeqNo, f: nat, k: Key, r: SeqNo)
    requires 1 <= n <= r && NoNewer(es, ts, k, n - 1)
    ensures Resolve(NewEntries(w, n, f) + es, ts + NewTombs(w, n, f), k, r) == Effect(w, f, k, Resolve(es, ts, k, r))
  {
    hide Hidden;
    var added, ts' := NewEntries(w, n, f), ts + NewTombs(w, n, f);
    FoldConcat(added, es, ts', k, r, ABSENT);
    if w.WDeleteRange? && w.family == f && w.id <= k < w.end {
      forall i | 0 <= i < |es| && es[i].key == k && es[i].sn <= r ensures Hidden(ts', k, es[i].sn, r) {
        TombstoneAdded(ts, w, n, f, k, es[i].sn, r);
      }
      FoldHidden(es, ts', k, r);
    } else {
      forall s: SeqNo ensures Hidden(ts', k, s, r) == Hidden(ts, k, s, r) {
        TombstoneAdded(ts, w, n, f, k, s, r);
      }
      HideAlike(es, ts, ts', k, r, ABSENT);
      NothingNewer(es, ts, k, n, r);
      if added != [] {
        assert added[1..] == [];
      }
    }
  }

  lemma NothingNewer(es: seq<Entry>, ts: seq<Tombstone>, k: Key, n: SeqNo, r: SeqNo)
    requires 1 <= n && NoNewer(es, ts, k, n - 1)
    ensures !Hidden(ts, k, n, r)
  {
  }

  /** To a reader past all numbers it makes no difference how far past. */
  lemma {:induction false} LaterReader(es: seq<Entry>, ts: seq<Tombstone>, k: Key, n: SeqNo, r: SeqNo)
    requires NoNewer(es, ts, k, n) && n <= r
    ensures Resolve(es, ts, k, r) == Resolve(es, ts, k, n)
  {
    if es != [] {
      LaterReader(es[1..], ts, k, n, r);
      assert Hidden(ts, k, es[0].sn, r) == Hidden(ts, k, es[0].sn, n);
    }
  }

  // ---- The two agree ----

  /** Every operand can be merged into any value. */
  ghost predicate AllMerge(mop: MergeOperator, ws: seq<Write>) {
    forall w, b: Option<Value> | w in ws && w.WMerge? :: mop.full(w.id, b, [w.operand]).Some?
  }

  function AsOutcome(v: Option<Value>): Outcome {
    if v.Some? then Found(v.value) else NotFound
  }

  /** One more operand on what a read gives is one more operand in the read. */
  lemma MergeOnTop(mop: MergeOperator, k: Key, c: Content, v: Option<Value>, operand: Value)
    requires FullMergeSplits(mop) && Finish(Some(mop), k, c) == AsOutcome(v) && mop.full(k, v, [operand]).Some?
    ensures Finish(Some(mop), k, Push(c, [operand])) == Found(mop.full(k, v, [operand]).value)
  {
    if c.ops == [] {
      assert c.ops + [operand] == [operand];
    } else {
      assert mop.full(k, c.base, c.ops + [operand]) ==
             match mop.full(k, c.base, c.ops) case None => None case Some(x) => mop.full(k, Some(x), [operand]);
    }
  }

  /** What a single write does to content and value alike. */
  lemma OneWriteAlike(mop: MergeOperator, m: Model, c: Content, w: Write, f: nat, k: Key)
    requires FullMergeSplits(mop) && AllMerge(mop, [w]) && Finish(Some(mop), k, c) == AsOutcome(ValueAt(m, k))
    ensures Finish(Some(mop), k, Effect(w, f, k, c)) ==
            AsOutcome(ValueAt(if w.family == f then ApplyOne(mop, m, w) else m, k))
  {
    assert w in [w];
    if w.WMerge? && w.family == f && w.id == k {
      MergeOnTop(mop, k, c, ValueAt(m, k), w.operand);
    }
  }

  /** The entries after n writes on top of what was there. */
  function EntriesOn(ws: seq<Write>, n: nat, f: nat, base: SeqNo, es: seq<Entry>): seq<Entry>
    requires n <= |ws|
  {
    Entries(ws[..n], f, base) + es
  }

  function TombsOn(ws: seq<Write>, n: nat, f: nat, base: SeqNo, ts: seq<Tombstone>): seq<Tombstone>
    requires n <= |ws|
  {
    ts + Tombstones(ws[..n], f, base)
  }

  lemma NoneOn(ws: seq<Write>, f: nat, base: SeqNo, es: seq<Entry>, ts: seq<Tombstone>)
    ensures EntriesOn(ws, 0, f, base, es) == es && TombsOn(ws, 0, f, base, ts) == ts
  {
    assert [] + es == es && ts + [] == ts;
  }

  lemma OneMoreOn(ws: seq<Write>, n: nat, f: nat, base: SeqNo, es: seq<Entry>, ts: seq<Tombstone>)
    requires n < |ws|
    ensures EntriesOn(ws, n + 1, f, base, es) == NewEntries(ws[n], base + n + 1, f) + EntriesOn(ws, n, f, base, es)
    ensures TombsOn(ws, n + 1, f, base, ts) == TombsOn(ws, n, f, base, ts) + NewTombs(ws[n], base + n + 1, f)
  {
    assert ws[..n + 1][..n] == ws[..n];
    Associate(NewEntries(ws[n], base + n + 1, f), Entries(ws[..n], f, base), es);
    Associate(ts, Tombstones(ws[..n], f, base), NewTombs(ws[n], base + n + 1, f));
  }

  lemma AllOn(ws: seq<Write>, f: nat, base: SeqNo)
    ensures EntriesOn(ws, |ws|, f, base, []) == Entries(ws, f, base)
    ensures TombsOn(ws, |ws|, f, base, []) == Tombstones(ws, f, base)
  {
    assert ws[..|ws|] == ws;
    assert Entries(ws, f, base) + [] == Entries(ws, f, base) && [] + Tombstones(ws, f, base) == Tombstones(ws, f, base);
  }

  lemma MergesToo(mop: MergeOperator, ws: seq<Write>, i: nat)
    requires AllMerge(mop, ws) && i < |ws|
    ensures AllMerge(mop, [ws[i]])
  {
  }

  lemma NoneNewerStill(es: seq<Entry>, ts: seq<Tombstone>, w: Write, n: SeqNo, f: nat, k: Key)
    requires 1 <= n && NoNewer(es, ts, k, n - 1)
    ensures NoNewer(NewEntries(w, n, f) + es, ts + NewTombs(w, n, f), k, n)
  {
  }

  /** Writes on top of anything that reads as a model does read as the model after these writes. */
  lemma {:induction false} WritesOnTop(mop: MergeOperator, before: seq<Write>, ws: seq<Write>, n: nat, f: nat,
                                       base: SeqNo, es: seq<Entry>, ts: seq<Tombstone>, k: Key)
    requires FullMergeSplits(mop) && AllMerge(mop, ws) && n <= |ws| && NoNewer(es, ts, k, base)
    requires Read(Some(mop), es, ts, k, base) == AsOutcome(ValueAt(Eager(mop, before, f), k))
    ensures NoNewer(EntriesOn(ws, n, f, base, es), TombsOn(ws, n, f, base, ts), k, base + n)
    ensures Read(Some(mop), EntriesOn(ws, n, f, base, es), TombsOn(ws, n, f, base, ts), k, base + n) ==
            AsOutcome(ValueAt(Eager(mop, before + ws[..n], f), k))
  {
    hide Eager, Fold, Finish, ApplyOne, Effect, FullMergeSplits, AsOutcome, EntriesOn, TombsOn, NoNewer, AllMerge;
    if n == 0 {
      NoneOn(ws, f, base, es, ts);
      assert before + ws[..0] == before;
    } else {
      WritesOnTop(mop, before, ws, n - 1, f, base, es, ts, k);
      var w, es', ts' := ws[n - 1], EntriesOn(ws, n - 1, f, base, es), TombsOn(ws, n - 1, f, base, ts);
      OneMoreOn(ws, n - 1, f, base, es, ts);
      SeenWrite(es', ts', w, base + n, f, k, base + n);
      LaterReader(es', ts', k, base + n - 1, base + n);
      EagerConcat(mop, before, ws, n - 1, f);
      MergesToo(mop, ws, n - 1);
      OneWriteAlike(mop, Eager(mop, before + ws[..n - 1], f), Resolve(es', ts', k, base + n), w, f, k);
      NoneNewerStill(es', ts', w, base + n, f, k);
    }
  }

  /** Writes after the snapshot change nothing. */
  lemma {:induction false} LaterWrites(ws: seq<Write>, n: nat, m: nat, f: nat, base: SeqNo,
                                       es: seq<Entry>, ts: seq<Tombstone>, k: Key)
    requires n <= m <= |ws|
    ensures Resolve(EntriesOn(ws, m, f, base, es), TombsOn(ws, m, f, base, ts), k, base + n) ==
            Resolve(EntriesOn(ws, n, f, base, es), TombsOn(ws, n, f, base, ts), k, base + n)
    decreases m
  {
    hide Fold, EntriesOn, TombsOn, NewEntries, NewTombs;
    if n < m {
      LaterWrites(ws, n, m - 1, f, base, es, ts, k);
      OneMoreOn(ws, m - 1, f, base, es, ts);
      UnseenWrite(EntriesOn(ws, m - 1, f, base, es), TombsOn(ws, m - 1, f, base, ts), ws[m - 1], base + m, f, k,
                  base + n);
    }
  }

  /**
   * At every snapshot, reading a key of a family from all numbered writes gives what
   * the model holds after the first n of them, for a family created when `base`
   * numbers had been given out.
   */
  lemma EagerIsLazy(mop: MergeOperator, ws: seq<Write>, f: nat, base: SeqNo, k: Key, n: nat)
    requires FullMergeSplits(mop) && AllMerge(mop, ws)
    ensures Read(Some(mop), Entries(ws, f, base), Tombstones(ws, f, base), k, base + n) ==
            AsOutcome(ValueAt(Eager(mop, if n < |ws| then ws[..n] else ws, f), k))
  {
    hide Fold, Eager, EntriesOn, TombsOn, Entries, Tombstones, Finish, FullMergeSplits, AsOutcome;
    var seen := if n < |ws| then n else |ws|;
    NothingWritten(mop);
    assert [] + ws[..seen] == ws[..seen] && ws[..|ws|] == ws;
    AllOn(ws, f, base);
    NothingReads(mop, f, k, base);
    WritesOnTop(mop, [], ws, seen, f, base, [], [], k);
    LaterWrites(ws, seen, |ws|, f, base, [], [], k);
    if n > |ws| {
      LaterReader(Entries(ws, f, base), Tombstones(ws, f, base), k, base + seen, base + n);
    }
  }

  lemma NothingReads(mop: MergeOperator, f: nat, k: Key, r: SeqNo)
    ensures Read(Some(mop), [], [], k, r) == AsOutcome(ValueAt(Eager(mop, [], f), k)) && NoNewer([], [], k, r)
  {
  }

  /**
   * A family created in the middle of a scenario, when `base` numbers were given out:
   * from then on every snapshot reads what the model held when it was taken.
   */
  lemma CreatedFamilyIsEager(mop: MergeOperator, ops: seq<Op>, f: nat, base: SeqNo, k: Key, n: nat)
    requires FullMergeSplits(mop) && AllMerge(mop, Since(ops, f)) && n <= |Since(ops, f)|
    ensures var ws := Since(ops, f);
            Read(Some(mop), Entries(ws, f, base), Tombstones(ws, f, base), k, base + n) ==
            AsOutcome(ValueAt(Eager(mop, ws[..n], f), k))
  {
    var ws := Since(ops, f);
    EagerIsLazy(mop, ws, f, base, k, n);
    assert n == |ws| ==> ws[..n] == ws;
  }

  /** Every operand is the text of a map. */
  predicate WellFormed(ws: seq<Write>) {
    forall w <- ws :: w.WMerge? ==> A.AffineParseOperand(w.operand).Some?
  }

  /** The two sides for one family, key and snapshot, under the harness's operator. */
  ghost predicate Agree(h: A.Hashes, ws: seq<Write>, f: nat, k: Key, r: SeqNo) {
    Read(Some(A.Operator(h)), Entries(ws, f, 0), Tombstones(ws, f, 0), k, r) ==
    AsOutcome(ValueAt(Eager(A.Operator(h), if r < |ws| then ws[..r] else ws, f), k))
  }

  /** An operand that is no map fails every fold it is in. */
  lemma MalformedCorrupt(h: A.Hashes, k: Key, c: Content, operand: Value)
    requires A.AffineParseOperand(operand).None?
    ensures Finish(Some(A.Operator(h)), k, Push(c, [operand])) == Corrupt
    ensures forall b :: A.Operator(h).full(k, b, [operand]) == None
  {
    A.FullMergeInSteps(h, k, c.base, c.ops, [operand]);
    forall x: nat | x < A.P ensures A.ApplyOperands([operand], x) == None {
      A.Malformed([operand], 0, x);
    }
    if c.ops == [] {
      assert [] + [operand] == [operand];
    }
  }

  /** Right after an operand that is no map, the engine reports corruption where the model holds a value. */
  lemma MalformedDiffers(h: A.Hashes, ws: seq<Write>, i: nat)
    requires i < |ws| && ws[i].WMerge? && A.AffineParseOperand(ws[i].operand).None?
    ensures !Agree(h, ws, ws[i].family, ws[i].id, i + 1)
  {
    hide Fold, Entries, Tombstones, Finish, EntriesOn, TombsOn, NewEntries, NewTombs, A.Operator, A.AffineParseOperand;
    var w, f, k := ws[i], ws[i].family, ws[i].id;
    AllOn(ws, f, 0);
    LaterWrites(ws, i + 1, |ws|, f, 0, [], [], k);
    OneMoreOn(ws, i, f, 0, [], []);
    var es, ts := EntriesOn(ws, i, f, 0, []), TombsOn(ws, i, f, 0, []);
    NoneNewerOn(ws, i, f, k);
    SeenWrite(es, ts, w, i + 1, f, k, i + 1);
    MalformedCorrupt(h, k, Resolve(es, ts, k, i + 1), w.operand);
    assert ws[..i + 1][..i] == ws[..i] && (i + 1 == |ws| ==> ws[..i + 1] == ws);
  }

  lemma NoneNewerOn(ws: seq<Write>, n: nat, f: nat, k: Key)
    requires n <= |ws|
    ensures NoNewer(EntriesOn(ws, n, f, 0, []), TombsOn(ws, n, f, 0, []), k, n)
  {
    NumbersInRange(ws[..n], f, 0);
    assert Entries(ws[..n], f, 0) + [] == Entries(ws[..n], f, 0);
    assert [] + Tombstones(ws[..n], f, 0) == Tombstones(ws[..n], f, 0);
  }

  lemma {:induction false} NumbersInRange(ws: seq<Write>, f: nat, base: SeqNo)
    ensures forall e :: e in Entries(ws, f, base) ==> base < e.sn <= base + |ws|
    ensures forall t :: t in Tombstones(ws, f, base) ==> base < t.sn <= base + |ws| && t.layer == 0
  {
    if ws != [] {
      NumbersInRange(ws[..|ws| - 1], f, base);
    }
  }

  lemma WellFormedAgrees(h: A.Hashes, ws: seq<Write>, f: nat, k: Key, r: SeqNo)
    requires WellFormed(ws)
    ensures Agree(h, ws, f, k, r)
  {
    hide Fold, Eager, Finish, Entries, Tombstones, FullMergeSplits;
    var mop := A.Operator(h);
    A.AffineLaws(h);
    forall w, b: Option<Value> | w in ws && w.WMerge? ensures mop.full(w.id, b, [w.operand]).Some? {
      A.ApplyOne(w.operand, A.ValueX(h, w.id, b));
    }
    EagerIsLazy(mop, ws, f, 0, k, r);
  }

  /**
   * With the harness's operator the model and the engine agree everywhere exactly if
   * every operand is well formed, which is all the generator ever writes.
   */
  lemma AgreeIffWellFormed(h: A.Hashes, ws: seq<Write>)
    ensures WellFormed(ws) <==> forall f, k, r :: Agree(h, ws, f, k, r)
  {
    hide Agree, A.AffineParseOperand;
    if WellFormed(ws) {
      forall f, k, r ensures Agree(h, ws, f, k, r) {
        WellFormedAgrees(h, ws, f, k, r);
      }
    } else {
      var w :| w in ws && w.WMerge? && A.AffineParseOperand(w.operand).None?;
      var i :| 0 <= i < |ws| && ws[i] == w;
      MalformedDiffers(h, ws, i);
    }
  }
}
