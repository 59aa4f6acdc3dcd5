/**
 * What a read returns.  The rule of the specification is stated over the set of
 * entries and tombstones (FollowsRule); Resolve computes it by folding the entries
 * of a key, and every reader and every rewrite below is measured against Resolve.
 */
module Visibility {
  import opened Core

  /** What is known of a key: the value that settles it, if any, and the operands on top, oldest first. */
  datatype Content = Content(base: Option<Value>, ops: seq<Value>)

  const ABSENT := Content(None, [])

  /** Both functions may fail. */
  datatype MergeOperator = MergeOperator(
    full: (Key, Option<Value>, seq<Value>) -> Option<Value>,
    partial: (Key, Value, Value) -> Option<Value>)

  /** Status and value of a read. */
  datatype Outcome = NotFound | Found(value: Value) | NoOperator | Corrupt

  function Push(c: Content, more: seq<Value>): Content {
    Content(c.base, c.ops + more)
  }

  /** FullMerge, once the operands and what is below them are known. */
  function Finish(mop: Option<MergeOperator>, k: Key, c: Content): Outcome {
    if c.ops == [] then (if c.base.None? then NotFound else Found(c.base.value))
    else if mop.None? then NoOperator
    else
      match mop.value.full(k, c.base, c.ops)
      case Some(v) => Found(v)
      case None => Corrupt
  }

  /** What one entry makes of what is older. */
  ghost function Step(e: Entry, ts: seq<Tombstone>, k: Key, r: SeqNo, older: Content): Content {
    if e.key != k || e.sn > r then older
    else if e.kind == Deletion || Hidden(ts, k, e.sn, r) then ABSENT
    else if e.kind == Put then Content(Some(e.value), [])
    else Push(older, [e.value])
  }

  /** The entries of k, newest first, on top of what is older. */
  ghost function Fold(es: seq<Entry>, ts: seq<Tombstone>, k: Key, r: SeqNo, older: Content): Content {
    if es == [] then older else Step(es[0], ts, k, r, Fold(es[1..], ts, k, r, older))
  }

  ghost function Resolve(es: seq<Entry>, ts: seq<Tombstone>, k: Key, r: SeqNo): Content {
    Fold(es, ts, k, r, ABSENT)
  }

  /** What a reader of k at r gets. */
  ghost function Read(mop: Option<MergeOperator>, es: seq<Entry>, ts: seq<Tombstone>, k: Key, r: SeqNo): Outcome {
    Finish(mop, k, Resolve(es, ts, k, r))
  }

  /** The engine collects operands newest first and folds them oldest first. */
  function Reversed(s: seq<Value>): (r: seq<Value>)
    ensures |r| == |s|
  {
    if s == [] then [] else Reversed(s[1..]) + [s[0]]
  }

  lemma ReversedAppend(s: seq<Value>, v: Value)
    ensures Reversed(s + [v]) == [v] + Reversed(s)
  {
    if s != [] {
      assert (s + [v])[1..] == s[1..] + [v];
    }
  }

  // ---- Folding in pieces ----

  lemma {:induction false} FoldConcat(a: seq<Entry>, b: seq<Entry>, ts: seq<Tombstone>, k: Key, r: SeqNo,
                                      older: Content)
    ensures Fold(a + b, ts, k, r, older) == Fold(a, ts, k, r, Fold(b, ts, k, r, older))
  {
    if a == [] {
      assert a + b == b;
    } else {
      assert (a + b)[1..] == a[1..] + b;
      FoldConcat(a[1..], b, ts, k, r, older);
    }
  }

  /** Entries of other keys, and entries newer than the reader, say nothing. */
  lemma {:induction false} FoldNothing(es: seq<Entry>, ts: seq<Tombstone>, k: Key, r: SeqNo, older: Content)
    requires forall i | 0 <= i < |es| :: es[i].key != k || es[i].sn > r
    ensures Fold(es, ts, k, r, older) == older
  {
    if es != [] {
      assert es[0].key != k || es[0].sn > r;
      FoldNothing(es[1..], ts, k, r, older);
    }
  }

  /** Tombstones that hide alike read alike. */
  lemma {:induction false} HideAlike(es: seq<Entry>, ts: seq<Tombstone>, ts': seq<Tombstone>, k: Key, r: SeqNo,
                                     older: Content)
    requires forall s: SeqNo :: Hidden(ts, k, s, r) == Hidden(ts', k, s, r)
    ensures Fold(es, ts, k, r, older) == Fold(es, ts', k, r, older)
  {
    if es != [] {
      HideAlike(es[1..], ts, ts', k, r, older);
      assert Hidden(ts, k, es[0].sn, r) == Hidden(ts', k, es[0].sn, r);
    }
  }

  /** Entries the reader sees only through a tombstone leave the key absent. */
  lemma {:induction false} FoldHidden(es: seq<Entry>, ts: seq<Tombstone>, k: Key, r: SeqNo)
    requires forall i | 0 <= i < |es| && es[i].key == k && es[i].sn <= r :: Hidden(ts, k, es[i].sn, r)
    ensures Resolve(es, ts, k, r) == ABSENT
  {
    if es != [] {
      FoldHidden(es[1..], ts, k, r);
    }
  }

  // ---- The rule of the specification ----

  /** Entries of one key come newest first. */
  ghost predicate NewestFirst(es: seq<Entry>, k: Key) {
    forall i, j | 0 <= i < j < |es| && es[i].key == k && es[j].key == k :: es[i].sn > es[j].sn
  }

  ghost predicate Numbered(es: seq<Entry>) {
    forall i | 0 <= i < |es| :: es[i].sn >= 1
  }

  /** e is a put or deletion of k that the reader's snapshot includes. */
  ghost predicate Settling(e: Entry, k: Key, r: SeqNo) {
    e.key == k && e.sn <= r && e.kind != Merge
  }

  /** m is the newest visible put, deletion or covering range delete of k (0: there is none). */
  ghost predicate IsSettlePoint(es: seq<Entry>, ts: seq<Tombstone>, k: Key, r: SeqNo, m: SeqNo) {
    && (forall e :: e in es && Settling(e, k, r) ==> e.sn <= m)
    && (forall t :: t in ts && t.Covers(k) && t.sn <= r ==> t.sn <= m)
    && (m == 0 || (exists e :: e in es && Settling(e, k, r) && e.sn == m)
        || (exists t :: t in ts && t.Covers(k) && t.sn <= r && t.sn == m))
  }

  /** ops are exactly the operands of k visible at r and newer than m, oldest first. */
  ghost predicate AreOperands(es: seq<Entry>, k: Key, r: SeqNo, m: SeqNo, ops: seq<Entry>) {
    && (forall e :: e in ops <==> e in es && e.key == k && e.kind == Merge && m < e.sn <= r)
    && (forall i, j | 0 <= i < j < |ops| :: ops[i].sn < ops[j].sn)
  }

  function Values(es: seq<Entry>): (r: seq<Value>)
    ensures |r| == |es| && forall i | 0 <= i < |es| :: r[i] == es[i].value
  {
    seq(|es|, i requires 0 <= i < |es| => es[i].value)
  }

  /** The base is the value of the put at the settle point; there is none otherwise. */
  ghost predicate IsBase(es: seq<Entry>, k: Key, m: SeqNo, base: Option<Value>) {
    match base
    case Some(v) => exists e :: e in es && e.key == k && e.kind == Put && e.sn == m && e.value == v
    case None => forall e :: e in es && e.key == k && e.kind == Put ==> e.sn != m
  }

  /** The visibility rule: operands newer than the settle point, on the put that settles, if one does. */
  ghost predicate FollowsRule(es: seq<Entry>, ts: seq<Tombstone>, k: Key, r: SeqNo, c: Content) {
    exists m, ops ::
      IsSettlePoint(es, ts, k, r, m) && AreOperands(es, k, r, m, ops) && IsBase(es, k, m, c.base)
        && c.ops == Values(ops)
  }

  /** A record has a number of its own: no tombstone shares one with an entry it covers. */
  ghost predicate DistinctNumbers(es: seq<Entry>, ts: seq<Tombstone>) {
    forall e, t :: e in es && t in ts && t.Covers(e.key) ==> e.sn != t.sn
  }

  /** Resolve's settle point, found along the fold. */
  ghost function SettlePoint(es: seq<Entry>, ts: seq<Tombstone>, k: Key, r: SeqNo): SeqNo {
    if es == [] then NaiveMax(ts, k, r, ALL_LAYERS)
    else if Settling(es[0], k, r) then Max(es[0].sn, NaiveMax(ts, k, r, ALL_LAYERS))
    else SettlePoint(es[1..], ts, k, r)
  }

  ghost function OperandsAbove(es: seq<Entry>, k: Key, r: SeqNo, m: SeqNo): seq<Entry> {
    if es == [] then []
    else
      var rest := OperandsAbove(es[1..], k, r, m);
      if es[0].key == k && es[0].kind == Merge && m < es[0].sn <= r then rest + [es[0]] else rest
  }

  lemma {:induction false} SettlePointIs(es: seq<Entry>, ts: seq<Tombstone>, k: Key, r: SeqNo)
    requires NewestFirst(es, k) && LayersBounded(ts)
    ensures IsSettlePoint(es, ts, k, r, SettlePoint(es, ts, k, r))
  {
    NaiveMaxIsMaximum(ts, k, r, ALL_LAYERS);
    var m := SettlePoint(es, ts, k, r);
    forall t | t in ts && t.Covers(k) && t.sn <= r ensures t.sn <= NaiveMax(ts, k, r, ALL_LAYERS) {
      assert t.Applies(k, r, ALL_LAYERS);
    }
    if es != [] {
      SettlePointIs(es[1..], ts, k, r);
      if Settling(es[0], k, r) {
        forall e | e in es && Settling(e, k, r) ensures e.sn <= es[0].sn {
          var i :| 0 <= i < |es| && es[i] == e;
        }
        assert es[0] in es;
      } else {
        assert forall e :: e in es && Settling(e, k, r) ==> e in es[1..];
        assert forall e :: e in es[1..] ==> e in es;
      }
    }
  }

  lemma {:induction false} OperandsAboveAre(es: seq<Entry>, k: Key, r: SeqNo, m: SeqNo)
    requires NewestFirst(es, k)
    ensures AreOperands(es, k, r, m, OperandsAbove(es, k, r, m))
  {
    if es != [] {
      OperandsAboveAre(es[1..], k, r, m);
      var rest, ops := OperandsAbove(es[1..], k, r, m), OperandsAbove(es, k, r, m);
      forall e ensures e in ops <==> e in es && e.key == k && e.kind == Merge && m < e.sn <= r {
        assert e in es <==> e == es[0] || e in es[1..];
        assert e in rest + [es[0]] <==> e in rest || e == es[0];
      }
      if ops != rest {
        forall i | 0 <= i < |rest| ensures rest[i].sn < es[0].sn {
          assert rest[i] in rest;
          var j :| 0 <= j < |es[1..]| && es[1..][j] == rest[i];
          assert es[j + 1] == rest[i];
        }
      }
    }
  }

  /** Older operands are below every newer settle point. */
  lemma {:induction false} NoOperandsBelow(es: seq<Entry>, k: Key, r: SeqNo, m: SeqNo)
    requires forall i | 0 <= i < |es| && es[i].key == k && es[i].kind == Merge && es[i].sn <= r :: es[i].sn <= m
    ensures OperandsAbove(es, k, r, m) == []
  {
    if es != [] {
      NoOperandsBelow(es[1..], k, r, m);
    }
  }

  /** A visible operand at the head is above the settle point, so it is the newest operand above it. */
  lemma OperandHead(es: seq<Entry>, ts: seq<Tombstone>, k: Key, r: SeqNo)
    requires NewestFirst(es, k) && LayersBounded(ts) && es != [] && DistinctNumbers(es, ts)
    requires es[0].key == k && es[0].sn <= r && es[0].kind == Merge && !Hidden(ts, k, es[0].sn, r)
    requires es[0].sn >= 1
    ensures SettlePoint(es, ts, k, r) == SettlePoint(es[1..], ts, k, r) < es[0].sn
  {
    var m := SettlePoint(es[1..], ts, k, r);
    SettlePointIs(es[1..], ts, k, r);
    HiddenIffMaxAbove(ts, k, es[0].sn, r);
    assert es[0] in es;
    forall e | e in es[1..] && Settling(e, k, r) ensures e.sn < es[0].sn {
      var i :| 0 <= i < |es[1..]| && es[1..][i] == e;
      assert es[i + 1] == e;
    }
    forall t | t in ts && t.Covers(k) && t.sn <= r ensures t.sn < es[0].sn {
    }
  }

  /** What settles at the head leaves no operand above the settle point. */
  lemma SettledHead(es: seq<Entry>, ts: seq<Tombstone>, k: Key, r: SeqNo)
    requires NewestFirst(es, k) && LayersBounded(ts) && es != []
    requires es[0].key == k && es[0].sn <= r && (es[0].kind != Merge || Hidden(ts, k, es[0].sn, r))
    ensures es[0].sn <= SettlePoint(es, ts, k, r)
    ensures OperandsAbove(es, k, r, SettlePoint(es, ts, k, r)) == []
  {
    var e, m := es[0], SettlePoint(es, ts, k, r);
    SettlePointIs(es, ts, k, r);
    assert es[0] in es;
    if e.kind == Merge {
      var t :| t in ts && t.Covers(k) && e.sn < t.sn <= r;
      assert t.sn <= m;
    }
    forall i | 0 <= i < |es[1..]| && es[1..][i].key == k ensures es[1..][i].sn <= m {
      assert es[1..][i] == es[i + 1];
    }
    NoOperandsBelow(es[1..], k, r, m);
  }

  /** Folding computes the operands above the settle point. */
  lemma {:induction false} ResolveOperands(es: seq<Entry>, ts: seq<Tombstone>, k: Key, r: SeqNo)
    requires NewestFirst(es, k) && LayersBounded(ts) && DistinctNumbers(es, ts) && Numbered(es)
    ensures Resolve(es, ts, k, r).ops == Values(OperandsAbove(es, k, r, SettlePoint(es, ts, k, r)))
  {
    if es != [] {
      var e, m := es[0], SettlePoint(es, ts, k, r);
      ResolveOperands(es[1..], ts, k, r);
      if e.key == k && e.sn <= r {
        if e.kind != Merge || Hidden(ts, k, e.sn, r) {
          SettledHead(es, ts, k, r);
        } else {
          OperandHead(es, ts, k, r);
          var rest := OperandsAbove(es[1..], k, r, m);
          assert Values(rest + [e]) == Values(rest) + [e.value];
        }
      }
    }
  }

  /** Folding computes the base at the settle point. */
  lemma {:induction false} ResolveBase(es: seq<Entry>, ts: seq<Tombstone>, k: Key, r: SeqNo)
    requires NewestFirst(es, k) && LayersBounded(ts) && DistinctNumbers(es, ts) && Numbered(es)
    ensures IsBase(es, k, SettlePoint(es, ts, k, r), Resolve(es, ts, k, r).base)
  {
    if es == [] {
      return;
    }
    var e, m := es[0], SettlePoint(es, ts, k, r);
    var base := Resolve(es, ts, k, r).base;
    SettlePointIs(es, ts, k, r);
    HiddenIffMaxAbove(ts, k, e.sn, r);
    assert es[0] in es;
    if e.key == k && e.sn <= r && (e.kind == Put || Hidden(ts, k, e.sn, r) || e.kind == Deletion) {
      SettledHead(es, ts, k, r);
      forall p | p in es && p.key == k && p.kind == Put && p.sn == m ensures p == e {
        var i :| 0 <= i < |es| && es[i] == p;
      }
      if Hidden(ts, k, e.sn, r) {
        var t :| t in ts && t.Covers(k) && e.sn < t.sn <= r;
        assert t.sn <= m;
      }
    } else {
      ResolveBase(es[1..], ts, k, r);
      if e.key == k && e.sn <= r {
        OperandHead(es, ts, k, r);
      }
      assert m == SettlePoint(es[1..], ts, k, r);
      forall p | p in es && p.key == k && p.kind == Put && p.sn == m ensures p in es[1..] {
        SettleWithin(es, ts, k, r);
      }
    }
  }

  /** The settle point is within the snapshot. */
  lemma SettleWithin(es: seq<Entry>, ts: seq<Tombstone>, k: Key, r: SeqNo)
    requires NewestFirst(es, k) && LayersBounded(ts)
    ensures SettlePoint(es, ts, k, r) <= r
  {
    SettlePointIs(es, ts, k, r);
  }

  /** Resolve follows the rule of the specification. */
  lemma ResolveFollowsRule(es: seq<Entry>, ts: seq<Tombstone>, k: Key, r: SeqNo)
    requires NewestFirst(es, k) && LayersBounded(ts) && DistinctNumbers(es, ts) && Numbered(es)
    ensures FollowsRule(es, ts, k, r, Resolve(es, ts, k, r))
  {
    var m := SettlePoint(es, ts, k, r);
    SettlePointIs(es, ts, k, r);
    OperandsAboveAre(es, k, r, m);
    ResolveOperands(es, ts, k, r);
    ResolveBase(es, ts, k, r);
  }

  lemma SettlePointUnique(es: seq<Entry>, ts: seq<Tombstone>, k: Key, r: SeqNo, m: SeqNo, m': SeqNo)
    requires IsSettlePoint(es, ts, k, r, m) && IsSettlePoint(es, ts, k, r, m')
    ensures m == m'
  {
  }

  /** Two increasing lists of the same operands are the same list. */
  lemma {:induction false} OperandsUnique(a: seq<Entry>, b: seq<Entry>)
    requires forall i, j | 0 <= i < j < |a| :: a[i].sn < a[j].sn
    requires forall i, j | 0 <= i < j < |b| :: b[i].sn < b[j].sn
    requires forall e :: e in a <==> e in b
    ensures a == b
  {
    if a != [] || b != [] {
      var x := if a != [] then a[|a| - 1] else b[|b| - 1];
      assert x in a && x in b;
      var y := b[|b| - 1];
      assert y in a;
      var a', b' := a[..|a| - 1], b[..|b| - 1];
      assert x == y by {
        var i :| 0 <= i < |b| && b[i] == x;
        var j :| 0 <= j < |a| && a[j] == y;
      }
      forall e ensures e in a' <==> e in b' {
        assert e in a <==> e in a' || e == x;
        assert e in b <==> e in b' || e == x;
        assert x !in a' && x !in b';
      }
      OperandsUnique(a', b');
      assert a == a' + [x] && b == b' + [x];
    }
  }

  /** The rule leaves no choice: Resolve is the one content that follows it. */
  lemma RuleIsResolve(es: seq<Entry>, ts: seq<Tombstone>, k: Key, r: SeqNo, c: Content)
    requires NewestFirst(es, k) && LayersBounded(ts) && DistinctNumbers(es, ts) && Numbered(es)
    ensures FollowsRule(es, ts, k, r, c) <==> c == Resolve(es, ts, k, r)
  {
    ResolveFollowsRule(es, ts, k, r);
    if FollowsRule(es, ts, k, r, c) {
      var m, ops :| IsSettlePoint(es, ts, k, r, m) && AreOperands(es, k, r, m, ops)
                    && IsBase(es, k, m, c.base) && c.ops == Values(ops);
      var c' := Resolve(es, ts, k, r);
      var m', ops' :| IsSettlePoint(es, ts, k, r, m') && AreOperands(es, k, r, m', ops')
                      && IsBase(es, k, m', c'.base) && c'.ops == Values(ops');
      SettlePointUnique(es, ts, k, r, m, m');
      OperandsUnique(ops, ops');
      BaseUnique(es, k, m, c.base, c'.base);
    }
  }

  lemma BaseUnique(es: seq<Entry>, k: Key, m: SeqNo, a: Option<Value>, b: Option<Value>)
    requires NewestFirst(es, k) && IsBase(es, k, m, a) && IsBase(es, k, m, b)
    ensures a == b
  {
    if a.Some? && b.Some? {
      var e :| e in es && e.key == k && e.kind == Put && e.sn == m && e.value == a.value;
      var f :| f in es && f.key == k && f.kind == Put && f.sn == m && f.value == b.value;
      var i :| 0 <= i < |es| && es[i] == e;
      var j :| 0 <= j < |es| && es[j] == f;
    }
  }

  // ---- Contents no reader can tell apart ----

  /** However many operands come on top, the outcome is the same. */
  ghost predicate Equivalent(mop: Option<MergeOperator>, k: Key, a: Content, b: Content) {
    forall more: seq<Value> :: Finish(mop, k, Push(a, more)) == Finish(mop, k, Push(b, more))
  }

  /** FullMerge over a concatenation is FullMerge of the second part on the result of the first. */
  ghost predicate FullMergeSplits(m: MergeOperator) {
    forall k: Key, b: Option<Value>, xs: seq<Value>, ys: seq<Value> :: xs != [] && ys != [] ==>
      m.full(k, b, xs + ys) == match m.full(k, b, xs) case None => None case Some(v) => m.full(k, Some(v), ys)
  }

  /** Where PartialMerge succeeds, its result stands for the two operands in sequence. */
  ghost predicate PartialMergeComposes(m: MergeOperator) {
    forall k: Key, l: Value, r: Value, b: Option<Value> :: m.partial(k, l, r).Some? ==>
      m.full(k, b, [l, r]) == m.full(k, b, [m.partial(k, l, r).value])
  }

  ghost predicate MergeLaws(mop: Option<MergeOperator>) {
    mop.Some? ==> FullMergeSplits(mop.value) && PartialMergeComposes(mop.value)
  }
}
