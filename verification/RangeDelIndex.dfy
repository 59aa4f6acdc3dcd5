/**
 * RangeDelIndex: an immutable index over the tombstones of a version's tables,
 * built by one sweep over the sorted cut points.  The partners are the naive scan
 * (Core.NaiveMax), filtered by snapshot and layer, and RangeDelMap.
 */
module RangeDelIndexes {
  import opened Core
  import opened Sorting
  import Maps = RangeDelMaps

  /** (seq, layer) of one covering tombstone. */
  type Cover = (SeqNo, nat)

  /** Fragment: [begin, end) with the tombstones over it, largest sequence number first. */
  datatype Fragment = Fragment(begin: Key, end: Key, covers: seq<Cover>)
  {
    predicate Has(k: Key) {
      begin <= k < end
    }

    predicate Uncut(t: Tombstone) {
      !(begin < t.begin < end) && !(begin < t.end < end)
    }
  }

  // ---- Sorting (std::sort, std::unique) ----

  ghost predicate Increasing(ks: seq<Key>) {
    forall i, j | 0 <= i < j < |ks| :: ks[i] < ks[j]
  }

  ghost predicate SameKeys(a: seq<Key>, b: seq<Key>) {
    forall k :: k in a <==> k in b
  }

  /** std::unique on sorted keys. */
  function Unique(ks: seq<Key>): (r: seq<Key>)
    requires SortedBy(ks, (k: Key) => k)
    ensures Increasing(r) && SameKeys(r, ks)
    decreases |ks|
  {
    if |ks| <= 1 then ks
    else
      var last := ks[|ks| - 1];
      var init := Unique(ks[..|ks| - 1]);
      assert forall k :: k in ks <==> k == last || k in ks[..|ks| - 1];
      if ks[|ks| - 2] == last then init
      else
        assert forall i | 0 <= i < |init| :: init[i] < last by {
          forall i | 0 <= i < |init| ensures init[i] < last {
            assert init[i] in init && init[i] in ks[..|ks| - 1];
            var j :| 0 <= j < |ks| - 1 && ks[j] == init[i];
            assert ks[j] <= ks[|ks| - 2] <= last;
          }
        }
        init + [last]
  }

  function ByBegin(): Tombstone -> real {
    (t: Tombstone) => t.begin
  }

  function NewestFirst(): Cover -> real {
    (c: Cover) => -(c.0 as real)
  }

  // ---- What the sweep has to establish ----

  /** The (seq, layer) pairs of the tombstones over k. */
  ghost function CoversOver(ts: seq<Tombstone>, k: Key): multiset<Cover> {
    if ts == [] then multiset{}
    else CoversOver(ts[..|ts| - 1], k)
         + (if ts[|ts| - 1].Covers(k) then multiset{(ts[|ts| - 1].sn, ts[|ts| - 1].layer)} else multiset{})
  }

  /** The pairs the fragments record over k. */
  ghost function Recorded(fs: seq<Fragment>, k: Key): multiset<Cover> {
    if fs == [] then multiset{}
    else Recorded(fs[..|fs| - 1], k)
         + (if fs[|fs| - 1].Has(k) then multiset(fs[|fs| - 1].covers) else multiset{})
  }

  lemma {:induction false} CoversOverMembers(ts: seq<Tombstone>, k: Key)
    ensures forall t :: t in ts && t.Covers(k) ==> (t.sn, t.layer) in CoversOver(ts, k)
    ensures forall c :: c in CoversOver(ts, k) ==>
                          exists t :: t in ts && t.Covers(k) && (t.sn, t.layer) == c
  {
    if ts != [] {
      var init, last := ts[..|ts| - 1], ts[|ts| - 1];
      CoversOverMembers(init, k);
      forall c | c in CoversOver(ts, k) ensures exists t :: t in ts && t.Covers(k) && (t.sn, t.layer) == c {
        if c in CoversOver(init, k) {
          var t :| t in init && t.Covers(k) && (t.sn, t.layer) == c;
          assert t in ts;
        } else {
          assert last in ts && last.Covers(k) && (last.sn, last.layer) == c;
        }
      }
    }
  }

  lemma {:induction false} CoversOverConcat(a: seq<Tombstone>, b: seq<Tombstone>, k: Key)
    ensures CoversOver(a + b, k) == CoversOver(a, k) + CoversOver(b, k)
  {
    if b == [] {
      assert a + b == a;
    } else {
      assert (a + b)[..|a + b| - 1] == a + b[..|b| - 1];
      CoversOverConcat(a, b[..|b| - 1], k);
    }
  }

  lemma CoversOverOne(t: Tombstone, k: Key)
    ensures CoversOver([t], k) == if t.Covers(k) then multiset{(t.sn, t.layer)} else multiset{}
  {
    assert [t][..0] == [];
    assert CoversOver([t][..0], k) == multiset{};
  }

  lemma CoversOverRemove(ts: seq<Tombstone>, i: nat, k: Key)
    requires i < |ts|
    ensures CoversOver(ts, k) == CoversOver(ts[..i] + ts[i + 1..], k) + CoversOver([ts[i]], k)
  {
    assert ts == ts[..i] + [ts[i]] + ts[i + 1..];
    CoversOverConcat(ts[..i] + [ts[i]], ts[i + 1..], k);
    CoversOverConcat(ts[..i], [ts[i]], k);
    CoversOverConcat(ts[..i], ts[i + 1..], k);
  }

  /** The order of the tombstones does not matter. */
  lemma {:induction false} CoversOverPermuted(a: seq<Tombstone>, b: seq<Tombstone>, k: Key)
    requires multiset(a) == multiset(b)
    ensures CoversOver(a, k) == CoversOver(b, k)
    decreases |a|
  {
    SameMembers(a, b);
    if a == [] {
      assert |multiset(b)| == 0;
    } else {
      assert a[|a| - 1] in b;
      var i :| 0 <= i < |b| && b[i] == a[|a| - 1];
      PermutationTail(a, b, i);
      CoversOverPermuted(a[..|a| - 1], b[..i] + b[i + 1..], k);
      CoversOverRemove(b, i, k);
      CoversOverOne(b[i], k);
    }
  }

  lemma {:induction false} RecordedNone(fs: seq<Fragment>, k: Key)
    requires forall i | 0 <= i < |fs| :: !fs[i].Has(k)
    ensures Recorded(fs, k) == multiset{}
  {
    if fs != [] {
      RecordedNone(fs[..|fs| - 1], k);
      assert !fs[|fs| - 1].Has(k);
    }
  }

  /** Fragments are non-empty, sorted, disjoint, under some tombstone, and no boundary cuts them. */
  ghost predicate SortedFragments(fs: seq<Fragment>, ts: seq<Tombstone>) {
    && (forall i | 0 <= i < |fs| ::
          fs[i].begin < fs[i].end && fs[i].covers != [] && SortedBy(fs[i].covers, NewestFirst()))
    && (forall i, j | 0 <= i < j < |fs| :: fs[i].end <= fs[j].begin)
    && (forall i, t | 0 <= i < |fs| && t in ts :: fs[i].Uncut(t))
  }

  lemma {:induction false} RecordedAt(fs: seq<Fragment>, ts: seq<Tombstone>, i: nat, k: Key)
    requires SortedFragments(fs, ts) && i < |fs| && fs[i].Has(k)
    ensures Recorded(fs, k) == multiset(fs[i].covers)
  {
    var init := fs[..|fs| - 1];
    if i == |fs| - 1 {
      RecordedNone(init, k);
    } else {
      assert fs[i].end <= fs[|fs| - 1].begin;
      RecordedAt(init, ts, i, k);
    }
  }

  // ---- The active set of the sweep ----

  /** The tombstones that have not ended by lo, in order: what remove_if leaves. */
  function Alive(ts: seq<Tombstone>, lo: Key): seq<Tombstone> {
    if ts == [] then []
    else
      var init := Alive(ts[..|ts| - 1], lo);
      if ts[|ts| - 1].end <= lo then init else init + [ts[|ts| - 1]]
  }

  /** The tombstones that have begun by lo. */
  ghost predicate Entered(ts: seq<Tombstone>, next: nat, lo: Key) {
    && next <= |ts|
    && (forall i | 0 <= i < next :: ts[i].begin <= lo)
    && (forall i | next <= i < |ts| :: lo < ts[i].begin)
  }

  lemma {:induction false} AliveConcat(a: seq<Tombstone>, b: seq<Tombstone>, lo: Key)
    ensures Alive(a + b, lo) == Alive(a, lo) + Alive(b, lo)
  {
    if b == [] {
      assert a + b == a;
    } else {
      assert (a + b)[..|a + b| - 1] == a + b[..|b| - 1];
      AliveConcat(a, b[..|b| - 1], lo);
    }
  }

  /** What has ended by an earlier cut point has ended by a later one. */
  lemma {:induction false} AliveAgain(ts: seq<Tombstone>, lo: Key, hi: Key)
    requires lo <= hi
    ensures Alive(Alive(ts, lo), hi) == Alive(ts, hi)
  {
    if ts != [] {
      AliveAgain(ts[..|ts| - 1], lo, hi);
      var init, t := Alive(ts[..|ts| - 1], lo), ts[|ts| - 1];
      if t.end > lo {
        assert (init + [t])[..|init + [t]| - 1] == init;
      }
    }
  }

  function CoversOf(ts: seq<Tombstone>): (r: seq<Cover>)
    ensures |r| == |ts|
  {
    if ts == [] then []
    else CoversOf(ts[..|ts| - 1]) + [(ts[|ts| - 1].sn, ts[|ts| - 1].layer)]
  }

  /** The entered tombstones still alive at lo are exactly the ones over lo. */
  lemma {:induction false} AliveAreOver(ts: seq<Tombstone>, lo: Key)
    requires forall i | 0 <= i < |ts| :: ts[i].begin <= lo
    ensures multiset(CoversOf(Alive(ts, lo))) == CoversOver(ts, lo)
  {
    if ts != [] {
      var init, t := ts[..|ts| - 1], ts[|ts| - 1];
      AliveAreOver(init, lo);
      if t.end > lo {
        var a := Alive(init, lo);
        assert (a + [t])[..|a + [t]| - 1] == a;
      }
    }
  }

  lemma {:induction false} NoneOver(ts: seq<Tombstone>, k: Key)
    requires forall i | 0 <= i < |ts| :: !ts[i].Covers(k)
    ensures CoversOver(ts, k) == multiset{}
  {
    if ts != [] {
      NoneOver(ts[..|ts| - 1], k);
    }
  }

  /** Between two neighbouring cut points every key is under the same tombstones. */
  lemma {:induction false} SameBetweenCuts(ts: seq<Tombstone>, lo: Key, hi: Key, k: Key)
    requires forall t :: t in ts ==> !(lo < t.begin < hi) && !(lo < t.end < hi)
    requires lo <= k < hi
    ensures CoversOver(ts, k) == CoversOver(ts, lo)
  {
    if ts != [] {
      SameBetweenCuts(ts[..|ts| - 1], lo, hi, k);
      assert ts[|ts| - 1] in ts;
    }
  }

  function Boundaries(ts: seq<Tombstone>): (r: seq<Key>)
    ensures forall t :: t in ts ==> t.begin in r && t.end in r
    ensures forall k :: k in r ==> exists t :: t in ts && (k == t.begin || k == t.end)
  {
    if ts == [] then []
    else
      var t := ts[|ts| - 1];
      assert forall x :: x in ts <==> x == t || x in ts[..|ts| - 1];
      Boundaries(ts[..|ts| - 1]) + [t.begin, t.end]
  }

  /** The cut points: every begin and end once, in order. */
  ghost predicate CutsOf(cuts: seq<Key>, ts: seq<Tombstone>) {
    Increasing(cuts) && SameKeys(cuts, Boundaries(ts))
  }

  /** A cut point is not strictly between neighbouring cut points. */
  lemma NotBetween(cuts: seq<Key>, i: nat, k: Key)
    requires Increasing(cuts) && i + 1 < |cuts| && k in cuts
    ensures !(cuts[i] < k < cuts[i + 1])
  {
    var a :| 0 <= a < |cuts| && cuts[a] == k;
    assert a <= i || a >= i + 1;
  }

  /** Neighbouring cut points have no boundary between them. */
  lemma NeighboursUncut(cuts: seq<Key>, ts: seq<Tombstone>, i: nat)
    requires CutsOf(cuts, ts) && i + 1 < |cuts|
    ensures forall t :: t in ts ==> !(cuts[i] < t.begin < cuts[i + 1]) && !(cuts[i] < t.end < cuts[i + 1])
  {
    forall t | t in ts ensures !(cuts[i] < t.begin < cuts[i + 1]) && !(cuts[i] < t.end < cuts[i + 1]) {
      NotBetween(cuts, i, t.begin);
      NotBetween(cuts, i, t.end);
    }
  }

  /** The sweep up to a cut point: the fragments are right below it and say nothing above it. */
  ghost predicate Swept(fs: seq<Fragment>, ts: seq<Tombstone>, upTo: Key) {
    && SortedFragments(fs, ts)
    && (forall i | 0 <= i < |fs| :: fs[i].end <= upTo)
    && (forall k: Key | k < upTo :: Recorded(fs, k) == CoversOver(ts, k))
  }

  lemma RecordedAppend(fs: seq<Fragment>, f: Fragment, k: Key)
    ensures Recorded(fs + [f], k) == Recorded(fs, k) + if f.Has(k) then multiset(f.covers) else multiset{}
  {
    assert (fs + [f])[..|fs + [f]| - 1] == fs;
  }

  /** One step of the sweep, over [lo, hi), where no tombstone is active. */
  lemma SweepNothing(fs: seq<Fragment>, ts: seq<Tombstone>, lo: Key, hi: Key)
    requires Swept(fs, ts, lo) && lo < hi
    requires forall t :: t in ts ==> !(lo < t.begin < hi) && !(lo < t.end < hi)
    requires CoversOver(ts, lo) == multiset{}
    ensures Swept(fs, ts, hi)
  {
    forall k: Key | k < hi ensures Recorded(fs, k) == CoversOver(ts, k) {
      if lo <= k {
        RecordedNone(fs, k);
        SameBetweenCuts(ts, lo, hi, k);
      }
    }
  }

  /** One step of the sweep, over [lo, hi), with the active tombstones. */
  lemma SweepFragment(fs: seq<Fragment>, ts: seq<Tombstone>, f: Fragment)
    requires Swept(fs, ts, f.begin) && f.begin < f.end
    requires forall t :: t in ts ==> f.Uncut(t)
    requires multiset(f.covers) == CoversOver(ts, f.begin) && f.covers != [] && SortedBy(f.covers, NewestFirst())
    ensures Swept(fs + [f], ts, f.end)
  {
    assert SortedFragments(fs + [f], ts) by {
      hide CoversOver, Recorded;
    }
    hide CoversOver, SortedFragments, Recorded, SortedBy;
    forall k: Key | k < f.end ensures Recorded(fs + [f], k) == CoversOver(ts, k) {
      RecordedAppend(fs, f, k);
      if f.begin <= k {
        RecordedNone(fs, k);
        SameBetweenCuts(ts, f.begin, f.end, k);
      }
    }
  }

  /** The active tombstones, if any, make the fragment between two neighbouring cut points. */
  method Emit(fs0: seq<Fragment>, ghost pending: seq<Tombstone>, active: seq<Tombstone>, ghost next: nat, lo: Key,
              hi: Key)
    returns (fs: seq<Fragment>)
    requires Swept(fs0, pending, lo) && lo < hi
    requires Entered(pending, next, lo) && active == Alive(pending[..next], lo)
    requires forall t :: t in pending ==> !(lo < t.begin < hi) && !(lo < t.end < hi)
    ensures Swept(fs, pending, hi)
  {
    ActiveAreOver(pending, next, lo);
    fs := fs0;
    if active != [] {
      var f := Fragment(lo, hi, Sort(CoversOf(active), NewestFirst()));
      SweepFragment(fs, pending, f);
      fs := fs + [f];
    } else {
      SweepNothing(fs, pending, lo, hi);
    }
  }

  lemma NoneAlive(lo: Key)
    ensures Alive([], lo) == []
  {
  }

  /** The sweep over all cut points. */
  method Sweep(cuts: seq<Key>, pending: seq<Tombstone>) returns (fs: seq<Fragment>)
    requires CutsOf(cuts, pending) && cuts != [] && SortedBy(pending, ByBegin())
    ensures Swept(fs, pending, cuts[|cuts| - 1])
  {
    hide Swept, SortedBy, Alive, SameKeys;
    fs := [];
    var active: seq<Tombstone>, next: nat := [], 0;
    NothingBelow(cuts, pending);
    NoneAlive(cuts[0]);
    ghost var prev := cuts[0];
    var i := 0;
    while i + 1 < |cuts|
      invariant i < |cuts| && next <= |pending| && prev <= cuts[i]
      invariant forall j | 0 <= j < next :: pending[j].begin <= prev
      invariant active == Alive(pending[..next], prev)
      invariant Swept(fs, pending, cuts[i])
    {
      var lo := cuts[i];
      active, next := Enter(pending, active, next, lo, prev);
      NeighboursUncut(cuts, pending, i);
      fs := Emit(fs, pending, active, next, lo, cuts[i + 1]);
      prev, i := lo, i + 1;
    }
  }

  /** Keeping the survivors of an earlier cut point and those that entered since is keeping the survivors. */
  lemma AliveLater(ts: seq<Tombstone>, from: nat, to: nat, prev: Key, lo: Key)
    requires from <= to <= |ts| && prev <= lo
    ensures Alive(Alive(ts[..from], prev) + ts[from..to], lo) == Alive(ts[..to], lo)
  {
    assert ts[..to] == ts[..from] + ts[from..to];
    AliveConcat(Alive(ts[..from], prev), ts[from..to], lo);
    AliveConcat(ts[..from], ts[from..to], lo);
    AliveAgain(ts[..from], prev, lo);
  }

  /** One cut point: tombstones that have begun enter, tombstones that have ended leave. */
  method Enter(pending: seq<Tombstone>, active0: seq<Tombstone>, next0: nat, lo: Key, ghost prev: Key)
    returns (active: seq<Tombstone>, next: nat)
    requires SortedBy(pending, ByBegin())
    requires prev <= lo && next0 <= |pending| && (forall i | 0 <= i < next0 :: pending[i].begin <= lo)
    requires active0 == Alive(pending[..next0], prev)
    ensures Entered(pending, next, lo) && active == Alive(pending[..next], lo)
  {
    active, next := active0, next0;
    while next < |pending| && pending[next].begin <= lo
      invariant next0 <= next <= |pending|
      invariant active == active0 + pending[next0..next]
      invariant forall i | 0 <= i < next :: pending[i].begin <= lo
    {
      active := active + [pending[next]];
      next := next + 1;
    }
    assert forall i | next <= i < |pending| :: ByBegin()(pending[next]) <= ByBegin()(pending[i]);
    AliveLater(pending, next0, next, prev, lo);
    active := Alive(active, lo);
  }

  lemma ActiveAreOver(pending: seq<Tombstone>, next: nat, lo: Key)
    requires Entered(pending, next, lo)
    ensures multiset(CoversOf(Alive(pending[..next], lo))) == CoversOver(pending, lo)
  {
    assert pending == pending[..next] + pending[next..];
    CoversOverConcat(pending[..next], pending[next..], lo);
    AliveAreOver(pending[..next], lo);
    NoneOver(pending[next..], lo);
  }

  /** Below the first cut point there is no tombstone. */
  lemma NothingBelow(cuts: seq<Key>, ts: seq<Tombstone>)
    requires CutsOf(cuts, ts) && cuts != []
    ensures Swept([], ts, cuts[0])
  {
    forall k: Key | k < cuts[0] ensures CoversOver(ts, k) == multiset{} {
      forall t | t in ts ensures !t.Covers(k) {
        assert t.begin in cuts;
      }
      NoneOver(ts, k);
    }
  }

  /** From the last cut point on there is none either. */
  lemma NothingAbove(cuts: seq<Key>, ts: seq<Tombstone>, k: Key)
    requires CutsOf(cuts, ts) && cuts != [] && k >= cuts[|cuts| - 1]
    ensures CoversOver(ts, k) == multiset{}
  {
    forall i | 0 <= i < |ts| ensures !ts[i].Covers(k) {
      assert ts[i] in ts;
      var j :| 0 <= j < |cuts| && cuts[j] == ts[i].end;
    }
    NoneOver(ts, k);
  }

  /** The boundaries of all pending tombstones, in order and without repetition. */
  method CutPoints(pending: seq<Tombstone>) returns (cuts: seq<Key>)
    ensures CutsOf(cuts, pending)
  {
    var all := Sort(Boundaries(pending), (k: Key) => k);
    SameMembers(all, Boundaries(pending));
    cuts := Unique(all);
  }

  /** The sweep over the tombstones in any order. */
  method SweepAll(pending: seq<Tombstone>) returns (fs: seq<Fragment>)
    requires pending != []
    ensures SortedFragments(fs, pending) && forall k: Key :: Recorded(fs, k) == CoversOver(pending, k)
  {
    var sorted := Sort(pending, ByBegin());
    var cuts := CutPoints(sorted);
    SameMembers(sorted, pending);
    assert sorted[0].begin in cuts;
    fs := Sweep(cuts, sorted);
    forall k: Key ensures Recorded(fs, k) == CoversOver(pending, k) {
      if k >= cuts[|cuts| - 1] {
        RecordedNone(fs, k);
        NothingAbove(cuts, sorted, k);
      }
      CoversOverPermuted(sorted, pending, k);
    }
  }

  // ---- Queries ----

  /** The first pair, newest first, that the snapshot sees in a layer newer than `below`, or 0. */
  function Best(cs: seq<Cover>, r: SeqNo, below: nat): SeqNo {
    if cs == [] then 0
    else if cs[0].0 <= r && cs[0].1 < below then cs[0].0
    else Best(cs[1..], r, below)
  }

  lemma {:induction false} BestIsMaximum(cs: seq<Cover>, r: SeqNo, below: nat)
    requires SortedBy(cs, NewestFirst())
    ensures forall c :: c in cs && c.0 <= r && c.1 < below ==> c.0 <= Best(cs, r, below)
    ensures Best(cs, r, below) != 0 ==>
              exists c :: c in cs && c.0 <= r && c.1 < below && c.0 == Best(cs, r, below)
  {
    if cs != [] {
      forall c | c in cs ensures c.0 <= cs[0].0 {
        var j :| 0 <= j < |cs| && cs[j] == c;
      }
      if cs[0].0 <= r && cs[0].1 < below {
        assert cs[0] in cs;
      } else {
        BestIsMaximum(cs[1..], r, below);
        assert forall c :: c in cs && c.0 <= r && c.1 < below ==> c in cs[1..];
        assert forall c :: c in cs[1..] ==> c in cs;
      }
    }
  }

  /** The best of a key's recorded pairs is what the naive scan finds. */
  lemma BestIsNaive(cs: seq<Cover>, ts: seq<Tombstone>, k: Key, r: SeqNo, below: nat)
    requires SortedBy(cs, NewestFirst()) && multiset(cs) == CoversOver(ts, k)
    ensures Best(cs, r, below) == NaiveMax(ts, k, r, below)
  {
    BestIsMaximum(cs, r, below);
    CoversOverMembers(ts, k);
    var m := Best(cs, r, below);
    forall t | t in ts && t.Applies(k, r, below) ensures t.sn <= m {
      assert (t.sn, t.layer) in multiset(cs);
      assert (t.sn, t.layer) in cs;
    }
    if m != 0 {
      var c :| c in cs && c.0 <= r && c.1 < below && c.0 == m;
      assert c in multiset(cs);
      var t :| t in ts && t.Covers(k) && (t.sn, t.layer) == c;
      assert t.Applies(k, r, below);
    }
    NaiveMaxUnique(ts, k, r, below, m);
  }

  class RangeDelIndex {
    var pending: seq<Tombstone>
    var fragments: seq<Fragment>
    var count: nat
    /** Every non-empty tombstone added. */
    ghost var added: seq<Tombstone>

    /** Between construction and Finish. */
    ghost predicate Building()
      reads this
    {
      pending == added && count == |added| && forall t :: t in added ==> t.begin < t.end
    }

    /** After Finish. */
    ghost predicate Valid()
      reads this
    {
      && SortedFragments(fragments, added)
      && (forall k: Key :: Recorded(fragments, k) == CoversOver(added, k))
      && count == |added|
    }

    constructor ()
      ensures Building() && added == []
    {
      pending, fragments, count, added := [], [], 0, [];
    }

    method Add(t: Tombstone)
      requires Building()
      modifies this
      ensures Building() && added == old(added) + if t.begin < t.end then [t] else []
    {
      if t.begin >= t.end {
        return;
      }
      pending := pending + [t];
      count := count + 1;
      added := added + [t];
    }

    method Finish()
      requires Building()
      modifies this
      ensures Valid() && added == old(added)
    {
      fragments := [];
      if pending == [] {
        return;
      }
      fragments := SweepAll(pending);
      pending := [];
    }

    /** Binary search: the fragment that holds k, or |fragments|. */
    method Find(k: Key) returns (i: nat)
      requires Valid()
      ensures i <= |fragments|
      ensures i < |fragments| ==> fragments[i].Has(k)
      ensures i == |fragments| ==> forall j | 0 <= j < |fragments| :: !fragments[j].Has(k)
    {
      var lo, hi := 0, |fragments|;
      while lo < hi
        invariant 0 <= lo <= hi <= |fragments|
        invariant forall j | 0 <= j < lo :: fragments[j].begin <= k
        invariant forall j | hi <= j < |fragments| :: k < fragments[j].begin
      {
        var mid := (lo + hi) / 2;
        if fragments[mid].begin <= k {
          forall j | 0 <= j <= mid ensures fragments[j].begin <= k {
            assert j == mid || fragments[j].end <= fragments[mid].begin;
          }
          lo := mid + 1;
        } else {
          forall j | mid <= j < |fragments| ensures k < fragments[j].begin {
            assert j == mid || fragments[mid].end <= fragments[j].begin;
          }
          hi := mid;
        }
      }
      if lo == 0 || k >= fragments[lo - 1].end {
        forall j | 0 <= j < |fragments| ensures !fragments[j].Has(k) {
          if j < lo {
            assert j == lo - 1 || fragments[j].end <= fragments[lo - 1].begin;
          }
        }
        return |fragments|;
      }
      return lo - 1;
    }

    /**
     * The largest sequence number <= r among the tombstones of layers newer than
     * `below` that cover k, or 0.
     */
    method MaxCovering(k: Key, r: SeqNo, below: nat) returns (m: SeqNo)
      requires Valid()
      ensures m == NaiveMax(added, k, r, below)
    {
      var i := Find(k);
      if i == |fragments| {
        RecordedNone(fragments, k);
        BestIsNaive([], added, k, r, below);
        return 0;
      }
      RecordedAt(fragments, added, i, k);
      BestIsNaive(fragments[i].covers, added, k, r, below);
      m := Best(fragments[i].covers, r, below);
    }

    /** If such a tombstone covers k, an interval around k over which the same tombstones hold. */
    method CoveredRange(k: Key, r: SeqNo, below: nat) returns (found: bool, b: Key, e: Key)
      requires Valid()
      ensures found <==> NaiveMax(added, k, r, below) > 0
      ensures found ==> b <= k < e
      ensures found ==> forall k': Key, t :: b <= k' < e && t in added ==> (t.Covers(k') <==> t.Covers(k))
    {
      b, e := 0.0, 0.0;
      var i := Find(k);
      if i == |fragments| {
        RecordedNone(fragments, k);
        BestIsNaive([], added, k, r, below);
        return false, b, e;
      }
      RecordedAt(fragments, added, i, k);
      BestIsNaive(fragments[i].covers, added, k, r, below);
      if Best(fragments[i].covers, r, below) == 0 {
        return false, b, e;
      }
      return true, fragments[i].begin, fragments[i].end;
    }
  }

  /** What a lookup in the fragments answers, whichever way the fragment is found. */
  ghost function Answer(fs: seq<Fragment>, k: Key, r: SeqNo, below: nat): SeqNo {
    if i: nat :| i < |fs| && fs[i].Has(k) then Best(fs[i].covers, r, below) else 0
  }

  lemma AnswerIsNaive(ix: RangeDelIndex, k: Key, r: SeqNo, below: nat)
    requires ix.Valid()
    ensures Answer(ix.fragments, k, r, below) == NaiveMax(ix.added, k, r, below)
  {
    if i: nat :| i < |ix.fragments| && ix.fragments[i].Has(k) {
      forall i: nat | i < |ix.fragments| && ix.fragments[i].Has(k)
        ensures Best(ix.fragments[i].covers, r, below) == NaiveMax(ix.added, k, r, below)
      {
        RecordedAt(ix.fragments, ix.added, i, k);
        BestIsNaive(ix.fragments[i].covers, ix.added, k, r, below);
      }
    } else {
      RecordedNone(ix.fragments, k);
      BestIsNaive([], ix.added, k, r, below);
    }
  }

  /**
   * The incrementally fragmented map and the sweep-built index, over the same
   * tombstones added in any order, give every reader the same answer on every key.
   */
  lemma MapAndIndexAgree(m: Maps.RangeDelMap, ix: RangeDelIndex, k: Key, r: SeqNo)
    requires m.Valid() && ix.Valid() && multiset(m.added) == multiset(ix.added)
    ensures Maps.Answer(m.frags, k, r) == Answer(ix.fragments, k, r, ALL_LAYERS)
  {
    Maps.AnswerIsNaive(m, k, r);
    AnswerIsNaive(ix, k, r, ALL_LAYERS);
    SameMembers(m.added, ix.added);
    NaiveMaxIsMaximum(m.added, k, r, ALL_LAYERS);
    NaiveMaxUnique(ix.added, k, r, ALL_LAYERS, NaiveMax(m.added, k, r, ALL_LAYERS));
  }
}
