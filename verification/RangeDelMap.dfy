/**
 * RangeDelMap: the tombstones of a memtable, kept as disjoint fragments that are
 * split as tombstones arrive.  The partner is the naive scan over every tombstone
 * ever added (Core.NaiveMax).
 */
module RangeDelMaps {
  import opened Core

  /** A fragment [begin, end) of the std::map, with the sequence numbers over it, largest first. */
  datatype Frag = Frag(begin: Key, end: Key, sns: seq<SeqNo>)
  {
    predicate Has(k: Key) {
      begin <= k < end
    }

    /** No boundary of t lies strictly inside the fragment. */
    predicate Uncut(t: Tombstone) {
      !(begin < t.begin < end) && !(begin < t.end < end)
    }
  }

  ghost predicate Descending(s: seq<SeqNo>) {
    forall i, j | 0 <= i < j < |s| :: s[i] >= s[j]
  }

  /** Fragments are non-empty, sorted and disjoint, each under at least one tombstone. */
  ghost predicate SortedFrags(fs: seq<Frag>) {
    && (forall i | 0 <= i < |fs| :: fs[i].begin < fs[i].end && fs[i].sns != [] && Descending(fs[i].sns))
    && (forall i, j | 0 <= i < j < |fs| :: fs[i].end <= fs[j].begin)
  }

  /** The sequence numbers the fragments record over k. */
  ghost function SnsOver(fs: seq<Frag>, k: Key): multiset<SeqNo> {
    if fs == [] then multiset{}
    else (if fs[0].Has(k) then multiset(fs[0].sns) else multiset{}) + SnsOver(fs[1..], k)
  }

  /** The sequence numbers of the tombstones that cover k. */
  ghost function CoveringSns(ts: seq<Tombstone>, k: Key): multiset<SeqNo> {
    if ts == [] then multiset{}
    else CoveringSns(ts[..|ts| - 1], k)
         + (if ts[|ts| - 1].Covers(k) then multiset{ts[|ts| - 1].sn} else multiset{})
  }

  lemma {:induction false} SnsOverConcat(a: seq<Frag>, b: seq<Frag>, k: Key)
    ensures SnsOver(a + b, k) == SnsOver(a, k) + SnsOver(b, k)
  {
    if a == [] {
      assert a + b == b;
    } else {
      assert (a + b)[1..] == a[1..] + b;
      SnsOverConcat(a[1..], b, k);
    }
  }

  /** Replacing the middle of a fragment list changes what is recorded by the difference of the middles. */
  lemma SnsOverSplice(a: seq<Frag>, m: seq<Frag>, m': seq<Frag>, b: seq<Frag>, k: Key, d: multiset<SeqNo>)
    requires SnsOver(m', k) == SnsOver(m, k) + d
    ensures SnsOver(a + m' + b, k) == SnsOver(a + m + b, k) + d
  {
    SnsOverConcat(a + m, b, k);
    SnsOverConcat(a, m, k);
    SnsOverConcat(a + m', b, k);
    SnsOverConcat(a, m', k);
  }

  /** Putting a new fragment in front of fragment `it`. */
  lemma SnsOverInsert(fs: seq<Frag>, it: nat, g: Frag, k: Key)
    requires it <= |fs|
    ensures SnsOver(fs[..it] + [g] + fs[it..], k) ==
            SnsOver(fs, k) + if g.Has(k) then multiset(g.sns) else multiset{}
  {
    assert fs == fs[..it] + [] + fs[it..];
    SnsOverOne(g, k);
    SnsOverSplice(fs[..it], [], [g], fs[it..], k, if g.Has(k) then multiset(g.sns) else multiset{});
  }

  /** Adding a sequence number to fragment `it`. */
  lemma SnsOverTag(fs: seq<Frag>, it: nat, s: SeqNo, k: Key)
    requires it < |fs| && Descending(fs[it].sns)
    ensures SnsOver(fs[it := fs[it].(sns := InsertDescending(fs[it].sns, s))], k) ==
            SnsOver(fs, k) + if fs[it].Has(k) then multiset{s} else multiset{}
  {
    var f := fs[it].(sns := InsertDescending(fs[it].sns, s));
    assert fs == fs[..it] + [fs[it]] + fs[it + 1..];
    assert fs[it := f] == fs[..it] + [f] + fs[it + 1..];
    SnsOverOne(f, k);
    SnsOverOne(fs[it], k);
    SnsOverSplice(fs[..it], [fs[it]], [f], fs[it + 1..], k, if f.Has(k) then multiset{s} else multiset{});
  }

  lemma SnsOverOne(f: Frag, k: Key)
    ensures SnsOver([f], k) == if f.Has(k) then multiset(f.sns) else multiset{}
  {
  }

  lemma SnsOverTwo(f: Frag, g: Frag, k: Key)
    ensures SnsOver([f, g], k) == SnsOver([f], k) + SnsOver([g], k)
  {
    assert [f, g] == [f] + [g];
    SnsOverConcat([f], [g], k);
  }

  /** Keys no fragment holds have nothing recorded over them. */
  lemma {:induction false} SnsOverNone(fs: seq<Frag>, k: Key)
    requires forall i | 0 <= i < |fs| :: !fs[i].Has(k)
    ensures SnsOver(fs, k) == multiset{}
  {
    if fs != [] {
      forall i | 0 <= i < |fs[1..]| ensures !fs[1..][i].Has(k) {
        assert fs[1..][i] == fs[i + 1];
      }
      assert !fs[0].Has(k);
      SnsOverNone(fs[1..], k);
    }
  }

  /** In a sorted list the fragment that holds k is the only one that says anything about it. */
  lemma SnsOverAt(fs: seq<Frag>, i: nat, k: Key)
    requires SortedFrags(fs) && i < |fs| && fs[i].Has(k)
    ensures SnsOver(fs, k) == multiset(fs[i].sns)
  {
    assert fs == fs[..i] + [fs[i]] + fs[i + 1..];
    SnsOverConcat(fs[..i] + [fs[i]], fs[i + 1..], k);
    SnsOverConcat(fs[..i], [fs[i]], k);
    SnsOverNone(fs[..i], k);
    SnsOverNone(fs[i + 1..], k);
    SnsOverOne(fs[i], k);
  }

  /** i is where std::map::upper_bound points: the first fragment that begins after k. */
  ghost predicate IsUpperBound(fs: seq<Frag>, k: Key, i: nat) {
    i <= |fs| && forall j | 0 <= j < |fs| :: fs[j].begin <= k <==> j < i
  }

  /** i is where std::map::lower_bound points: the first fragment that begins at or after k. */
  ghost predicate IsLowerBound(fs: seq<Frag>, k: Key, i: nat) {
    i <= |fs| && forall j | 0 <= j < |fs| :: fs[j].begin < k <==> j < i
  }

  method UpperBound(fs: seq<Frag>, k: Key) returns (i: nat)
    requires SortedFrags(fs)
    ensures IsUpperBound(fs, k, i)
  {
    i := 0;
    while i < |fs| && fs[i].begin <= k
      invariant i <= |fs| && forall j | 0 <= j < i :: fs[j].begin <= k
    {
      i := i + 1;
    }
  }

  method LowerBound(fs: seq<Frag>, k: Key) returns (i: nat)
    requires SortedFrags(fs)
    ensures IsLowerBound(fs, k, i)
  {
    i := 0;
    while i < |fs| && fs[i].begin < k
      invariant i <= |fs| && forall j | 0 <= j < i :: fs[j].begin < k
    {
      i := i + 1;
    }
  }

  /** std::upper_bound with std::greater: the first position whose number is below s. */
  function AfterAtLeast(v: seq<SeqNo>, s: SeqNo): (i: nat)
    requires Descending(v)
    ensures i <= |v|
    ensures forall j | 0 <= j < |v| :: v[j] >= s <==> j < i
    decreases |v|
  {
    if v == [] then 0
    else if v[|v| - 1] >= s then |v|
    else AfterAtLeast(v[..|v| - 1], s)
  }

  lemma InsertedDescends(v: seq<SeqNo>, i: nat, s: SeqNo)
    requires Descending(v) && i <= |v| && forall j | 0 <= j < |v| :: v[j] >= s <==> j < i
    ensures Descending(v[..i] + [s] + v[i..]) && multiset(v[..i] + [s] + v[i..]) == multiset(v) + multiset{s}
  {
    var r := v[..i] + [s] + v[i..];
    assert v == v[..i] + v[i..];
    forall a, b | 0 <= a < b < |r| ensures r[a] >= r[b] {
      assert r[a] == (if a < i then v[a] else if a == i then s else v[a - 1]);
      assert r[b] == (if b < i then v[b] else if b == i then s else v[b - 1]);
    }
  }

  /** s goes in after everything at or above it. */
  function InsertDescending(v: seq<SeqNo>, s: SeqNo): (r: seq<SeqNo>)
    requires Descending(v)
    ensures Descending(r) && multiset(r) == multiset(v) + multiset{s} && r != []
  {
    var i := AfterAtLeast(v, s);
    InsertedDescends(v, i, s);
    v[..i] + [s] + v[i..]
  }

  /** The first of a descending list that the snapshot sees, or 0. */
  function Best(sns: seq<SeqNo>, r: SeqNo): SeqNo {
    if sns == [] then 0 else if sns[0] <= r then sns[0] else Best(sns[1..], r)
  }

  lemma {:induction false} BestIsMaximum(sns: seq<SeqNo>, r: SeqNo)
    requires Descending(sns)
    ensures forall s :: s in sns && s <= r ==> s <= Best(sns, r)
    ensures Best(sns, r) != 0 ==> Best(sns, r) in sns && Best(sns, r) <= r
  {
    if sns != [] {
      forall s | s in sns ensures s <= sns[0] {
        var j :| 0 <= j < |sns| && sns[j] == s;
      }
      if sns[0] > r {
        BestIsMaximum(sns[1..], r);
        assert forall s :: s in sns && s <= r ==> s in sns[1..];
      }
    }
  }

  lemma {:induction false} CoveringSnsMembers(ts: seq<Tombstone>, k: Key)
    ensures forall t :: t in ts && t.Covers(k) ==> t.sn in CoveringSns(ts, k)
    ensures forall s :: s in CoveringSns(ts, k) ==> exists t :: t in ts && t.Covers(k) && t.sn == s
  {
    if ts != [] {
      var init, last := ts[..|ts| - 1], ts[|ts| - 1];
      CoveringSnsMembers(init, k);
      forall s | s in CoveringSns(ts, k) ensures exists t :: t in ts && t.Covers(k) && t.sn == s {
        if s in CoveringSns(init, k) {
          var t :| t in init && t.Covers(k) && t.sn == s;
          assert t in ts;
        } else {
          assert last in ts && last.Covers(k) && last.sn == s;
        }
      }
    }
  }

  /** What the best of a key's recorded numbers says is what the naive scan says. */
  lemma BestIsNaive(sns: seq<SeqNo>, ts: seq<Tombstone>, k: Key, r: SeqNo)
    requires Descending(sns) && multiset(sns) == CoveringSns(ts, k) && LayersBounded(ts)
    ensures Best(sns, r) == NaiveMax(ts, k, r, ALL_LAYERS)
  {
    BestIsMaximum(sns, r);
    CoveringSnsMembers(ts, k);
    var m := Best(sns, r);
    forall t | t in ts && t.Applies(k, r, ALL_LAYERS) ensures t.sn <= m {
      assert t.sn in multiset(sns);
      assert t.sn in sns;
    }
    if m != 0 {
      assert m in multiset(sns);
      var t :| t in ts && t.Covers(k) && t.sn == m;
      assert t.Applies(k, r, ALL_LAYERS);
    }
    NaiveMaxUnique(ts, k, r, ALL_LAYERS, m);
  }

  /** No fragment is cut by the boundary of a tombstone. */
  ghost predicate AllUncut(fs: seq<Frag>, ts: seq<Tombstone>) {
    forall i, t | 0 <= i < |fs| && t in ts :: fs[i].Uncut(t)
  }

  /** The numbers recorded over every key are those of the tombstones, with one more over [lo, hi). */
  ghost predicate Counts(fs: seq<Frag>, ts: seq<Tombstone>, lo: Key, hi: Key, s: SeqNo) {
    forall k: Key :: SnsOver(fs, k) == CoveringSns(ts, k) + if lo <= k < hi then multiset{s} else multiset{}
  }

  /** What Add demands of earlier tombstones: none is empty, and a memtable is one layer. */
  ghost predicate Proper(ts: seq<Tombstone>) {
    forall t :: t in ts ==> t.begin < t.end && t.layer == 0
  }

  /** The fragments say exactly what the tombstones `ts` say. */
  ghost predicate Represents(fs: seq<Frag>, ts: seq<Tombstone>) {
    && SortedFrags(fs)
    && (forall k: Key :: SnsOver(fs, k) == CoveringSns(ts, k))
    && AllUncut(fs, ts)
    && Proper(ts)
  }

  /** The state of Add's splitting loop: [begin, pos) already carries sn, the rest is as before. */
  ghost predicate Adding(fs: seq<Frag>, ts: seq<Tombstone>, n: Tombstone, pos: Key) {
    && SortedFrags(fs)
    && n.begin <= pos <= n.end
    && Counts(fs, ts, n.begin, pos, n.sn)
    && AllUncut(fs, ts)
    && (forall i | 0 <= i < |fs| :: !(fs[i].begin < n.begin < fs[i].end))
    && Proper(ts)
  }

  /**
   * The position of the loop's iterator: everything before it ends by pos,
   * everything from it on begins at pos or later.
   */
  ghost predicate At(fs: seq<Frag>, it: nat, pos: Key) {
    && it <= |fs|
    && (forall j | 0 <= j < it :: fs[j].end <= pos)
    && (forall j | it <= j < |fs| :: pos <= fs[j].begin)
  }

  /** The invariant of Add's loop. */
  ghost predicate Looping(fs: seq<Frag>, ts: seq<Tombstone>, n: Tombstone, pos: Key, it: nat) {
    Adding(fs, ts, n, pos) && At(fs, it, pos)
  }

  function Split(fs: seq<Frag>, i: nat, p: Key): seq<Frag>
    requires i < |fs|
  {
    fs[..i] + [fs[i].(end := p), fs[i].(begin := p)] + fs[i + 1..]
  }

  function Insert(fs: seq<Frag>, it: nat, f: Frag): seq<Frag>
    requires it <= |fs|
  {
    fs[..it] + [f] + fs[it..]
  }

  function Tag(fs: seq<Frag>, it: nat, s: SeqNo): seq<Frag>
    requires it < |fs| && Descending(fs[it].sns)
  {
    fs[it := fs[it].(sns := InsertDescending(fs[it].sns, s))]
  }

  lemma SplitSorted(fs: seq<Frag>, i: nat, p: Key)
    requires SortedFrags(fs) && i < |fs| && fs[i].begin < p < fs[i].end
    ensures SortedFrags(Split(fs, i, p))
  {
    var fs' := Split(fs, i, p);
    forall a, b | 0 <= a < b < |fs'| ensures fs'[a].end <= fs'[b].begin {
      var a', b' := if a <= i then a else a - 1, if b <= i then b else b - 1;
      assert (a == i && b == i + 1) || a' < b';
    }
  }

  lemma SplitCounts(fs: seq<Frag>, i: nat, p: Key, k: Key)
    requires i < |fs| && fs[i].begin < p < fs[i].end
    ensures SnsOver(Split(fs, i, p), k) == SnsOver(fs, k)
  {
    var l, r := fs[i].(end := p), fs[i].(begin := p);
    assert fs == fs[..i] + [fs[i]] + fs[i + 1..];
    SnsOverTwo(l, r, k);
    SnsOverOne(l, k);
    SnsOverOne(r, k);
    SnsOverOne(fs[i], k);
    SnsOverSplice(fs[..i], [fs[i]], [l, r], fs[i + 1..], k, multiset{});
  }

  lemma SplitUncut(fs: seq<Frag>, i: nat, p: Key, ts: seq<Tombstone>)
    requires i < |fs| && fs[i].begin < p < fs[i].end && AllUncut(fs, ts)
    ensures AllUncut(Split(fs, i, p), ts)
  {
    var fs' := Split(fs, i, p);
    assert forall j | 0 <= j < |fs'| ::
        var f := fs[if j <= i then j else j - 1];
        f.begin <= fs'[j].begin && fs'[j].end <= f.end;
  }

  lemma SplitWithin(fs: seq<Frag>, i: nat, p: Key)
    requires i < |fs| && fs[i].begin < p < fs[i].end
    ensures forall j | 0 <= j < |Split(fs, i, p)| ::
              var f := fs[if j <= i then j else j - 1];
              f.begin <= Split(fs, i, p)[j].begin && Split(fs, i, p)[j].end <= f.end
  {
  }

  /** Splitting a fragment at p changes nothing anyone can look up. */
  lemma SplitKeeps(fs: seq<Frag>, i: nat, p: Key, ts: seq<Tombstone>)
    requires SortedFrags(fs) && i < |fs| && fs[i].begin < p < fs[i].end && AllUncut(fs, ts)
    ensures SortedFrags(Split(fs, i, p)) && AllUncut(Split(fs, i, p), ts)
    ensures forall k: Key :: SnsOver(Split(fs, i, p), k) == SnsOver(fs, k)
    ensures forall j | 0 <= j < |Split(fs, i, p)| ::
              var f := fs[if j <= i then j else j - 1];
              f.begin <= Split(fs, i, p)[j].begin && Split(fs, i, p)[j].end <= f.end
  {
    hide SnsOver, SortedFrags, AllUncut, Split;
    SplitSorted(fs, i, p);
    SplitUncut(fs, i, p, ts);
    SplitWithin(fs, i, p);
    forall k: Key ensures SnsOver(Split(fs, i, p), k) == SnsOver(fs, k) {
      SplitCounts(fs, i, p, k);
    }
  }

  /** A gap of the fragments holds no tombstone, so no boundary lies inside it. */
  lemma GapUncut(fs: seq<Frag>, ts: seq<Tombstone>, n: Tombstone, g: Frag, t: Tombstone)
    requires Adding(fs, ts, n, g.begin) && t in ts
    requires forall i, k | 0 <= i < |fs| && g.Has(k) :: !fs[i].Has(k)
    ensures g.Uncut(t)
  {
    if !g.Uncut(t) {
      var k := if g.begin < t.begin then t.begin else g.begin;
      assert t.Covers(k) && g.Has(k);
      CoveringSnsMembers(ts, k);
      assert t.sn in SnsOver(fs, k);
      SnsOverNone(fs, k);
      assert false;
    }
  }

  lemma GapSorted(fs: seq<Frag>, it: nat, g: Frag)
    requires SortedFrags(fs) && At(fs, it, g.begin) && g.begin < g.end && |g.sns| == 1
    requires it == |fs| || g.end <= fs[it].begin
    ensures SortedFrags(Insert(fs, it, g)) && At(Insert(fs, it, g), it + 1, g.end)
    ensures forall i, k | 0 <= i < |fs| && g.Has(k) :: !fs[i].Has(k)
  {
    forall j | it <= j < |fs| ensures g.end <= fs[j].begin {
      assert j == it || fs[it].end <= fs[j].begin;
    }
  }

  lemma GapCounts(fs: seq<Frag>, ts: seq<Tombstone>, it: nat, g: Frag, lo: Key, s: SeqNo)
    requires it <= |fs| && g.sns == [s] && lo <= g.begin < g.end && Counts(fs, ts, lo, g.begin, s)
    ensures Counts(Insert(fs, it, g), ts, lo, g.end, s)
  {
    forall k: Key
      ensures SnsOver(Insert(fs, it, g), k) ==
              CoveringSns(ts, k) + if lo <= k < g.end then multiset{s} else multiset{}
    {
      SnsOverInsert(fs, it, g, k);
    }
  }

  /** A gap before fragment `it` gets a fragment of its own. */
  lemma GapStep(fs: seq<Frag>, ts: seq<Tombstone>, n: Tombstone, pos: Key, it: nat, gapEnd: Key)
    requires Adding(fs, ts, n, pos) && At(fs, it, pos) && pos < gapEnd <= n.end
    requires it == |fs| || gapEnd <= fs[it].begin
    ensures var fs' := Insert(fs, it, Frag(pos, gapEnd, [n.sn]));
            Adding(fs', ts, n, gapEnd) && At(fs', it + 1, gapEnd)
  {
    var g := Frag(pos, gapEnd, [n.sn]);
    GapSorted(fs, it, g);
    GapCounts(fs, ts, it, g, n.begin, n.sn);
    forall t | t in ts ensures g.Uncut(t) {
      GapUncut(fs, ts, n, g, t);
    }
  }

  lemma TagSorted(fs: seq<Frag>, it: nat, pos: Key, s: SeqNo)
    requires SortedFrags(fs) && At(fs, it, pos) && it < |fs|
    ensures SortedFrags(Tag(fs, it, s)) && At(Tag(fs, it, s), it + 1, fs[it].end)
  {
  }

  lemma TagCounts(fs: seq<Frag>, ts: seq<Tombstone>, it: nat, lo: Key, s: SeqNo)
    requires it < |fs| && Descending(fs[it].sns)
    requires lo <= fs[it].begin < fs[it].end && Counts(fs, ts, lo, fs[it].begin, s)
    ensures Counts(Tag(fs, it, s), ts, lo, fs[it].end, s)
  {
    forall k: Key
      ensures SnsOver(Tag(fs, it, s), k) ==
              CoveringSns(ts, k) + if lo <= k < fs[it].end then multiset{s} else multiset{}
    {
      SnsOverTag(fs, it, s, k);
    }
  }

  /** A fragment that starts at pos and ends inside the tombstone takes its sequence number. */
  lemma TagStep(fs: seq<Frag>, ts: seq<Tombstone>, n: Tombstone, pos: Key, it: nat)
    requires Adding(fs, ts, n, pos) && At(fs, it, pos)
    requires it < |fs| && fs[it].begin == pos && fs[it].end <= n.end
    ensures Adding(Tag(fs, it, n.sn), ts, n, fs[it].end) && At(Tag(fs, it, n.sn), it + 1, fs[it].end)
  {
    TagSorted(fs, it, pos, n.sn);
    TagCounts(fs, ts, it, n.begin, n.sn);
  }

  /** Splitting keeps the loop's state. */
  lemma SplitStep(fs: seq<Frag>, ts: seq<Tombstone>, n: Tombstone, pos: Key, it: nat, p: Key)
    requires Adding(fs, ts, n, pos) && At(fs, it, pos) && it < |fs| && fs[it].begin < p < fs[it].end
    ensures Adding(Split(fs, it, p), ts, n, pos) && At(Split(fs, it, p), it, pos)
  {
    SplitKeeps(fs, it, p, ts);
  }

  /** Without a fragment straddling pos, lower_bound is a proper place to start from. */
  lemma LowerBoundAt(fs: seq<Frag>, pos: Key, it: nat)
    requires SortedFrags(fs) && IsLowerBound(fs, pos, it)
    requires forall i | 0 <= i < |fs| :: !(fs[i].begin < pos < fs[i].end)
    ensures At(fs, it, pos)
  {
  }

  /** Only the fragment before upper_bound can straddle pos. */
  lemma OnlyOneStraddles(fs: seq<Frag>, pos: Key, it: nat, i: nat)
    requires SortedFrags(fs) && i < |fs| && IsUpperBound(fs, pos, it)
    ensures fs[i].begin < pos < fs[i].end ==> it == i + 1
  {
    if i + 1 < |fs| {
      assert fs[i].end <= fs[i + 1].begin;
    }
  }

  /** After splitting at p, p is strictly inside no fragment. */
  lemma SplitClears(fs: seq<Frag>, i: nat, p: Key)
    requires SortedFrags(fs) && i < |fs| && fs[i].begin < p < fs[i].end
    ensures forall j | 0 <= j < |Split(fs, i, p)| :: !(Split(fs, i, p)[j].begin < p < Split(fs, i, p)[j].end)
  {
    SplitSorted(fs, i, p);
    var fs' := Split(fs, i, p);
    forall j | 0 <= j < |fs'| ensures !(fs'[j].begin < p < fs'[j].end) {
      if j < i {
        assert fs'[j].end <= fs'[i].begin;
      } else if j > i + 1 {
        assert fs'[i + 1].end <= fs'[j].begin;
      }
    }
  }

  lemma CountsNothing(fs: seq<Frag>, ts: seq<Tombstone>, p: Key, s: SeqNo)
    requires forall k: Key :: SnsOver(fs, k) == CoveringSns(ts, k)
    ensures Counts(fs, ts, p, p, s)
  {
  }

  /** Once the fragment straddling the tombstone's begin is split, the loop can start. */
  lemma Start(fs: seq<Frag>, ts: seq<Tombstone>, n: Tombstone, it: nat)
    requires Represents(fs, ts) && n.begin <= n.end && IsUpperBound(fs, n.begin, it)
    ensures var fs' := if it != 0 && fs[it - 1].begin < n.begin < fs[it - 1].end
                       then Split(fs, it - 1, n.begin) else fs;
            Adding(fs', ts, n, n.begin)
  {
    if it != 0 && fs[it - 1].begin < n.begin < fs[it - 1].end {
      var fs' := Split(fs, it - 1, n.begin);
      SplitKeeps(fs, it - 1, n.begin, ts);
      SplitClears(fs, it - 1, n.begin);
      CountsNothing(fs', ts, n.begin, n.sn);
    } else {
      forall i | 0 <= i < |fs| ensures !(fs[i].begin < n.begin < fs[i].end) {
        OnlyOneStraddles(fs, n.begin, it, i);
      }
      CountsNothing(fs, ts, n.begin, n.sn);
    }
  }

  /** When pos has reached the end, the fragments represent the tombstones with the new one. */
  lemma AddingDone(fs: seq<Frag>, ts: seq<Tombstone>, n: Tombstone, it: nat)
    requires Adding(fs, ts, n, n.end) && At(fs, it, n.end) && n.begin < n.end && n.layer == 0
    ensures Represents(fs, ts + [n])
  {
    forall k: Key ensures SnsOver(fs, k) == CoveringSns(ts + [n], k) {
      assert (ts + [n])[..|ts + [n]| - 1] == ts;
    }
    forall i | 0 <= i < |fs| ensures fs[i].Uncut(n) {
      assert i < it || i >= it;
    }
  }

  /** Add, first part: split the fragment that straddles the tombstone's begin. */
  method CutAtBegin(fs: seq<Frag>, ghost ts: seq<Tombstone>, ghost n: Tombstone, pos: Key)
    returns (fs': seq<Frag>, it: nat)
    requires Represents(fs, ts) && pos == n.begin <= n.end
    ensures Looping(fs', ts, n, pos, it)
  {
    it := UpperBound(fs, pos);
    Start(fs, ts, n, it);
    fs' := fs;
    if it != 0 && fs[it - 1].begin < pos && pos < fs[it - 1].end {
      fs' := Split(fs, it - 1, pos);
    }
    it := LowerBound(fs', pos);
    LowerBoundAt(fs', pos, it);
  }

  /** Add, one round of the loop when no fragment starts at pos. */
  method FillGap(fs: seq<Frag>, ghost ts: seq<Tombstone>, ghost n: Tombstone, pos: Key, it: nat, stop: Key, sn: SeqNo)
    returns (fs': seq<Frag>, pos': Key)
    requires Looping(fs, ts, n, pos, it) && pos < stop == n.end && sn == n.sn
    requires it == |fs| || pos < fs[it].begin
    ensures Looping(fs', ts, n, pos', it + 1)
    ensures |fs'| == |fs| + 1 && (pos' == stop || (it < |fs| && fs'[it + 1].begin == pos'))
  {
    pos' := stop;
    if it != |fs| && fs[it].begin < stop {
      pos' := fs[it].begin;
    }
    GapStep(fs, ts, n, pos, it, pos');
    fs' := Insert(fs, it, Frag(pos, pos', [sn]));
  }

  /** Add, one round of the loop when fragment `it` starts at pos. */
  method TagFragment(fs: seq<Frag>, ghost ts: seq<Tombstone>, ghost n: Tombstone, pos: Key, it: nat, stop: Key,
                     sn: SeqNo)
    returns (fs': seq<Frag>, pos': Key)
    requires Looping(fs, ts, n, pos, it) && pos < stop == n.end && sn == n.sn
    requires it < |fs| && fs[it].begin == pos
    ensures Looping(fs', ts, n, pos', it + 1)
    ensures pos' == stop || |fs'| == |fs|
  {
    fs' := fs;
    if stop < fs'[it].end {
      SplitStep(fs', ts, n, pos, it, stop);
      fs' := Split(fs', it, stop);
    }
    TagStep(fs', ts, n, pos, it);
    pos' := fs'[it].end;
    fs' := Tag(fs', it, sn);
  }

  /** Add's loop: walk the fragments from pos to stop, filling gaps and tagging what is there. */
  method Walk(fs: seq<Frag>, ghost ts: seq<Tombstone>, ghost n: Tombstone, begin: Key, start: nat, stop: Key, sn: SeqNo)
    returns (fs': seq<Frag>)
    requires Looping(fs, ts, n, begin, start) && begin == n.begin && stop == n.end && sn == n.sn && n.begin < n.end
    requires n.layer == 0
    ensures Represents(fs', ts + [n])
  {
    var pos := begin;
    var it: nat := start;
    fs' := fs;
    while pos < stop
      invariant Looping(fs', ts, n, pos, it)
      decreases pos < stop, |fs'| - it, pos < stop && (it == |fs'| || pos < fs'[it].begin)
    {
      if it == |fs'| || pos < fs'[it].begin {
        fs', pos := FillGap(fs', ts, n, pos, it, stop, sn);
      } else {
        fs', pos := TagFragment(fs', ts, n, pos, it, stop, sn);
      }
      it := it + 1;
    }
    assert pos == n.end;
    AddingDone(fs', ts, n, it);
  }

  class RangeDelMap {
    var frags: seq<Frag>
    /** Every non-empty tombstone added so far. */
    ghost var added: seq<Tombstone>

    ghost predicate Valid()
      reads this
    {
      Represents(frags, added)
    }

    constructor ()
      ensures Valid() && added == []
    {
      frags, added := [], [];
    }

    method Add(begin: Key, end: Key, sn: SeqNo)
      requires Valid()
      modifies this
      ensures Valid()
      ensures added == old(added) + if begin < end then [Tombstone(begin, end, sn, 0)] else []
    {
      if begin >= end {
        return;
      }
      ghost var n := Tombstone(begin, end, sn, 0);
      var cut, it := CutAtBegin(frags, added, n, begin);
      frags := Walk(cut, added, n, begin, it, end, sn);
      added := added + [n];
    }

    /** The fragment that holds k, or |frags|. */
    method Find(k: Key) returns (i: nat)
      requires Valid()
      ensures i <= |frags|
      ensures i < |frags| ==> frags[i].Has(k)
      ensures i == |frags| ==> forall j | 0 <= j < |frags| :: !frags[j].Has(k)
    {
      var it := UpperBound(frags, k);
      if it == 0 || k >= frags[it - 1].end {
        return |frags|;
      }
      return it - 1;
    }

    /** The largest sequence number <= r among the tombstones added that cover k, or 0. */
    method MaxCovering(k: Key, r: SeqNo) returns (m: SeqNo)
      requires Valid()
      ensures m == NaiveMax(added, k, r, ALL_LAYERS)
    {
      var i := Find(k);
      if i == |frags| {
        SnsOverNone(frags, k);
        BestIsNaive([], added, k, r);
        return 0;
      }
      SnsOverAt(frags, i, k);
      BestIsNaive(frags[i].sns, added, k, r);
      m := Best(frags[i].sns, r);
    }

    /**
     * If a tombstone visible at r covers k, an interval around k over which
     * exactly the same tombstones hold.
     */
    method CoveredRange(k: Key, r: SeqNo) returns (found: bool, b: Key, e: Key)
      requires Valid()
      ensures found <==> NaiveMax(added, k, r, ALL_LAYERS) > 0
      ensures found ==> b <= k < e
      ensures found ==> forall k': Key, t :: b <= k' < e && t in added ==> (t.Covers(k') <==> t.Covers(k))
    {
      var i := Find(k);
      b, e := 0.0, 0.0;
      if i == |frags| {
        SnsOverNone(frags, k);
        BestIsNaive([], added, k, r);
        return false, b, e;
      }
      SnsOverAt(frags, i, k);
      BestIsNaive(frags[i].sns, added, k, r);
      if Best(frags[i].sns, r) == 0 {
        return false, b, e;
      }
      return true, frags[i].begin, frags[i].end;
    }
  }

  /** What a lookup in the fragments answers, whichever way the fragment is found. */
  ghost function Answer(fs: seq<Frag>, k: Key, r: SeqNo): SeqNo {
    if i: nat :| i < |fs| && fs[i].Has(k) then Best(fs[i].sns, r) else 0
  }

  lemma AnswerIsNaive(m: RangeDelMap, k: Key, r: SeqNo)
    requires m.Valid()
    ensures Answer(m.frags, k, r) == NaiveMax(m.added, k, r, ALL_LAYERS)
  {
    if i: nat :| i < |m.frags| && m.frags[i].Has(k) {
      forall i: nat | i < |m.frags| && m.frags[i].Has(k)
        ensures Best(m.frags[i].sns, r) == NaiveMax(m.added, k, r, ALL_LAYERS)
      {
        SnsOverAt(m.frags, i, k);
        BestIsNaive(m.frags[i].sns, m.added, k, r);
      }
    } else {
      SnsOverNone(m.frags, k);
      BestIsNaive([], m.added, k, r);
    }
  }
}
