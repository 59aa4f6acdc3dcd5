/**
 * A compaction among the layers: some files of neighbouring layers go in, the others
 * stay, deeper levels are known by their files' spans only.  The outputs take the
 * inputs' place in the layer order, and no live reader notices.
 */
module LayerCompactions {
  import opened Core
  import opened Visibility
  import opened Layers
  import opened CompactGroups
  import opened CompactionOutputs
  import opened Compactions
  import opened CompactionTheorems
  import opened LayerSteps

  // ---- A key's entries, newest first ----

  ghost predicate Descending(es: seq<Entry>) {
    forall i, j | 0 <= i < j < |es| :: es[i].sn > es[j].sn
  }

  lemma {:induction false} SortedDescends(es: seq<Entry>, k: Key)
    requires Sorted(es)
    ensures Descending(OfKey(es, k))
  {
    if es != [] {
      forall i, j | 0 <= i < j < |es[1..]|
        ensures Before(es[1..][i].key, es[1..][i].sn, es[1..][j].key, es[1..][j].sn)
      {
        assert Before(es[i + 1].key, es[i + 1].sn, es[j + 1].key, es[j + 1].sn);
      }
      SortedDescends(es[1..], k);
      var rest := OfKey(es[1..], k);
      OfKeyMembers(es[1..], k);
      forall j | 0 <= j < |rest| && es[0].key == k ensures es[0].sn > rest[j].sn {
        assert rest[j] in es[1..] && rest[j].key == k;
        var i :| 0 <= i < |es[1..]| && es[1..][i] == rest[j];
        assert Before(es[0].key, es[0].sn, es[i + 1].key, es[i + 1].sn);
      }
    }
  }

  /** Layers in order yield a key's entries newest first. */
  lemma {:induction false} LayersDescend(ps: seq<Part>, last: SeqNo, k: Key)
    requires OrderOn(ps, last, k) && AllSorted(ps)
    ensures Descending(OnKey(ps, k))
  {
    if ps != [] {
      hide Sorted, AllEntries, OfKey, OrderOn, EntryAt;
      assert ps == [ps[0]] + ps[1..];
      var one := [ps[0]];
      InFront(one, ps[1..], last, k);
      LayersDescend(ps[1..], last, k);
      SortedDescends(ps[0].entries, k);
      OnKeyConcat([ps[0]], ps[1..], k);
      OnKeyOne(ps[0], k);
      var head, tail := OfKey(ps[0].entries, k), OnKey(ps[1..], k);
      OfKeyMembers(ps[0].entries, k);
      OfKeyMembers(AllEntries(ps[1..]), k);
      forall i, j | 0 <= i < |head| && 0 <= j < |tail| ensures head[i].sn > tail[j].sn {
        assert head[i] in head && tail[j] in tail;
        EntrySays(ps[0], head[i]);
        assert EntryAt(one[0], k, head[i].sn);
        EntryAmong(ps[1..], tail[j]);
        assert EntryIn(one, k, head[i].sn) && EntryIn(ps[1..], k, tail[j].sn);
      }
    }
  }

  /** Newest first, a key's entries can be listed in one way only. */
  lemma {:induction false} OneWay(a: seq<Entry>, b: seq<Entry>)
    requires Descending(a) && Descending(b) && forall e: Entry :: e in a <==> e in b
    ensures a == b
  {
    if a == [] {
      if b != [] {
        HasMember(b);
      }
    } else if b == [] {
      HasMember(a);
    } else {
      assert a[0] in b && b[0] in a;
      var a', b' := a[1..], b[1..];
      forall e: Entry ensures e in a' <==> e in b' {
        Past(a, e);
        Past(b, e);
      }
      OneWay(a', b');
      assert a == [a[0]] + a' && b == [b[0]] + b';
    }
  }

  lemma HasMember(a: seq<Entry>)
    requires a != []
    ensures exists e: Entry :: e in a
  {
    assert a[0] in a;
  }

  lemma Past(a: seq<Entry>, e: Entry)
    requires Descending(a) && a != []
    ensures e in a[1..] <==> e in a && e != a[0]
    ensures e in a ==> e == a[0] || e.sn < a[0].sn
  {
    if e in a[1..] {
      var i :| 0 <= i < |a[1..]| && a[1..][i] == e;
      assert a[i + 1] == e;
    }
  }

  // ---- Compactions ----

  /**
   * A compaction: of the layers `mid` the files in `taken` go in, into the last of
   * these layers, and the files in `rest` stay.
   */
  datatype Plan = Plan(front: seq<Part>, mid: seq<Part>, back: seq<Part>, taken: seq<Part>, rest: seq<Part>,
                       job: Job, files: seq<Span>, input: seq<Entry>)
  {
    function Before(): seq<Part> {
      front + mid + back
    }

    /** The outputs are in c, the new last layer of the middle; the other layers keep what stays. */
    function NewMid(c: Part): (r: seq<Part>)
      requires 0 < |rest|
      ensures |r| == |rest|
    {
      rest[..|rest| - 1] + [c]
    }

    ghost predicate Touches(k: Key) {
      exists i :: 0 <= i < |taken| && Says(taken[i], k)
    }

    /** The middle consists of what goes in and what stays. */
    ghost predicate Divided() {
      && 0 < |mid| == |taken| == |rest|
      && (forall i | 0 <= i < |mid| :: Joins(mid[i], taken[i], rest[i]) && Sorted(rest[i].entries))
    }

    /**
     * A file that stays in the layer of an input file, or in an older one of the middle,
     * says nothing of that input's keys.  Newer layers may.
     */
    ghost predicate Complete() {
      forall k: Key, i, j {:trigger Says(taken[i], k), rest[j]} | 0 <= i <= j < |rest| && i < |taken| ::
        Says(taken[i], k) ==> !Says(rest[j], k)
    }

    /** The merging iterator and the tombstone collection yield what the inputs hold. */
    ghost predicate Collected() {
      && (forall e: Entry :: e in input <==> exists i :: 0 <= i < |taken| && e in taken[i].entries)
      && (forall t: Tombstone :: t in job.inputs <==> HasTomb(taken, t))
    }

    /** The deeper levels lie within their files' spans. */
    ghost predicate Spanned() {
      forall e | e in AllEntries(back) :: exists i :: 0 <= i < |files| && files[i].smallest <= e.key <= files[i].largest
    }

    /** The job is one the engine runs on these inputs. */
    ghost predicate Runs(mop: Option<MergeOperator>) {
      Sorted(input) && job.Valid() && job.mop == mop && MergeLaws(mop) && Real(job, input)
    }

    ghost predicate Fits(mop: Option<MergeOperator>) {
      Divided() && Complete() && Collected() && Spanned() && Runs(mop)
    }

    // ---- One key of a compaction ----

    /** No file that stays says anything of k, if an input does. */
    ghost predicate CompleteOn(k: Key) {
      Touches(k) ==> forall i | 0 <= i < |rest| :: !Says(rest[i], k)
    }

    ghost predicate CollectedOn(k: Key) {
      && (forall e: Entry | e.key == k :: e in input <==> exists i :: 0 <= i < |taken| && e in taken[i].entries)
      && (forall t: Tombstone | t.Covers(k) :: t in job.inputs <==> HasTomb(taken, t))
    }

    /** For keys that no input of the first n layers mentions, these are as good as in front. */
    function From(n: nat): Plan
      requires n <= |mid| && n <= |taken| && n <= |rest|
    {
      Plan(front + mid[..n], mid[n..], back, taken[n..], rest[n..], job, files, input)
    }

    ghost function After(c: Part): seq<Part>
      requires 0 < |rest|
    {
      front + NewMid(c) + back
    }

    /** The compaction has run: its outputs are in the last layer, next to what stayed there. */
    ghost predicate Yields(kept: seq<Tombstone>, outs: seq<Output>, c: Part)
      requires 0 < |rest|
    {
      && (forall t :: t in kept <==> t in job.inputs && !Dropped(job, files, t))
      && Finished(outs, kept) && Written(outs) == CompactAll(job, files, input)
      && Joins(c, Part(Written(outs), Pieces(outs)), rest[|rest| - 1])
    }

    /** The layers around, as the compaction's main theorem sees them. */
    ghost function Context(): Surroundings {
      Surroundings(AllEntries(front), AllTombs(front), AllEntries(back), AllTombs(back))
    }

    /** Where the layer in place x afterwards has what it says of k from. */
    ghost function Source(k: Key, x: nat): Slice
      requires 0 < |mid|
    {
      if Touches(k) && x == |front| + |mid| - 1 then Slice(|front|, |front| + |mid|) else Slice(x, x + 1)
    }

    lemma TakenInMid(k: Key, s: SeqNo)
      requires Divided()
      ensures EntryIn(taken, k, s) ==> EntryIn(mid, k, s)
      ensures TombIn(taken, k, s) ==> TombIn(mid, k, s)
    {
      hide EntryAt, TombAt, Joins;
      forall i | 0 <= i < |mid| ensures EntryAt(taken[i], k, s) ==> EntryAt(mid[i], k, s)
        ensures TombAt(taken[i], k, s) ==> TombAt(mid[i], k, s)
      {
        JoinMembers(mid[i], taken[i], rest[i], k);
      }
    }

    lemma EchoTaken(a: Part, k: Key)
      requires Divided() && Echoes(a, taken, k)
      ensures Echoes(a, mid, k)
    {
      hide EntryAt, TombAt, Divided;
      forall s: SeqNo ensures EntryIn(taken, k, s) ==> EntryIn(mid, k, s)
                      ensures TombIn(taken, k, s) ==> TombIn(mid, k, s)
      {
        TakenInMid(k, s);
      }
    }

    lemma InputTaken(e: Entry)
      requires CollectedOn(e.key) && e in input
      ensures EntryIn(taken, e.key, e.sn) && Touches(e.key)
    {
      hide EntryAt, TombAt;
      var i :| 0 <= i < |taken| && e in taken[i].entries;
      EntrySays(taken[i], e);
    }

    lemma TombTaken(t: Tombstone, k: Key)
      requires CollectedOn(k) && t in job.inputs && t.Covers(k)
      ensures TombIn(taken, k, t.sn) && Touches(k)
    {
      hide EntryAt, TombAt;
      assert HasTomb(taken, t);
      var i :| 0 <= i < |taken| && t in taken[i].tombs;
      TombSays(taken[i], t, k);
    }

    /** The layer order, as the compaction's main theorem asks for it. */
    lemma OrderedAround(last: SeqNo, k: Key)
      requires Divided() && CollectedOn(k) && Spanned() && OrderOn(Before(), last, k)
      ensures Context().Ordered(job, files, input, k)
    {
      hide EntryIn, TombIn, OrderOn, Divided, Sorted, Touches, Joins, AllEntries, AllTombs, CollectedOn;
      InFront(front + mid, back, last, k);
      InFront(front, mid, last, k);
      assert front + (mid + back) == Before();
      InFront(front, mid + back, last, k);
      InFront(mid, back, last, k);
      NumbersApart(mid, last, k);
      forall e | e in input && e.key == k ensures EntryIn(mid, k, e.sn) {
        InputTaken(e);
        TakenInMid(k, e.sn);
      }
      forall t | t in job.inputs && t.Covers(k) ensures TombIn(mid, k, t.sn) {
        TombTaken(t, k);
        TakenInMid(k, t.sn);
      }
      forall e | e in AllEntries(front) && e.key == k ensures EntryIn(front, k, e.sn) {
        EntryAmong(front, e);
      }
      forall e | e in AllEntries(back) && e.key == k ensures EntryIn(back, k, e.sn) {
        EntryAmong(back, e);
      }
      forall t | t in AllTombs(front) && t.Covers(k) ensures TombIn(front, k, t.sn) {
        TombAmong(front, t, k);
      }
      forall t | t in AllTombs(back) && t.Covers(k) ensures TombIn(back, k, t.sn) {
        TombAmong(back, t, k);
      }
    }

    /** What the outputs say of a key, the inputs said with the same number. */
    lemma OutputsEcho(kept: seq<Tombstone>, outs: seq<Output>, c: Part, k: Key)
      requires Divided() && CollectedOn(k) && Sorted(input) && Real(job, input) && Yields(kept, outs, c)
      ensures Echoes(Part(Written(outs), Pieces(outs)), taken, k)
      ensures Says(Part(Written(outs), Pieces(outs)), k) ==> Touches(k)
    {
      hide CompactAll, Finished, Pieces, Written, Sorted, Touches, EntryIn, TombIn, Divided, Joins;
      var o := Part(Written(outs), Pieces(outs));
      forall s: SeqNo | EntryAt(o, k, s) ensures EntryIn(taken, k, s) && Touches(k) {
        var x :| x in o.entries && x.key == k && x.sn == s;
        var e := OutputOf(job, files, input, x);
        InputTaken(e);
      }
      forall s: SeqNo | TombAt(o, k, s) ensures TombIn(taken, k, s) && Touches(k) {
        var p :| p in o.tombs && p.Covers(k) && p.sn == s;
        var t := PieceOf(outs, kept, p, k);
        TombTaken(t, k);
      }
    }

    /** The inputs' part of a key is all that the middle says of it. */
    lemma InputOnKey(last: SeqNo, k: Key)
      requires Divided() && CompleteOn(k) && CollectedOn(k) && Sorted(input) && Touches(k) && InOrder(mid, last)
      ensures OnKey(mid, k) == OfKey(input, k)
    {
      hide Sorted, AllEntries, OfKey, Says, EntryAt, OrderOn, Touches;
      LayersDescend(mid, last, k);
      SortedDescends(input, k);
      OfKeyMembers(AllEntries(mid), k);
      OfKeyMembers(input, k);
      forall e: Entry | e.key == k ensures e in AllEntries(mid) <==> e in input {
        AllEntriesMembers(mid, e);
        forall i | 0 <= i < |mid| ensures e in mid[i].entries <==> e in taken[i].entries {
          TakenOnly(i, e);
        }
      }
      OneWay(OnKey(mid, k), OfKey(input, k));
    }

    lemma TakenOnly(i: nat, e: Entry)
      requires Divided() && CompleteOn(e.key) && Touches(e.key) && i < |mid|
      ensures e in mid[i].entries <==> e in taken[i].entries
    {
      hide Sorted, OfKey, Touches, EntryAt, TombAt;
      Silent(rest[i], e.key);
      assert Joins(mid[i], taken[i], rest[i]);
      assert OfKey(mid[i].entries, e.key) == OfKey(taken[i].entries, e.key);
      OfKeyMembers(mid[i].entries, e.key);
      OfKeyMembers(taken[i].entries, e.key);
    }

    /** Over a key of the inputs, the middle's tombstones are the inputs'. */
    lemma InputHides(k: Key, s: SeqNo, r: SeqNo)
      requires Divided() && CompleteOn(k) && CollectedOn(k) && Touches(k)
      ensures HiddenIn(mid, k, s, r) == Hidden(job.inputs, k, s, r)
    {
      hide Sorted, OfKey, Touches, EntryAt;
      forall t: Tombstone | t.Covers(k) ensures HasTomb(mid, t) <==> HasTomb(taken, t) {
        forall i | 0 <= i < |mid| ensures t in mid[i].tombs <==> t in taken[i].tombs {
          assert Joins(mid[i], taken[i], rest[i]);
          if t in rest[i].tombs {
            TombSays(rest[i], t, k);
          }
        }
      }
    }
  }

  /** Reading through layers in three runs is reading what surrounds the middle one and what it holds. */
  lemma ReadAround(mop: Option<MergeOperator>, front: seq<Part>, mid: seq<Part>, back: seq<Part>, w: Surroundings,
                   es: seq<Entry>, ts: seq<Tombstone>, k: Key, r: SeqNo)
    requires w == Surroundings(AllEntries(front), AllTombs(front), AllEntries(back), AllTombs(back))
    requires OnKey(mid, k) == OfKey(es, k) && forall s: SeqNo :: HiddenIn(mid, k, s, r) == Hidden(ts, k, s, r)
    ensures ReadAll(mop, front + mid + back, k, r) == Read(mop, w.EntriesWith(es), w.TombsWith(ts), k, r)
  {
    hide AllEntries, AllTombs, OfKey, HiddenIn, Hidden, Read;
    OnKeyConcat(front + mid, back, k);
    OnKeyConcat(front, mid, k);
    OfKeyConcat(w.newer + es, w.deep, k);
    OfKeyConcat(w.newer, es, k);
    forall s: SeqNo ensures HiddenIn(front + mid + back, k, s, r) == Hidden(w.TombsWith(ts), k, s, r) {
      HiddenInConcat(front + mid, back, k, s, r);
      HiddenInConcat(front, mid, k, s, r);
      HiddenConcat(w.newerTombs + ts, w.deepTombs, k, s, r);
      HiddenConcat(w.newerTombs, ts, k, s, r);
      AllTombsHide(front, k, s, r);
      AllTombsHide(back, k, s, r);
    }
    ReadLike(mop, front + mid + back, w.EntriesWith(es), w.TombsWith(ts), k, r);
  }

  lemma HiddenInConcat(a: seq<Part>, b: seq<Part>, k: Key, s: SeqNo, r: SeqNo)
    ensures HiddenIn(a + b, k, s, r) == (HiddenIn(a, k, s, r) || HiddenIn(b, k, s, r))
  {
    hide HasTomb;
    forall t: Tombstone ensures HasTomb(a + b, t) <==> HasTomb(a, t) || HasTomb(b, t) {
      HasTombConcat(a, b, t);
    }
  }

  /** Over a key of the inputs, the outputs are all the new middle holds. */
  lemma OutputOnKey(p: Plan, kept: seq<Tombstone>, outs: seq<Output>, c: Part, k: Key)
    requires p.Divided() && p.CompleteOn(k) && p.Touches(k) && p.Yields(kept, outs, c)
    ensures OnKey(p.NewMid(c), k) == OfKey(Written(outs), k)
  {
    hide Sorted, OfKey, Written, Pieces, Finished, CompactAll, Says, Plan.Touches, AllEntries;
    var m := |p.rest| - 1;
    OnlyOne(p.NewMid(c), m, k);
    Silent(p.rest[m], k);
    assert OfKey(Written(outs), k) + [] == OfKey(Written(outs), k);
  }

  lemma OutputHides(p: Plan, kept: seq<Tombstone>, outs: seq<Output>, c: Part, k: Key, s: SeqNo, r: SeqNo)
    requires p.Divided() && p.CompleteOn(k) && p.Touches(k) && p.Yields(kept, outs, c)
    ensures HiddenIn(p.NewMid(c), k, s, r) == Hidden(Pieces(outs), k, s, r)
  {
    hide Sorted, OfKey, Written, Pieces, Finished, CompactAll, Says, Plan.Touches;
    var mid, m := p.NewMid(c), |p.rest| - 1;
    forall t: Tombstone | t.Covers(k) ensures HasTomb(mid, t) <==> t in Pieces(outs) {
      forall i | 0 <= i < |p.rest| ensures t !in p.rest[i].tombs {
        if t in p.rest[i].tombs {
          TombSays(p.rest[i], t, k);
        }
      }
      if t in Pieces(outs) {
        assert t in mid[m].tombs;
      }
    }
  }

  /** A live reader of a key of the inputs. */
  lemma TouchedUnnoticed(mop: Option<MergeOperator>, p: Plan, last: SeqNo, kept: seq<Tombstone>, outs: seq<Output>,
                         c: Part, k: Key, r: SeqNo)
    requires p.Divided() && p.CompleteOn(k) && p.CollectedOn(k) && p.Spanned() && p.Runs(mop) && p.Touches(k)
    requires p.Yields(kept, outs, c) && InOrder(p.Before(), last) && p.job.Live(r)
    ensures ReadAll(mop, p.After(c), k, r) == ReadAll(mop, p.Before(), k, r)
  {
    hide ReadAll, Read, AllEntries, AllTombs, OfKey, Written, Pieces, Finished, CompactAll, Hidden, HiddenIn,
      Plan.Touches, Sorted, OrderOn, Surroundings.Ordered, MergeLaws, Plan.Divided, Plan.CompleteOn, Plan.CollectedOn,
        Plan.Spanned;
    var w := p.Context();
    p.OrderedAround(last, k);
    MiddleInOrder(p, last);
    p.InputOnKey(last, k);
    OutputOnKey(p, kept, outs, c, k);
    forall s: SeqNo ensures HiddenIn(p.mid, k, s, r) == Hidden(p.job.inputs, k, s, r)
                    ensures HiddenIn(p.NewMid(c), k, s, r) == Hidden(Pieces(outs), k, s, r)
    {
      p.InputHides(k, s, r);
      OutputHides(p, kept, outs, c, k, s, r);
    }
    ReadAround(mop, p.front, p.mid, p.back, w, p.input, p.job.inputs, k, r);
    ReadAround(mop, p.front, p.NewMid(c), p.back, w, Written(outs), Pieces(outs), k, r);
    CompactionInvisible(p.job, p.files, w, p.input, kept, outs, k, r);
  }

  lemma MiddleInOrder(p: Plan, last: SeqNo)
    requires InOrder(p.Before(), last)
    ensures InOrder(p.mid, last)
  {
    hide OrderOn, Sorted;
    var ps := p.Before();
    assert forall i | 0 <= i < |p.mid| :: ps[|p.front| + i] == p.mid[i];
    forall k: Key ensures OrderOn(p.mid, last, k) {
      InFront(p.front + p.mid, p.back, last, k);
      InFront(p.front, p.mid, last, k);
    }
  }

  /** A key that the inputs do not mention. */
  lemma UntouchedUnnoticed(mop: Option<MergeOperator>, p: Plan, kept: seq<Tombstone>, outs: seq<Output>, c: Part,
                           k: Key, r: SeqNo)
    requires p.Divided() && p.CollectedOn(k) && p.Runs(mop) && p.Yields(kept, outs, c) && !p.Touches(k)
    ensures ReadAll(mop, p.After(c), k, r) == ReadAll(mop, p.Before(), k, r)
  {
    hide ReadAll, AllEntries, OfKey, Written, Pieces, Finished, CompactAll, Says, Sorted, MergeLaws, HasTomb;
    var o, mid, m := Part(Written(outs), Pieces(outs)), p.NewMid(c), |p.rest| - 1;
    p.OutputsEcho(kept, outs, c, k);
    assert forall es: seq<Entry> :: [] + es == es;
    Silent(o, k);
    forall i | 0 <= i < |p.mid| ensures OfKey(p.mid[i].entries, k) == OfKey(mid[i].entries, k) {
      Silent(p.taken[i], k);
    }
    LayerByLayer(p.mid, mid, k);
    SwapMiddle(p.front, p.mid, mid, p.back, k);
    forall t: Tombstone | t.Covers(k) ensures HasTomb(p.After(c), t) <==> HasTomb(p.Before(), t) {
      UntouchedTombs(p, kept, outs, c, k, t);
      HasTombConcat(p.front + p.mid, p.back, t);
      HasTombConcat(p.front, p.mid, t);
      HasTombConcat(p.front + mid, p.back, t);
      HasTombConcat(p.front, mid, t);
    }
    SameOnKey(mop, p.After(c), p.Before(), k, r);
  }

  lemma UntouchedTombs(p: Plan, kept: seq<Tombstone>, outs: seq<Output>, c: Part, k: Key, t: Tombstone)
    requires p.Divided() && p.Yields(kept, outs, c) && !p.Touches(k) && !Says(Part(Written(outs), Pieces(outs)), k)
    requires t.Covers(k)
    ensures HasTomb(p.mid, t) <==> HasTomb(p.NewMid(c), t)
  {
    hide OfKey, Written, Pieces, Finished, CompactAll, Says, Sorted;
    var o, mid := Part(Written(outs), Pieces(outs)), p.NewMid(c);
    if t in o.tombs {
      TombSays(o, t, k);
    }
    forall i | 0 <= i < |mid| ensures t in p.mid[i].tombs <==> t in mid[i].tombs {
      if t in p.taken[i].tombs {
        TombSays(p.taken[i], t, k);
      }
    }
  }

  // ---- From the newest input of a key on ----

  /** The newest layer of the middle with an input that says something of k. */
  lemma NewestInput(p: Plan, k: Key) returns (f: nat)
    requires p.Touches(k)
    ensures f < |p.taken| && Says(p.taken[f], k) && forall i | 0 <= i < f :: !Says(p.taken[i], k)
  {
    hide Says;
    f := 0;
    while f < |p.taken| && !Says(p.taken[f], k)
      invariant 0 <= f <= |p.taken| && forall i | 0 <= i < f :: !Says(p.taken[i], k)
    {
      f := f + 1;
    }
  }

  /** As far as k is concerned, the compaction starts at its newest input. */
  lemma FromNewest(p: Plan, f: nat, k: Key)
    requires p.Divided() && p.Complete() && p.Collected()
    requires f < |p.taken| && Says(p.taken[f], k) && forall i | 0 <= i < f :: !Says(p.taken[i], k)
    ensures var q := p.From(f);
            q.Divided() && q.CompleteOn(k) && q.CollectedOn(k) && q.Touches(k) && q.Before() == p.Before()
  {
    hide Says, Joins, Sorted;
    var q := p.From(f);
    assert q.taken[0] == p.taken[f];
    forall i | 0 <= i < |q.mid| ensures Joins(q.mid[i], q.taken[i], q.rest[i]) && Sorted(q.rest[i].entries) {
      assert Joins(p.mid[f + i], p.taken[f + i], p.rest[f + i]);
    }
    forall i | 0 <= i < |q.rest| ensures !Says(q.rest[i], k) {
      assert q.rest[i] == p.rest[f + i];
    }
    FromCollects(p, f, k);
    assert p.front + p.mid[..f] + p.mid[f..] == p.front + p.mid;
  }

  lemma FromCollects(p: Plan, f: nat, k: Key)
    requires p.Divided() && p.Collected() && f < |p.taken| && forall i | 0 <= i < f :: !Says(p.taken[i], k)
    ensures p.From(f).CollectedOn(k)
  {
    hide Says, Joins, Sorted;
    var later := p.taken[f..];
    assert forall j | 0 <= j < |later| :: later[j] == p.taken[f + j];
    forall e: Entry | e.key == k ensures e in p.input <==> exists i :: 0 <= i < |later| && e in later[i].entries {
      if i :| 0 <= i < |p.taken| && e in p.taken[i].entries {
        EntrySays(p.taken[i], e);
        assert e in later[i - f].entries;
      }
    }
    forall t: Tombstone | t.Covers(k) ensures t in p.job.inputs <==> HasTomb(later, t) {
      if i :| 0 <= i < |p.taken| && t in p.taken[i].tombs {
        TombSays(p.taken[i], t, k);
        assert t in later[i - f].tombs;
      }
      if i :| 0 <= i < |later| && t in later[i].tombs {
        assert t in p.taken[f + i].tombs;
      }
    }
  }

  /** Where the inputs say nothing of k, what stays says the same as what was there. */
  lemma StaysAlike(p: Plan, f: nat, k: Key)
    requires p.Divided() && f < |p.taken| && forall i | 0 <= i < f :: !Says(p.taken[i], k)
    ensures forall i | 0 <= i < f ::
              OfKey(p.rest[i].entries, k) == OfKey(p.mid[i].entries, k) && Echoes(p.rest[i], [p.mid[i]], k)
    ensures forall i, t: Tombstone | 0 <= i < f && t.Covers(k) :: t in p.rest[i].tombs <==> t in p.mid[i].tombs
  {
    hide Says, OfKey, Sorted, Echoes;
    assert forall es: seq<Entry> :: [] + es == es;
    forall i | 0 <= i < f
      ensures OfKey(p.rest[i].entries, k) == OfKey(p.mid[i].entries, k) && Echoes(p.rest[i], [p.mid[i]], k)
      ensures forall t: Tombstone | t.Covers(k) :: t in p.rest[i].tombs <==> t in p.mid[i].tombs
    {
      Silent(p.taken[i], k);
      JoinEcho(p.mid[i], p.taken[i], p.rest[i], k);
      forall t: Tombstone | t.Covers(k) ensures t in p.rest[i].tombs <==> t in p.mid[i].tombs {
        if t in p.taken[i].tombs {
          TombSays(p.taken[i], t, k);
        }
      }
    }
  }

  lemma FromAfter(p: Plan, f: nat, c: Part)
    requires p.Divided() && f < |p.taken|
    ensures p.From(f).After(c) == p.front + p.mid[..f] + p.From(f).NewMid(c) + p.back
    ensures p.After(c) == p.front + p.rest[..f] + p.From(f).NewMid(c) + p.back
  {
    assert p.rest[..|p.rest| - 1] == p.rest[..f] + p.rest[f..][..|p.rest| - 1 - f];
  }

  lemma AfterUnnoticed(mop: Option<MergeOperator>, p: Plan, f: nat, c: Part, k: Key, r: SeqNo)
    requires p.Divided() && f < |p.taken| && forall i | 0 <= i < f :: !Says(p.taken[i], k)
    ensures ReadAll(mop, p.After(c), k, r) == ReadAll(mop, p.From(f).After(c), k, r)
  {
    hide Says, OfKey, AllEntries, ReadAll, Sorted, Echoes, HasTomb;
    StaysAlike(p, f, k);
    FromAfter(p, f, c);
    var a, b, tail := p.rest[..f], p.mid[..f], p.From(f).NewMid(c) + p.back;
    LayerByLayer(a, b, k);
    SwapMiddle(p.front, a, b, tail, k);
    assert p.After(c) == p.front + a + tail && p.From(f).After(c) == p.front + b + tail;
    forall t: Tombstone | t.Covers(k) ensures HasTomb(p.front + a + tail, t) <==> HasTomb(p.front + b + tail, t) {
      HasTombConcat(p.front + a, tail, t);
      HasTombConcat(p.front, a, t);
      HasTombConcat(p.front + b, tail, t);
      HasTombConcat(p.front, b, t);
      TombLayerByLayer(a, b, t);
    }
    SameOnKey(mop, p.After(c), p.From(f).After(c), k, r);
  }

  lemma TombLayerByLayer(a: seq<Part>, b: seq<Part>, t: Tombstone)
    requires |a| == |b| && forall i | 0 <= i < |a| :: t in a[i].tombs <==> t in b[i].tombs
    ensures HasTomb(a, t) <==> HasTomb(b, t)
  {
  }

  /** A compaction changes no live reader's read of any key. */
  lemma CompactUnseen(mop: Option<MergeOperator>, p: Plan, last: SeqNo, kept: seq<Tombstone>, outs: seq<Output>,
                      c: Part, k: Key, r: SeqNo)
    requires p.Fits(mop) && p.Yields(kept, outs, c) && InOrder(p.Before(), last) && p.job.Live(r)
    ensures ReadAll(mop, p.After(c), k, r) == ReadAll(mop, p.Before(), k, r)
  {
    hide ReadAll, Plan.Touches, InOrder, Says, Finished, Written, Pieces, CompactAll, MergeLaws, Joins;
    if p.Touches(k) {
      var f := NewestInput(p, k);
      FromNewest(p, f, k);
      TouchedUnnoticed(mop, p.From(f), last, kept, outs, c, k, r);
      AfterUnnoticed(mop, p, f, c, k, r);
    } else {
      UntouchedUnnoticed(mop, p, kept, outs, c, k, r);
    }
  }

  lemma EchoOfEcho(a: Part, b: Part, cs: seq<Part>, k: Key)
    requires Echoes(a, [b], k) && Echoes(b, cs, k)
    ensures Echoes(a, cs, k)
  {
    hide EntryAt, TombAt;
  }

  /** What the last layer of the middle says afterwards, of a key of the inputs or of another one. */
  lemma LastEcho(p: Plan, kept: seq<Tombstone>, outs: seq<Output>, c: Part, k: Key)
    requires p.Divided() && p.CompleteOn(k) && p.CollectedOn(k) && Sorted(p.input) && Real(p.job, p.input)
    requires p.Yields(kept, outs, c)
    ensures Echoes(c, if p.Touches(k) then p.mid else [p.mid[|p.mid| - 1]], k)
  {
    hide EntryAt, TombAt, Says, OfKey, Written, Pieces, Finished, CompactAll, Sorted, Plan.Touches, Plan.CollectedOn,
      Echoes;
    var o, m := Part(Written(outs), Pieces(outs)), |p.mid| - 1;
    JoinEcho(c, o, p.rest[m], k);
    p.OutputsEcho(kept, outs, c, k);
    if p.Touches(k) {
      p.EchoTaken(o, k);
      EchoOfEcho(c, o, p.mid, k);
    } else {
      JoinEcho(p.mid[m], p.taken[m], p.rest[m], k);
      EchoOfEcho(c, p.rest[m], [p.mid[m]], k);
    }
  }

  /** The new layers repeat the old ones, the last of the middle standing for all inputs. */
  lemma AfterRepeats(p: Plan, kept: seq<Tombstone>, outs: seq<Output>, c: Part, k: Key, x: nat)
    requires p.Divided() && p.CompleteOn(k) && p.CollectedOn(k) && Sorted(p.input) && Real(p.job, p.input)
    requires p.Yields(kept, outs, c)
    requires x < |p.After(c)| && Says(p.After(c)[x], k)
    ensures var s := p.Source(k, x);
            s.lo <= s.hi <= |p.Before()| && Echoes(p.After(c)[x], p.Before()[s.lo..s.hi], k)
    ensures |p.front| <= x < |p.front| + |p.mid| && p.Touches(k) ==> x == |p.front| + |p.mid| - 1
  {
    hide Says, OfKey, Plan.CollectedOn, Plan.Yields, Plan.Touches, Echoes, Sorted, Real;
    var ps, qs, f, m := p.Before(), p.After(c), |p.front|, |p.mid| - 1;
    JustOne(ps, x);
    if x < f || x > f + m {
      assert qs[x] == ps[x];
      SelfEcho(qs[x], [ps[x]], k);
    } else if x < f + m {
      assert qs[x] == p.rest[x - f] && ps[x] == p.mid[x - f];
      JoinEcho(p.mid[x - f], p.taken[x - f], p.rest[x - f], k);
    } else {
      assert qs[x] == c && ps[x] == p.mid[m] && ps[f..f + |p.mid|] == p.mid;
      LastEcho(p, kept, outs, c, k);
    }
  }

  /** For a key that stays nowhere in the middle, or goes in nowhere. */
  lemma CompactOrderOn(p: Plan, last: SeqNo, kept: seq<Tombstone>, outs: seq<Output>, c: Part, k: Key)
    requires p.Divided() && p.CompleteOn(k) && p.CollectedOn(k) && Sorted(p.input) && Real(p.job, p.input)
    requires p.Yields(kept, outs, c)
    requires OrderOn(p.Before(), last, k)
    ensures OrderOn(p.After(c), last, k)
  {
    hide Says, OfKey, Plan.CollectedOn, Plan.Yields, Plan.Touches, Echoes, Sorted, OrderOn, Real, Joins;
    var ps, qs := p.Before(), p.After(c);
    var from := seq(|qs|, (x: nat) => p.Source(k, x));
    forall x | 0 <= x < |qs| && Says(qs[x], k)
      ensures from[x].lo <= from[x].hi <= |ps| && Echoes(qs[x], ps[from[x].lo..from[x].hi], k)
      ensures |p.front| <= x < |p.front| + |p.mid| && p.Touches(k) ==> x == |p.front| + |p.mid| - 1
    {
      AfterRepeats(p, kept, outs, c, k, x);
    }
    RepeatsInOrder(qs, ps, last, k, from);
  }

  /** The layers before a key's newest input keep of it what they had. */
  lemma FrontKeepsOrder(p: Plan, f: nat, c: Part, last: SeqNo, k: Key)
    requires p.Divided() && f < |p.taken| && forall i | 0 <= i < f :: !Says(p.taken[i], k)
    requires OrderOn(p.From(f).After(c), last, k)
    ensures OrderOn(p.After(c), last, k)
  {
    hide Says, OfKey, Echoes, Sorted, OrderOn, Joins;
    StaysAlike(p, f, k);
    FromAfter(p, f, c);
    var qs, ps, n := p.After(c), p.From(f).After(c), |p.front|;
    var from := seq(|qs|, (x: nat) => Slice(x, x + 1));
    forall x | 0 <= x < |qs| ensures Echoes(qs[x], ps[x..x + 1], k) {
      JustOne(ps, x);
      if n <= x < n + f {
        assert qs[x] == p.rest[x - n] && ps[x] == p.mid[x - n];
      } else {
        assert qs[x] == ps[x];
        SelfEcho(qs[x], [ps[x]], k);
      }
    }
    RepeatsInOrder(qs, ps, last, k, from);
  }

  /** A compaction keeps the layer order. */
  lemma CompactKeepsOrder(p: Plan, last: SeqNo, kept: seq<Tombstone>, outs: seq<Output>, c: Part)
    requires p.Divided() && p.Complete() && p.Collected() && Sorted(p.input) && Real(p.job, p.input)
    requires p.Yields(kept, outs, c)
    requires InOrder(p.Before(), last)
    ensures InOrder(p.After(c), last)
  {
    hide Says, Sorted, OrderOn, Real, Joins, Plan.Touches, Finished, Written, Pieces, CompactAll;
    AfterSorted(p, last, kept, outs, c);
    forall k: Key ensures OrderOn(p.After(c), last, k) {
      if p.Touches(k) {
        var f := NewestInput(p, k);
        FromNewest(p, f, k);
        CompactOrderOn(p.From(f), last, kept, outs, c, k);
        FrontKeepsOrder(p, f, c, last, k);
      } else {
        CompactOrderOn(p, last, kept, outs, c, k);
      }
    }
  }

  lemma AfterSorted(p: Plan, last: SeqNo, kept: seq<Tombstone>, outs: seq<Output>, c: Part)
    requires p.Divided() && p.Yields(kept, outs, c) && InOrder(p.Before(), last)
    ensures AllSorted(p.After(c))
  {
    hide Says, OfKey, Sorted, OrderOn, Written, Pieces, Finished, CompactAll;
    var ps, qs, f := p.Before(), p.After(c), |p.front|;
    JoinedSorted(c, Part(Written(outs), Pieces(outs)), p.rest[|p.rest| - 1]);
    forall x | 0 <= x < |qs| ensures Sorted(qs[x].entries) {
      if x < f || x >= f + |p.mid| {
        assert qs[x] == ps[x];
      } else if x < f + |p.mid| - 1 {
        assert qs[x] == p.rest[x - f];
      }
    }
  }
}
