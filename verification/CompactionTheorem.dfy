/**
 * The main result on compaction: reading any key at any live snapshot, or at or past
 * the last sequence, gives the same before and after, whatever lies in newer and
 * deeper layers.  Entries outside the inputs, dropped and clipped tombstones and the
 * division into output files are all accounted for.
 */
module CompactionTheorems {
  import opened Core
  import opened Visibility
  import opened Layers
  import opened CompactGroups
  import Loops = CompactGroupLoops
  import opened CompactionOutputs
  import opened Compactions

  // ---- One key's part of the input and of the output ----

  function OfKey(es: seq<Entry>, k: Key): seq<Entry> {
    if es == [] then []
    else if es[0].key == k then [es[0]] + OfKey(es[1..], k)
    else OfKey(es[1..], k)
  }

  /** Reading a key takes no notice of the entries of other keys. */
  lemma {:induction false} FoldOfKey(es: seq<Entry>, ts: seq<Tombstone>, k: Key, r: SeqNo, older: Content)
    ensures Fold(es, ts, k, r, older) == Fold(OfKey(es, k), ts, k, r, older)
  {
    if es != [] {
      FoldOfKey(es[1..], ts, k, r, older);
      if es[0].key == k {
        assert OfKey(es, k)[1..] == OfKey(es[1..], k);
      }
    }
  }

  lemma {:induction false} OfKeyConcat(a: seq<Entry>, b: seq<Entry>, k: Key)
    ensures OfKey(a + b, k) == OfKey(a, k) + OfKey(b, k)
  {
    if a == [] {
      assert a + b == b;
    } else {
      assert (a + b)[1..] == a[1..] + b;
      OfKeyConcat(a[1..], b, k);
    }
  }

  lemma {:induction false} OfKeyAll(es: seq<Entry>, k: Key)
    requires forall i | 0 <= i < |es| :: es[i].key == k
    ensures OfKey(es, k) == es
  {
    if es != [] {
      OfKeyAll(es[1..], k);
    }
  }

  lemma {:induction false} OfKeyNone(es: seq<Entry>, k: Key)
    requires forall i | 0 <= i < |es| :: es[i].key != k
    ensures OfKey(es, k) == []
  {
    if es != [] {
      OfKeyNone(es[1..], k);
    }
  }

  /** A key that no entry of the input has, no entry of the output has. */
  lemma {:induction false} NoNewKeys(job: Job, deep: seq<Span>, es: seq<Entry>, k: Key)
    requires Sorted(es) && (forall i | 0 <= i < |es| :: es[i].key != k && es[i].sn >= 1)
    ensures OfKey(CompactAll(job, deep, es), k) == []
    decreases |es|
  {
    hide CompactAll, Job.Compacted, Sorted;
    if es == [] {
      EmptyCompacts(job, deep);
      return;
    }
    var n, out := FirstGroup(job, deep, es);
    NoNewKeys(job, deep, es[n..], k);
    OfKeyNone(out, k);
    OfKeyConcat(out, CompactAll(job, deep, es[n..]), k);
  }

  /** The first group of a sorted input, what it compacts to, and the larger keys after it. */
  lemma FirstGroup(job: Job, deep: seq<Span>, es: seq<Entry>) returns (n: nat, out: seq<Entry>)
    requires Sorted(es) && es != [] && forall i | 0 <= i < |es| :: es[i].sn >= 1
    ensures 0 < n <= |es| && IsGroup(es[..n], es[0].key) && Sorted(es[n..])
    ensures forall i | n <= i < |es| :: es[i].key > es[0].key
    ensures out == job.Compacted(es[..n], BaseForKey(deep, es[0].key)) && IsGroup(out, es[0].key)
    ensures CompactAll(job, deep, es) == out + CompactAll(job, deep, es[n..])
    ensures forall x | 0 <= x < |out| :: Loops.Numbered(es[..n], out[x].sn)
  {
    n := GroupLength(es);
    var k := es[0].key;
    RunIsGroup(es, 0, n, k);
    assert es[0..n] == es[..n];
    out := job.Compacted(es[..n], BaseForKey(deep, k));
    Loops.CompactedIsGroup(job, es[..n], k, BaseForKey(deep, k));
    SuffixSorted(es, n);
    forall i | n <= i < |es| ensures es[i].key > k {
      assert Before(es[0].key, es[0].sn, es[n].key, es[n].sn);
      assert i == n || Before(es[n].key, es[n].sn, es[i].key, es[i].sn);
    }
  }

  lemma SuffixSorted(es: seq<Entry>, n: nat)
    requires Sorted(es) && n <= |es|
    ensures Sorted(es[n..])
  {
    forall i, j | 0 <= i < j < |es| - n ensures Before(es[n..][i].key, es[n..][i].sn, es[n..][j].key, es[n..][j].sn) {
      assert Before(es[n + i].key, es[n + i].sn, es[n + j].key, es[n + j].sn);
    }
  }

  /** The output's entries of a key are what its entries in the input compact to. */
  lemma {:induction false} KeyCompacts(job: Job, deep: seq<Span>, es: seq<Entry>, k: Key)
    requires Sorted(es) && forall i | 0 <= i < |es| :: es[i].sn >= 1
    ensures IsGroup(OfKey(es, k), k)
    ensures OfKey(CompactAll(job, deep, es), k) == job.Compacted(OfKey(es, k), BaseForKey(deep, k))
    ensures forall e :: e in OfKey(es, k) ==> e in es
    decreases |es|
  {
    hide CompactAll, Job.Compacted, Sorted, OfKey;
    OfKeyMembers(es, k);
    if es == [] {
      EmptyCompacts(job, deep);
      OfKeyNone([], k);
      return;
    }
    var n, out := FirstGroup(job, deep, es);
    var group, rest := es[..n], es[n..];
    var written := CompactAll(job, deep, rest);
    assert es == group + rest;
    OfKeyConcat(group, rest, k);
    OfKeyConcat(out, written, k);
    if es[0].key == k {
      OfKeyAll(group, k);
      OfKeyAll(out, k);
      OfKeyNone(rest, k);
      NoNewKeys(job, deep, rest, k);
      assert group + [] == group && out + [] == out;
    } else {
      OfKeyNone(group, k);
      OfKeyNone(out, k);
      KeyCompacts(job, deep, rest, k);
      assert [] + OfKey(rest, k) == OfKey(rest, k);
      assert [] + OfKey(written, k) == OfKey(written, k);
    }
  }

  lemma {:induction false} OfKeyMembers(es: seq<Entry>, k: Key)
    ensures forall e :: e in OfKey(es, k) <==> e in es && e.key == k
  {
    if es != [] {
      OfKeyMembers(es[1..], k);
      assert forall e :: e in es <==> e == es[0] || e in es[1..];
    }
  }

  lemma EmptyCompacts(job: Job, deep: seq<Span>)
    ensures CompactAll(job, deep, []) == [] && forall base: bool :: job.Compacted([], base) == []
  {
  }

  /** The outputs together are sorted like the input. */
  lemma {:induction false} OutputSorted(job: Job, deep: seq<Span>, es: seq<Entry>)
    requires Sorted(es) && forall i | 0 <= i < |es| :: es[i].sn >= 1
    ensures Sorted(CompactAll(job, deep, es))
    ensures forall o | o in CompactAll(job, deep, es) :: From(es, o)
    decreases |es|
  {
    hide CompactAll, Job.Compacted, Sorted;
    if es == [] {
      EmptyCompacts(job, deep);
      return;
    }
    var n, out := FirstGroup(job, deep, es);
    var rest := CompactAll(job, deep, es[n..]);
    OutputSorted(job, deep, es[n..]);
    forall o | o in out ensures From(es, o) {
      GroupFrom(es, n, out, o);
    }
    forall o | o in rest ensures From(es, o) && o.key > es[0].key {
      var e :| e in es[n..] && e.key == o.key && e.sn == o.sn;
      assert e in es;
    }
    forall x | 0 <= x < |rest| ensures rest[x].key > es[0].key {
      assert rest[x] in rest;
    }
    JoinSorted(out, rest, es[0].key);
  }

  /** An entry of the list has o's key and number. */
  ghost predicate From(es: seq<Entry>, o: Entry) {
    exists e :: e in es && e.key == o.key && e.sn == o.sn
  }

  lemma GroupFrom(es: seq<Entry>, n: nat, out: seq<Entry>, o: Entry)
    requires 0 < n <= |es| && IsGroup(es[..n], es[0].key) && IsGroup(out, es[0].key) && o in out
    requires forall x | 0 <= x < |out| :: Loops.Numbered(es[..n], out[x].sn)
    ensures From(es, o)
  {
    var group := es[..n];
    var x :| 0 <= x < |out| && out[x] == o;
    assert Loops.Numbered(group, out[x].sn);
    var i :| 0 <= i < |group| && group[i].sn == out[x].sn;
    assert group[i] in group && group[i] in es;
  }

  lemma JoinSorted(a: seq<Entry>, b: seq<Entry>, k: Key)
    requires IsGroup(a, k) && Sorted(b) && forall x | 0 <= x < |b| :: b[x].key > k
    ensures Sorted(a + b)
  {
    var r := a + b;
    forall i, j | 0 <= i < j < |r| ensures Before(r[i].key, r[i].sn, r[j].key, r[j].sn) {
      if i >= |a| {
        assert Before(b[i - |a|].key, b[i - |a|].sn, b[j - |a|].key, b[j - |a|].sn);
      }
    }
  }

  // ---- Newer entries on top ----

  /** Entries that two sets of tombstones treat alike fold alike over equivalent contents. */
  lemma {:induction false} FoldEquivalent(mop: Option<MergeOperator>, es: seq<Entry>,
                                          ts: seq<Tombstone>, ts': seq<Tombstone>, k: Key, r: SeqNo, a: Content,
                                            b: Content)
    requires Equivalent(mop, k, a, b)
    requires forall i | 0 <= i < |es| && es[i].key == k :: Hidden(ts, k, es[i].sn, r) == Hidden(ts', k, es[i].sn, r)
    ensures Equivalent(mop, k, Fold(es, ts, k, r, a), Fold(es, ts', k, r, b))
  {
    hide Equivalent, Hidden;
    if es != [] {
      FoldEquivalent(mop, es[1..], ts, ts', k, r, a, b);
      var a', b' := Fold(es[1..], ts, k, r, a), Fold(es[1..], ts', k, r, b);
      EquivalentPush(mop, k, a', b', [es[0].value]);
      EquivalentReflexive(mop, k, ABSENT);
      EquivalentReflexive(mop, k, Content(Some(es[0].value), []));
    }
  }

  // ---- The database around a compaction ----

  /** The layers around a compaction, as far as one key is concerned: all newer ones, and all deeper ones. */
  datatype Surroundings = Surroundings(newer: seq<Entry>, newerTombs: seq<Tombstone>, deep: seq<Entry>,
                                       deepTombs: seq<Tombstone>)
  {
    /** Everything the engine reads, before and after. */
    function EntriesWith(middle: seq<Entry>): seq<Entry> {
      newer + middle + deep
    }

    function TombsWith(middle: seq<Tombstone>): seq<Tombstone> {
      newerTombs + middle + deepTombs
    }

    /**
     * The layer order: for the key, everything in the inputs is older than what
     * newer layers say and newer than what deeper layers say; and the deeper
     * entries lie within the deeper files' spans.
     */
    ghost predicate Ordered(job: Job, files: seq<Span>, input: seq<Entry>, k: Key) {
      && (forall t, e | t in newerTombs && t.Covers(k) && e in input && e.key == k :: e.sn < t.sn)
      && (forall t, e | t in job.inputs && t.Covers(k) && e in newer && e.key == k :: t.sn < e.sn)
      && (forall t, e | t in deepTombs && t.Covers(k) && e in input && e.key == k :: t.sn < e.sn)
      && (forall d, e | d in deep && d.key == k && e in input && e.key == k :: d.sn < e.sn)
      && (forall t, e | t in job.inputs && t.Covers(k) && e in input && e.key == k :: t.sn != e.sn)
      && (forall d :: d in deep ==> exists i :: 0 <= i < |files| && files[i].smallest <= d.key <= files[i].largest)
    }
  }

  /** A live reader sees every dropped tombstone, or none of them matters to newer entries. */
  lemma NewerUnaffected(job: Job, files: seq<Span>, w: Surroundings, input: seq<Entry>, kept: seq<Tombstone>, k: Key,
                        r: SeqNo, e: Entry)
    requires w.Ordered(job, files, input, k) && e in w.newer && e.key == k
    requires forall t :: t in kept ==> t in job.inputs
    ensures Hidden(w.TombsWith(job.inputs), k, e.sn, r) == Hidden(w.TombsWith(kept), k, e.sn, r)
  {
    var all, less := w.TombsWith(job.inputs), w.TombsWith(kept);
    if t :| t in all && t.Covers(k) && e.sn < t.sn <= r {
      assert t !in job.inputs;
      assert t in less;
    }
    if t :| t in less && t.Covers(k) && e.sn < t.sn <= r {
      assert t in all;
    }
  }

  /** Nothing deeper of a key that a dropped tombstone covers, or whose level is the base level. */
  lemma NothingDeep(files: seq<Span>, w: Surroundings, job: Job, input: seq<Entry>, k: Key)
    requires w.Ordered(job, files, input, k)
    ensures BaseForKey(files, k) ==> NoneOf(w.deep, k)
    ensures forall t: Tombstone :: BaseForRange(files, t.begin, t.end) && t.Covers(k) ==> NoneOf(w.deep, k)
  {
    forall d | d in w.deep && d.key == k
      ensures !BaseForKey(files, k)
      ensures forall t: Tombstone :: t.Covers(k) ==> !BaseForRange(files, t.begin, t.end)
    {
      var i :| 0 <= i < |files| && files[i].smallest <= d.key <= files[i].largest;
    }
  }

  /** The conditions of GroupInvisible hold for the key's part of the input. */
  lemma KeyFits(job: Job, files: seq<Span>, w: Surroundings, input: seq<Entry>, kept: seq<Tombstone>, k: Key)
    requires Sorted(input) && Real(job, input) && w.Ordered(job, files, input, k)
    requires forall t :: t in kept <==> t in job.inputs && !Dropped(job, files, t)
    ensures Rest(w.newerTombs, kept, w.deepTombs, w.deep, BaseForKey(files, k)).Fits(job, OfKey(input, k), k)
  {
    hide CompactAll, Job.Compacted, Sorted, OfKey, IsGroup, NoneOf, BaseForKey, BaseForRange;
    KeyCompacts(job, files, input, k);
    NothingDeep(files, w, job, input, k);
    OfKeyMembers(input, k);
    var group := OfKey(input, k);
    forall i | 0 <= i < |group| ensures group[i] in input && group[i].key == k {
      assert group[i] in group;
    }
  }

  /** Up to the newer layers: the key's content before and after are equivalent. */
  lemma InputInvisible(job: Job, files: seq<Span>, w: Surroundings, input: seq<Entry>, kept: seq<Tombstone>, k: Key,
                       r: SeqNo)
    requires job.Valid() && job.Live(r) && MergeLaws(job.mop)
    requires Sorted(input) && Real(job, input) && w.Ordered(job, files, input, k)
    requires forall t :: t in kept <==> t in job.inputs && !Dropped(job, files, t)
    ensures Equivalent(job.mop, k, Resolve(input + w.deep, w.TombsWith(job.inputs), k, r),
                                   Resolve(CompactAll(job, files, input) + w.deep, w.TombsWith(kept), k, r))
  {
    hide CompactAll, Job.Compacted, Equivalent, Fold;
    var s := Rest(w.newerTombs, kept, w.deepTombs, w.deep, BaseForKey(files, k));
    var group := OfKey(input, k);
    KeyFits(job, files, w, input, kept, k);
    GroupInvisible(job, s, group, k, r);
    KeyCompacts(job, files, input, k);
    var before, after := w.TombsWith(job.inputs), w.TombsWith(kept);
    SameKey(input, group, w.deep, before, k, r);
    SameKey(CompactAll(job, files, input), job.Compacted(group, BaseForKey(files, k)), w.deep, after, k, r);
  }

  /** Reading a key of `es` over `deep` is reading its part of es. */
  lemma SameKey(es: seq<Entry>, part: seq<Entry>, deep: seq<Entry>, ts: seq<Tombstone>, k: Key, r: SeqNo)
    requires part == OfKey(es, k)
    ensures Resolve(es + deep, ts, k, r) == Resolve(part + deep, ts, k, r)
  {
    hide Fold, OfKey;
    FoldConcat(es, deep, ts, k, r, ABSENT);
    FoldConcat(part, deep, ts, k, r, ABSENT);
    FoldOfKey(es, ts, k, r, Fold(deep, ts, k, r, ABSENT));
  }

  /**
   * Compaction is invisible: with the output files' entries and tombstone pieces in
   * place of the input files', every live reader of every key reads the same.
   */
  lemma CompactionInvisible(job: Job, files: seq<Span>, w: Surroundings, input: seq<Entry>, kept: seq<Tombstone>,
                            outs: seq<Output>, k: Key, r: SeqNo)
    requires job.Valid() && job.Live(r) && MergeLaws(job.mop)
    requires Sorted(input) && Real(job, input) && w.Ordered(job, files, input, k)
    requires forall t :: t in kept <==> t in job.inputs && !Dropped(job, files, t)
    requires Finished(outs, kept) && Written(outs) == CompactAll(job, files, input)
    ensures Read(job.mop, w.EntriesWith(input), w.TombsWith(job.inputs), k, r) ==
            Read(job.mop, w.EntriesWith(Written(outs)), w.TombsWith(Pieces(outs)), k, r)
  {
    hide CompactAll, Job.Compacted, Equivalent, Fold, Hidden, Finished, Written, Pieces;
    var all, less, cut := w.TombsWith(job.inputs), w.TombsWith(kept), w.TombsWith(Pieces(outs));
    var before, after := input + w.deep, Written(outs) + w.deep;
    InputInvisible(job, files, w, input, kept, k, r);
    forall i | 0 <= i < |w.newer| && w.newer[i].key == k
      ensures Hidden(all, k, w.newer[i].sn, r) == Hidden(less, k, w.newer[i].sn, r)
    {
      NewerUnaffected(job, files, w, input, kept, k, r, w.newer[i]);
    }
    FoldEquivalent(job.mop, w.newer, all, less, k, r, Resolve(before, all, k, r), Resolve(after, less, k, r));
    OnTop(w, input, all, k, r);
    OnTop(w, Written(outs), less, k, r);
    EquivalentFinish(job.mop, k, Resolve(w.EntriesWith(input), all, k, r),
                     Resolve(w.EntriesWith(Written(outs)), less, k, r));
    forall s: SeqNo ensures Hidden(less, k, s, r) == Hidden(cut, k, s, r) {
      PiecesHideAmong(w, outs, kept, k, s, r);
    }
    HideAlike(w.EntriesWith(Written(outs)), less, cut, k, r, ABSENT);
  }

  lemma OnTop(w: Surroundings, middle: seq<Entry>, ts: seq<Tombstone>, k: Key, r: SeqNo)
    ensures Resolve(w.EntriesWith(middle), ts, k, r) == Fold(w.newer, ts, k, r, Resolve(middle + w.deep, ts, k, r))
  {
    hide Fold;
    assert w.EntriesWith(middle) == w.newer + (middle + w.deep);
    FoldConcat(w.newer, middle + w.deep, ts, k, r, ABSENT);
  }

  lemma HiddenConcat(a: seq<Tombstone>, b: seq<Tombstone>, k: Key, s: SeqNo, r: SeqNo)
    ensures Hidden(a + b, k, s, r) == (Hidden(a, k, s, r) || Hidden(b, k, s, r))
  {
  }

  lemma PiecesHideAmong(w: Surroundings, outs: seq<Output>, kept: seq<Tombstone>, k: Key, s: SeqNo, r: SeqNo)
    requires Finished(outs, kept)
    ensures Hidden(w.TombsWith(kept), k, s, r) == Hidden(w.TombsWith(Pieces(outs)), k, s, r)
  {
    hide Hidden, Finished, Pieces;
    PiecesHide(outs, kept, k, s, r);
    HiddenConcat(w.newerTombs, kept, k, s, r);
    HiddenConcat(w.newerTombs + kept, w.deepTombs, k, s, r);
    HiddenConcat(w.newerTombs, Pieces(outs), k, s, r);
    HiddenConcat(w.newerTombs + Pieces(outs), w.deepTombs, k, s, r);
  }

  // ---- The layer order afterwards ----

  /** Every piece is part of a kept tombstone, with its number. */
  lemma PieceOf(outs: seq<Output>, kept: seq<Tombstone>, p: Tombstone, k: Key) returns (t: Tombstone)
    requires Finished(outs, kept) && p in Pieces(outs)
    ensures t in kept && t.sn == p.sn && (p.Covers(k) ==> t.Covers(k))
  {
    PiecesMembers(outs);
    var i :| 0 <= i < |outs| && p in outs[i].tombs;
    ClipAllMembers(kept, outs[i].lower, outs[i].upper);
    t :| t in kept && p == Clip(t, outs[i].lower, outs[i].upper) && p.begin < p.end;
  }

  /** Every output entry has the key and number of an input entry. */
  lemma OutputOf(job: Job, files: seq<Span>, input: seq<Entry>, o: Entry) returns (e: Entry)
    requires Sorted(input) && Real(job, input) && o in CompactAll(job, files, input)
    ensures e in input && e.key == o.key && e.sn == o.sn
  {
    hide CompactAll;
    OutputSorted(job, files, input);
    assert From(input, o);
    e :| e in input && e.key == o.key && e.sn == o.sn;
  }

  /** The outputs take the inputs' place in the layer order, so the next compaction finds it as this one did. */
  lemma OrderKept(job: Job, files: seq<Span>, w: Surroundings, input: seq<Entry>, kept: seq<Tombstone>,
                  outs: seq<Output>, k: Key)
    requires Sorted(input) && Real(job, input) && w.Ordered(job, files, input, k)
    requires forall t :: t in kept ==> t in job.inputs
    requires Finished(outs, kept) && Written(outs) == CompactAll(job, files, input)
    ensures w.Ordered(job.(inputs := Pieces(outs)), files, Written(outs), k)
    ensures Sorted(Written(outs)) && Real(job, Written(outs))
  {
    hide CompactAll, Finished, Pieces, Written;
    OutputSorted(job, files, input);
    forall o | o in Written(outs) ensures exists e :: e in input && e.key == o.key && e.sn == o.sn {
      var e := OutputOf(job, files, input, o);
    }
    forall p | p in Pieces(outs) ensures exists t :: t in job.inputs && t.sn == p.sn && (p.Covers(k) ==> t.Covers(k)) {
      var t := PieceOf(outs, kept, p, k);
    }
  }

  /**
   * The engine's loop and the theorem together: whatever surrounds the inputs, running
   * the compaction changes no live reader's read of any key, and keeps the layer order.
   */
  method CompactUnnoticed(job: Job, files: seq<Span>, input: seq<Entry>, stop: nat -> bool, full: nat -> bool,
                          ghost w: Surroundings, ghost k: Key, ghost r: SeqNo)
    returns (outputs: seq<Output>)
    requires job.Valid() && job.Live(r) && MergeLaws(job.mop) && job.last < MAX_SEQ
    requires forall t :: t in job.inputs ==> t.begin < t.end
    requires Sorted(input) && Real(job, input) && w.Ordered(job, files, input, k)
    ensures Read(job.mop, w.EntriesWith(Written(outputs)), w.TombsWith(Pieces(outputs)), k, r) ==
            Read(job.mop, w.EntriesWith(input), w.TombsWith(job.inputs), k, r)
    ensures w.Ordered(job.(inputs := Pieces(outputs)), files, Written(outputs), k)
  {
    hide CompactAll, Finished, Pieces, Written, Fold, MergeLaws, Surroundings.Ordered;
    var kept;
    outputs, kept := DoCompactionWork(job, files, input, stop, full);
    CompactionInvisible(job, files, w, input, kept, outputs, k, r);
    OrderKept(job, files, w, input, kept, outputs, k);
  }
}
