/**
 * What a compaction makes of one key's entries.  Snapshots cut the entries into
 * stripes, and a stripe shrinks to what its readers make of it: covered entries become
 * deletions, operands are folded where their base is in hand, deletions of nothing
 * go.  The partner is Visibility.Resolve: no live reader can tell.
 */
module CompactGroups {
  import opened Core
  import opened Visibility

  /** A running compaction: live snapshots oldest first, the last sequence, the input files' tombstones. */
  datatype Job = Job(snapshots: seq<SeqNo>, last: SeqNo, inputs: seq<Tombstone>, mop: Option<MergeOperator>)
  {
    ghost predicate Valid() {
      && (forall i, j | 0 <= i < j < |snapshots| :: snapshots[i] <= snapshots[j])
      && (forall i | 0 <= i < |snapshots| :: snapshots[i] <= last)
      && (forall t :: t in inputs ==> t.sn <= last)
      && last <= MAX_SEQ && LayersBounded(inputs)
    }

    /** Readers that may be served: at a live snapshot, or at or past the last sequence. */
    ghost predicate Live(r: SeqNo) {
      r in snapshots || last <= r
    }

    /** smallest_snapshot: every reader sees at least this far. */
    function Smallest(): SeqNo {
      if snapshots == [] then last else snapshots[0]
    }

    /** std::lower_bound: how many snapshots are older than sn. */
    function StripeOf(sn: SeqNo): (i: nat)
      ensures i <= |snapshots|
      ensures forall j | 0 <= j < i :: snapshots[j] < sn
      ensures i < |snapshots| ==> sn <= snapshots[i]
    {
      LowerBound(snapshots, sn)
    }

    /** The newest sequence number a stripe can hold. */
    function Bound(stripe: nat): SeqNo {
      if stripe < |snapshots| then snapshots[stripe] else MAX_SEQ
    }

    /** The entry as every reader of its stripe sees it: covered by a tombstone they all see, it is a deletion. */
    function Effective(e: Entry, bound: SeqNo): Entry {
      if e.kind != Deletion && NaiveMax(inputs, e.key, bound, ALL_LAYERS) > e.sn
      then Entry(e.key, e.sn, Deletion, "") else e
    }

    /** How many entries at the head are operands in this stripe's eyes. */
    function Operands(stripe: seq<Entry>, bound: SeqNo): (n: nat)
      ensures n <= |stripe|
      ensures forall i | 0 <= i < n :: Effective(stripe[i], bound).kind == Merge
      ensures n < |stripe| ==> Effective(stripe[n], bound).kind != Merge
    {
      if stripe == [] || Effective(stripe[0], bound).kind != Merge then 0
      else
        var n := 1 + Operands(stripe[1..], bound);
        assert n - 1 < |stripe[1..]| ==> stripe[1..][n - 1] == stripe[n];
        n
    }

    /** What one stripe compacts to; `lastStripe`: no older entry of the key in the inputs. */
    function CompactStripe(stripe: seq<Entry>, index: nat, lastStripe: bool, baseLevel: bool): seq<Entry>
      requires stripe != []
    {
      var bound := Bound(index);
      var n := Operands(stripe, bound);
      var settled := n < |stripe|;
      var settle := if settled then [Effective(stripe[n], bound)] else [];
      var base := if settled && settle[0].kind == Put then Some(settle[0].value) else None;
      var asIs := stripe[..n] + settle;
      if settled && n == 0 then
        (if settle[0].kind == Deletion && index == 0 && baseLevel then [] else settle)
      else if mop.Some? && (settled || (lastStripe && baseLevel)) then
        (match mop.value.full(stripe[0].key, base, Reversed(Values(stripe[..n])))
         case Some(v) => [Entry(stripe[0].key, stripe[0].sn, Put, v)]
         case None => asIs)
      else if mop.Some? && n > 1 then
        (match FoldPartial(stripe[0].key, Values(stripe[..n]))
         case Some(v) => [Entry(stripe[0].key, stripe[0].sn, Merge, v)]
         case None => asIs)
      else asIs
    }

    /** PartialMerge from the oldest operand up, given newest first. */
    function FoldPartial(k: Key, ops: seq<Value>): Option<Value>
      requires mop.Some? && ops != []
    {
      if |ops| == 1 then Some(ops[0])
      else
        match FoldPartial(k, ops[1..])
        case None => None
        case Some(acc) => mop.value.partial(k, acc, ops[0])
    }

    /** How many entries share the first one's stripe. */
    function StripeLength(group: seq<Entry>, index: nat): (n: nat)
      ensures n <= |group|
      ensures forall i | 0 <= i < n :: StripeOf(group[i].sn) == index
      ensures n < |group| ==> StripeOf(group[n].sn) != index
    {
      if group == [] || StripeOf(group[0].sn) != index then 0
      else
        var n := 1 + StripeLength(group[1..], index);
        assert n - 1 < |group[1..]| ==> group[1..][n - 1] == group[n];
        n
    }

    /** What the whole group compacts to. */
    function Compacted(group: seq<Entry>, baseLevel: bool): seq<Entry>
      decreases |group|
    {
      if group == [] then []
      else
        var index := StripeOf(group[0].sn);
        var n := StripeLength(group, index);
        CompactStripe(group[..n], index, n == |group|, baseLevel) + Compacted(group[n..], baseLevel)
    }
  }

  function LowerBound(s: seq<SeqNo>, x: SeqNo): (i: nat)
    ensures i <= |s|
    ensures forall j | 0 <= j < i :: s[j] < x
    ensures i < |s| ==> x <= s[i]
  {
    if s == [] || x <= s[0] then 0
    else
      var i := 1 + LowerBound(s[1..], x);
      assert i - 1 < |s[1..]| ==> s[1..][i - 1] == s[i];
      i
  }

  /** A group: entries of one key, newest first. */
  ghost predicate IsGroup(group: seq<Entry>, k: Key) {
    && (forall i | 0 <= i < |group| :: group[i].key == k && group[i].sn >= 1)
    && (forall i, j | 0 <= i < j < |group| :: group[i].sn > group[j].sn)
  }

  // ---- Contents that readers cannot tell apart ----

  lemma EquivalentReflexive(mop: Option<MergeOperator>, k: Key, c: Content)
    ensures Equivalent(mop, k, c, c)
  {
  }

  lemma EquivalentTransitive(mop: Option<MergeOperator>, k: Key, a: Content, b: Content, c: Content)
    requires Equivalent(mop, k, a, b) && Equivalent(mop, k, b, c)
    ensures Equivalent(mop, k, a, c)
  {
    forall more: seq<Value> ensures Finish(mop, k, Push(a, more)) == Finish(mop, k, Push(c, more)) {
      assert Finish(mop, k, Push(a, more)) == Finish(mop, k, Push(b, more));
    }
  }

  /** Operands on top of equivalent contents give equivalent contents. */
  lemma EquivalentPush(mop: Option<MergeOperator>, k: Key, a: Content, b: Content, x: seq<Value>)
    requires Equivalent(mop, k, a, b)
    ensures Equivalent(mop, k, Push(a, x), Push(b, x))
  {
    hide Finish;
    forall more: seq<Value>
      ensures Finish(mop, k, Push(Push(a, x), more)) == Finish(mop, k, Push(Push(b, x), more))
    {
      assert Push(Push(a, x), more) == Push(a, x + more);
      assert Push(Push(b, x), more) == Push(b, x + more);
    }
  }

  /** A key that one of two equivalent contents leaves absent, the other leaves absent. */
  lemma EquivalentFinish(mop: Option<MergeOperator>, k: Key, a: Content, b: Content)
    requires Equivalent(mop, k, a, b)
    ensures Finish(mop, k, a) == Finish(mop, k, b)
  {
    assert Push(a, []) == a && Push(b, []) == b;
  }

  /** Folding operands into a value: FullMerge splits over concatenation. */
  lemma FullMergeFolds(mop: Option<MergeOperator>, k: Key, base: Option<Value>, ops: seq<Value>)
    requires MergeLaws(mop) && mop.Some? && ops != []
    requires mop.value.full(k, base, ops).Some?
    ensures Equivalent(mop, k, Content(base, ops), Content(mop.value.full(k, base, ops), []))
  {
    var m, v := mop.value, mop.value.full(k, base, ops).value;
    forall more: seq<Value>
      ensures Finish(mop, k, Push(Content(base, ops), more)) == Finish(mop, k, Push(Content(Some(v), []), more))
    {
      if more == [] {
        assert ops + more == ops && [] + more == more;
      } else {
        assert m.full(k, base, ops + more) == m.full(k, Some(v), more);
        assert [] + more == more;
      }
    }
  }

  /** Two contents whose operand lists FullMerge cannot tell apart on any base. */
  lemma SameOnEveryBase(mop: Option<MergeOperator>, k: Key, c: Content, xs: seq<Value>, ys: seq<Value>)
    requires MergeLaws(mop) && mop.Some? && xs != [] && ys != []
    requires forall b: Option<Value> :: mop.value.full(k, b, xs) == mop.value.full(k, b, ys)
    ensures Equivalent(mop, k, Push(c, xs), Push(c, ys))
  {
    var m := mop.value;
    forall more: seq<Value>
      ensures Finish(mop, k, Push(Push(c, xs), more)) == Finish(mop, k, Push(Push(c, ys), more))
    {
      FullOnTop(m, k, c, xs, more);
      FullOnTop(m, k, c, ys, more);
    }
  }

  /** FullMerge of pre + xs + more, taken apart around xs. */
  ghost function Through(m: MergeOperator, k: Key, c: Content, f: Option<Value> -> Option<Value>,
                         more: seq<Value>): Option<Value> {
    var below := if c.ops == [] then Some(c.base) else
                 match m.full(k, c.base, c.ops) case None => None case Some(v) => Some(Some(v));
    match below
    case None => None
    case Some(b) =>
      match f(b)
      case None => None
      case Some(v) => if more == [] then Some(v) else m.full(k, Some(v), more)
  }

  lemma FullOnTop(m: MergeOperator, k: Key, c: Content, xs: seq<Value>, more: seq<Value>)
    requires FullMergeSplits(m) && xs != []
    ensures m.full(k, c.base, c.ops + xs + more) == Through(m, k, c, b => m.full(k, b, xs), more)
  {
    assert c.ops == [] ==> c.ops + xs == xs;
    if more == [] {
      assert c.ops + xs + more == c.ops + xs;
    }
    if c.ops != [] {
      assert m.full(k, c.base, c.ops + xs) ==
             match m.full(k, c.base, c.ops) case None => None case Some(v) => m.full(k, Some(v), xs);
    }
    if more != [] {
      assert m.full(k, c.base, (c.ops + xs) + more) ==
             match m.full(k, c.base, c.ops + xs) case None => None case Some(v) => m.full(k, Some(v), more);
    }
  }

  // ---- The rest of the database around a group ----

  /**
   * What surrounds the inputs for one key: tombstones of newer layers, tombstones
   * and entries of deeper levels, the input tombstones that are carried on, and
   * whether the key has anything below the output level.
   */
  datatype Rest = Rest(newer: seq<Tombstone>, kept: seq<Tombstone>, deeper: seq<Tombstone>, deep: seq<Entry>,
                       baseLevel: bool)
  {
    function Before(job: Job): seq<Tombstone> {
      newer + job.inputs + deeper
    }

    function After(): seq<Tombstone> {
      newer + kept + deeper
    }

    /**
     * The layer order around the group, and the two rules for leaving things out:
     * a tombstone is dropped only if every reader sees it and nothing it covers
     * lies deeper; baseLevel means nothing of the key lies deeper.
     */
    ghost predicate Fits(job: Job, group: seq<Entry>, k: Key) {
      && IsGroup(group, k)
      && (forall i | 0 <= i < |group| :: group[i].sn <= job.last)
      && (forall t, i | t in newer && t.Covers(k) && 0 <= i < |group| :: group[i].sn < t.sn)
      && (forall t, i | t in deeper && t.Covers(k) && 0 <= i < |group| :: t.sn < group[i].sn)
      && (forall t, i | t in job.inputs && t.Covers(k) && 0 <= i < |group| :: t.sn != group[i].sn)
      && (forall e, i | e in deep && e.key == k && 0 <= i < |group| :: e.sn < group[i].sn)
      && (forall t :: t in kept ==> t in job.inputs)
      && (forall t :: t in job.inputs && t !in kept ==> t.sn <= job.Smallest())
      && (forall t :: t in job.inputs && t !in kept && t.Covers(k) ==> NoneOf(deep, k))
      && (baseLevel ==> NoneOf(deep, k))
    }
  }

  ghost predicate NoneOf(es: seq<Entry>, k: Key) {
    forall e :: e in es ==> e.key != k
  }

  /** What is read below the group, before and after: the deeper entries. */
  ghost function Older(job: Job, s: Rest, group: seq<Entry>, k: Key, r: SeqNo): Content {
    Resolve(group + s.deep, s.Before(job), k, r)
  }

  ghost function Newer(job: Job, s: Rest, group: seq<Entry>, k: Key, r: SeqNo): Content {
    Resolve(job.Compacted(group, s.baseLevel) + s.deep, s.After(), k, r)
  }

  /** A live reader sees all of a stripe or nothing of it. */
  lemma StripeVisibility(job: Job, r: SeqNo, a: SeqNo, b: SeqNo)
    requires job.Valid() && job.Live(r) && job.StripeOf(a) == job.StripeOf(b) && a <= r && b <= job.last
    ensures b <= r
  {
    if r in job.snapshots {
      var i :| 0 <= i < |job.snapshots| && job.snapshots[i] == r;
      assert job.StripeOf(a) <= i;
    }
  }

  /** What a stripe's bound includes of the input tombstones, its readers see. */
  lemma BoundVisible(job: Job, r: SeqNo, a: SeqNo, t: Tombstone)
    requires job.Valid() && job.Live(r) && a <= r && t in job.inputs && t.sn <= job.Bound(job.StripeOf(a))
    ensures t.sn <= r
  {
    if r in job.snapshots {
      var i :| 0 <= i < |job.snapshots| && job.snapshots[i] == r;
      assert job.StripeOf(a) <= i;
    }
  }

  lemma StripeWithinBound(job: Job, a: SeqNo)
    requires job.Valid() && a <= job.last
    ensures a <= job.Bound(job.StripeOf(a))
  {
  }

  lemma StripeMonotone(job: Job, a: SeqNo, b: SeqNo)
    requires a <= b
    ensures job.StripeOf(a) <= job.StripeOf(b)
  {
  }

  /** Everything after the first stripe of a group is in older stripes, so stripe 0 is the last. */
  lemma OlderStripes(job: Job, group: seq<Entry>, k: Key)
    requires IsGroup(group, k) && group != []
    ensures var index := job.StripeOf(group[0].sn);
            index == 0 ==> job.StripeLength(group, index) == |group|
    ensures job.StripeLength(group, job.StripeOf(group[0].sn)) > 0
  {
    var index := job.StripeOf(group[0].sn);
    var n := job.StripeLength(group, index);
    if n < |group| {
      StripeMonotone(job, group[n].sn, group[0].sn);
    }
  }

  lemma FitsSuffix(job: Job, s: Rest, group: seq<Entry>, k: Key, n: nat)
    requires s.Fits(job, group, k) && n <= |group|
    ensures s.Fits(job, group[n..], k)
  {
  }

  /** A tombstone newer than the whole group, seen by the reader, leaves nothing of the key. */
  lemma HiddenGroup(job: Job, s: Rest, group: seq<Entry>, k: Key, r: SeqNo, t: Tombstone)
    requires s.Fits(job, group, k) && t in s.Before(job) && t.Covers(k) && t.sn <= r
    requires group != [] && group[0].sn < t.sn
    ensures forall n | 0 <= n <= |group| :: Older(job, s, group[n..], k, r) == ABSENT
  {
    forall n | 0 <= n <= |group| ensures Older(job, s, group[n..], k, r) == ABSENT {
      var es := group[n..] + s.deep;
      forall i | 0 <= i < |es| && es[i].key == k && es[i].sn <= r ensures Hidden(s.Before(job), k, es[i].sn, r) {
        if i < |group| - n {
          assert es[i] == group[n + i];
        } else {
          assert es[i] in s.deep;
        }
      }
      FoldHidden(es, s.Before(job), k, r);
    }
  }

  /** What a stripe compacts to is numbered like entries of the stripe; only an obsolete deletion leaves nothing. */
  lemma StripeOutputs(job: Job, stripe: seq<Entry>, index: nat, lastStripe: bool, baseLevel: bool)
    requires stripe != [] && forall i | 0 <= i < |stripe| :: stripe[i].key == stripe[0].key
    ensures var out := job.CompactStripe(stripe, index, lastStripe, baseLevel);
            && (forall x | 0 <= x < |out| ::
                  out[x].key == stripe[0].key && exists i :: 0 <= i < |stripe| && out[x].sn == stripe[i].sn)
            && (out == [] ==> index == 0 && baseLevel && job.Effective(stripe[0], job.Bound(index)).kind == Deletion)
  {
    var bound := job.Bound(index);
    var n := job.Operands(stripe, bound);
    var out := job.CompactStripe(stripe, index, lastStripe, baseLevel);
    forall x | 0 <= x < |out|
      ensures out[x].key == stripe[0].key && exists i :: 0 <= i < |stripe| && out[x].sn == stripe[i].sn
    {
      if x < n && out[x] == stripe[x] {
      } else if n < |stripe| && out[x] == job.Effective(stripe[n], bound) {
        assert out[x].sn == stripe[n].sn;
      } else {
        assert out[x].sn == stripe[0].sn;
      }
    }
  }

  // ---- One stripe ----

  /** The first stripe of a group, and the reader, as the lemmas below take them. */
  ghost predicate FirstStripe(job: Job, s: Rest, group: seq<Entry>, k: Key, r: SeqNo, index: nat, n: nat) {
    && job.Valid() && job.Live(r) && MergeLaws(job.mop)
    && s.Fits(job, group, k) && group != []
    && index == job.StripeOf(group[0].sn) && n == job.StripeLength(group, index) && 0 < n
  }

  ghost function StripeOut(job: Job, s: Rest, group: seq<Entry>, index: nat, n: nat): seq<Entry>
    requires 0 < n <= |group|
  {
    job.CompactStripe(group[..n], index, n == |group|, s.baseLevel)
  }

  /** A stripe the reader does not see says nothing, before and after. */
  lemma UnseenStripe(job: Job, s: Rest, group: seq<Entry>, k: Key, r: SeqNo, index: nat, n: nat, c: Content,
                     c': Content)
    requires FirstStripe(job, s, group, k, r, index, n) && r < group[0].sn
    ensures Fold(group[..n], s.Before(job), k, r, c) == c
    ensures Fold(StripeOut(job, s, group, index, n), s.After(), k, r, c') == c'
  {
    var stripe, out := group[..n], StripeOut(job, s, group, index, n);
    forall i | 0 <= i < n ensures r < stripe[i].sn {
      if stripe[i].sn <= r {
        StripeVisibility(job, r, stripe[i].sn, group[0].sn);
      }
    }
    StripeOutputs(job, stripe, index, n == |group|, s.baseLevel);
    FoldNothing(stripe, s.Before(job), k, r, c);
    FoldNothing(out, s.After(), k, r, c');
  }

  /** A non-empty list whose newest entry is hidden leaves the key absent. */
  lemma HiddenHead(es: seq<Entry>, ts: seq<Tombstone>, k: Key, r: SeqNo, c: Content, t: Tombstone)
    requires es != [] && es[0].key == k && es[0].sn <= r
    requires es[0].kind == Deletion || (t in ts && t.Covers(k) && es[0].sn < t.sn <= r)
    ensures Fold(es, ts, k, r, c) == ABSENT
  {
  }

  /** With nothing deeper and no older stripe there is nothing older at all. */
  lemma NothingOlder(job: Job, s: Rest, k: Key, r: SeqNo)
    requires s.baseLevel ==> NoneOf(s.deep, k)
    ensures s.baseLevel ==> Older(job, s, [], k, r) == ABSENT && Newer(job, s, [], k, r) == ABSENT
  {
    assert [] + s.deep == s.deep;
    if s.baseLevel {
      FoldNothing(s.deep, s.Before(job), k, r, ABSENT);
      FoldNothing(s.deep, s.After(), k, r, ABSENT);
    }
  }

  /** A stripe whose newest entry is a deletion in its readers' eyes keeps that deletion at most. */
  lemma DeletionHead(job: Job, stripe: seq<Entry>, index: nat, lastStripe: bool, baseLevel: bool)
    requires stripe != [] && job.Effective(stripe[0], job.Bound(index)).kind == Deletion
    ensures job.CompactStripe(stripe, index, lastStripe, baseLevel) ==
            if index == 0 && baseLevel then [] else [job.Effective(stripe[0], job.Bound(index))]
  {
    assert job.Operands(stripe, job.Bound(index)) == 0;
  }

  /** What a stripe hidden as a whole compacts to leaves the key absent as well. */
  lemma HiddenStripeOut(job: Job, s: Rest, group: seq<Entry>, k: Key, r: SeqNo, index: nat, n: nat, t: Tombstone,
                        c': Content)
    requires FirstStripe(job, s, group, k, r, index, n) && group[0].sn <= r
    requires t in s.Before(job) && t.Covers(k) && group[0].sn < t.sn <= r
    ensures StripeOut(job, s, group, index, n) == [] ||
            Fold(StripeOut(job, s, group, index, n), s.After(), k, r, c') == ABSENT
  {
    var stripe, out := group[..n], StripeOut(job, s, group, index, n);
    StripeOutputs(job, stripe, index, n == |group|, s.baseLevel);
    if out != [] {
      if t in s.After() {
        assert out[0].sn <= group[0].sn;
      } else {
        // Dropped, so within every stripe's bound: the newest entry became a deletion.
        DroppedCovers(job, k, group[0].sn, t);
        DeletionHead(job, stripe, index, n == |group|, s.baseLevel);
      }
      HiddenHead(out, s.After(), k, r, c', t);
    }
  }

  /** A stripe hidden as a whole by a tombstone the reader sees. */
  lemma HiddenStripe(job: Job, s: Rest, group: seq<Entry>, k: Key, r: SeqNo, index: nat, n: nat, t: Tombstone)
    requires FirstStripe(job, s, group, k, r, index, n) && group[0].sn <= r
    requires t in s.Before(job) && t.Covers(k) && group[0].sn < t.sn <= r
    requires Equivalent(job.mop, k, Older(job, s, group[n..], k, r), Newer(job, s, group[n..], k, r))
    ensures Fold(group[..n], s.Before(job), k, r, Older(job, s, group[n..], k, r)) == ABSENT
    ensures Equivalent(job.mop, k, ABSENT,
                       Fold(StripeOut(job, s, group, index, n), s.After(), k, r, Newer(job, s, group[n..], k, r)))
  {
    HiddenHead(group[..n], s.Before(job), k, r, Older(job, s, group[n..], k, r), t);
    HiddenGroup(job, s, group, k, r, t);
    HiddenStripeOut(job, s, group, k, r, index, n, t, Newer(job, s, group[n..], k, r));
    EquivalentReflexive(job.mop, k, ABSENT);
  }

  /** A tombstone every reader sees covers whatever it covers within the entry's stripe. */
  lemma DroppedCovers(job: Job, k: Key, a: SeqNo, t: Tombstone)
    requires job.Valid() && t in job.inputs && t.Covers(k) && a < t.sn <= job.Smallest()
    ensures NaiveMax(job.inputs, k, job.Bound(job.StripeOf(a)), ALL_LAYERS) > a
  {
    var bound := job.Bound(job.StripeOf(a));
    assert t.sn <= bound;
    HiddenIffMaxAbove(job.inputs, k, a, bound);
  }

  // ---- A stripe no tombstone hides as a whole ----

  /** No visible tombstone is newer than the newest entry of the stripe. */
  ghost predicate NoneNewer(job: Job, s: Rest, group: seq<Entry>, k: Key, r: SeqNo)
    requires group != []
  {
    forall t :: t in s.Before(job) && t.Covers(k) && t.sn <= r ==> t.sn <= group[0].sn
  }

  /** Then what the compaction takes for covered is exactly what the reader finds hidden. */
  lemma EffectiveIsHidden(job: Job, s: Rest, group: seq<Entry>, k: Key, r: SeqNo, index: nat, n: nat, i: nat)
    requires FirstStripe(job, s, group, k, r, index, n) && group[0].sn <= r && NoneNewer(job, s, group, k, r) && i < n
    ensures Hidden(s.Before(job), k, group[i].sn, r) <==>
            NaiveMax(job.inputs, k, job.Bound(index), ALL_LAYERS) > group[i].sn
  {
    var bound := job.Bound(index);
    HiddenIffMaxAbove(job.inputs, k, group[i].sn, bound);
    StripeWithinBound(job, group[0].sn);
    if Hidden(s.Before(job), k, group[i].sn, r) {
      var t :| t in s.Before(job) && t.Covers(k) && group[i].sn < t.sn <= r;
      assert t.sn <= group[0].sn <= bound;
      assert t in job.inputs;
      assert Hidden(job.inputs, k, group[i].sn, bound);
    }
    if Hidden(job.inputs, k, group[i].sn, bound) {
      var t :| t in job.inputs && t.Covers(k) && group[i].sn < t.sn <= bound;
      BoundVisible(job, r, group[0].sn, t);
      assert t in s.Before(job);
    }
  }

  /** What one entry makes of what is older is what its effective form makes of it. */
  lemma EffectiveStep(job: Job, s: Rest, group: seq<Entry>, k: Key, r: SeqNo, index: nat, n: nat, i: nat, c: Content)
    requires FirstStripe(job, s, group, k, r, index, n) && group[0].sn <= r && NoneNewer(job, s, group, k, r) && i < n
    ensures var e := job.Effective(group[i], job.Bound(index));
            && e.key == k && e.sn == group[i].sn <= r
            && Step(group[i], s.Before(job), k, r, c) ==
               (match e.kind
                case Deletion => ABSENT
                case Put => Content(Some(e.value), [])
                case Merge => Push(c, [e.value]))
            && (e.kind != Deletion ==> e == group[i] && !Hidden(s.After(), k, e.sn, r))
  {
    EffectiveIsHidden(job, s, group, k, r, index, n, i);
    assert group[i].sn <= group[0].sn;
    if Hidden(s.After(), k, group[i].sn, r) {
      var t :| t in s.After() && t.Covers(k) && group[i].sn < t.sn <= r;
      assert t in s.Before(job);
    }
  }

  /** Entries that all count as operands push their values. */
  lemma {:induction false} FoldOperands(es: seq<Entry>, ts: seq<Tombstone>, k: Key, r: SeqNo, c: Content)
    requires forall i, c0 {:trigger Step(es[i], ts, k, r, c0)} | 0 <= i < |es| ::
               Step(es[i], ts, k, r, c0) == Push(c0, [es[i].value])
    ensures Fold(es, ts, k, r, c) == Push(c, Reversed(Values(es)))
  {
    if es == [] {
      assert c.ops + [] == c.ops;
    } else {
      forall i, c0 | 0 <= i < |es[1..]| ensures Step(es[1..][i], ts, k, r, c0) == Push(c0, [es[1..][i].value]) {
        assert es[1..][i] == es[i + 1];
      }
      FoldOperands(es[1..], ts, k, r, c);
      assert Values(es)[1..] == Values(es[1..]);
      var rev := Reversed(Values(es[1..]));
      assert Push(Push(c, rev), [es[0].value]) == Push(c, rev + [es[0].value]);
    }
  }

  // ---- The cases of an unhidden stripe ----

  /** What settles a stripe, or what is older if nothing does. */
  ghost function Under(job: Job, stripe: seq<Entry>, index: nat, c: Content): Content {
    var bound := job.Bound(index);
    var m := job.Operands(stripe, bound);
    if m < |stripe| then
      var e := job.Effective(stripe[m], bound);
      if e.kind == Put then Content(Some(e.value), []) else ABSENT
    else c
  }

  ghost function StripeOps(job: Job, stripe: seq<Entry>, index: nat): seq<Value> {
    Reversed(Values(stripe[..job.Operands(stripe, job.Bound(index))]))
  }

  ghost predicate PlainStripe(job: Job, s: Rest, group: seq<Entry>, k: Key, r: SeqNo, index: nat, n: nat) {
    FirstStripe(job, s, group, k, r, index, n) && group[0].sn <= r && NoneNewer(job, s, group, k, r)
  }

  /** Before: what is read under the operands. */
  lemma UnderBefore(job: Job, s: Rest, group: seq<Entry>, k: Key, r: SeqNo, index: nat, n: nat, m: nat, c: Content)
    requires PlainStripe(job, s, group, k, r, index, n) && m == job.Operands(group[..n], job.Bound(index))
    ensures Fold(group[m..n], s.Before(job), k, r, c) == Under(job, group[..n], index, c)
  {
    if m < n {
      EffectiveStep(job, s, group, k, r, index, n, m, Fold(group[m..n][1..], s.Before(job), k, r, c));
    }
  }

  /** Before and after: the operands on top. */
  lemma OperandsOnTop(job: Job, s: Rest, group: seq<Entry>, k: Key, r: SeqNo, index: nat, n: nat, m: nat, c: Content)
    requires PlainStripe(job, s, group, k, r, index, n) && m == job.Operands(group[..n], job.Bound(index))
    ensures Fold(group[..m], s.Before(job), k, r, c) == Push(c, StripeOps(job, group[..n], index))
    ensures Fold(group[..m], s.After(), k, r, c) == Push(c, StripeOps(job, group[..n], index))
  {
    assert group[..n][..m] == group[..m];
    forall i, c0 | 0 <= i < m
      ensures Step(group[..m][i], s.Before(job), k, r, c0) == Push(c0, [group[..m][i].value])
      ensures Step(group[..m][i], s.After(), k, r, c0) == Push(c0, [group[..m][i].value])
    {
      assert group[..n][i] == group[i];
      EffectiveStep(job, s, group, k, r, index, n, i, c0);
    }
    FoldOperands(group[..m], s.Before(job), k, r, c);
    FoldOperands(group[..m], s.After(), k, r, c);
  }

  /** Before: the operands on what settles the stripe, or on what is older. */
  lemma PlainBefore(job: Job, s: Rest, group: seq<Entry>, k: Key, r: SeqNo, index: nat, n: nat, c: Content)
    requires PlainStripe(job, s, group, k, r, index, n)
    ensures Fold(group[..n], s.Before(job), k, r, c) ==
            Push(Under(job, group[..n], index, c), StripeOps(job, group[..n], index))
  {
    hide Fold, Under, StripeOps;
    var m := job.Operands(group[..n], job.Bound(index));
    assert group[..n] == group[..m] + group[m..n];
    FoldConcat(group[..m], group[m..n], s.Before(job), k, r, c);
    UnderBefore(job, s, group, k, r, index, n, m, c);
    OperandsOnTop(job, s, group, k, r, index, n, m, Under(job, group[..n], index, c));
  }

  /** After, when the stripe is kept as it is: what is read under the operands. */
  lemma UnderAsIs(job: Job, s: Rest, group: seq<Entry>, k: Key, r: SeqNo, index: nat, n: nat, m: nat, c: Content)
    requires PlainStripe(job, s, group, k, r, index, n) && m == job.Operands(group[..n], job.Bound(index))
    ensures var settle := if m < n then [job.Effective(group[m], job.Bound(index))] else [];
            Fold(settle, s.After(), k, r, c) == Under(job, group[..n], index, c)
  {
    if m < n {
      var settle := [job.Effective(group[m], job.Bound(index))];
      EffectiveStep(job, s, group, k, r, index, n, m, c);
      assert settle[1..] == [];
    }
  }

  /** After, when the stripe is kept as it is. */
  lemma PlainAsIs(job: Job, s: Rest, group: seq<Entry>, k: Key, r: SeqNo, index: nat, n: nat, c: Content)
    requires PlainStripe(job, s, group, k, r, index, n)
    ensures var stripe, bound := group[..n], job.Bound(index);
            var m := job.Operands(stripe, bound);
            var settle := if m < n then [job.Effective(stripe[m], bound)] else [];
            Fold(stripe[..m] + settle, s.After(), k, r, c) ==
              Push(Under(job, stripe, index, c), StripeOps(job, stripe, index))
  {
    var stripe, bound := group[..n], job.Bound(index);
    var m := job.Operands(stripe, bound);
    var settle := if m < n then [job.Effective(stripe[m], bound)] else [];
    assert stripe[..m] == group[..m];
    FoldConcat(group[..m], settle, s.After(), k, r, c);
    UnderAsIs(job, s, group, k, r, index, n, m, c);
    OperandsOnTop(job, s, group, k, r, index, n, m, Under(job, stripe, index, c));
  }

  /** After, when the stripe became one entry at its newest number. */
  lemma PlainSingle(job: Job, s: Rest, group: seq<Entry>, k: Key, r: SeqNo, index: nat, n: nat, kind: Kind, v: Value,
                    c: Content)
    requires PlainStripe(job, s, group, k, r, index, n) && kind != Deletion
    ensures Fold([Entry(k, group[0].sn, kind, v)], s.After(), k, r, c) ==
            if kind == Put then Content(Some(v), []) else Push(c, [v])
  {
    var e := Entry(k, group[0].sn, kind, v);
    assert [e][1..] == [];
    assert forall t :: t in s.After() ==> t in s.Before(job);
  }

  /** PartialMerge from the oldest operand up stands for all of them. */
  lemma {:induction false} FoldPartialSame(job: Job, k: Key, ops: seq<Value>, b: Option<Value>)
    requires job.mop.Some? && MergeLaws(job.mop) && ops != [] && job.FoldPartial(k, ops).Some?
    ensures job.mop.value.full(k, b, Reversed(ops)) == job.mop.value.full(k, b, [job.FoldPartial(k, ops).value])
  {
    var m := job.mop.value;
    if |ops| == 1 {
      assert ops[1..] == [];
      assert Reversed(ops) == [ops[0]];
    } else {
      var acc := job.FoldPartial(k, ops[1..]).value;
      FoldPartialSame(job, k, ops[1..], b);
      var older := Reversed(ops[1..]);
      assert m.full(k, b, older + [ops[0]]) ==
             match m.full(k, b, older) case None => None case Some(v) => m.full(k, Some(v), [ops[0]]);
      assert m.full(k, b, [acc] + [ops[0]]) ==
             match m.full(k, b, [acc]) case None => None case Some(v) => m.full(k, Some(v), [ops[0]]);
      assert [acc] + [ops[0]] == [acc, ops[0]];
    }
  }

  /** An unhidden stripe: whatever CompactStripe does with it, the reader gets the same. */
  lemma PlainInvisible(job: Job, s: Rest, group: seq<Entry>, k: Key, r: SeqNo, index: nat, n: nat)
    requires PlainStripe(job, s, group, k, r, index, n)
    requires Equivalent(job.mop, k, Older(job, s, group[n..], k, r), Newer(job, s, group[n..], k, r))
    ensures Equivalent(job.mop, k,
                       Fold(group[..n], s.Before(job), k, r, Older(job, s, group[n..], k, r)),
                       Fold(StripeOut(job, s, group, index, n), s.After(), k, r, Newer(job, s, group[n..], k, r)))
  {
    var c, c' := Older(job, s, group[n..], k, r), Newer(job, s, group[n..], k, r);
    var stripe, bound := group[..n], job.Bound(index);
    var m := job.Operands(stripe, bound);
    var ops := StripeOps(job, stripe, index);
    PlainBefore(job, s, group, k, r, index, n, c);
    PlainAsIs(job, s, group, k, r, index, n, c');
    UnderEquivalent(job, stripe, index, k, c, c');
    EquivalentPush(job.mop, k, Under(job, stripe, index, c), Under(job, stripe, index, c'), ops);
    var out := StripeOut(job, s, group, index, n);
    if m < n && m == 0 {
      PlainSettled(job, s, group, k, r, index, n, c, c');
    } else if job.mop.Some? && (m < n || (n == |group| && s.baseLevel)) {
      PlainFull(job, s, group, k, r, index, n, c, c');
    } else if job.mop.Some? && m > 1 {
      PlainPartial(job, s, group, k, r, index, n, c, c');
    }
  }

  lemma UnderEquivalent(job: Job, stripe: seq<Entry>, index: nat, k: Key, c: Content, c': Content)
    requires Equivalent(job.mop, k, c, c')
    ensures Equivalent(job.mop, k, Under(job, stripe, index, c), Under(job, stripe, index, c'))
  {
    EquivalentReflexive(job.mop, k, Under(job, stripe, index, ABSENT));
  }

  /** The stripe is settled by its newest entry. */
  lemma PlainSettled(job: Job, s: Rest, group: seq<Entry>, k: Key, r: SeqNo, index: nat, n: nat, c: Content,
                     c': Content)
    requires PlainStripe(job, s, group, k, r, index, n) && job.Operands(group[..n], job.Bound(index)) == 0
    requires c == Older(job, s, group[n..], k, r) && c' == Newer(job, s, group[n..], k, r)
    ensures Fold(StripeOut(job, s, group, index, n), s.After(), k, r, c') == Under(job, group[..n], index, c)
  {
    var stripe := group[..n];
    var e := job.Effective(stripe[0], job.Bound(index));
    PlainAsIs(job, s, group, k, r, index, n, c');
    assert stripe[..0] + [e] == [e];
    assert Push(Under(job, stripe, index, c'), []) == Under(job, stripe, index, c');
    assert Reversed(Values(stripe[..0])) == [];
    if e.kind == Deletion && index == 0 && s.baseLevel {
      OlderStripes(job, group, k);
      assert group[n..] == [];
      NothingOlder(job, s, k, r);
    }
  }

  /** The stripe's operands have their base in hand, or certainly none. */
  lemma PlainFull(job: Job, s: Rest, group: seq<Entry>, k: Key, r: SeqNo, index: nat, n: nat, c: Content, c': Content)
    requires PlainStripe(job, s, group, k, r, index, n) && job.mop.Some?
    requires c == Older(job, s, group[n..], k, r) && c' == Newer(job, s, group[n..], k, r)
    requires var m := job.Operands(group[..n], job.Bound(index)); m > 0 && (m < n || (n == |group| && s.baseLevel))
    requires Equivalent(job.mop, k, Push(Under(job, group[..n], index, c), StripeOps(job, group[..n], index)),
                                    Push(Under(job, group[..n], index, c'), StripeOps(job, group[..n], index)))
    ensures Equivalent(job.mop, k, Push(Under(job, group[..n], index, c), StripeOps(job, group[..n], index)),
                                   Fold(StripeOut(job, s, group, index, n), s.After(), k, r, c'))
  {
    var stripe, bound := group[..n], job.Bound(index);
    var m := job.Operands(stripe, bound);
    var ops := StripeOps(job, stripe, index);
    var under := Under(job, stripe, index, c);
    PlainAsIs(job, s, group, k, r, index, n, c');
    if m == n {
      assert group[n..] == [];
      NothingOlder(job, s, k, r);
    }
    assert under.ops == [] && Push(under, ops) == Content(under.base, ops);
    match job.mop.value.full(k, under.base, ops)
    case None =>
    case Some(v) =>
      FullMergeFolds(job.mop, k, under.base, ops);
      PlainSingle(job, s, group, k, r, index, n, Put, v, c');
  }

  /** The stripe's operands are folded among themselves. */
  lemma PlainPartial(job: Job, s: Rest, group: seq<Entry>, k: Key, r: SeqNo, index: nat, n: nat, c: Content,
                     c': Content)
    requires PlainStripe(job, s, group, k, r, index, n) && job.mop.Some?
    requires job.Operands(group[..n], job.Bound(index)) == n > 1 && !(n == |group| && s.baseLevel)
    requires Equivalent(job.mop, k, c, c')
    ensures Equivalent(job.mop, k, Push(c, StripeOps(job, group[..n], index)),
                                   Fold(StripeOut(job, s, group, index, n), s.After(), k, r, c'))
  {
    var stripe := group[..n];
    var ops := StripeOps(job, stripe, index);
    EquivalentPush(job.mop, k, c, c', ops);
    PlainAsIs(job, s, group, k, r, index, n, c');
    assert stripe[..n] == stripe;
    match job.FoldPartial(k, Values(stripe))
    case None =>
      assert stripe[..n] + [] == stripe;
    case Some(acc) =>
      forall b: Option<Value> ensures job.mop.value.full(k, b, ops) == job.mop.value.full(k, b, [acc]) {
        FoldPartialSame(job, k, Values(stripe), b);
      }
      SameOnEveryBase(job.mop, k, c', ops, [acc]);
      EquivalentTransitive(job.mop, k, Push(c, ops), Push(c', ops), Push(c', [acc]));
      PlainSingle(job, s, group, k, r, index, n, Merge, acc, c');
  }

  // ---- The whole group ----

  /** What is read of the group splits into its first stripe on the rest. */
  lemma SplitBefore(job: Job, s: Rest, group: seq<Entry>, k: Key, r: SeqNo, n: nat)
    requires n <= |group|
    ensures Older(job, s, group, k, r) == Fold(group[..n], s.Before(job), k, r, Older(job, s, group[n..], k, r))
  {
    assert group + s.deep == group[..n] + (group[n..] + s.deep);
    FoldConcat(group[..n], group[n..] + s.deep, s.Before(job), k, r, ABSENT);
  }

  /** And so does what is read of the compacted group. */
  lemma SplitAfter(job: Job, s: Rest, group: seq<Entry>, k: Key, r: SeqNo, index: nat, n: nat)
    requires group != [] && index == job.StripeOf(group[0].sn) && n == job.StripeLength(group, index) && 0 < n
    ensures Newer(job, s, group, k, r) ==
            Fold(StripeOut(job, s, group, index, n), s.After(), k, r, Newer(job, s, group[n..], k, r))
  {
    var out, rest := StripeOut(job, s, group, index, n), job.Compacted(group[n..], s.baseLevel);
    var all := job.Compacted(group, s.baseLevel);
    assert all == out + rest;
    assert all + s.deep == out + (rest + s.deep);
    FoldConcat(out, rest + s.deep, s.After(), k, r, ABSENT);
  }

  /** Below the group nothing changes: a dropped tombstone covers no deeper entry. */
  lemma DeepUnchanged(job: Job, s: Rest, k: Key, r: SeqNo)
    requires s.Fits(job, [], k)
    ensures Older(job, s, [], k, r) == Newer(job, s, [], k, r)
  {
    assert [] + s.deep == s.deep;
    assert job.Compacted([], s.baseLevel) == [];
    if NoneOf(s.deep, k) {
      FoldNothing(s.deep, s.Before(job), k, r, ABSENT);
      FoldNothing(s.deep, s.After(), k, r, ABSENT);
    } else {
      forall sn: SeqNo ensures Hidden(s.Before(job), k, sn, r) == Hidden(s.After(), k, sn, r) {
        assert forall t :: t in s.Before(job) && t.Covers(k) ==> t in s.After();
      }
      HideAlike(s.deep, s.Before(job), s.After(), k, r, ABSENT);
    }
  }

  /** The compacted group reads like the group to every live reader, whatever operands lie on top. */
  lemma {:induction false} GroupInvisible(job: Job, s: Rest, group: seq<Entry>, k: Key, r: SeqNo)
    requires job.Valid() && job.Live(r) && MergeLaws(job.mop) && s.Fits(job, group, k)
    ensures Equivalent(job.mop, k, Older(job, s, group, k, r), Newer(job, s, group, k, r))
    decreases |group|
  {
    if group == [] {
      DeepUnchanged(job, s, k, r);
      EquivalentReflexive(job.mop, k, Older(job, s, group, k, r));
    } else {
      var index := job.StripeOf(group[0].sn);
      var n := job.StripeLength(group, index);
      OlderStripes(job, group, k);
      FitsSuffix(job, s, group, k, n);
      GroupInvisible(job, s, group[n..], k, r);
      SplitBefore(job, s, group, k, r, n);
      SplitAfter(job, s, group, k, r, index, n);
      if r < group[0].sn {
        UnseenStripe(job, s, group, k, r, index, n, Older(job, s, group[n..], k, r), Newer(job, s, group[n..], k, r));
      } else if t :| t in s.Before(job) && t.Covers(k) && group[0].sn < t.sn <= r {
        HiddenStripe(job, s, group, k, r, index, n, t);
      } else {
        PlainInvisible(job, s, group, k, r, index, n);
      }
    }
  }
}
