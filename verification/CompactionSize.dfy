/**
 * How little a compaction leaves.  With an operator that accepts its operands, entries
 * that the same readers see become one entry or none; deletions of nothing and
 * tombstones that nobody needs go.  Stated in terms of readers, not of stripes.
 */
module CompactionSizes {
  import opened Core
  import opened Visibility
  import opened Layers
  import opened CompactGroups
  import Loops = CompactGroupLoops
  import opened Compactions
  import opened CompactionTheorems

  // ---- Readers and stripes ----

  /** No live snapshot lies between the two numbers: whoever may still read sees both or neither. */
  ghost predicate SameReaders(job: Job, s: SeqNo, s': SeqNo) {
    forall r | r in job.snapshots :: s <= r <==> s' <= r
  }

  /** Every snapshot sees the number. */
  ghost predicate SeenByAll(job: Job, s: SeqNo) {
    forall r | r in job.snapshots :: s <= r
  }

  /** Whoever may read the entry sees a deletion: it is one, or a tombstone of the inputs hides it from all of them. */
  ghost predicate Gone(job: Job, e: Entry) {
    e.kind == Deletion || forall r: SeqNo | job.Live(r) && e.sn <= r :: Hidden(job.inputs, e.key, e.sn, r)
  }

  lemma SeenFrom(job: Job, s: SeqNo, x: nat)
    requires job.Valid() && x < |job.snapshots|
    ensures s <= job.snapshots[x] <==> job.StripeOf(s) <= x
    ensures job.snapshots[x] in job.snapshots
  {
  }

  /** Stripes are what the same readers see. */
  lemma StripesAreReaders(job: Job, s: SeqNo, s': SeqNo)
    requires job.Valid()
    ensures job.StripeOf(s) == job.StripeOf(s') <==> SameReaders(job, s, s')
  {
    hide Job.StripeOf;
    var i, j := job.StripeOf(s), job.StripeOf(s');
    if i == j {
      forall r | r in job.snapshots ensures s <= r <==> s' <= r {
        var x :| 0 <= x < |job.snapshots| && job.snapshots[x] == r;
        SeenFrom(job, s, x);
        SeenFrom(job, s', x);
      }
    } else {
      var x := if i < j then i else j;
      SeenFrom(job, s, x);
      SeenFrom(job, s', x);
    }
  }

  lemma FirstStripe(job: Job, s: SeqNo)
    requires job.Valid()
    ensures job.StripeOf(s) == 0 <==> SeenByAll(job, s)
  {
    hide Job.StripeOf;
    if job.StripeOf(s) == 0 {
      forall r | r in job.snapshots ensures s <= r {
        var x :| 0 <= x < |job.snapshots| && job.snapshots[x] == r;
        SeenFrom(job, s, x);
      }
    } else {
      SeenFrom(job, s, 0);
    }
  }

  lemma StripesAscend(job: Job, s: SeqNo, s': SeqNo)
    requires s <= s'
    ensures job.StripeOf(s) <= job.StripeOf(s')
  {
  }

  /** Looking at the stripe's bound tells what every reader sees. */
  lemma EffectiveIsGone(job: Job, e: Entry)
    requires job.Valid() && e.sn <= job.last
    ensures job.Effective(e, job.Bound(job.StripeOf(e.sn))).kind == if Gone(job, e) then Deletion else e.kind
    ensures e.kind == Deletion ==> Gone(job, e)
  {
    var i := job.StripeOf(e.sn);
    var bound := job.Bound(i);
    HiddenIffMaxAbove(job.inputs, e.key, e.sn, bound);
    var first := if i < |job.snapshots| then job.snapshots[i] else job.last;
    assert job.Live(first) && e.sn <= first <= bound;
    if Hidden(job.inputs, e.key, e.sn, bound) {
      var t :| t in job.inputs && t.Covers(e.key) && e.sn < t.sn <= bound;
      forall r: SeqNo | job.Live(r) && e.sn <= r ensures Hidden(job.inputs, e.key, e.sn, r) {
        BoundVisible(job, r, e.sn, t);
      }
    }
  }

  // ---- One stripe ----

  /** The operator accepts every operand of the key, alone and two at a time. */
  ghost predicate Accepts(mop: Option<MergeOperator>, k: Key) {
    && mop.Some?
    && (forall b: Option<Value>, ops: seq<Value> | ops != [] :: mop.value.full(k, b, ops).Some?)
    && (forall l: Value, r: Value :: mop.value.partial(k, l, r).Some?)
  }

  /** An operand that some reader sees. */
  ghost predicate Stays(job: Job, e: Entry) {
    e.kind == Merge && !Gone(job, e)
  }

  /** Nothing deeper, and nothing older in the inputs. */
  ghost predicate Bottom(job: Job, group: seq<Entry>, s: SeqNo, nothingDeeper: bool) {
    nothingDeeper && forall g | g in group :: g.sn >= s || SameReaders(job, g.sn, s)
  }

  lemma {:induction false} PartialAccepted(job: Job, k: Key, ops: seq<Value>)
    requires Accepts(job.mop, k) && ops != []
    ensures job.FoldPartial(k, ops).Some?
  {
    if |ops| > 1 {
      PartialAccepted(job, k, ops[1..]);
    }
  }

  /** A stripe of a group: entries with the same readers. */
  ghost predicate IsStripe(job: Job, stripe: seq<Entry>, k: Key, index: nat) {
    && stripe != [] && IsGroup(stripe, k)
    && forall i | 0 <= i < |stripe| :: stripe[i].sn <= job.last && job.StripeOf(stripe[i].sn) == index
  }

  /** How many operands on top of a stripe some reader sees. */
  lemma OperandsStay(job: Job, stripe: seq<Entry>, k: Key, index: nat) returns (n: nat)
    requires job.Valid() && IsStripe(job, stripe, k, index)
    ensures n == job.Operands(stripe, job.Bound(index)) <= |stripe|
    ensures forall i | 0 <= i < n :: Stays(job, stripe[i])
    ensures n < |stripe| ==>
              && !Stays(job, stripe[n])
              && job.Effective(stripe[n], job.Bound(index)).kind == if Gone(job, stripe[n]) then Deletion else Put
  {
    hide Gone;
    n := job.Operands(stripe, job.Bound(index));
    forall i | 0 <= i < |stripe|
      ensures job.Effective(stripe[i], job.Bound(index)).kind ==
              if Gone(job, stripe[i]) then Deletion else stripe[i].kind
      ensures stripe[i].kind == Deletion ==> Gone(job, stripe[i])
    {
      EffectiveIsGone(job, stripe[i]);
    }
  }

  /** What an accepting operator leaves of a stripe: nothing, or one entry with the newest number. */
  lemma StripeShrinks(job: Job, stripe: seq<Entry>, k: Key, index: nat, lastStripe: bool, nothingDeeper: bool)
    requires job.Valid() && IsStripe(job, stripe, k, index) && Accepts(job.mop, k)
    ensures var out := job.CompactStripe(stripe, index, lastStripe, nothingDeeper);
            && |out| <= 1
            && (out == [] <==> Gone(job, stripe[0]) && index == 0 && nothingDeeper)
            && (out != [] ==>
                  && out[0].key == k && out[0].sn == stripe[0].sn
                  && (out[0].kind == Deletion <==> Gone(job, stripe[0]))
                  && (out[0].kind == Merge <==>
                        (forall i | 0 <= i < |stripe| :: Stays(job, stripe[i])) && !(lastStripe && nothingDeeper)))
  {
    hide Gone;
    var n := OperandsStay(job, stripe, k, index);
    if n > 0 {
      assert |Reversed(Values(stripe[..n]))| > 0;
      PartialAccepted(job, k, Values(stripe[..n]));
    }
  }

  // ---- A whole group ----

  /** g is the newest entry of its stripe. */
  ghost predicate Newest(job: Job, group: seq<Entry>, g: Entry) {
    g in group && forall x | x in group && x.sn > g.sn :: !SameReaders(job, x.sn, g.sn)
  }

  /**
   * What becomes of g, the newest entry that some readers see: a deletion if to them
   * the key is gone, an operand if they see operands only and there may be something
   * to apply them to, a value otherwise.
   */
  ghost predicate Becomes(job: Job, group: seq<Entry>, nothingDeeper: bool, g: Entry, o: Entry) {
    && o.key == g.key && o.sn == g.sn
    && (o.kind == Deletion <==> Gone(job, g))
    && (o.kind == Merge <==>
          (forall x | x in group && SameReaders(job, x.sn, g.sn) :: Stays(job, x))
            && !Bottom(job, group, g.sn, nothingDeeper))
  }

  /** A deletion that every reader sees and that deletes nothing. */
  ghost predicate Vanishes(job: Job, nothingDeeper: bool, g: Entry) {
    Gone(job, g) && SeenByAll(job, g.sn) && nothingDeeper
  }

  /** Outputs: for the newest entry of every stripe, and for nothing else, exactly what becomes of it. */
  ghost predicate Shrunk(job: Job, group: seq<Entry>, nothingDeeper: bool, out: seq<Entry>) {
    && (forall x, y | 0 <= x < y < |out| :: out[x].sn > out[y].sn && !SameReaders(job, out[x].sn, out[y].sn))
    && (forall o | o in out :: Comes(job, group, nothingDeeper, o))
    && (forall g | Newest(job, group, g) && !Vanishes(job, nothingDeeper, g) :: Goes(job, group, nothingDeeper, g, out))
  }

  /** An output: what the newest entry of some stripe becomes. */
  ghost predicate Comes(job: Job, group: seq<Entry>, nothingDeeper: bool, o: Entry) {
    exists g :: Newest(job, group, g) && Becomes(job, group, nothingDeeper, g, o) && !Vanishes(job, nothingDeeper, g)
  }

  /** What becomes of g is an output. */
  ghost predicate Goes(job: Job, group: seq<Entry>, nothingDeeper: bool, g: Entry, out: seq<Entry>) {
    exists o :: o in out && Becomes(job, group, nothingDeeper, g, o)
  }

  /** The newest stripe of a group. */
  lemma GroupStripes(job: Job, group: seq<Entry>, k: Key) returns (index: nat, n: nat)
    requires job.Valid() && IsGroup(group, k) && group != [] && forall g | g in group :: g.sn <= job.last
    ensures index == job.StripeOf(group[0].sn) && n == job.StripeLength(group, index) && 0 < n <= |group|
    ensures IsStripe(job, group[..n], k, index) && IsGroup(group[n..], k)
    ensures forall x | 0 <= x < |group| :: x < n <==> job.StripeOf(group[x].sn) == index
  {
    hide Job.StripeOf, Job.Valid, IsStripe;
    index := job.StripeOf(group[0].sn);
    n := job.StripeLength(group, index);
    forall x | 0 <= x < |group| ensures group[x].sn <= job.last && (x < n <==> job.StripeOf(group[x].sn) == index) {
      assert group[x] in group;
      if x >= n {
        StripesAscend(job, group[x].sn, group[n].sn);
        StripesAscend(job, group[n].sn, group[0].sn);
      }
    }
    GroupFront(job, group, k, index, n);
  }

  lemma GroupFront(job: Job, group: seq<Entry>, k: Key, index: nat, n: nat)
    requires IsGroup(group, k) && 0 < n <= |group|
    requires forall x | 0 <= x < n :: group[x].sn <= job.last && job.StripeOf(group[x].sn) == index
    ensures IsStripe(job, group[..n], k, index) && IsGroup(group[n..], k)
  {
    hide Job.StripeOf;
  }

  /** A group in two: its newest stripe, and older entries with other readers. */
  ghost predicate Parted(job: Job, stripe: seq<Entry>, rest: seq<Entry>) {
    && stripe != []
    && (forall x | x in stripe :: SameReaders(job, x.sn, stripe[0].sn) && (x == stripe[0] || x.sn < stripe[0].sn))
    && (forall x, y | x in stripe && y in rest :: y.sn < x.sn && !SameReaders(job, x.sn, y.sn))
  }

  lemma GroupParted(job: Job, group: seq<Entry>, k: Key, index: nat, n: nat)
    requires job.Valid() && IsGroup(group, k) && 0 < n <= |group|
    requires forall x | 0 <= x < |group| :: x < n <==> job.StripeOf(group[x].sn) == index
    ensures Parted(job, group[..n], group[n..])
  {
    hide SameReaders, Job.StripeOf, Job.Valid, IsGroup;
    var stripe, rest := group[..n], group[n..];
    forall e | e in stripe
      ensures SameReaders(job, e.sn, stripe[0].sn) && (e == stripe[0] || e.sn < stripe[0].sn)
    {
      var x := PlaceBefore(group, n, e);
      InGroup(group, k, 0, x);
      StripesAreReaders(job, e.sn, stripe[0].sn);
    }
    forall e, f | e in stripe && f in rest ensures f.sn < e.sn && !SameReaders(job, e.sn, f.sn) {
      var x := PlaceBefore(group, n, e);
      var y := PlaceAfter(group, n, f);
      InGroup(group, k, x, y);
      StripesAreReaders(job, e.sn, f.sn);
    }
  }

  lemma InGroup(group: seq<Entry>, k: Key, x: nat, y: nat)
    requires IsGroup(group, k) && x <= y < |group|
    ensures x == y || group[x].sn > group[y].sn
  {
  }

  lemma PlaceBefore(group: seq<Entry>, n: nat, e: Entry) returns (x: nat)
    requires n <= |group| && e in group[..n]
    ensures x < n && group[x] == e
  {
    x :| 0 <= x < n && group[x] == e;
  }

  lemma PlaceAfter(group: seq<Entry>, n: nat, e: Entry) returns (x: nat)
    requires n <= |group| && e in group[n..]
    ensures n <= x < |group| && group[x] == e
  {
    var y :| 0 <= y < |group[n..]| && group[n..][y] == e;
    x := n + y;
  }

  /** The newest entry of all is the newest of its stripe, and no other of the stripe is. */
  lemma FrontNewest(job: Job, stripe: seq<Entry>, rest: seq<Entry>, g: Entry)
    requires Parted(job, stripe, rest) && g in stripe
    ensures Newest(job, stripe + rest, g) <==> g == stripe[0]
  {
    hide SameReaders;
    assert stripe[0] in stripe && stripe[0] in stripe + rest;
    SameReadersTurned(job, g.sn, stripe[0].sn);
  }

  lemma SameReadersTurned(job: Job, s: SeqNo, s': SeqNo)
    ensures SameReaders(job, s, s') <==> SameReaders(job, s', s)
  {
  }

  /** Among the older entries, what the newest stripe holds plays no part. */
  lemma RestNewest(job: Job, stripe: seq<Entry>, rest: seq<Entry>, deeper: bool, g: Entry, o: Entry)
    requires Parted(job, stripe, rest) && g in rest
    ensures Newest(job, stripe + rest, g) <==> Newest(job, rest, g)
    ensures Becomes(job, stripe + rest, deeper, g, o) <==> Becomes(job, rest, deeper, g, o)
  {
    hide SameReaders, Stays, Gone;
    assert forall x :: x in stripe + rest <==> x in stripe || x in rest;
  }

  /** Of the newest stripe, its newest entry stands for all. */
  lemma FrontBecomes(job: Job, stripe: seq<Entry>, rest: seq<Entry>, deeper: bool)
    requires Parted(job, stripe, rest)
    ensures Bottom(job, stripe + rest, stripe[0].sn, deeper) <==> deeper && rest == []
    ensures (forall x | x in stripe + rest && SameReaders(job, x.sn, stripe[0].sn) :: Stays(job, x)) <==>
            (forall i | 0 <= i < |stripe| :: Stays(job, stripe[i]))
  {
    hide SameReaders, Stays;
    assert stripe[0] in stripe;
    assert forall x :: x in stripe + rest <==> x in stripe || x in rest;
    if rest != [] {
      assert rest[0] in rest;
      SameReadersTurned(job, rest[0].sn, stripe[0].sn);
    }
    forall y | y in rest ensures !SameReaders(job, y.sn, stripe[0].sn) {
      SameReadersTurned(job, y.sn, stripe[0].sn);
    }
  }

  /** What the newest stripe becomes. */
  ghost predicate Front(job: Job, stripe: seq<Entry>, rest: seq<Entry>, deeper: bool, front: seq<Entry>)
    requires stripe != []
  {
    && |front| <= 1
    && (front == [] <==> Vanishes(job, deeper, stripe[0]))
    && (front != [] ==> Becomes(job, stripe + rest, deeper, stripe[0], front[0]))
  }

  /** The newest stripe of a group, and what it becomes. */
  lemma FirstPart(job: Job, group: seq<Entry>, k: Key, deeper: bool)
    returns (stripe: seq<Entry>, rest: seq<Entry>, front: seq<Entry>)
    requires job.Valid() && IsGroup(group, k) && Accepts(job.mop, k) && forall g | g in group :: g.sn <= job.last
    requires group != []
    ensures group == stripe + rest && Parted(job, stripe, rest) && Front(job, stripe, rest, deeper, front)
    ensures job.Compacted(group, deeper) == front + job.Compacted(rest, deeper)
    ensures IsGroup(rest, k) && forall g | g in rest :: g.sn <= job.last
  {
    hide Accepts, Job.StripeOf, Job.CompactStripe, Job.Valid, Parted, IsStripe, IsGroup, Front;
    var index, n := GroupStripes(job, group, k);
    GroupParted(job, group, k, index, n);
    stripe, rest := group[..n], group[n..];
    front := job.CompactStripe(stripe, index, n == |group|, deeper);
    assert stripe[0] == group[0] && group == stripe + rest && (n == |group| <==> rest == []);
    StripeFront(job, stripe, rest, k, index, deeper);
    forall g | g in rest ensures g.sn <= job.last {
      assert g in group;
    }
  }

  lemma StripeFront(job: Job, stripe: seq<Entry>, rest: seq<Entry>, k: Key, index: nat, deeper: bool)
    requires job.Valid() && IsStripe(job, stripe, k, index) && Accepts(job.mop, k) && Parted(job, stripe, rest)
    ensures Front(job, stripe, rest, deeper, job.CompactStripe(stripe, index, rest == [], deeper))
  {
    hide Accepts, SameReaders, Gone, SeenByAll, Stays, Job.StripeOf, Job.CompactStripe, Job.Valid, Bottom, Parted;
    StripeShrinks(job, stripe, k, index, rest == [], deeper);
    FirstStripe(job, stripe[0].sn);
    FrontBecomes(job, stripe, rest, deeper);
  }

  lemma NothingShrinks(job: Job, deeper: bool)
    ensures job.Compacted([], deeper) == [] && Shrunk(job, [], deeper, [])
  {
    hide Becomes, Vanishes;
    assert forall g: Entry :: !Newest(job, [], g);
  }

  /**
   * What is left of a group: per stripe, exactly one entry or none.  Folding operands
   * by either function, leaving out what no reader sees, and dropping deletions of
   * nothing all happen wherever they can.
   */
  lemma {:induction false} GroupShrinks(job: Job, group: seq<Entry>, k: Key, nothingDeeper: bool)
    requires job.Valid() && IsGroup(group, k) && Accepts(job.mop, k) && forall g | g in group :: g.sn <= job.last
    ensures Shrunk(job, group, nothingDeeper, job.Compacted(group, nothingDeeper))
    decreases |group|
  {
    hide Accepts, Shrunk, Job.Compacted, Job.Valid, Front;
    if group == [] {
      NothingShrinks(job, nothingDeeper);
    } else {
      var stripe, rest, front := FirstPart(job, group, k, nothingDeeper);
      assert |rest| < |group| by {
        assert Parted(job, stripe, rest);
      }
      GroupShrinks(job, rest, k, nothingDeeper);
      JoinShrunk(job, stripe, rest, nothingDeeper, front, job.Compacted(rest, nothingDeeper));
    }
  }

  lemma JoinShrunk(job: Job, stripe: seq<Entry>, rest: seq<Entry>, deeper: bool, front: seq<Entry>, older: seq<Entry>)
    requires stripe != [] && Parted(job, stripe, rest) && Front(job, stripe, rest, deeper, front)
    requires Shrunk(job, rest, deeper, older)
    ensures Shrunk(job, stripe + rest, deeper, front + older)
  {
    hide SameReaders, Becomes, Vanishes, Newest, Parted, Front, Shrunk, Comes, Goes;
    var out, group := front + older, stripe + rest;
    FrontFacts(job, stripe, rest, deeper, front);
    forall o | o in older
      ensures o.sn < stripe[0].sn && !SameReaders(job, stripe[0].sn, o.sn) && Comes(job, group, deeper, o)
    {
      OlderComes(job, stripe, rest, deeper, older, o);
    }
    forall g | Newest(job, group, g) && !Vanishes(job, deeper, g) ensures Goes(job, group, deeper, g, out) {
      SomeGoes(job, stripe, rest, deeper, front, older, g);
    }
    JoinApart(job, stripe[0].sn, rest, deeper, front, older);
    IsShrunk(job, group, deeper, out);
  }

  lemma FrontFacts(job: Job, stripe: seq<Entry>, rest: seq<Entry>, deeper: bool, front: seq<Entry>)
    requires stripe != [] && Parted(job, stripe, rest) && Front(job, stripe, rest, deeper, front)
    ensures |front| <= 1 && forall o | o in front :: o.sn == stripe[0].sn && Comes(job, stripe + rest, deeper, o)
  {
    hide SameReaders, Vanishes, Newest, Parted;
    if front != [] {
      BecomesNumber(job, stripe + rest, deeper, stripe[0], front[0]);
      hide Becomes;
      assert stripe[0] in stripe by {
        assert Parted(job, stripe, rest);
      }
      FrontNewest(job, stripe, rest, stripe[0]);
      assert Comes(job, stripe + rest, deeper, front[0]);
    }
  }

  /** The three parts of Shrunk, put together. */
  lemma IsShrunk(job: Job, group: seq<Entry>, deeper: bool, out: seq<Entry>)
    requires forall x, y | 0 <= x < y < |out| :: out[x].sn > out[y].sn && !SameReaders(job, out[x].sn, out[y].sn)
    requires forall o | o in out :: Comes(job, group, deeper, o)
    requires forall g | Newest(job, group, g) && !Vanishes(job, deeper, g) :: Goes(job, group, deeper, g, out)
    ensures Shrunk(job, group, deeper, out)
  {
  }

  lemma JoinApart(job: Job, s: SeqNo, rest: seq<Entry>, deeper: bool, front: seq<Entry>, older: seq<Entry>)
    requires |front| <= 1 && (forall o | o in front :: o.sn == s) && Shrunk(job, rest, deeper, older)
    requires forall o | o in older :: o.sn < s && !SameReaders(job, s, o.sn)
    ensures var out := front + older;
            forall x, y | 0 <= x < y < |out| :: out[x].sn > out[y].sn && !SameReaders(job, out[x].sn, out[y].sn)
  {
    hide SameReaders, Becomes, Newest, Vanishes, Comes, Goes;
    var out := front + older;
    forall x, y | 0 <= x < y < |out| ensures out[x].sn > out[y].sn && !SameReaders(job, out[x].sn, out[y].sn) {
      assert y >= |front| && out[y] == older[y - |front|] && older[y - |front|] in older;
    }
  }

  lemma BecomesNumber(job: Job, group: seq<Entry>, deeper: bool, g: Entry, o: Entry)
    requires Becomes(job, group, deeper, g, o)
    ensures o.sn == g.sn
  {
  }

  /** Where an older output comes from. */
  lemma OlderComes(job: Job, stripe: seq<Entry>, rest: seq<Entry>, deeper: bool, older: seq<Entry>, o: Entry)
    requires Parted(job, stripe, rest) && Shrunk(job, rest, deeper, older) && o in older
    ensures Comes(job, stripe + rest, deeper, o)
    ensures o.sn < stripe[0].sn && !SameReaders(job, stripe[0].sn, o.sn)
  {
    hide SameReaders, Becomes, Vanishes, Goes;
    assert Comes(job, rest, deeper, o);
    var g :| Newest(job, rest, g) && Becomes(job, rest, deeper, g, o) && !Vanishes(job, deeper, g);
    BecomesNumber(job, rest, deeper, g, o);
    assert stripe[0] in stripe && g in rest;
    RestNewest(job, stripe, rest, deeper, g, o);
  }

  /** What becomes of the newest entry of any stripe. */
  lemma SomeGoes(job: Job, stripe: seq<Entry>, rest: seq<Entry>, deeper: bool, front: seq<Entry>, older: seq<Entry>,
                 g: Entry)
    requires Parted(job, stripe, rest) && Front(job, stripe, rest, deeper, front) && Shrunk(job, rest, deeper, older)
    requires Newest(job, stripe + rest, g) && !Vanishes(job, deeper, g)
    ensures Goes(job, stripe + rest, deeper, g, front + older)
  {
    hide SameReaders, Becomes, Vanishes, Parted, Comes;
    assert g in stripe + rest;
    if g in stripe {
      FrontNewest(job, stripe, rest, g);
      assert front[0] in front + older;
    } else {
      RestNewest(job, stripe, rest, deeper, g, g);
      assert Goes(job, rest, deeper, g, older);
      var o :| o in older && Becomes(job, rest, deeper, g, o);
      RestNewest(job, stripe, rest, deeper, g, o);
      assert o in front + older;
    }
  }

  // ---- Whatever the operator does ----

  /**
   * An output entry stands for an entry of the group: as a deletion exactly if that is
   * gone, and not if it vanishes.
   */
  ghost predicate StandsFor(job: Job, group: seq<Entry>, deeper: bool, o: Entry) {
    exists g :: g in group && o.key == g.key && o.sn == g.sn && (o.kind == Deletion <==> Gone(job, g))
                && (Newest(job, group, g) ==> !Vanishes(job, deeper, g))
  }

  /** Every output stands for an entry; where several have the same readers, only the last is no operand. */
  ghost predicate Trimmed(job: Job, group: seq<Entry>, deeper: bool, out: seq<Entry>) {
    && (forall o | o in out :: StandsFor(job, group, deeper, o))
    && (forall x, y | 0 <= x < y < |out| ::
          out[x].sn > out[y].sn && (SameReaders(job, out[x].sn, out[y].sn) ==> out[x].kind == Merge))
  }

  ghost predicate NumberIn(es: seq<Entry>, sn: SeqNo) {
    exists e :: e in es && e.sn == sn
  }

  /** Output x of a stripe has the number of entry x; only the last is no operand. */
  ghost predicate Kept(job: Job, stripe: seq<Entry>, out: seq<Entry>, x: nat) {
    && x < |out| && x < |stripe| && out[x].key == stripe[x].key && out[x].sn == stripe[x].sn
    && (out[x].kind == Deletion <==> Gone(job, stripe[x]))
    && (x + 1 < |out| ==> out[x].kind == Merge)
  }

  /** Operands as they are, with what settles them. */
  lemma KeptAsIs(job: Job, stripe: seq<Entry>, k: Key, index: nat, n: nat)
    requires job.Valid() && IsStripe(job, stripe, k, index) && n == job.Operands(stripe, job.Bound(index)) <= |stripe|
    ensures var settle := if n < |stripe| then [job.Effective(stripe[n], job.Bound(index))] else [];
            forall x: nat | x < |stripe[..n] + settle| :: Kept(job, stripe, stripe[..n] + settle, x)
  {
    hide Gone, Job.StripeOf;
    var m := OperandsStay(job, stripe, k, index);
    var settle := if n < |stripe| then [job.Effective(stripe[n], job.Bound(index))] else [];
    var out := stripe[..n] + settle;
    forall x: nat | x < |out| ensures Kept(job, stripe, out, x) {
      assert x < n ==> Stays(job, stripe[x]);
    }
  }

  /** Whatever way a stripe is compacted, it is kept as its readers see it. */
  lemma StripeKept(job: Job, stripe: seq<Entry>, k: Key, index: nat, lastStripe: bool, deeper: bool)
    requires job.Valid() && IsStripe(job, stripe, k, index)
    ensures var out := job.CompactStripe(stripe, index, lastStripe, deeper);
            && (forall x: nat | x < |out| :: Kept(job, stripe, out, x))
            && (out != [] && Gone(job, stripe[0]) && index == 0 ==> !deeper)
  {
    hide Gone, Job.StripeOf, Job.Valid, Job.Operands, Job.Effective, Job.FoldPartial;
    var n := OperandsStay(job, stripe, k, index);
    KeptAsIs(job, stripe, k, index, n);
    assert n > 0 ==> Stays(job, stripe[0]);
    var out := job.CompactStripe(stripe, index, lastStripe, deeper);
    var settle := if n < |stripe| then [job.Effective(stripe[n], job.Bound(index))] else [];
    assert n == 0 ==> stripe[..n] + settle == settle;
    if out != stripe[..n] + settle {
      assert out == [] || (|out| == 1 && out[0].key == stripe[0].key && out[0].sn == stripe[0].sn);
      assert out != [] ==> out[0].kind != Deletion && n > 0;
    }
  }

  lemma StripeTrims(job: Job, stripe: seq<Entry>, rest: seq<Entry>, k: Key, index: nat, deeper: bool)
    requires job.Valid() && IsStripe(job, stripe, k, index) && Parted(job, stripe, rest)
    ensures StripeTrimmed(job, stripe, rest, deeper, job.CompactStripe(stripe, index, rest == [], deeper))
  {
    hide SameReaders, Gone, SeenByAll, Job.StripeOf, Job.CompactStripe, Parted, Newest, StandsFor;
    var out := job.CompactStripe(stripe, index, rest == [], deeper);
    StripeKept(job, stripe, k, index, rest == [], deeper);
    FirstStripe(job, stripe[0].sn);
    forall o | o in out ensures StandsFor(job, stripe + rest, deeper, o) && NumberIn(stripe, o.sn) {
      var x: nat :| x < |out| && out[x] == o;
      assert Kept(job, stripe, out, x) && stripe[x] in stripe;
      if x > 0 {
        NotNewest(job, stripe, rest, x);
      }
      Stands(job, stripe, rest, deeper, x, out[x]);
    }
    KeptDescends(job, stripe, k, out);
  }

  lemma KeptDescends(job: Job, stripe: seq<Entry>, k: Key, out: seq<Entry>)
    requires IsGroup(stripe, k) && forall x: nat | x < |out| :: Kept(job, stripe, out, x)
    ensures forall x, y | 0 <= x < y < |out| :: out[x].sn > out[y].sn
    ensures forall x | 0 <= x < |out| - 1 :: out[x].kind == Merge
  {
    hide Gone;
    forall x, y | 0 <= x < y < |out| ensures out[x].sn > out[y].sn {
      assert Kept(job, stripe, out, x) && Kept(job, stripe, out, y);
    }
    forall x | 0 <= x < |out| - 1 ensures out[x].kind == Merge {
      assert Kept(job, stripe, out, x);
    }
  }

  lemma NotNewest(job: Job, stripe: seq<Entry>, rest: seq<Entry>, x: nat)
    requires Parted(job, stripe, rest) && 0 < x < |stripe| && stripe[x].sn < stripe[0].sn
    ensures !Newest(job, stripe + rest, stripe[x])
  {
    hide SameReaders;
    assert stripe[x] in stripe && stripe[0] in stripe;
    FrontNewest(job, stripe, rest, stripe[x]);
  }

  lemma Stands(job: Job, stripe: seq<Entry>, rest: seq<Entry>, deeper: bool, x: nat, o: Entry)
    requires x < |stripe| && o.key == stripe[x].key && o.sn == stripe[x].sn
    requires o.kind == Deletion <==> Gone(job, stripe[x])
    requires Newest(job, stripe + rest, stripe[x]) ==> !Vanishes(job, deeper, stripe[x])
    ensures StandsFor(job, stripe + rest, deeper, o)
  {
    hide Gone, Vanishes, Newest;
    assert stripe[x] in stripe + rest;
  }

  lemma RestStands(job: Job, stripe: seq<Entry>, rest: seq<Entry>, deeper: bool, o: Entry)
    requires Parted(job, stripe, rest) && StandsFor(job, rest, deeper, o)
    ensures StandsFor(job, stripe + rest, deeper, o) && NumberIn(rest, o.sn)
  {
    hide SameReaders, Gone, Vanishes, Newest, Parted;
    var g :| g in rest && o.key == g.key && o.sn == g.sn && (o.kind == Deletion <==> Gone(job, g))
             && (Newest(job, rest, g) ==> !Vanishes(job, deeper, g));
    RestNewest(job, stripe, rest, deeper, g, o);
    assert g in stripe + rest;
  }

  /** Under any operator, or none, nothing is kept that readers of a newer output do not need. */
  lemma {:induction false} GroupTrims(job: Job, group: seq<Entry>, k: Key, nothingDeeper: bool)
    requires job.Valid() && IsGroup(group, k) && forall g | g in group :: g.sn <= job.last
    ensures Trimmed(job, group, nothingDeeper, job.Compacted(group, nothingDeeper))
    decreases |group|
  {
    hide Job.Valid, Trimmed, Job.Compacted, IsGroup, StripeTrimmed, Parted;
    if group == [] {
      NothingTrims(job, nothingDeeper);
    } else {
      var stripe, rest, front := FirstTrim(job, group, k, nothingDeeper);
      GroupTrims(job, rest, k, nothingDeeper);
      JoinTrimmed(job, stripe, rest, nothingDeeper, front, job.Compacted(rest, nothingDeeper));
    }
  }

  ghost predicate StripeTrimmed(job: Job, stripe: seq<Entry>, rest: seq<Entry>, deeper: bool, front: seq<Entry>) {
    && (forall o | o in front :: StandsFor(job, stripe + rest, deeper, o) && NumberIn(stripe, o.sn))
    && (forall x, y | 0 <= x < y < |front| :: front[x].sn > front[y].sn)
    && (forall x | 0 <= x < |front| - 1 :: front[x].kind == Merge)
  }

  lemma FirstTrim(job: Job, group: seq<Entry>, k: Key, deeper: bool)
    returns (stripe: seq<Entry>, rest: seq<Entry>, front: seq<Entry>)
    requires job.Valid() && IsGroup(group, k) && group != [] && forall g | g in group :: g.sn <= job.last
    ensures group == stripe + rest && |rest| < |group| && Parted(job, stripe, rest)
    ensures StripeTrimmed(job, stripe, rest, deeper, front)
    ensures job.Compacted(group, deeper) == front + job.Compacted(rest, deeper)
    ensures IsGroup(rest, k) && forall g | g in rest :: g.sn <= job.last
  {
    hide Job.Valid, StandsFor, Job.StripeOf, Job.CompactStripe, Parted, IsGroup, IsStripe, NumberIn;
    var index, n := GroupStripes(job, group, k);
    GroupParted(job, group, k, index, n);
    stripe, rest := group[..n], group[n..];
    assert group == stripe + rest && (n == |group| <==> rest == []);
    StripeTrims(job, stripe, rest, k, index, deeper);
    front := job.CompactStripe(stripe, index, rest == [], deeper);
    forall g | g in rest ensures g.sn <= job.last {
      assert g in group;
    }
  }

  lemma NothingTrims(job: Job, deeper: bool)
    ensures job.Compacted([], deeper) == [] && Trimmed(job, [], deeper, [])
  {
  }

  lemma JoinTrimmed(job: Job, stripe: seq<Entry>, rest: seq<Entry>, deeper: bool, front: seq<Entry>, older: seq<Entry>)
    requires Parted(job, stripe, rest) && StripeTrimmed(job, stripe, rest, deeper, front)
    requires Trimmed(job, rest, deeper, older)
    ensures Trimmed(job, stripe + rest, deeper, front + older)
  {
    hide SameReaders, StandsFor;
    var out := front + older;
    forall o | o in older
      ensures StandsFor(job, stripe + rest, deeper, o)
      ensures forall f | f in front :: f.sn > o.sn && !SameReaders(job, f.sn, o.sn)
    {
      RestStands(job, stripe, rest, deeper, o);
      var y :| y in rest && y.sn == o.sn;
      forall f | f in front ensures f.sn > o.sn && !SameReaders(job, f.sn, o.sn) {
        var x :| x in stripe && x.sn == f.sn;
      }
    }
    forall x, y | 0 <= x < y < |out|
      ensures out[x].sn > out[y].sn && (SameReaders(job, out[x].sn, out[y].sn) ==> out[x].kind == Merge)
    {
      if x < |front| <= y {
        assert out[x] in front && out[y] == older[y - |front|] && out[y] in older;
      }
    }
  }

  // ---- The whole compaction ----

  /** No deeper file holds the key. */
  ghost predicate NothingDeeper(deep: seq<Span>, k: Key) {
    forall s | s in deep :: !Spans(s, k)
  }

  ghost predicate Spans(s: Span, k: Key) {
    s.smallest <= k <= s.largest
  }

  lemma BaseIsNothingDeeper(deep: seq<Span>, k: Key)
    ensures BaseForKey(deep, k) <==> NothingDeeper(deep, k)
  {
    assert forall i | 0 <= i < |deep| :: deep[i] in deep;
  }

  /** What the outputs hold of a key is as little as readers and deeper files allow. */
  lemma KeyShrinks(job: Job, deep: seq<Span>, input: seq<Entry>, k: Key)
    requires job.Valid() && Sorted(input) && Real(job, input)
    ensures Trimmed(job, OfKey(input, k), NothingDeeper(deep, k), OfKey(CompactAll(job, deep, input), k))
    ensures Accepts(job.mop, k) ==>
              Shrunk(job, OfKey(input, k), NothingDeeper(deep, k), OfKey(CompactAll(job, deep, input), k))
  {
    hide CompactAll, Job.Compacted, Job.Valid, Sorted, OfKey, Trimmed, Shrunk, Accepts, IsGroup;
    KeyCompacts(job, deep, input, k);
    BaseIsNothingDeeper(deep, k);
    GroupTrims(job, OfKey(input, k), k, NothingDeeper(deep, k));
    if Accepts(job.mop, k) {
      GroupShrinks(job, OfKey(input, k), k, NothingDeeper(deep, k));
    }
  }

  /** A tombstone is left out exactly if every reader sees it, and no deeper file reaches into its range. */
  lemma DroppedIff(job: Job, deep: seq<Span>, t: Tombstone)
    requires job.Valid() && t in job.inputs && t.begin < t.end && forall s | s in deep :: s.smallest <= s.largest
    ensures Dropped(job, deep, t) <==>
            && (forall r: SeqNo | job.Live(r) :: t.sn <= r)
            && (forall s, k: Key | s in deep && Spans(s, k) :: !(t.begin <= k <= t.end))
  {
    assert job.Live(job.Smallest());
    forall r: SeqNo | job.Live(r) ensures job.Smallest() <= r {
      if r in job.snapshots {
        var i :| 0 <= i < |job.snapshots| && job.snapshots[i] == r;
      }
    }
    if BaseForRange(deep, t.begin, t.end) {
      forall s, k: Key | s in deep && Spans(s, k) ensures !(t.begin <= k <= t.end) {
        var i :| 0 <= i < |deep| && deep[i] == s;
      }
    }
    forall i | 0 <= i < |deep| && !(t.end < deep[i].smallest || deep[i].largest < t.begin)
      ensures exists k: Key :: Spans(deep[i], k) && t.begin <= k <= t.end
    {
      var k := if t.begin < deep[i].smallest then deep[i].smallest else t.begin;
      assert Spans(deep[i], k) && deep[i] in deep;
    }
  }
}
