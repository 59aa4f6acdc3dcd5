/**
 * The loop that compacts a group, in the engine's form, against its specification
 * CompactGroups.Job.Compacted; and what the specification promises besides being
 * invisible: outputs stay ordered, and without snapshots a key is left with at most
 * one plain value.
 */
module CompactGroupLoops {
  import opened Core
  import opened Visibility
  import opened CompactGroups

  /** The first n entries are the first stripe, number `index`. */
  ghost predicate IsStripe(job: Job, rest: seq<Entry>, index: nat, n: nat) {
    && n <= |rest|
    && (forall i | 0 <= i < n :: job.StripeOf(rest[i].sn) == index)
    && (n < |rest| ==> job.StripeOf(rest[n].sn) != index)
  }

  /** Where the operands end, however that is found. */
  lemma OperandsAre(job: Job, stripe: seq<Entry>, bound: SeqNo, m: nat)
    requires m <= |stripe|
    requires forall i | 0 <= i < m :: job.Effective(stripe[i], bound).kind == Merge
    requires m < |stripe| ==> job.Effective(stripe[m], bound).kind != Merge
    ensures job.Operands(stripe, bound) == m
  {
  }

  /** The values collected one by one are the values of the operands. */
  lemma ValuesAre(es: seq<Entry>, m: nat, ops: seq<Value>)
    requires m <= |es| && |ops| == m && forall i | 0 <= i < m :: ops[i] == es[i].value
    ensures ops == Values(es[..m])
  {
  }

  /**
   * Collect the operands of the first stripe, newest first, up to the entry that
   * settles it.  A covered entry becomes a deletion in place; only the settling
   * entry can be one, so it is returned in its new form.
   */
  method CollectOperands(job: Job, rest: seq<Entry>, index: nat, ghost stripe: seq<Entry>)
    returns (ops: seq<Value>, settle: nat, settled: bool, settler: Entry)
    requires rest != [] && stripe <= rest && IsStripe(job, rest, index, |stripe|)
    ensures settle == job.Operands(stripe, job.Bound(index)) && settled == (settle < |stripe|)
    ensures ops == Values(stripe[..settle])
    ensures settled ==> settler == job.Effective(stripe[settle], job.Bound(index))
  {
    var bound := job.Bound(index);
    ops, settle, settled, settler := [], 0, false, rest[0];
    while settle < |rest| && job.StripeOf(rest[settle].sn) == index
      invariant settle <= |stripe| && !settled
      invariant |ops| == settle && forall i | 0 <= i < settle :: ops[i] == stripe[i].value
      invariant forall i | 0 <= i < settle :: job.Effective(stripe[i], bound).kind == Merge
      decreases |rest| - settle
    {
      settler := job.Effective(rest[settle], bound);
      if settler.kind != Merge {
        settled := true;
        break;
      }
      ops := ops + [settler.value];
      settle := settle + 1;
    }
    OperandsAre(job, stripe, bound, settle);
    ValuesAre(stripe, settle, ops);
  }

  /** Fold operands, given newest first, among themselves: PartialMerge from the oldest up. */
  method FoldPartials(job: Job, k: Key, ops: seq<Value>) returns (r: Option<Value>)
    requires job.mop.Some? && ops != []
    ensures r == job.FoldPartial(k, ops)
  {
    var j := |ops| - 1;
    var acc := ops[j];
    assert ops[j..] == [acc];
    while j > 0
      invariant 0 <= j < |ops|
      invariant job.FoldPartial(k, ops[j..]) == Some(acc)
      decreases j
    {
      assert ops[j - 1..][1..] == ops[j..] && ops[j - 1..][0] == ops[j - 1];
      var tmp := job.mop.value.partial(k, acc, ops[j - 1]);
      if tmp.None? {
        PartialFails(job, k, ops, j - 1);
        return None;
      }
      acc, j := tmp.value, j - 1;
    }
    assert ops[0..] == ops;
    return Some(acc);
  }

  /** Once a fold fails, it fails with every newer operand on top. */
  lemma {:induction false} PartialFails(job: Job, k: Key, ops: seq<Value>, j: nat)
    requires job.mop.Some? && j < |ops| && job.FoldPartial(k, ops[j..]) == None
    ensures job.FoldPartial(k, ops) == None
    decreases j
  {
    if j == 0 {
      assert ops[0..] == ops;
    } else {
      assert ops[j - 1..][1..] == ops[j..];
      PartialFails(job, k, ops, j - 1);
    }
  }

  /** What the first stripe contributes, from what was collected of it. */
  ghost function Emitted(job: Job, kept: seq<Entry>, first: Entry, settled: bool, settler: Entry,
                         ops: seq<Value>, index: nat, nothingOlder: bool, baseLevel: bool): seq<Entry>
    requires settled || ops != []
  {
    var asIs := kept + if settled then [settler] else [];
    var base := if settled && settler.kind == Put then Some(settler.value) else None;
    if settled && ops == [] then (if settler.kind == Deletion && index == 0 && baseLevel then [] else [settler])
    else if job.mop.Some? && (settled || nothingOlder) then
      match job.mop.value.full(first.key, base, Reversed(ops))
      case Some(v) => [Entry(first.key, first.sn, Put, v)]
      case None => asIs
    else if job.mop.Some? && |ops| > 1 then
      match job.FoldPartial(first.key, ops)
      case Some(v) => [Entry(first.key, first.sn, Merge, v)]
      case None => asIs
    else asIs
  }

  lemma EmittedIsStripe(job: Job, stripe: seq<Entry>, m: nat, settler: Entry, index: nat, lastStripe: bool,
                        baseLevel: bool)
    requires stripe != [] && m == job.Operands(stripe, job.Bound(index))
    requires m < |stripe| ==> settler == job.Effective(stripe[m], job.Bound(index))
    ensures m < |stripe| || Values(stripe[..m]) != []
    ensures job.CompactStripe(stripe, index, lastStripe, baseLevel) ==
            Emitted(job, stripe[..m], stripe[0], m < |stripe|, settler, Values(stripe[..m]), index,
                    lastStripe && baseLevel, baseLevel)
  {
    assert stripe[..m] + [] == stripe[..m];
    if m == 0 {
      assert stripe[..0] + [settler] == [settler];
    }
  }

  method EmitStripe(job: Job, rest: seq<Entry>, settle: nat, settled: bool, settler: Entry,
                    ops: seq<Value>, index: nat, nothingOlder: bool, baseLevel: bool)
    returns (out: seq<Entry>)
    requires rest != [] && settle <= |rest| && |ops| == settle && (settled || ops != [])
    ensures out == Emitted(job, rest[..settle], rest[0], settled, settler, ops, index, nothingOlder, baseLevel)
  {
    out := [];
    if settled && ops == [] {
      if settler.kind == Deletion && index == 0 && baseLevel {
        // Below this deletion the key does not exist: without the marker it reads the same.
        return;
      }
      return [settler];
    }
    if job.mop.Some? && (settled || nothingOlder) {
      var base := if settled && settler.kind == Put then Some(settler.value) else None;
      var merged := job.mop.value.full(rest[0].key, base, Reversed(ops));
      if merged.Some? {
        return [Entry(rest[0].key, rest[0].sn, Put, merged.value)];
      }
    } else if job.mop.Some? && |ops| > 1 {
      var acc := FoldPartials(job, rest[0].key, ops);
      if acc.Some? {
        return [Entry(rest[0].key, rest[0].sn, Merge, acc.value)];
      }
    }
    // No fold was possible: the stripe's visible part goes out unchanged.
    var j := 0;
    while j < settle
      invariant 0 <= j <= settle && out == rest[..j]
    {
      out := out + [rest[j]];
      j := j + 1;
    }
    if settled {
      out := out + [settler];
    }
  }

  /** Where the first stripe ends. */
  method SkipStripe(job: Job, rest: seq<Entry>, from: nat, index: nat, ghost n: nat) returns (next: nat)
    requires IsStripe(job, rest, index, n) && from <= n
    ensures next == n
  {
    next := from;
    while next < |rest| && job.StripeOf(rest[next].sn) == index
      invariant from <= next <= n
      decreases |rest| - next
    {
      next := next + 1;
    }
  }

  /** One round of the loop: what the first stripe compacts to, and how long it is. */
  method OneStripe(job: Job, rest: seq<Entry>, baseLevel: bool) returns (out: seq<Entry>, next: nat)
    requires rest != []
    ensures var index := job.StripeOf(rest[0].sn);
            && 0 < next == job.StripeLength(rest, index)
            && out == job.CompactStripe(rest[..next], index, next == |rest|, baseLevel)
  {
    var index := job.StripeOf(rest[0].sn);
    ghost var n := job.StripeLength(rest, index);
    ghost var stripe := rest[..n];
    var ops, settle, settled, settler := CollectOperands(job, rest, index, stripe);
    next := SkipStripe(job, rest, settle, index, n);
    EmittedIsStripe(job, stripe, settle, settler, index, n == |rest|, baseLevel);
    assert rest[..settle] == stripe[..settle];
    out := EmitStripe(job, rest, settle, settled, settler, ops, index, next >= |rest| && baseLevel, baseLevel);
  }

  lemma CompactedStep(job: Job, rest: seq<Entry>, baseLevel: bool, stripe: seq<Entry>, next: nat)
    requires rest != [] && 0 < next == job.StripeLength(rest, job.StripeOf(rest[0].sn))
    requires stripe == job.CompactStripe(rest[..next], job.StripeOf(rest[0].sn), next == |rest|, baseLevel)
    ensures job.Compacted(rest, baseLevel) == stripe + job.Compacted(rest[next..], baseLevel)
  {
  }

  /** The loop of DoCompactionWork over one group; `rest` is what is left of it. */
  method CompactGroup(job: Job, group: seq<Entry>, baseLevel: bool) returns (out: seq<Entry>)
    ensures out == job.Compacted(group, baseLevel)
  {
    out := [];
    var rest := group;
    ghost var left := job.Compacted(group, baseLevel);
    while rest != []
      invariant left == job.Compacted(rest, baseLevel)
      invariant out + left == job.Compacted(group, baseLevel)
      decreases |rest|
    {
      var stripe, next := OneStripe(job, rest, baseLevel);
      CompactedStep(job, rest, baseLevel, stripe, next);
      left := job.Compacted(rest[next..], baseLevel);
      Associate(out, stripe, left);
      out := out + stripe;
      rest := rest[next..];
    }
  }

  // ---- What else compaction promises ----

  /** A stripe becomes nothing, one entry with its newest number, or a prefix of itself with its last entry settled. */
  lemma StripeShape(job: Job, stripe: seq<Entry>, index: nat, lastStripe: bool, baseLevel: bool)
    requires stripe != []
    ensures var out := job.CompactStripe(stripe, index, lastStripe, baseLevel);
            var m := job.Operands(stripe, job.Bound(index));
            || out == []
            || (|out| == 1 && out[0].key == stripe[0].key && out[0].sn == stripe[0].sn)
            || out == stripe[..m] + (if m < |stripe| then [job.Effective(stripe[m], job.Bound(index))] else [])
  {
  }

  lemma StripeIsGroup(job: Job, stripe: seq<Entry>, k: Key, index: nat, lastStripe: bool, baseLevel: bool)
    requires stripe != [] && IsGroup(stripe, k)
    ensures var out := job.CompactStripe(stripe, index, lastStripe, baseLevel);
            IsGroup(out, k) && forall x | 0 <= x < |out| :: Numbered(stripe, out[x].sn)
  {
    var out := job.CompactStripe(stripe, index, lastStripe, baseLevel);
    StripeShape(job, stripe, index, lastStripe, baseLevel);
    forall x | 0 <= x < |out| ensures Numbered(stripe, out[x].sn) {
      if |out| == 1 && out[0].sn == stripe[0].sn {
        assert stripe[0].sn == out[x].sn;
      } else {
        assert stripe[x].sn == out[x].sn;
      }
    }
  }

  /** Some entry of the list has this number. */
  ghost predicate Numbered(es: seq<Entry>, sn: SeqNo) {
    exists i :: 0 <= i < |es| && es[i].sn == sn
  }

  /** Newer numbers of a stripe, then older numbers of the rest of the group. */
  lemma JoinGroups(group: seq<Entry>, n: nat, out: seq<Entry>, older: seq<Entry>, k: Key)
    requires IsGroup(group, k) && n <= |group| && IsGroup(out, k) && IsGroup(older, k)
    requires forall x | 0 <= x < |out| :: Numbered(group[..n], out[x].sn)
    requires forall x | 0 <= x < |older| :: Numbered(group[n..], older[x].sn)
    ensures IsGroup(out + older, k) && forall x | 0 <= x < |out + older| :: Numbered(group, (out + older)[x].sn)
  {
    hide Numbered;
    var newest, rest, all := group[..n], group[n..], out + older;
    forall x, y | 0 <= x < |out| && 0 <= y < |older| ensures out[x].sn > older[y].sn {
      var i := PlaceOf(newest, out[x].sn);
      var j := PlaceOf(rest, older[y].sn);
      assert group[i].sn > group[n + j].sn;
    }
    forall x | 0 <= x < |all| ensures Numbered(group, all[x].sn) {
      if x < |out| {
        var i := PlaceOf(newest, out[x].sn);
        At(group, i);
      } else {
        var j := PlaceOf(rest, older[x - |out|].sn);
        At(group, n + j);
      }
    }
  }

  lemma PlaceOf(es: seq<Entry>, sn: SeqNo) returns (i: nat)
    requires Numbered(es, sn)
    ensures i < |es| && es[i].sn == sn
  {
    i :| 0 <= i < |es| && es[i].sn == sn;
  }

  lemma At(es: seq<Entry>, i: nat)
    requires i < |es|
    ensures Numbered(es, es[i].sn)
  {
  }

  /** The first stripe's part and the rest's part of the output. */
  lemma CompactedParts(job: Job, group: seq<Entry>, k: Key, baseLevel: bool) returns (n: nat, out: seq<Entry>)
    requires IsGroup(group, k) && group != []
    ensures 0 < n <= |group| && job.Compacted(group, baseLevel) == out + job.Compacted(group[n..], baseLevel)
    ensures IsGroup(out, k) && forall x | 0 <= x < |out| :: Numbered(group[..n], out[x].sn)
  {
    var index := job.StripeOf(group[0].sn);
    n := job.StripeLength(group, index);
    out := job.CompactStripe(group[..n], index, n == |group|, baseLevel);
    StripeIsGroup(job, group[..n], k, index, n == |group|, baseLevel);
  }

  /** Outputs carry numbers of the group, newest first, so they keep their place among the layers. */
  lemma {:induction false} CompactedIsGroup(job: Job, group: seq<Entry>, k: Key, baseLevel: bool)
    requires IsGroup(group, k)
    ensures var out := job.Compacted(group, baseLevel);
            IsGroup(out, k) && forall x | 0 <= x < |out| :: Numbered(group, out[x].sn)
    decreases |group|
  {
    if group != [] {
      var n, out := CompactedParts(job, group, k, baseLevel);
      CompactedIsGroup(job, group[n..], k, baseLevel);
      JoinGroups(group, n, out, job.Compacted(group[n..], baseLevel), k);
    }
  }

  /**
   * With no live snapshot, an operator that accepts the key's operands, and nothing
   * deeper, a key is left with a single plain value, or with nothing at all.
   */
  lemma SinglePlainValue(job: Job, group: seq<Entry>, k: Key)
    requires job.snapshots == [] && job.mop.Some? && IsGroup(group, k)
    requires forall b, ops | ops != [] :: job.mop.value.full(k, b, ops).Some?
    ensures |job.Compacted(group, true)| <= 1
    ensures forall e :: e in job.Compacted(group, true) ==> e.kind == Put
  {
    if group != [] {
      var n := job.StripeLength(group, 0);
      assert n < |group| ==> job.StripeOf(group[n].sn) == 0;
      assert group[..n] == group && job.Compacted(group[n..], true) == [];
      var m := job.Operands(group, job.Bound(0));
      assert m > 0 ==> |Reversed(Values(group[..m]))| > 0;
    }
  }
}
