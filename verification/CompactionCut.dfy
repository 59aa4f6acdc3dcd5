/**
 * Where a compaction ends its files: exactly where ShouldStopBefore or the file size
 * says so.  Both answers are given once for every user key, at the end of its entries.
 */
module CompactionCuts {
  import opened Core
  import opened Layers
  import opened CompactGroups
  import opened CompactionOutputs

  /** A user key's entries end at i. */
  ghost predicate KeyEnds(input: seq<Entry>, i: nat) {
    0 < i <= |input| && (i < |input| ==> input[i].key != input[i - 1].key)
  }

  /** A file was full after key `first` or a later one below k. */
  ghost predicate FullBefore(input: seq<Entry>, full: nat -> bool, first: Key, k: Key) {
    exists i: nat :: KeyEnds(input, i) && full(i) && first <= input[i - 1].key < k
  }

  /** A file is to stop before key k. */
  ghost predicate StopsBefore(input: seq<Entry>, stop: nat -> bool, k: Key) {
    exists i: nat :: KeyEnds(input, i) && stop(i) && input[i - 1].key == k
  }

  /** Nothing asked for a cut between these entries. */
  ghost predicate Uncut(es: seq<Entry>, input: seq<Entry>, stop: nat -> bool, full: nat -> bool) {
    forall e, e' :: e in es && e' in es && e.key < e'.key ==>
      !StopsBefore(input, stop, e'.key) && !FullBefore(input, full, e.key, e'.key)
  }

  /** A file that ends before k has entries, and something asked for it. */
  ghost predicate Due(es: seq<Entry>, k: Key, input: seq<Entry>, stop: nat -> bool, full: nat -> bool) {
    es != [] && (StopsBefore(input, stop, k) || FullBefore(input, full, es[0].key, k))
  }

  /** Files end where they have to, and only there. */
  ghost predicate CutAsTold(outs: seq<Output>, input: seq<Entry>, stop: nat -> bool, full: nat -> bool) {
    forall o <- outs :: Uncut(o.entries, input, stop, full)
                        && (o.upper.Some? ==> Due(o.entries, o.upper.value, input, stop, full))
  }

  /** The current file was full after its first key or a later one, up to position `from`. */
  ghost predicate FullSoFar(es: seq<Entry>, input: seq<Entry>, from: nat, full: nat -> bool) {
    es != [] && exists i: nat :: i <= from && KeyEnds(input, i) && full(i) && es[0].key <= input[i - 1].key
  }

  /** The files so far, and the current one, after the keys that end at or before `from`. */
  ghost predicate CutSoFar(outs: seq<Output>, es: seq<Entry>, pending: bool, input: seq<Entry>, from: nat,
                           stop: nat -> bool, full: nat -> bool) {
    && (0 < from ==> KeyEnds(input, from))
    && CutAsTold(outs, input, stop, full) && Uncut(es, input, stop, full)
    && pending == FullSoFar(es, input, from, full)
  }

  lemma NothingCut(input: seq<Entry>, stop: nat -> bool, full: nat -> bool)
    ensures CutSoFar([], [], false, input, 0, stop, full)
  {
  }

  lemma LastFile(outs: seq<Output>, es: seq<Entry>, lower: Option<Key>, outs': seq<Output>, input: seq<Entry>,
                 stop: nat -> bool, full: nat -> bool)
    requires CutAsTold(outs, input, stop, full) && Uncut(es, input, stop, full)
    requires outs' == outs || Added(outs, outs', es, lower, None)
    ensures CutAsTold(outs', input, stop, full)
  {
    hide Uncut, Due;
    assert outs' == outs || outs' == outs + [outs'[|outs|]];
  }

  /** The entries of one key are never to be cut. */
  lemma OneKeyUncut(out: seq<Entry>, k: Key, input: seq<Entry>, stop: nat -> bool, full: nat -> bool)
    requires IsGroup(out, k)
    ensures Uncut(out, input, stop, full)
  {
  }

  lemma NoEndInside(input: seq<Entry>, from: nat, i: nat, j: nat)
    requires from < j < i <= |input| && forall x | from <= x < i :: input[x].key == input[from].key
    ensures !KeyEnds(input, j)
  {
    assert input[j].key == input[j - 1].key;
  }

  /** The keys that end in a sorted input, seen from one of them. */
  lemma EndsInOrder(input: seq<Entry>, from: nat, i: nat)
    requires Sorted(input) && from < i <= |input| && KeyEnds(input, i)
    requires forall j | from <= j < i :: input[j].key == input[from].key
    requires 0 < from ==> KeyEnds(input, from)
    ensures forall j: nat :: KeyEnds(input, j) && input[j - 1].key < input[from].key ==> j <= from
    ensures forall j: nat :: KeyEnds(input, j) && j <= from ==> input[j - 1].key < input[from].key
    ensures forall j: nat :: KeyEnds(input, j) && input[j - 1].key == input[from].key ==> j == i
    ensures forall j: nat :: KeyEnds(input, j) && from < j <= i ==> j == i
  {
    forall j: nat | KeyEnds(input, j)
      ensures j <= from <==> input[j - 1].key < input[from].key
      ensures input[j - 1].key == input[from].key ==> j == i
      ensures from < j <= i ==> j == i
    {
      if from < j < i {
        NoEndInside(input, from, i, j);
      } else if j <= from {
        assert Before(input[j - 1].key, input[j - 1].sn, input[j].key, input[j].sn);
        assert j == from || Before(input[j].key, input[j].sn, input[from].key, input[from].sn);
      } else if j > i {
        assert Before(input[i - 1].key, input[i - 1].sn, input[i].key, input[i].sn);
        assert j - 1 == i || Before(input[i].key, input[i].sn, input[j - 1].key, input[j - 1].sn);
      }
    }
  }

  /** What the current file was asked up to now is what it was asked before the next key. */
  lemma PendingIsFull(es: seq<Entry>, input: seq<Entry>, from: nat, i: nat, stop: nat -> bool, full: nat -> bool)
    requires Sorted(input) && from < i <= |input| && KeyEnds(input, i) && (0 < from ==> KeyEnds(input, from))
    requires es != []
    requires forall j | from <= j < i :: input[j].key == input[from].key
    ensures FullSoFar(es, input, from, full) <==> FullBefore(input, full, es[0].key, input[from].key)
    ensures stop(i) <==> StopsBefore(input, stop, input[from].key)
  {
    EndsInOrder(input, from, i);
    assert input[i - 1].key == input[from].key;
  }

  /** The same after it. */
  lemma FullAfter(es: seq<Entry>, es': seq<Entry>, input: seq<Entry>, from: nat, i: nat, full: nat -> bool)
    requires Sorted(input) && from < i <= |input| && KeyEnds(input, i) && (0 < from ==> KeyEnds(input, from))
    requires es' != []
    requires forall j | from <= j < i :: input[j].key == input[from].key
    requires if es == [] then es'[0].key == input[from].key else es'[0] == es[0] && es[0].key < input[from].key
    ensures FullSoFar(es', input, i, full) <==> full(i) || FullSoFar(es, input, from, full)
  {
    EndsInOrder(input, from, i);
    assert input[i - 1].key == input[from].key;
    if FullSoFar(es', input, i, full) {
      var j: nat :| j <= i && KeyEnds(input, j) && full(j) && es'[0].key <= input[j - 1].key;
      assert j == i || j <= from;
    }
    if full(i) {
      assert KeyEnds(input, i) && es'[0].key <= input[i - 1].key;
    }
  }

  /** A key joins the file: nothing asked for a cut before it. */
  lemma JoinedUncut(es: seq<Entry>, out: seq<Entry>, k: Key, input: seq<Entry>, stop: nat -> bool, full: nat -> bool)
    requires Uncut(es, input, stop, full) && IsGroup(out, k) && Sorted(es) && forall e <- es :: e.key < k
    requires es != [] ==> !StopsBefore(input, stop, k) && !FullBefore(input, full, es[0].key, k)
    ensures Uncut(es + out, input, stop, full)
  {
    forall e, e' | e in es + out && e' in es + out && e.key < e'.key
      ensures !StopsBefore(input, stop, e'.key) && !FullBefore(input, full, e.key, e'.key)
    {
      if e' !in es {
        assert e'.key == k && e in es;
        FirstIsLeast(es, e);
      } else {
        assert e in es;
      }
    }
  }

  lemma FirstIsLeast(es: seq<Entry>, e: Entry)
    requires Sorted(es) && e in es
    ensures es[0].key <= e.key
  {
    var j :| 0 <= j < |es| && es[j] == e;
    assert j == 0 || Before(es[0].key, es[0].sn, es[j].key, es[j].sn);
  }

  /** Writing the next group as it is written keeps all that. */
  lemma FlushCuts(outs: seq<Output>, es: seq<Entry>, lower: Option<Key>, pending: bool,
                  outs': seq<Output>, es': seq<Entry>, lower': Option<Key>, pending': bool,
                  input: seq<Entry>, from: nat, i: nat, out: seq<Entry>, stop: nat -> bool, full: nat -> bool)
    requires Sorted(input) && from < i <= |input| && KeyEnds(input, i)
    requires forall j | from <= j < i :: input[j].key == input[from].key
    requires IsGroup(out, input[from].key) && Sorted(es) && forall e <- es :: e.key < input[from].key
    requires CutSoFar(outs, es, pending, input, from, stop, full)
    requires GroupFlushed(outs, es, lower, pending, outs', es', lower', pending', input[from].key, out, stop(i),
                          full(i))
    ensures CutSoFar(outs', es', pending', input, i, stop, full)
  {
    hide FullBefore, StopsBefore, FullSoFar, Uncut, KeyEnds, Sorted, IsGroup;
    var k := input[from].key;
    if es != [] {
      PendingIsFull(es, input, from, i, stop, full);
    }
    NoneYet(input, from, full);
    if es != [] && (pending || stop(i)) {
      OneKeyUncut(out, k, input, stop, full);
      OneMoreFile(outs, es, lower, outs', k, input, stop, full);
      OpenAfter([], es', input, from, i, out, full);
    } else {
      JoinedUncut(es, out, k, input, stop, full);
      OpenAfter(es, es', input, from, i, out, full);
    }
  }

  lemma OneMoreFile(outs: seq<Output>, es: seq<Entry>, lower: Option<Key>, outs': seq<Output>, k: Key,
                    input: seq<Entry>, stop: nat -> bool, full: nat -> bool)
    requires CutAsTold(outs, input, stop, full) && Uncut(es, input, stop, full) && Due(es, k, input, stop, full)
    requires Added(outs, outs', es, lower, Some(k))
    ensures CutAsTold(outs', input, stop, full)
  {
    hide Uncut, Due;
    assert outs' == outs + [outs'[|outs|]];
  }

  lemma NoneYet(input: seq<Entry>, from: nat, full: nat -> bool)
    ensures !FullSoFar([], input, from, full)
  {
  }

  /** Is the current file full, now that it has the group? */
  lemma OpenAfter(es: seq<Entry>, es': seq<Entry>, input: seq<Entry>, from: nat, i: nat, out: seq<Entry>,
                  full: nat -> bool)
    requires Sorted(input) && from < i <= |input| && KeyEnds(input, i) && (0 < from ==> KeyEnds(input, from))
    requires forall j | from <= j < i :: input[j].key == input[from].key
    requires IsGroup(out, input[from].key) && (forall e <- es :: e.key < input[from].key) && es' == es + out
    ensures FullSoFar(es', input, i, full) <==> es' != [] && (full(i) || FullSoFar(es, input, from, full))
  {
    hide FullSoFar, Sorted, KeyEnds;
    if es' == [] {
      NoneYet(input, i, full);
    } else {
      if es != [] {
        assert es[0] in es;
      }
      FullAfter(es, es', input, from, i, full);
    }
  }
}
