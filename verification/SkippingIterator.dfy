/**
 * RangeDelSkippingIterator: an iterator over one layer that seeks past whatever a
 * newer layer's tombstone hides, in either direction.  It always stops at the
 * nearest entry no such tombstone covers, and leaving out what it skips changes no
 * read at its snapshot.
 */
module SkippingIterators {
  import opened Core
  import opened Visibility
  import opened Layers
  import opened RangeDelViews

  class SkippingIterator {
    /** The wrapped iterator: one layer's entries and a cursor, valid iff within them. */
    const entries: seq<Entry>
    var pos: int
    const layer: nat
    const snapshot: SeqNo
    const view: RangeDelView
    /** The tombstones the view answers for. */
    ghost const ts: seq<Tombstone>

    constructor (entries: seq<Entry>, layer: nat, snapshot: SeqNo, view: RangeDelView, ghost ts: seq<Tombstone>)
      requires view.Valid() && view.All() == ts
      requires Sorted(entries) && forall i | 0 <= i < |entries| :: entries[i].sn <= MAX_SEQ
      ensures Valid() && this.entries == entries && this.layer == layer
      ensures this.snapshot == snapshot && this.view == view && this.ts == ts
    {
      this.entries, this.layer, this.snapshot, this.view, this.ts := entries, layer, snapshot, view, ts;
      pos := |entries|;
    }

    ghost predicate Valid()
      reads this, view.Repr
    {
      && view.Valid() && view.All() == ts && this !in view.Repr
      && Sorted(entries) && (forall i | 0 <= i < |entries| :: entries[i].sn <= MAX_SEQ)
      && -1 <= pos <= |entries|
    }

    predicate Positioned()
      reads this
    {
      0 <= pos < |entries|
    }

    /** Entry i is hidden by a visible tombstone of a newer layer. */
    ghost predicate Skips(i: int)
      requires 0 <= i < |entries|
    {
      NaiveMax(ts, entries[i].key, snapshot, layer) > 0
    }

    /** Everything from index a up to, not including, b is skipped. */
    ghost predicate SkipsAll(a: int, b: int) {
      forall i | a <= i < b && 0 <= i < |entries| :: Skips(i)
    }

    /** The first entry whose user key is k or more: Seek to (k, kMaxSequenceNumber). */
    method SeekKey(k: Key) returns (i: nat)
      requires Valid()
      ensures i <= |entries|
      ensures forall j | 0 <= j < |entries| :: entries[j].key < k <==> j < i
    {
      i := Seek(entries, k, MAX_SEQ);
    }

    lemma KeysAscend(i: int, j: int)
      requires Sorted(entries) && 0 <= i <= j < |entries|
      ensures entries[i].key <= entries[j].key
    {
      assert i == j || Before(entries[i].key, entries[i].sn, entries[j].key, entries[j].sn);
    }

    /** Stop at the first entry from here on that is not skipped. */
    method SkipForward()
      requires Valid() && 0 <= pos
      modifies this
      ensures Valid() && old(pos) <= pos
      ensures SkipsAll(old(pos), pos) && (Positioned() ==> !Skips(pos))
    {
      while 0 <= pos < |entries|
        invariant Valid() && old(pos) <= pos && SkipsAll(old(pos), pos)
        decreases |entries| - pos
      {
        var covered, b, e := view.CoveredRange(entries[pos].key, snapshot, layer);
        if !covered {
          return;
        }
        var next := SeekKey(e);
        forall i | pos <= i < next ensures Skips(i) {
          KeysAscend(pos, i);
        }
        assert pos < next;
        pos := next;
      }
    }

    /** Stop at the last entry up to here that is not skipped. */
    method SkipBackward()
      requires Valid() && pos < |entries|
      modifies this
      ensures Valid() && pos <= old(pos)
      ensures SkipsAll(pos + 1, old(pos) + 1) && (Positioned() ==> !Skips(pos))
    {
      while 0 <= pos < |entries|
        invariant Valid() && pos <= old(pos) && SkipsAll(pos + 1, old(pos) + 1)
        decreases pos + 1
      {
        var covered, b, e := view.CoveredRange(entries[pos].key, snapshot, layer);
        if !covered {
          return;
        }
        var first := SeekKey(b);
        // The current entry is itself at or after b, so the seek finds an entry,
        // and the fallback to the last entry is never taken.
        assert first <= pos;
        forall i | first <= i <= pos ensures Skips(i) {
          KeysAscend(i, pos);
        }
        if first < |entries| {
          pos := first - 1;
        } else {
          assert false;
        }
      }
    }

    method SeekTo(k: Key, s: SeqNo)
      requires Valid()
      modifies this
      ensures Valid() && 0 <= pos
      ensures Positioned() ==> !Skips(pos) && !Before(entries[pos].key, entries[pos].sn, k, s)
      ensures forall i | 0 <= i < pos && i < |entries| :: Before(entries[i].key, entries[i].sn, k, s) || Skips(i)
    {
      var i := Seek(entries, k, s);
      pos := i;
      SkipForward();
    }

    method SeekToFirst()
      requires Valid()
      modifies this
      ensures Valid() && 0 <= pos && SkipsAll(0, pos) && (Positioned() ==> !Skips(pos))
    {
      pos := 0;
      SkipForward();
    }

    method SeekToLast()
      requires Valid()
      modifies this
      ensures Valid() && pos < |entries| && SkipsAll(pos + 1, |entries|) && (Positioned() ==> !Skips(pos))
    {
      pos := |entries| - 1;
      SkipBackward();
    }

    method Next()
      requires Valid() && Positioned()
      modifies this
      ensures Valid() && old(pos) < pos && SkipsAll(old(pos) + 1, pos) && (Positioned() ==> !Skips(pos))
    {
      pos := pos + 1;
      SkipForward();
    }

    method Prev()
      requires Valid() && Positioned()
      modifies this
      ensures Valid() && pos < old(pos) && SkipsAll(pos + 1, old(pos)) && (Positioned() ==> !Skips(pos))
    {
      pos := pos - 1;
      SkipBackward();
    }
  }

  // ---- What is skipped is never missed ----

  /** The entries of layer i that its skipping iterator can stop at. */
  ghost function Kept(es: seq<Entry>, ts: seq<Tombstone>, r: SeqNo, i: nat): seq<Entry> {
    if es == [] then []
    else
      var rest := Kept(es[1..], ts, r, i);
      if NaiveMax(ts, es[0].key, r, i) > 0 then rest else [es[0]] + rest
  }

  /** All layers from i down, each without what its iterator skips. */
  ghost function KeptBelow(ls: seq<Layer>, ts: seq<Tombstone>, r: SeqNo, i: nat): seq<Entry>
    requires i <= |ls|
    decreases |ls| - i
  {
    if i == |ls| then [] else Kept(ls[i].entries, ts, r, i) + KeptBelow(ls, ts, r, i + 1)
  }

  lemma {:induction false} KeptFold(es: seq<Entry>, ts: seq<Tombstone>, r: SeqNo, i: nat, k: Key, older: Content)
    ensures Fold(Kept(es, ts, r, i), ts, k, r, older) ==
            if NaiveMax(ts, k, r, i) > 0 then older else Fold(es, ts, k, r, older)
  {
    if es != [] {
      KeptFold(es[1..], ts, r, i, k, older);
      var rest := Kept(es[1..], ts, r, i);
      assert ([es[0]] + rest)[1..] == rest;
    }
  }

  /** A tombstone of a layer newer than i is one of a layer newer than i + 1. */
  lemma SkippingSpreadsDown(ts: seq<Tombstone>, k: Key, r: SeqNo, i: nat)
    requires NaiveMax(ts, k, r, i) > 0
    ensures NaiveMax(ts, k, r, i + 1) > 0
  {
    NaiveMaxIsMaximum(ts, k, r, i);
    NaiveMaxIsMaximum(ts, k, r, i + 1);
    var t :| t in ts && t.Applies(k, r, i) && t.sn == NaiveMax(ts, k, r, i);
    assert t.Applies(k, r, i + 1);
  }

  /** Below a covering tombstone nothing of the key is kept. */
  lemma {:induction false} NothingKept(ls: seq<Layer>, ts: seq<Tombstone>, k: Key, r: SeqNo, i: nat)
    requires i <= |ls| && NaiveMax(ts, k, r, i) > 0
    ensures Resolve(KeptBelow(ls, ts, r, i), ts, k, r) == ABSENT
    decreases |ls| - i
  {
    if i < |ls| {
      SkippingSpreadsDown(ts, k, r, i);
      NothingKept(ls, ts, k, r, i + 1);
      FoldConcat(Kept(ls[i].entries, ts, r, i), KeptBelow(ls, ts, r, i + 1), ts, k, r, ABSENT);
      KeptFold(ls[i].entries, ts, r, i, k, ABSENT);
    }
  }

  /**
   * Reading through the skipping iterators of all layers gives every key the same
   * content as reading everything.
   */
  lemma {:induction false} SkippingIsInvisible(ls: seq<Layer>, ts: seq<Tombstone>, k: Key, r: SeqNo, i: nat)
    requires LayerOrder(ls, ts) && i <= |ls|
    ensures Resolve(KeptBelow(ls, ts, r, i), ts, k, r) == Resolve(Flatten(ls[i..]), ts, k, r)
    decreases |ls| - i
  {
    if i == |ls| {
      assert ls[i..] == [];
    } else if NaiveMax(ts, k, r, i) > 0 {
      HiddenBelow(ls, ts, i, k, r);
      NothingKept(ls, ts, k, r, i);
    } else {
      SkippingIsInvisible(ls, ts, k, r, i + 1);
      var es, rest := ls[i].entries, Resolve(Flatten(ls[i + 1..]), ts, k, r);
      assert ls[i..][1..] == ls[i + 1..];
      FoldConcat(es, Flatten(ls[i + 1..]), ts, k, r, ABSENT);
      FoldConcat(Kept(es, ts, r, i), KeptBelow(ls, ts, r, i + 1), ts, k, r, ABSENT);
      KeptFold(es, ts, r, i, k, rest);
    }
  }
}
