/**
 * The two ways of reading, together: a scan merges the layers' skipping iterators and
 * folds what it meets, a point read walks the layers and stops early.  Over the same
 * layers and tombstones they find the same keys with the same values.
 */
module ReadAgreements {
  import opened Core
  import opened Visibility
  import opened Layers
  import opened Lookup
  import opened SkippingIterators
  import opened DBIters
  import opened FullScans

  lemma {:induction false} KeptMembers(es: seq<Entry>, ts: seq<Tombstone>, r: SeqNo, i: nat)
    ensures forall e :: e in Kept(es, ts, r, i) ==> e in es
  {
    if es != [] {
      KeptMembers(es[1..], ts, r, i);
    }
  }

  /** What an iterator keeps of a sorted layer is sorted. */
  lemma {:induction false} KeptSorted(es: seq<Entry>, ts: seq<Tombstone>, r: SeqNo, i: nat)
    requires Sorted(es)
    ensures Sorted(Kept(es, ts, r, i))
  {
    if es != [] {
      forall a, b | 0 <= a < b < |es| - 1 ensures Before(es[1..][a].key, es[1..][a].sn, es[1..][b].key, es[1..][b].sn) {
        assert Before(es[a + 1].key, es[a + 1].sn, es[b + 1].key, es[b + 1].sn);
      }
      KeptSorted(es[1..], ts, r, i);
      KeptMembers(es[1..], ts, r, i);
      var rest := Kept(es[1..], ts, r, i);
      forall x | x in rest ensures Before(es[0].key, es[0].sn, x.key, x.sn) {
        var j :| 0 <= j < |es[1..]| && es[1..][j] == x;
        assert Before(es[0].key, es[0].sn, es[j + 1].key, es[j + 1].sn);
      }
      HeadSorted(es[0], rest);
    }
  }

  /** The layers as their skipping iterators show them. */
  ghost function KeptLayers(ls: seq<Layer>, ts: seq<Tombstone>, r: SeqNo): (kept: seq<Layer>)
    ensures |kept| == |ls|
  {
    seq(|ls|, i requires 0 <= i < |ls| => Layer(Kept(ls[i].entries, ts, r, i), ls[i].smallest, ls[i].largest))
  }

  lemma {:induction false} KeptIsFlat(ls: seq<Layer>, ts: seq<Tombstone>, r: SeqNo, i: nat)
    requires i <= |ls|
    ensures KeptBelow(ls, ts, r, i) == Flatten(KeptLayers(ls, ts, r)[i..])
    decreases |ls| - i
  {
    var kept := KeptLayers(ls, ts, r);
    if i < |ls| {
      KeptIsFlat(ls, ts, r, i + 1);
      assert kept[i..][1..] == kept[i + 1..] && kept[i..][0] == kept[i];
    }
  }

  /** Leaving entries out keeps the layers valid and in order. */
  lemma KeptInOrder(ls: seq<Layer>, ts: seq<Tombstone>, r: SeqNo)
    requires (forall i | 0 <= i < |ls| :: ls[i].Valid()) && LayerOrder(ls, ts)
    ensures var kept := KeptLayers(ls, ts, r);
            (forall i | 0 <= i < |kept| :: kept[i].Valid()) && LayerOrder(kept, [])
  {
    var kept := KeptLayers(ls, ts, r);
    forall i | 0 <= i < |kept| ensures kept[i].Valid() && forall e :: e in kept[i].entries ==> e in ls[i].entries {
      KeptSorted(ls[i].entries, ts, r, i);
      KeptMembers(ls[i].entries, ts, r, i);
      forall j | 0 <= j < |kept[i].entries| ensures ls[i].smallest <= kept[i].entries[j].key <= ls[i].largest {
        assert kept[i].entries[j] in ls[i].entries;
      }
    }
    forall i, j | 0 <= i < j < |kept| ensures NewerEntries(kept[i].entries, kept[j].entries) {
      assert NewerEntries(ls[i].entries, ls[j].entries);
    }
  }

  /** m is what a merging iterator makes of the layers' iterators: their entries, in internal key order. */
  ghost predicate Merges(m: seq<Entry>, kept: seq<Entry>) {
    Sorted(m) && forall e: Entry :: e in m <==> e in kept
  }

  /** What reads ask of the layers: valid, in order, every record with a number of its own. */
  ghost predicate Sound(ls: seq<Layer>, ts: seq<Tombstone>) {
    && (forall i | 0 <= i < |ls| :: ls[i].Valid())
    && LayerOrder(ls, ts) && LayersBounded(ts)
    && Numbered(Flatten(ls)) && DistinctNumbers(Flatten(ls), ts)
  }

  lemma MembersFrom(a: seq<Entry>, b: seq<Entry>, ts: seq<Tombstone>)
    requires (forall e :: e in a ==> e in b) && Numbered(b) && DistinctNumbers(b, ts)
    ensures Numbered(a) && DistinctNumbers(a, ts)
  {
    forall i | 0 <= i < |a| ensures a[i].sn >= 1 {
      assert a[i] in b;
    }
  }

  lemma KeptAreMembers(ls: seq<Layer>, ts: seq<Tombstone>, r: SeqNo)
    ensures forall e :: e in Flatten(KeptLayers(ls, ts, r)) ==> e in Flatten(ls)
  {
    var kept := KeptLayers(ls, ts, r);
    FlattenMembers(kept);
    FlattenMembers(ls);
    forall e | e in Flatten(kept) ensures e in Flatten(ls) {
      var i :| 0 <= i < |kept| && e in kept[i].entries;
      KeptMembers(ls[i].entries, ts, r, i);
      assert e in ls[i].entries;
    }
  }

  /** Through the merging iterator every key has the content it has over all layers. */
  lemma MergedReadsAlike(m: seq<Entry>, ls: seq<Layer>, ts: seq<Tombstone>, k: Key, r: SeqNo)
    requires Sound(ls, ts) && Merges(m, KeptBelow(ls, ts, r, 0))
    ensures Resolve(m, ts, k, r) == Resolve(Flatten(ls), ts, k, r)
  {
    hide Fold, LayerOrder, DistinctNumbers, Numbered;
    var kept := KeptLayers(ls, ts, r);
    KeptIsFlat(ls, ts, r, 0);
    assert kept[0..] == kept && ls[0..] == ls;
    KeptInOrder(ls, ts, r);
    KeptAreMembers(ls, ts, r);
    FlattenNewestFirst(kept, k);
    SortedNewestFirst(m, k);
    MembersFrom(Flatten(kept), Flatten(ls), ts);
    MembersFrom(m, Flatten(ls), ts);
    SameMembersResolveAlike(m, Flatten(kept), ts, k, r);
    SkippingIsInvisible(ls, ts, k, r, 0);
  }

  /** A scan that ends without error lists exactly what point reads over the same layers find. */
  lemma ScanIsReads(src: Source, ls: seq<Layer>, out: seq<Pair>, k: Key)
    requires Sound(ls, src.ts) && Merges(src.entries, KeptBelow(ls, src.ts, src.r, 0))
    requires ListsAll(src, out, Every)
    ensures var o := Read(src.mop, Flatten(ls), src.ts, k, src.r);
            (o == NotFound || o.Found?) && forall v: Value :: Pair(k, v) in out <==> o == Found(v)
  {
    MergedReadsAlike(src.entries, ls, src.ts, k, src.r);
    assert Every.Admits(k) && !Fails(src, k);
  }

  /** A full scan and a point read of any key, side by side. */
  method ScanMeetsGet(it: DBIter, reader: Reader, k: Key) returns (out: seq<Pair>, o: Outcome)
    requires it.Valid() && it.status == Success && reader.Valid() && Views(reader.view, reader.ts)
    requires reader.view != null ==> it !in reader.view.Repr
    requires it.src.ts == reader.ts && it.src.mop == reader.mop && Sound(reader.layers, reader.ts)
    requires Merges(it.src.entries, KeptBelow(reader.layers, reader.ts, it.src.r, 0))
    modifies it
    ensures Ascending(out) && (it.status == Success ==> forall v: Value :: Pair(k, v) in out <==> o == Found(v))
    ensures it.status == Success <==> forall x :: !Fails(it.src, x)
    ensures o == Read(it.src.mop, Flatten(reader.layers), it.src.ts, k, it.src.r)
  {
    hide ListsAll, Fails, Sound, Merges, KeptBelow;
    out := ScanForward(it);
    EndedWell(it.src, out, it.status, true);
    o := reader.Get(k, it.src.r);
    if it.status == Success {
      ScanIsReads(it.src, reader.layers, out, k);
    }
  }

  // ---- Operands without an operator, and operators that fail ----

  /** The newest entry of k that the reader sees, and that no tombstone hides from it, is an operand. */
  ghost predicate OperandOnTop(es: seq<Entry>, ts: seq<Tombstone>, k: Key, r: SeqNo) {
    exists i :: 0 <= i < |es| && OnTopAt(es, ts, k, r, i)
  }

  ghost predicate OnTopAt(es: seq<Entry>, ts: seq<Tombstone>, k: Key, r: SeqNo, i: nat)
    requires i < |es|
  {
    && es[i].key == k && es[i].sn <= r && es[i].kind == Merge && !Hidden(ts, k, es[i].sn, r)
    && forall j | 0 <= j < i :: es[j].key != k || es[j].sn > r
  }

  /** A key has operands to fold exactly if one is on top. */
  lemma {:induction false} OperandsIff(es: seq<Entry>, ts: seq<Tombstone>, k: Key, r: SeqNo)
    ensures Resolve(es, ts, k, r).ops != [] <==> OperandOnTop(es, ts, k, r)
  {
    hide Hidden;
    if es != [] {
      var rest := es[1..];
      OperandsIff(rest, ts, k, r);
      if es[0].key != k || es[0].sn > r {
        if i :| 0 <= i < |rest| && OnTopAt(rest, ts, k, r, i) {
          assert OnTopAt(es, ts, k, r, i + 1);
        }
        if i :| 0 <= i < |es| && OnTopAt(es, ts, k, r, i) {
          assert OnTopAt(rest, ts, k, r, i - 1);
        }
      } else if es[0].kind == Merge && !Hidden(ts, k, es[0].sn, r) {
        assert OnTopAt(es, ts, k, r, 0);
      }
    }
  }

  /**
   * Without an operator a read is refused exactly if an operand is on top; with one it
   * never is, and it is corrupt exactly if the operands are refused.
   */
  lemma RefusedReads(mop: Option<MergeOperator>, es: seq<Entry>, ts: seq<Tombstone>, k: Key, r: SeqNo)
    ensures var c, o := Resolve(es, ts, k, r), Read(mop, es, ts, k, r);
            && (o == NoOperator <==> mop.None? && OperandOnTop(es, ts, k, r))
            && (o == Corrupt <==> mop.Some? && OperandOnTop(es, ts, k, r) && mop.value.full(k, c.base, c.ops).None?)
  {
    hide Fold, OperandOnTop;
    OperandsIff(es, ts, k, r);
  }

  /** DBImpl::Get of such a key without an operator. */
  method GetWithoutOperator(reader: Reader, k: Key, r: SeqNo) returns (o: Outcome)
    requires reader.Valid() && Views(reader.view, reader.ts) && reader.mop.None?
    ensures o == NoOperator <==> OperandOnTop(Flatten(reader.layers), reader.ts, k, r)
  {
    hide Fold, OperandOnTop;
    RefusedReads(reader.mop, Flatten(reader.layers), reader.ts, k, r);
    o := reader.Get(k, r);
  }

  /** An iterator that meets such a key first stops there, and its status says why. */
  method FirstWithoutOperator(it: DBIter, k: Key)
    requires it.Valid() && OperandOnTop(it.src.entries, it.src.ts, k, it.src.r)
    requires it.src.mop.None? && forall x: Key | x < k :: !it.src.Exists(x)
    modifies it
    ensures it.Valid() && !it.valid && it.status == InvalidArgument
  {
    hide Fold, OperandOnTop;
    RefusedReads(it.src.mop, it.src.entries, it.src.ts, k, it.src.r);
    OperandsIff(it.src.entries, it.src.ts, k, it.src.r);
    assert it.src.Exists(k) && it.src.Out(k) == NoOperator;
    it.SeekToFirst();
    assert Every.Admits(k);
    forall x: Key ensures it.src.Out(x) != NotFound ==> it.src.Exists(x) {
      OutExists(it.src, x);
    }
  }

  lemma OutExists(src: Source, k: Key)
    ensures src.Out(k) != NotFound ==> src.Exists(k)
  {
    hide Fold;
  }
}
