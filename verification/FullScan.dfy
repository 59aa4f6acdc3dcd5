/**
 * A full scan in each direction, the way the conformance harness walks a family:
 * forward it yields exactly the keys that exist at the snapshot, ascending, with
 * their values; backward it yields the same list reversed.
 */
module FullScans {
  import opened Core
  import opened Visibility
  import opened DBIters

  datatype Pair = Pair(key: Key, value: Value)

  /** How many entries the list has above, or below, key k. */
  ghost function CountAbove(es: seq<Entry>, k: Key): nat {
    if es == [] then 0 else (if es[0].key > k then 1 else 0) + CountAbove(es[1..], k)
  }

  ghost function CountBelow(es: seq<Entry>, k: Key): nat {
    if es == [] then 0 else (if es[0].key < k then 1 else 0) + CountBelow(es[1..], k)
  }

  /** Moving up to a key that has an entry leaves fewer entries above. */
  lemma {:induction false} CountAboveFewer(es: seq<Entry>, k: Key, k': Key)
    requires k < k'
    ensures CountAbove(es, k') <= CountAbove(es, k)
    ensures (exists e :: e in es && e.key == k') ==> CountAbove(es, k') < CountAbove(es, k)
  {
    if es != [] {
      CountAboveFewer(es[1..], k, k');
      if e :| e in es && e.key == k' && e != es[0] {
        assert e in es[1..];
      }
    }
  }

  lemma {:induction false} CountBelowFewer(es: seq<Entry>, k: Key, k': Key)
    requires k' < k
    ensures CountBelow(es, k') <= CountBelow(es, k)
    ensures (exists e :: e in es && e.key == k') ==> CountBelow(es, k') < CountBelow(es, k)
  {
    if es != [] {
      CountBelowFewer(es[1..], k, k');
      if e :| e in es && e.key == k' && e != es[0] {
        assert e in es[1..];
      }
    }
  }

  /** A key that exists has an entry. */
  lemma ExistsHasEntry(src: Source, k: Key)
    requires src.Exists(k)
    ensures exists e :: e in src.entries && e.key == k
  {
    if forall j | 0 <= j < |src.entries| :: src.entries[j].key != k || src.entries[j].sn > src.r {
      src.NoEntriesAbsent(k);
    }
    var j :| 0 <= j < |src.entries| && src.entries[j].key == k;
    assert src.entries[j] in src.entries;
  }

  /** Moving up to a key that exists makes progress. */
  lemma CountAboveDrops(src: Source, k: Key, k': Key)
    requires k < k' && src.Out(k') != NotFound
    ensures CountAbove(src.entries, k') < CountAbove(src.entries, k)
  {
    ExistsHasEntry(src, k');
    CountAboveFewer(src.entries, k, k');
  }

  /** So does moving down. */
  lemma CountBelowDrops(src: Source, k: Key, k': Key)
    requires k' < k && src.Out(k') != NotFound
    ensures CountBelow(src.entries, k') < CountBelow(src.entries, k)
  {
    ExistsHasEntry(src, k');
    CountBelowFewer(src.entries, k, k');
  }

  /** A read of the key fails: there is no operator, or it refuses the operands. */
  ghost predicate Fails(src: Source, k: Key) {
    src.Out(k) == NoOperator || src.Out(k) == Corrupt
  }

  ghost predicate Ascending(out: seq<Pair>) {
    forall i, j | 0 <= i < j < |out| :: out[i].key < out[j].key
  }

  ghost predicate Descending(out: seq<Pair>) {
    forall i, j | 0 <= i < j < |out| :: out[i].key > out[j].key
  }

  /** The list holds exactly the keys within a bound that exist, with their values; no key there fails. */
  ghost predicate ListsAll(src: Source, out: seq<Pair>, bound: Bound) {
    && (forall k: Key, v: Value {:trigger Pair(k, v)} ::
          Pair(k, v) in out <==> bound.Admits(k) && src.Out(k) == Found(v))
    && (forall k: Key | bound.Admits(k) :: !Fails(src, k))
  }

  /** Where a scan ended: past everything, or at the first key whose read fails, which the status tells. */
  ghost predicate Ended(src: Source, out: seq<Pair>, status: Status, forward: bool) {
    if status == Success then ListsAll(src, out, Every)
    else exists k :: FailedAt(src, out, status, if forward then LessThan(k) else MoreThan(k), k)
  }

  ghost predicate FailedAt(src: Source, out: seq<Pair>, status: Status, before: Bound, k: Key) {
    && ListsAll(src, out, before) && Fails(src, k)
    && status == (if src.Out(k) == NoOperator then InvalidArgument else Corruption)
  }

  /** A scan ends without error exactly if no key's read fails. */
  lemma EndedWell(src: Source, out: seq<Pair>, status: Status, forward: bool)
    requires Ended(src, out, status, forward)
    ensures status == Success <==> forall k :: !Fails(src, k)
  {
  }

  /** What is listed below the current key, and the current key, is what is listed up to the next one. */
  lemma ListsMore(src: Source, out: seq<Pair>, p: Pair, bound: Bound, bound': Bound)
    requires ListsAll(src, out, bound) && src.Out(p.key) == Found(p.value)
    requires forall k {:trigger bound'.Admits(k)} :: src.Exists(k) ==>
                                                       (bound'.Admits(k) <==> bound.Admits(k) || k == p.key)
    ensures ListsAll(src, out + [p], bound')
  {
    forall k: Key, v: Value ensures Pair(k, v) in out + [p] <==> bound'.Admits(k) && src.Out(k) == Found(v) {
      assert Pair(k, v) in out + [p] <==> Pair(k, v) in out || Pair(k, v) == p;
      assert src.Out(k) == Found(v) ==> src.Exists(k);
    }
    forall k: Key | bound'.Admits(k) ensures !Fails(src, k) {
      assert Fails(src, k) ==> src.Exists(k);
    }
  }

  /** From the current key up to the next one that exists. */
  lemma ListsNext(src: Source, out: seq<Pair>, p: Pair, k: Key)
    requires ListsAll(src, out, LessThan(p.key)) && src.Out(p.key) == Found(p.value)
    requires p.key < k && forall x | MoreThan(p.key).Admits(x) && x < k :: !src.Exists(x)
    ensures ListsAll(src, out + [p], LessThan(k))
  {
    ListsMore(src, out, p, LessThan(p.key), LessThan(k));
  }

  /** From the current key down to the one before it that exists. */
  lemma ListsPrev(src: Source, out: seq<Pair>, p: Pair, k: Key)
    requires ListsAll(src, out, MoreThan(p.key)) && src.Out(p.key) == Found(p.value)
    requires k < p.key && forall x | LessThan(p.key).Admits(x) && k < x :: !src.Exists(x)
    ensures ListsAll(src, out + [p], MoreThan(k))
  {
    ListsMore(src, out, p, MoreThan(p.key), MoreThan(k));
  }

  /** The current key is the last one in its direction. */
  lemma ListsEnd(src: Source, out: seq<Pair>, p: Pair, seen: Bound, rest: Bound)
    requires (seen == LessThan(p.key) && rest == MoreThan(p.key))
             || (seen == MoreThan(p.key) && rest == LessThan(p.key))
    requires ListsAll(src, out, seen) && src.Out(p.key) == Found(p.value)
    requires forall x | rest.Admits(x) :: !src.Exists(x)
    ensures ListsAll(src, out + [p], Every)
  {
    ListsMore(src, out, p, seen, Every);
  }

  /** Before the first key that exists nothing is listed. */
  lemma ListsNothing(src: Source, bound: Bound)
    requires forall k | bound.Admits(k) :: !src.Exists(k)
    ensures ListsAll(src, [], bound)
  {
    forall k: Key, v: Value ensures !(bound.Admits(k) && src.Out(k) == Found(v)) {
      if bound.Admits(k) {
        assert !src.Exists(k);
      }
    }
    forall k: Key | bound.Admits(k) ensures !Fails(src, k) {
      assert !src.Exists(k);
    }
  }

  /** Nothing listed yet, the iterator at its first key: the scan may go on, or has ended. */
  lemma Begins(it: DBIter, up: bool)
    requires it.Valid() && (if up then it.LandedFirst(Every, Success) else it.LandedLast(Every, Success))
    ensures it.valid ==>
              && it.status == Success
              && ListsAll(it.src, [], if up then LessThan(it.CurrentKey()) else MoreThan(it.CurrentKey()))
    ensures !it.valid ==> Ended(it.src, [], it.status, up)
  {
    var src := it.src;
    if it.valid {
      ListsNothing(src, if up then LessThan(it.CurrentKey()) else MoreThan(it.CurrentKey()));
    } else if forall k :: !src.Exists(k) {
      ListsNothing(src, Every);
    } else {
      var k :| it.Failed(k) && if up then it.NoneBefore(Every, k) else it.NoneAfter(Every, k);
      ListsNothing(src, if up then LessThan(k) else MoreThan(k));
      assert FailedAt(src, [], it.status, if up then LessThan(k) else MoreThan(k), k);
    }
  }

  /** One more key listed, the iterator at the next one: the scan may go on, or has ended. */
  lemma GoesOn(it: DBIter, out: seq<Pair>, p: Pair, up: bool)
    requires it.Valid() && it.src.Out(p.key) == Found(p.value)
    requires ListsAll(it.src, out, if up then LessThan(p.key) else MoreThan(p.key))
    requires if up then it.LandedFirst(MoreThan(p.key), Success) else it.LandedLast(LessThan(p.key), Success)
    ensures it.valid ==> it.status == Success
    ensures it.valid ==>
              ListsAll(it.src, out + [p], if up then LessThan(it.CurrentKey()) else MoreThan(it.CurrentKey()))
    ensures !it.valid ==> Ended(it.src, out + [p], it.status, up)
  {
    hide ListsAll;
    var src, rest := it.src, if up then MoreThan(p.key) else LessThan(p.key);
    if it.valid {
      ListsUpTo(src, out, p, it.CurrentKey(), up);
    } else if forall k | rest.Admits(k) :: !src.Exists(k) {
      ListsEnd(src, out, p, if up then LessThan(p.key) else MoreThan(p.key), rest);
    }
    if !it.valid && it.status != Success {
      var k :| rest.Admits(k) && it.Failed(k) && if up then it.NoneBefore(rest, k) else it.NoneAfter(rest, k);
      ListsUpTo(src, out, p, k, up);
      assert FailedAt(src, out + [p], it.status, if up then LessThan(k) else MoreThan(k), k);
    }
  }

  lemma ListsUpTo(src: Source, out: seq<Pair>, p: Pair, k: Key, up: bool)
    requires ListsAll(src, out, if up then LessThan(p.key) else MoreThan(p.key)) && src.Out(p.key) == Found(p.value)
    requires if up then p.key < k && forall x | MoreThan(p.key).Admits(x) && x < k :: !src.Exists(x)
             else k < p.key && forall x | LessThan(p.key).Admits(x) && k < x :: !src.Exists(x)
    ensures ListsAll(src, out + [p], if up then LessThan(k) else MoreThan(k))
  {
    if up {
      ListsNext(src, out, p, k);
    } else {
      ListsPrev(src, out, p, k);
    }
  }

  /** The forward loop of the harness's scan, on a new iterator. */
  method ScanForward(it: DBIter) returns (out: seq<Pair>)
    requires it.Valid() && it.status == Success
    modifies it
    ensures it.Valid() && Ascending(out) && Ended(it.src, out, it.status, true)
  {
    hide ListsAll, CountAbove, DBIter.LandedFirst, Ended;
    out := [];
    it.SeekToFirst();
    Begins(it, true);
    ghost var src := it.src;
    while it.valid
      invariant it.Valid() && it.src == src && Ascending(out)
      invariant it.valid ==> it.status == Success && ListsAll(src, out, LessThan(it.CurrentKey()))
      invariant it.valid ==> forall i | 0 <= i < |out| :: out[i].key < it.CurrentKey()
      invariant !it.valid ==> Ended(src, out, it.status, true)
      decreases it.valid, if it.valid then CountAbove(src.entries, it.CurrentKey()) else 0
    {
      ghost var before, k := out, it.CurrentKey();
      var p := Pair(it.CurrentKey(), it.CurrentValue());
      out := out + [p];
      it.Next();
      GoesOn(it, before, p, true);
      if it.valid {
        LandsAbove(it, k);
        CountAboveDrops(src, k, it.CurrentKey());
      }
    }
  }

  lemma LandsAbove(it: DBIter, k: Key)
    requires it.Valid() && it.valid && it.LandedFirst(MoreThan(k), Success)
    ensures k < it.CurrentKey()
  {
  }

  lemma LandsBelow(it: DBIter, k: Key)
    requires it.Valid() && it.valid && it.LandedLast(LessThan(k), Success)
    ensures it.CurrentKey() < k
  {
  }

  /** The backward loop of the harness's scan, on a new iterator. */
  method ScanBackward(it: DBIter) returns (out: seq<Pair>)
    requires it.Valid() && it.status == Success
    modifies it
    ensures it.Valid() && Descending(out) && Ended(it.src, out, it.status, false)
  {
    hide ListsAll, CountBelow, DBIter.LandedLast, Ended;
    out := [];
    it.SeekToLast();
    Begins(it, false);
    ghost var src := it.src;
    while it.valid
      invariant it.Valid() && it.src == src && Descending(out)
      invariant it.valid ==> it.status == Success && ListsAll(src, out, MoreThan(it.CurrentKey()))
      invariant it.valid ==> forall i | 0 <= i < |out| :: out[i].key > it.CurrentKey()
      invariant !it.valid ==> Ended(src, out, it.status, false)
      decreases it.valid, if it.valid then CountBelow(src.entries, it.CurrentKey()) else 0
    {
      ghost var before, k := out, it.CurrentKey();
      var p := Pair(it.CurrentKey(), it.CurrentValue());
      out := out + [p];
      it.Prev();
      GoesOn(it, before, p, false);
      if it.valid {
        LandsBelow(it, k);
        CountBelowDrops(src, k, it.CurrentKey());
      }
    }
  }

  lemma HasMember(s: seq<Pair>)
    ensures s != [] ==> exists p :: p in s
  {
    assert s != [] ==> s[0] in s;
  }

  /** Both scans agree: the backward list is the forward list read from its end. */
  lemma {:induction false} BackwardIsReverse(src: Source, f: seq<Pair>, b: seq<Pair>)
    requires Ascending(f) && Descending(b)
    requires forall p :: p in f <==> p in b
    ensures |f| == |b| && forall i | 0 <= i < |f| :: f[i] == b[|b| - 1 - i]
  {
    HasMember(b);
    if f != [] {
      assert f[|f| - 1] in f;
      assert f[|f| - 1] in b && b[0] in f;
      assert f[|f| - 1] == b[0] by {
        var i :| 0 <= i < |b| && b[i] == f[|f| - 1];
        var j :| 0 <= j < |f| && f[j] == b[0];
      }
      var f', b' := f[..|f| - 1], b[1..];
      forall p ensures p in f' <==> p in b' {
        assert p in f <==> p in f' || p == b[0];
        assert p in b <==> p in b' || p == b[0];
        assert b[0] !in f' && b[0] !in b';
      }
      BackwardIsReverse(src, f', b');
      forall i | 0 <= i < |f| ensures f[i] == b[|b| - 1 - i] {
        if i < |f'| {
          assert f'[i] == b'[|b'| - 1 - i];
        }
      }
    }
  }
}
