/**
 * The layers data lives in, newest first, and the order they keep: for any key,
 * everything a layer says about it is older than everything a newer layer says.
 */
module Layers {
  import opened Core
  import opened Visibility

  /** Internal key order: user key ascending, then sequence number descending. */
  predicate Before(k: Key, s: SeqNo, k': Key, s': SeqNo) {
    k < k' || (k == k' && s > s')
  }

  /** A memtable's or table's entries, as its iterator yields them. */
  ghost predicate Sorted(es: seq<Entry>) {
    forall i, j {:trigger Before(es[i].key, es[i].sn, es[j].key, es[j].sn)} | 0 <= i < j < |es| ::
      Before(es[i].key, es[i].sn, es[j].key, es[j].sn)
  }

  lemma HeadSorted(e: Entry, rest: seq<Entry>)
    requires Sorted(rest) && forall x | x in rest :: Before(e.key, e.sn, x.key, x.sn)
    ensures Sorted([e] + rest)
  {
    var s := [e] + rest;
    forall a, b | 0 <= a < b < |s| ensures Before(s[a].key, s[a].sn, s[b].key, s[b].sn) {
      assert s[b] == rest[b - 1] && rest[b - 1] in rest;
      assert a > 0 ==> Before(rest[a - 1].key, rest[a - 1].sn, rest[b - 1].key, rest[b - 1].sn);
    }
  }

  /** A layer's entries, and the user keys its table file says it spans. */
  datatype Layer = Layer(entries: seq<Entry>, smallest: Key, largest: Key)
  {
    ghost predicate Valid() {
      Sorted(entries) && forall i | 0 <= i < |entries| :: smallest <= entries[i].key <= largest
    }
  }

  /** All entries, layer after layer. */
  ghost function Flatten(ls: seq<Layer>): seq<Entry> {
    if ls == [] then [] else ls[0].entries + Flatten(ls[1..])
  }

  /** Entries newer than every entry of the same key in an older layer. */
  ghost predicate NewerEntries(a: seq<Entry>, b: seq<Entry>) {
    forall x, y | x in a && y in b && x.key == y.key :: x.sn > y.sn
  }

  /** A tombstone newer than every entry it covers. */
  ghost predicate NewerTombstone(t: Tombstone, es: seq<Entry>) {
    forall e | e in es && t.Covers(e.key) :: e.sn < t.sn
  }

  /**
   * The layer order, as far as reads need it: a tombstone is newer than every
   * entry it covers in an older layer, and an entry newer than every entry of its
   * key in an older layer.
   */
  ghost predicate LayerOrder(ls: seq<Layer>, ts: seq<Tombstone>) {
    && (forall i, t {:trigger NewerTombstone(t, ls[i].entries)} | 0 <= i < |ls| && t in ts && t.layer < i ::
          NewerTombstone(t, ls[i].entries))
    && (forall i, j {:trigger NewerEntries(ls[i].entries, ls[j].entries)} | 0 <= i < j < |ls| ::
          NewerEntries(ls[i].entries, ls[j].entries))
  }

  lemma {:induction false} FlattenMembers(ls: seq<Layer>)
    ensures forall e :: e in Flatten(ls) <==> exists i :: 0 <= i < |ls| && e in ls[i].entries
  {
    if ls != [] {
      FlattenMembers(ls[1..]);
      forall e ensures e in Flatten(ls) <==> exists i :: 0 <= i < |ls| && e in ls[i].entries {
        if e in Flatten(ls[1..]) {
          var i :| 0 <= i < |ls[1..]| && e in ls[1..][i].entries;
          assert e in ls[i + 1].entries;
        }
        if i :| 0 <= i < |ls| && e in ls[i].entries {
          if i > 0 {
            assert ls[1..][i - 1] == ls[i];
          }
        }
      }
    }
  }

  lemma SortedNewestFirst(es: seq<Entry>, k: Key)
    requires Sorted(es)
    ensures NewestFirst(es, k)
  {
    forall i, j | 0 <= i < j < |es| && es[i].key == k && es[j].key == k ensures es[i].sn > es[j].sn {
      assert Before(es[i].key, es[i].sn, es[j].key, es[j].sn);
    }
  }

  /** Entries of one key come newest first when the layers are taken in order. */
  lemma {:induction false} FlattenNewestFirst(ls: seq<Layer>, k: Key)
    requires forall i | 0 <= i < |ls| :: ls[i].Valid()
    requires LayerOrder(ls, [])
    ensures NewestFirst(Flatten(ls), k)
  {
    if ls != [] {
      var head, tail := ls[0].entries, Flatten(ls[1..]);
      forall i, j | 0 <= i < j < |ls[1..]| ensures NewerEntries(ls[1..][i].entries, ls[1..][j].entries) {
        assert NewerEntries(ls[i + 1].entries, ls[j + 1].entries);
      }
      FlattenNewestFirst(ls[1..], k);
      SortedNewestFirst(head, k);
      FlattenMembers(ls[1..]);
      forall e | e in tail ensures exists j :: 0 < j < |ls| && e in ls[j].entries {
        var j :| 0 <= j < |ls[1..]| && e in ls[1..][j].entries;
        assert e in ls[j + 1].entries;
      }
      forall a, b | 0 <= a < |head| && 0 <= b < |tail| && head[a].key == k && tail[b].key == k
        ensures head[a].sn > tail[b].sn
      {
        assert tail[b] in tail;
        var j :| 0 < j < |ls| && tail[b] in ls[j].entries;
        assert NewerEntries(ls[0].entries, ls[j].entries);
        assert head[a] in head;
      }
    }
  }

  /** A visible tombstone of a layer newer than layer i hides everything from layer i down. */
  lemma HiddenBelow(ls: seq<Layer>, ts: seq<Tombstone>, i: nat, k: Key, r: SeqNo)
    requires LayerOrder(ls, ts) && i <= |ls| && NaiveMax(ts, k, r, i) > 0
    ensures Resolve(Flatten(ls[i..]), ts, k, r) == ABSENT
  {
    NaiveMaxIsMaximum(ts, k, r, i);
    var t :| t in ts && t.Applies(k, r, i) && t.sn == NaiveMax(ts, k, r, i);
    var es := Flatten(ls[i..]);
    FlattenMembers(ls[i..]);
    forall x | 0 <= x < |es| && es[x].key == k && es[x].sn <= r ensures Hidden(ts, k, es[x].sn, r) {
      assert es[x] in es;
      var j :| 0 <= j < |ls[i..]| && es[x] in ls[i..][j].entries;
      assert es[x] in ls[i + j].entries;
      assert NewerTombstone(t, ls[i + j].entries);
    }
    FoldHidden(es, ts, k, r);
  }

  /** A layer that does not span the key says nothing about it. */
  lemma OutsideSpan(l: Layer, ts: seq<Tombstone>, k: Key, r: SeqNo, older: Content)
    requires l.Valid() && !(l.smallest <= k <= l.largest)
    ensures Fold(l.entries, ts, k, r, older) == older
  {
    FoldNothing(l.entries, ts, k, r, older);
  }

  /** Seek: the first entry at or after (k, r) in internal key order. */
  method Seek(es: seq<Entry>, k: Key, r: SeqNo) returns (i: nat)
    requires Sorted(es)
    ensures i <= |es|
    ensures forall j | 0 <= j < i :: es[j].key < k || (es[j].key == k && es[j].sn > r)
    ensures forall j | i <= j < |es| :: es[j].key > k || (es[j].key == k && es[j].sn <= r)
  {
    i := 0;
    while i < |es| && Before(es[i].key, es[i].sn, k, r)
      invariant i <= |es|
      invariant forall j | 0 <= j < i :: es[j].key < k || (es[j].key == k && es[j].sn > r)
    {
      i := i + 1;
    }
    forall j | i <= j < |es| ensures es[j].key > k || (es[j].key == k && es[j].sn <= r) {
      assert j == i || Before(es[i].key, es[i].sn, es[j].key, es[j].sn);
    }
  }

  /** Entries of a key in two collections with the same members resolve alike, however they are interleaved. */
  lemma SameMembersResolveAlike(a: seq<Entry>, b: seq<Entry>, ts: seq<Tombstone>, k: Key, r: SeqNo)
    requires NewestFirst(a, k) && NewestFirst(b, k) && Numbered(a) && Numbered(b)
    requires LayersBounded(ts) && DistinctNumbers(a, ts) && DistinctNumbers(b, ts)
    requires forall e: Entry :: e.key == k ==> (e in a <==> e in b)
    ensures Resolve(a, ts, k, r) == Resolve(b, ts, k, r)
  {
    var c := Resolve(a, ts, k, r);
    RuleIsResolve(a, ts, k, r, c);
    var m, ops :| IsSettlePoint(a, ts, k, r, m) && AreOperands(a, k, r, m, ops) && IsBase(a, k, m, c.base)
                  && c.ops == Values(ops);
    assert IsSettlePoint(b, ts, k, r, m);
    assert AreOperands(b, k, r, m, ops);
    RuleIsResolve(b, ts, k, r, c);
  }

  /** The layered read follows the rule over everything the layers hold. */
  lemma LayeredReadFollowsRule(ls: seq<Layer>, ts: seq<Tombstone>, k: Key, r: SeqNo)
    requires forall i | 0 <= i < |ls| :: ls[i].Valid()
    requires LayerOrder(ls, ts) && LayersBounded(ts)
    requires Numbered(Flatten(ls)) && DistinctNumbers(Flatten(ls), ts)
    ensures FollowsRule(Flatten(ls), ts, k, r, Resolve(Flatten(ls), ts, k, r))
  {
    FlattenNewestFirst(ls, k);
    ResolveFollowsRule(Flatten(ls), ts, k, r);
  }
}
