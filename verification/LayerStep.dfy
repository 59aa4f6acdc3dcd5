/**
 * The layers over time.  Writes go to the memtable, full memtables move down, flushes
 * and compactions move data further; each of these steps keeps the layer order that
 * reads rely on, and none but a write changes what a live reader finds.
 */
module LayerSteps {
  import opened Core
  import opened Visibility
  import opened Layers
  import opened RangeDelViews
  import opened CompactGroups
  import opened CompactionOutputs
  import opened Compactions
  import opened CompactionTheorems

  /** What one layer holds: entries as its iterator yields them, and tombstones. */
  datatype Part = Part(entries: seq<Entry>, tombs: seq<Tombstone>)

  const EMPTY := Part([], [])

  /** An entry of k numbered s. */
  ghost predicate EntryAt(p: Part, k: Key, s: SeqNo) {
    exists e :: e in p.entries && e.key == k && e.sn == s
  }

  /** A tombstone over k numbered s. */
  ghost predicate TombAt(p: Part, k: Key, s: SeqNo) {
    exists t :: t in p.tombs && t.Covers(k) && t.sn == s
  }

  /** p has an entry of k or a tombstone over it. */
  ghost predicate Says(p: Part, k: Key) {
    exists s: SeqNo :: EntryAt(p, k, s) || TombAt(p, k, s)
  }

  /** What a says of k is newer than what b says, except that tombstones need no order among themselves. */
  ghost predicate NewerOn(a: Part, b: Part, k: Key) {
    && (forall s: SeqNo, s': SeqNo | EntryAt(a, k, s) && EntryAt(b, k, s') :: s > s')
    && (forall s: SeqNo, s': SeqNo | TombAt(a, k, s) && EntryAt(b, k, s') :: s > s')
    && (forall s: SeqNo, s': SeqNo | EntryAt(a, k, s) && TombAt(b, k, s') :: s > s')
  }

  /** Numbers lie between 1 and the last one given out, and each record of a key has its own. */
  ghost predicate Tidy(p: Part, last: SeqNo, k: Key) {
    && (forall s: SeqNo | EntryAt(p, k, s) :: 1 <= s <= last)
    && (forall s: SeqNo | TombAt(p, k, s) :: s <= last && !EntryAt(p, k, s))
  }

  /** For one key: everything a layer says of it is newer than what an older layer says. */
  ghost predicate OrderOn(ps: seq<Part>, last: SeqNo, k: Key) {
    && (forall i | 0 <= i < |ps| :: Tidy(ps[i], last, k))
    && (forall i, j {:trigger NewerOn(ps[i], ps[j], k)} | 0 <= i < j < |ps| :: NewerOn(ps[i], ps[j], k))
  }

  ghost predicate AllSorted(ps: seq<Part>) {
    forall i | 0 <= i < |ps| :: Sorted(ps[i].entries)
  }

  /** The layer order, in full. */
  ghost predicate InOrder(ps: seq<Part>, last: SeqNo) {
    AllSorted(ps) && forall k: Key :: OrderOn(ps, last, k)
  }

  // ---- Everything the layers hold ----

  ghost function AllEntries(ps: seq<Part>): seq<Entry> {
    if ps == [] then [] else ps[0].entries + AllEntries(ps[1..])
  }

  /** Every layer's tombstones, marked with the layer. */
  ghost function AllTombs(ps: seq<Part>): seq<Tombstone> {
    if ps == [] then [] else AllTombs(ps[..|ps| - 1]) + Relayer(ps[|ps| - 1].tombs, |ps| - 1)
  }

  /** What a reader of k at r finds. */
  ghost function ReadAll(mop: Option<MergeOperator>, ps: seq<Part>, k: Key, r: SeqNo): Outcome {
    Read(mop, AllEntries(ps), AllTombs(ps), k, r)
  }

  /** Some layer has this tombstone. */
  ghost predicate HasTomb(ps: seq<Part>, t: Tombstone) {
    exists i :: 0 <= i < |ps| && t in ps[i].tombs
  }

  ghost predicate HiddenIn(ps: seq<Part>, k: Key, s: SeqNo, r: SeqNo) {
    exists t :: HasTomb(ps, t) && t.Covers(k) && s < t.sn <= r
  }

  lemma {:induction false} RelayerMembers(ts: seq<Tombstone>, layer: nat, x: Tombstone)
    ensures x in Relayer(ts, layer) <==> exists t :: t in ts && x == t.(layer := layer)
  {
    if ts != [] {
      RelayerMembers(ts[1..], layer, x);
      if x == ts[0].(layer := layer) {
        assert ts[0] in ts;
      }
      if t :| t in ts[1..] && x == t.(layer := layer) {
        assert t in ts;
      }
    }
  }

  lemma {:induction false} AllTombsMembers(ps: seq<Part>, x: Tombstone)
    ensures x in AllTombs(ps) <==> exists i, t :: 0 <= i < |ps| && t in ps[i].tombs && x == t.(layer := i)
  {
    if ps != [] {
      hide Relayer;
      var init, n := ps[..|ps| - 1], |ps| - 1;
      AllTombsMembers(init, x);
      RelayerMembers(ps[n].tombs, n, x);
      assert forall i | 0 <= i < n :: init[i] == ps[i];
      if i, t :| 0 <= i < |ps| && t in ps[i].tombs && x == t.(layer := i) {
        if i < n {
          assert t in init[i].tombs;
        }
      }
    }
  }

  /** Marking the layers changes nothing about what is hidden. */
  lemma AllTombsHide(ps: seq<Part>, k: Key, s: SeqNo, r: SeqNo)
    ensures Hidden(AllTombs(ps), k, s, r) <==> HiddenIn(ps, k, s, r)
  {
    if x :| x in AllTombs(ps) && x.Covers(k) && s < x.sn <= r {
      AllTombsMembers(ps, x);
      var i, t :| 0 <= i < |ps| && t in ps[i].tombs && x == t.(layer := i);
      assert HasTomb(ps, t);
    }
    if t :| HasTomb(ps, t) && t.Covers(k) && s < t.sn <= r {
      var i :| 0 <= i < |ps| && t in ps[i].tombs;
      AllTombsMembers(ps, t.(layer := i));
    }
  }

  lemma {:induction false} AllEntriesConcat(a: seq<Part>, b: seq<Part>)
    ensures AllEntries(a + b) == AllEntries(a) + AllEntries(b)
  {
    if a == [] {
      assert a + b == b;
    } else {
      assert (a + b)[1..] == a[1..] + b;
      AllEntriesConcat(a[1..], b);
    }
  }

  lemma {:induction false} AllEntriesMembers(ps: seq<Part>, e: Entry)
    ensures e in AllEntries(ps) <==> exists i :: 0 <= i < |ps| && e in ps[i].entries
  {
    if ps != [] {
      AllEntriesMembers(ps[1..], e);
      if i :| 0 <= i < |ps| && e in ps[i].entries {
        assert i > 0 ==> ps[1..][i - 1] == ps[i];
      }
      if i :| 0 <= i < |ps[1..]| && e in ps[1..][i].entries {
        assert e in ps[i + 1].entries;
      }
    }
  }

  /** A key's entries, layer after layer. */
  ghost function OnKey(ps: seq<Part>, k: Key): seq<Entry> {
    OfKey(AllEntries(ps), k)
  }

  lemma OnKeyConcat(a: seq<Part>, b: seq<Part>, k: Key)
    ensures OnKey(a + b, k) == OnKey(a, k) + OnKey(b, k)
  {
    AllEntriesConcat(a, b);
    OfKeyConcat(AllEntries(a), AllEntries(b), k);
  }

  lemma OnKeyOne(p: Part, k: Key)
    ensures OnKey([p], k) == OfKey(p.entries, k)
  {
    assert [p][1..] == [] && AllEntries([p][1..]) == [];
    assert AllEntries([p]) == p.entries + [] == p.entries;
  }

  lemma EntrySays(p: Part, e: Entry)
    requires e in p.entries
    ensures EntryAt(p, e.key, e.sn) && Says(p, e.key)
  {
    var s := e.sn;
    assert EntryAt(p, e.key, s);
  }

  lemma TombSays(p: Part, t: Tombstone, k: Key)
    requires t in p.tombs && t.Covers(k)
    ensures TombAt(p, k, t.sn) && Says(p, k)
  {
    var s := t.sn;
    assert TombAt(p, k, s);
  }

  /** A layer that says nothing of a key has none of its entries. */
  lemma Silent(p: Part, k: Key)
    requires !Says(p, k)
    ensures OfKey(p.entries, k) == []
  {
    forall j | 0 <= j < |p.entries| ensures p.entries[j].key != k {
      EntrySays(p, p.entries[j]);
    }
    OfKeyNone(p.entries, k);
  }

  /** Reads of a key look at its entries, in order, and at the tombstones over it. */
  lemma ReadLike(mop: Option<MergeOperator>, ps: seq<Part>, es: seq<Entry>, ts: seq<Tombstone>, k: Key, r: SeqNo)
    requires OnKey(ps, k) == OfKey(es, k) && forall s: SeqNo :: HiddenIn(ps, k, s, r) == Hidden(ts, k, s, r)
    ensures ReadAll(mop, ps, k, r) == Read(mop, es, ts, k, r)
  {
    hide Fold, AllEntries, AllTombs, HiddenIn, OfKey, Hidden;
    forall s: SeqNo ensures Hidden(AllTombs(ps), k, s, r) == Hidden(ts, k, s, r) {
      AllTombsHide(ps, k, s, r);
    }
    FoldOfKey(AllEntries(ps), AllTombs(ps), k, r, ABSENT);
    FoldOfKey(es, ts, k, r, ABSENT);
    HideAlike(OnKey(ps, k), AllTombs(ps), ts, k, r, ABSENT);
  }

  lemma SameOnKey(mop: Option<MergeOperator>, ps: seq<Part>, qs: seq<Part>, k: Key, r: SeqNo)
    requires OnKey(ps, k) == OnKey(qs, k)
    requires forall t: Tombstone | t.Covers(k) :: HasTomb(ps, t) <==> HasTomb(qs, t)
    ensures ReadAll(mop, ps, k, r) == ReadAll(mop, qs, k, r)
  {
    hide Read, AllEntries, AllTombs, HasTomb, OfKey, Hidden;
    forall s: SeqNo ensures HiddenIn(ps, k, s, r) == Hidden(AllTombs(qs), k, s, r) {
      AllTombsHide(qs, k, s, r);
    }
    ReadLike(mop, ps, AllEntries(qs), AllTombs(qs), k, r);
  }

  /** The order that point reads and skipping iterators ask for. */
  lemma GivesLayerOrder(ps: seq<Part>, last: SeqNo, ls: seq<Layer>)
    requires InOrder(ps, last) && |ls| == |ps| && forall i | 0 <= i < |ps| :: ls[i].entries == ps[i].entries
    ensures LayerOrder(ls, AllTombs(ps)) && Flatten(ls) == AllEntries(ps)
  {
    hide AllTombs, AllEntries, Flatten, Sorted, Says, Tidy;
    forall i, x | 0 <= i < |ls| && x in AllTombs(ps) && x.layer < i ensures NewerTombstone(x, ls[i].entries) {
      AllTombsMembers(ps, x);
      var j, t :| 0 <= j < |ps| && t in ps[j].tombs && x == t.(layer := j);
      forall e | e in ls[i].entries && x.Covers(e.key) ensures e.sn < x.sn {
        assert OrderOn(ps, last, e.key) && NewerOn(ps[j], ps[i], e.key);
        EntrySays(ps[i], e);
        TombSays(ps[j], t, e.key);
      }
    }
    forall i, j | 0 <= i < j < |ls| ensures NewerEntries(ls[i].entries, ls[j].entries) {
      forall x, y | x in ls[i].entries && y in ls[j].entries && x.key == y.key ensures x.sn > y.sn {
        assert OrderOn(ps, last, x.key) && NewerOn(ps[i], ps[j], x.key);
        EntrySays(ps[i], x);
        EntrySays(ps[j], y);
      }
    }
    FlattenIsAll(ps, ls);
  }

  /** Of the tombstones only those that cover something matter. */
  lemma SameCovering(ls: seq<Layer>, ts: seq<Tombstone>, ts': seq<Tombstone>)
    requires LayerOrder(ls, ts) && forall t: Tombstone, k: Key | t.Covers(k) :: t in ts' ==> t in ts
    ensures LayerOrder(ls, ts')
  {
    forall i, t | 0 <= i < |ls| && t in ts' && t.layer < i ensures NewerTombstone(t, ls[i].entries) {
      forall e | e in ls[i].entries && t.Covers(e.key) ensures e.sn < t.sn {
        assert t in ts && NewerTombstone(t, ls[i].entries);
      }
    }
  }

  lemma {:induction false} FlattenIsAll(ps: seq<Part>, ls: seq<Layer>)
    requires |ls| == |ps| && forall i | 0 <= i < |ps| :: ls[i].entries == ps[i].entries
    ensures Flatten(ls) == AllEntries(ps)
  {
    if ps != [] {
      FlattenIsAll(ps[1..], ls[1..]);
    }
  }

  // ---- Layers made of other layers ----

  ghost predicate EntryIn(ps: seq<Part>, k: Key, s: SeqNo) {
    exists i :: 0 <= i < |ps| && EntryAt(ps[i], k, s)
  }

  ghost predicate TombIn(ps: seq<Part>, k: Key, s: SeqNo) {
    exists i :: 0 <= i < |ps| && TombAt(ps[i], k, s)
  }

  /** Whatever a says of k, some of the others says with the same number. */
  ghost predicate Echoes(a: Part, others: seq<Part>, k: Key) {
    && (forall s: SeqNo | EntryAt(a, k, s) :: EntryIn(others, k, s))
    && (forall s: SeqNo | TombAt(a, k, s) :: TombIn(others, k, s))
  }

  lemma EchoNewer(a: Part, xs: seq<Part>, b: Part, ys: seq<Part>, k: Key)
    requires Echoes(a, xs, k) && Echoes(b, ys, k)
    requires forall i, j | 0 <= i < |xs| && 0 <= j < |ys| :: NewerOn(xs[i], ys[j], k)
    ensures NewerOn(a, b, k)
  {
    hide EntryAt, TombAt;
  }

  lemma EchoTidy(a: Part, xs: seq<Part>, last: SeqNo, k: Key)
    requires Echoes(a, xs, k) && OrderOn(xs, last, k)
    ensures Tidy(a, last, k)
  {
    hide EntryAt, TombAt;
    NumbersApart(xs, last, k);
  }

  // ---- What a run of layers says of a key ----

  /** No entry of a key shares its number with a tombstone over it. */
  lemma NumbersApart(ps: seq<Part>, last: SeqNo, k: Key)
    requires OrderOn(ps, last, k)
    ensures forall s: SeqNo | TombIn(ps, k, s) :: !EntryIn(ps, k, s)
  {
    hide EntryAt, TombAt;
    forall i, j, s: SeqNo | 0 <= i < |ps| && 0 <= j < |ps| && TombAt(ps[i], k, s) ensures !EntryAt(ps[j], k, s) {
      if i < j {
        assert NewerOn(ps[i], ps[j], k);
      } else if j < i {
        assert NewerOn(ps[j], ps[i], k);
      }
    }
  }

  /** Newer layers in front, older ones behind. */
  lemma InFront(a: seq<Part>, b: seq<Part>, last: SeqNo, k: Key)
    requires OrderOn(a + b, last, k)
    ensures forall s: SeqNo, s': SeqNo | EntryIn(a, k, s) && EntryIn(b, k, s') :: s > s'
    ensures forall s: SeqNo, s': SeqNo | TombIn(a, k, s) && EntryIn(b, k, s') :: s > s'
    ensures forall s: SeqNo, s': SeqNo | EntryIn(a, k, s) && TombIn(b, k, s') :: s > s'
    ensures OrderOn(a, last, k) && OrderOn(b, last, k)
  {
    hide EntryAt, TombAt, Tidy;
    var ab := a + b;
    assert forall i | 0 <= i < |a| :: ab[i] == a[i];
    assert forall j | 0 <= j < |b| :: ab[|a| + j] == b[j];
    forall i, j | 0 <= i < |a| && 0 <= j < |b| ensures NewerOn(a[i], b[j], k) {
      assert NewerOn(ab[i], ab[|a| + j], k);
    }
    forall i, j | 0 <= i < j < |a| ensures NewerOn(a[i], a[j], k) {
      assert NewerOn(ab[i], ab[j], k);
    }
    forall i, j | 0 <= i < j < |b| ensures NewerOn(b[i], b[j], k) {
      assert NewerOn(ab[|a| + i], ab[|a| + j], k);
    }
  }

  lemma EntryAmong(ps: seq<Part>, e: Entry)
    requires e in AllEntries(ps)
    ensures EntryIn(ps, e.key, e.sn)
  {
    hide EntryAt;
    AllEntriesMembers(ps, e);
    var i :| 0 <= i < |ps| && e in ps[i].entries;
    EntrySays(ps[i], e);
  }

  lemma TombAmong(ps: seq<Part>, x: Tombstone, k: Key)
    requires x in AllTombs(ps) && x.Covers(k)
    ensures TombIn(ps, k, x.sn)
  {
    hide TombAt;
    AllTombsMembers(ps, x);
    var i, t :| 0 <= i < |ps| && t in ps[i].tombs && x == t.(layer := i);
    TombSays(ps[i], t, k);
  }

  /** Layers with nothing to say of a key, but one. */
  lemma {:induction false} OnlyOne(ps: seq<Part>, i: nat, k: Key)
    requires i < |ps| && forall j | 0 <= j < |ps| && j != i :: !Says(ps[j], k)
    ensures OnKey(ps, k) == OfKey(ps[i].entries, k)
  {
    hide Says, OfKey, AllEntries;
    assert ps == [ps[0]] + ps[1..];
    OnKeyConcat([ps[0]], ps[1..], k);
    OnKeyOne(ps[0], k);
    if i == 0 {
      AllSilent(ps[1..], k);
    } else {
      Silent(ps[0], k);
      OnlyOne(ps[1..], i - 1, k);
    }
  }

  lemma {:induction false} AllSilent(ps: seq<Part>, k: Key)
    requires forall j | 0 <= j < |ps| :: !Says(ps[j], k)
    ensures OnKey(ps, k) == []
  {
    if ps != [] {
      hide Says;
      OfKeyConcat(ps[0].entries, AllEntries(ps[1..]), k);
      Silent(ps[0], k);
      AllSilent(ps[1..], k);
    }
  }

  /** Layers that agree on a key one by one agree on it together. */
  lemma {:induction false} LayerByLayer(ps: seq<Part>, qs: seq<Part>, k: Key)
    requires |ps| == |qs| && forall j | 0 <= j < |ps| :: OfKey(ps[j].entries, k) == OfKey(qs[j].entries, k)
    ensures OnKey(ps, k) == OnKey(qs, k)
  {
    if ps != [] {
      OfKeyConcat(ps[0].entries, AllEntries(ps[1..]), k);
      OfKeyConcat(qs[0].entries, AllEntries(qs[1..]), k);
      LayerByLayer(ps[1..], qs[1..], k);
    }
  }

  /** Which layers of before a layer of after repeats. */
  datatype Slice = Slice(lo: nat, hi: nat)

  /** As far as k is concerned, the layers qs repeat the layers ps, slice after slice. */
  ghost predicate Repeats(qs: seq<Part>, ps: seq<Part>, k: Key, from: seq<Slice>) {
    && |from| == |qs|
    && (forall x | 0 <= x < |qs| && Says(qs[x], k) ::
          from[x].lo <= from[x].hi <= |ps| && Echoes(qs[x], ps[from[x].lo..from[x].hi], k))
    && (forall x, y | 0 <= x < y < |qs| && Says(qs[x], k) && Says(qs[y], k) :: from[x].hi <= from[y].lo)
  }

  /** What repeats ordered layers is ordered. */
  lemma RepeatsInOrder(qs: seq<Part>, ps: seq<Part>, last: SeqNo, k: Key, from: seq<Slice>)
    requires Repeats(qs, ps, k, from) && OrderOn(ps, last, k)
    ensures OrderOn(qs, last, k)
  {
    hide EntryAt, TombAt, Echoes;
    forall x | 0 <= x < |qs| ensures Tidy(qs[x], last, k) {
      if Says(qs[x], k) {
        EchoTidy(qs[x], ps[from[x].lo..from[x].hi], last, k);
      }
    }
    forall x, y | 0 <= x < y < |qs| ensures NewerOn(qs[x], qs[y], k) {
      if Says(qs[x], k) && Says(qs[y], k) {
        EchoNewer(qs[x], ps[from[x].lo..from[x].hi], qs[y], ps[from[y].lo..from[y].hi], k);
      }
    }
  }

  lemma SelfEcho(a: Part, ps: seq<Part>, k: Key)
    requires a in ps
    ensures Echoes(a, ps, k)
  {
    hide EntryAt, TombAt;
  }

  /** c holds what a and b hold, a's entries of a key in front. */
  ghost predicate Joins(c: Part, a: Part, b: Part) {
    && Sorted(c.entries)
    && (forall k: Key :: OfKey(c.entries, k) == OfKey(a.entries, k) + OfKey(b.entries, k))
    && (forall t: Tombstone :: t in c.tombs <==> t in a.tombs || t in b.tombs)
  }

  lemma JoinMembers(c: Part, a: Part, b: Part, k: Key)
    requires Joins(c, a, b)
    ensures forall s: SeqNo :: EntryAt(c, k, s) <==> EntryAt(a, k, s) || EntryAt(b, k, s)
    ensures forall s: SeqNo :: TombAt(c, k, s) <==> TombAt(a, k, s) || TombAt(b, k, s)
    ensures Says(c, k) <==> Says(a, k) || Says(b, k)
  {
    hide Sorted, OfKey;
    OfKeyMembers(c.entries, k);
    OfKeyMembers(a.entries, k);
    OfKeyMembers(b.entries, k);
    var all := OfKey(a.entries, k) + OfKey(b.entries, k);
    assert forall e :: e in OfKey(c.entries, k) <==> e in all;
    forall s: SeqNo ensures EntryAt(c, k, s) <==> EntryAt(a, k, s) || EntryAt(b, k, s) {
      if e :| e in c.entries && e.key == k && e.sn == s {
        assert e in OfKey(c.entries, k) && e in all;
      }
      if e :| (e in a.entries || e in b.entries) && e.key == k && e.sn == s {
        assert e in all && e in OfKey(c.entries, k);
      }
    }
    forall s: SeqNo ensures TombAt(c, k, s) <==> TombAt(a, k, s) || TombAt(b, k, s) {
    }
  }

  lemma JoinEcho(c: Part, a: Part, b: Part, k: Key)
    requires Joins(c, a, b)
    ensures Echoes(c, [a, b], k)
    ensures !Says(a, k) ==> Echoes(c, [b], k)
    ensures !Says(b, k) ==> Echoes(c, [a], k)
    ensures Echoes(a, [c], k) && Echoes(b, [c], k)
  {
    hide EntryAt, TombAt, Joins;
    JoinMembers(c, a, b, k);
    assert [a, b][0] == a && [a, b][1] == b && [a][0] == a && [b][0] == b && [c][0] == c;
  }

  lemma JoinedSorted(c: Part, a: Part, b: Part)
    requires Joins(c, a, b)
    ensures Sorted(c.entries)
  {
  }

  lemma JustOne(ps: seq<Part>, x: nat)
    requires x < |ps|
    ensures ps[x..x + 1] == [ps[x]]
  {
  }

  lemma SwapMiddle(front: seq<Part>, a: seq<Part>, b: seq<Part>, back: seq<Part>, k: Key)
    requires OnKey(a, k) == OnKey(b, k)
    ensures OnKey(front + a + back, k) == OnKey(front + b + back, k)
  {
    hide OfKey, AllEntries;
    OnKeyConcat(front + a, back, k);
    OnKeyConcat(front, a, k);
    OnKeyConcat(front + b, back, k);
    OnKeyConcat(front, b, k);
  }

  lemma HasTombConcat(a: seq<Part>, b: seq<Part>, t: Tombstone)
    ensures HasTomb(a + b, t) <==> HasTomb(a, t) || HasTomb(b, t)
  {
    if i :| 0 <= i < |a| && t in a[i].tombs {
      assert t in (a + b)[i].tombs;
    }
    if i :| 0 <= i < |b| && t in b[i].tombs {
      assert t in (a + b)[|a| + i].tombs;
    }
  }

  // ---- Merging two layers ----

  /** Two sorted layers as one. */
  function Merged(a: seq<Entry>, b: seq<Entry>): seq<Entry>
    decreases |a| + |b|
  {
    if a == [] then b
    else if b == [] then a
    else if Before(b[0].key, b[0].sn, a[0].key, a[0].sn) then [b[0]] + Merged(a, b[1..])
    else [a[0]] + Merged(a[1..], b)
  }

  /** Of every key, all that a says is newer than all that b says. */
  ghost predicate NewerEach(a: seq<Entry>, b: seq<Entry>) {
    forall x, y | x in a && y in b && x.key == y.key :: x.sn > y.sn
  }

  lemma HeadBefore(es: seq<Entry>, e: Entry)
    requires es != [] && Sorted(es) && e in es[1..]
    ensures Before(es[0].key, es[0].sn, e.key, e.sn)
  {
    var i :| 0 <= i < |es[1..]| && es[1..][i] == e;
    assert Before(es[0].key, es[0].sn, es[i + 1].key, es[i + 1].sn);
  }

  lemma TailSorted(es: seq<Entry>)
    requires es != [] && Sorted(es)
    ensures Sorted(es[1..])
  {
    var rest := es[1..];
    forall i, j | 0 <= i < j < |rest| ensures Before(rest[i].key, rest[i].sn, rest[j].key, rest[j].sn) {
      assert Before(es[i + 1].key, es[i + 1].sn, es[j + 1].key, es[j + 1].sn);
    }
  }

  lemma {:induction false} MergedSorted(a: seq<Entry>, b: seq<Entry>)
    requires Sorted(a) && Sorted(b) && NewerEach(a, b)
    ensures Sorted(Merged(a, b)) && forall e :: e in Merged(a, b) <==> e in a || e in b
    decreases |a| + |b|
  {
    if a != [] && b != [] {
      hide Sorted;
      var x, y := a[0], b[0];
      forall e | e in a ensures e == x || Before(x.key, x.sn, e.key, e.sn) {
        if e in a[1..] {
          HeadBefore(a, e);
        }
      }
      forall e | e in b ensures e == y || Before(y.key, y.sn, e.key, e.sn) {
        if e in b[1..] {
          HeadBefore(b, e);
        }
      }
      if Before(y.key, y.sn, x.key, x.sn) {
        TailSorted(b);
        MergedSorted(a, b[1..]);
        forall e | e in Merged(a, b[1..]) ensures Before(y.key, y.sn, e.key, e.sn) {
          if e in b[1..] {
            HeadBefore(b, e);
          }
        }
        HeadSorted(y, Merged(a, b[1..]));
      } else {
        TailSorted(a);
        MergedSorted(a[1..], b);
        forall e | e in Merged(a[1..], b) ensures Before(x.key, x.sn, e.key, e.sn) {
          if e in a[1..] {
            HeadBefore(a, e);
          }
        }
        HeadSorted(x, Merged(a[1..], b));
      }
    }
  }

  lemma {:induction false} MergedOfKey(a: seq<Entry>, b: seq<Entry>, k: Key)
    requires Sorted(a) && Sorted(b) && NewerEach(a, b)
    ensures OfKey(Merged(a, b), k) == OfKey(a, k) + OfKey(b, k)
    decreases |a| + |b|
  {
    if a == [] || b == [] {
      assert OfKey(a, k) + OfKey([], k) == OfKey(a, k);
    } else if Before(b[0].key, b[0].sn, a[0].key, a[0].sn) {
      TailSorted(b);
      MergedOfKey(a, b[1..], k);
      if b[0].key == k {
        forall i | 0 <= i < |a| ensures a[i].key != k {
          assert a[0] in a && b[0] in b;
          assert i == 0 || Before(a[0].key, a[0].sn, a[i].key, a[i].sn);
        }
        OfKeyNone(a, k);
      }
    } else {
      TailSorted(a);
      MergedOfKey(a[1..], b, k);
      if a[0].key == k {
        Associate([a[0]], OfKey(a[1..], k), OfKey(b, k));
      }
    }
  }

  /** Where a's part of every key is newer than b's, there is a layer that holds what both hold. */
  lemma MergeJoins(a: Part, b: Part) returns (c: Part)
    requires Sorted(a.entries) && Sorted(b.entries) && NewerEach(a.entries, b.entries)
    ensures c == Part(Merged(a.entries, b.entries), a.tombs + b.tombs) && Joins(c, a, b)
  {
    hide Sorted, OfKey, Merged;
    c := Part(Merged(a.entries, b.entries), a.tombs + b.tombs);
    MergedSorted(a.entries, b.entries);
    forall k: Key ensures OfKey(c.entries, k) == OfKey(a.entries, k) + OfKey(b.entries, k) {
      MergedOfKey(a.entries, b.entries, k);
    }
  }
}
