/**
 * Writes, memtable switches, flushes, and files that change level as they are: each
 * keeps the layer order, and changes no read at an earlier snapshot.
 */
module LayerMoves {
  import opened Core
  import opened Visibility
  import opened Layers
  import opened CompactionTheorems
  import opened LayerSteps

  // ---- Writes ----

  /** The batch w, newer than everything so far, goes to the memtable. */
  ghost predicate Writes(ps: seq<Part>, last: SeqNo, w: Part, qs: seq<Part>, last': SeqNo) {
    && ps != [] && |qs| == |ps| && qs[1..] == ps[1..] && Joins(qs[0], w, ps[0]) && last <= last'
    && forall k: Key :: Tidy(w, last', k) && Fresh(w, last, k)
  }

  ghost predicate Fresh(w: Part, last: SeqNo, k: Key) {
    forall s: SeqNo | EntryAt(w, k, s) || TombAt(w, k, s) :: s > last
  }

  lemma WriteInFront(ps: seq<Part>, last: SeqNo, w: Part, last': SeqNo, k: Key)
    requires OrderOn(ps, last, k) && last <= last' && Tidy(w, last', k) && Fresh(w, last, k)
    ensures OrderOn([w] + ps, last', k)
  {
    hide EntryAt, TombAt;
    var wps := [w] + ps;
    assert forall i | 0 < i < |wps| :: wps[i] == ps[i - 1];
    forall i, j | 0 <= i < j < |wps| ensures NewerOn(wps[i], wps[j], k) {
      if i == 0 {
        assert Tidy(ps[j - 1], last, k);
      } else {
        assert NewerOn(ps[i - 1], ps[j - 1], k);
      }
    }
  }

  /** A write keeps the layer order. */
  lemma WriteKeepsOrder(ps: seq<Part>, last: SeqNo, w: Part, qs: seq<Part>, last': SeqNo)
    requires InOrder(ps, last) && Writes(ps, last, w, qs, last')
    ensures InOrder(qs, last')
  {
    hide EntryAt, TombAt, Sorted, Joins, Echoes, Tidy, Fresh, NewerOn;
    forall i | 0 <= i < |qs| ensures Sorted(qs[i].entries) {
      if i == 0 {
        JoinedSorted(qs[0], w, ps[0]);
      } else {
        assert qs[i] == qs[1..][i - 1] == ps[i];
      }
    }
    forall k: Key ensures OrderOn(qs, last', k) {
      var wps := [w] + ps;
      WriteInFront(ps, last, w, last', k);
      var from := seq(|qs|, (x: nat) => if x == 0 then Slice(0, 2) else Slice(x + 1, x + 2));
      forall x | 0 <= x < |qs| ensures Echoes(qs[x], wps[from[x].lo..from[x].hi], k) {
        if x == 0 {
          JoinEcho(qs[0], w, ps[0], k);
          assert wps[0..2] == [w, ps[0]];
        } else {
          assert qs[x] == qs[1..][x - 1] == ps[x] == wps[x + 1];
          assert wps[x + 1..x + 2] == [qs[x]];
          SelfEcho(qs[x], [qs[x]], k);
        }
      }
      RepeatsInOrder(qs, wps, last', k, from);
    }
  }

  /** Readers at snapshots up to the last number take no notice of a write. */
  lemma WriteUnnoticed(mop: Option<MergeOperator>, ps: seq<Part>, last: SeqNo, w: Part, qs: seq<Part>, last': SeqNo,
                       k: Key, r: SeqNo)
    requires Writes(ps, last, w, qs, last') && r <= last
    ensures ReadAll(mop, qs, k, r) == ReadAll(mop, ps, k, r)
  {
    hide EntryAt, TombAt, Sorted, Fold, OfKey, Hidden, HiddenIn, Tidy, AllTombs;
    var older := AllEntries(ps);
    WriteOnKey(ps, last, w, qs, last', k);
    OfKeyConcat(w.entries, older, k);
    forall s: SeqNo ensures HiddenIn(qs, k, s, r) == Hidden(AllTombs(ps), k, s, r) {
      AllTombsHide(ps, k, s, r);
      WriteHidesNothing(ps, last, w, qs, last', k, s, r);
    }
    ReadLike(mop, qs, w.entries + older, AllTombs(ps), k, r);
    FoldConcat(w.entries, older, AllTombs(ps), k, r, ABSENT);
    forall i | 0 <= i < |w.entries| ensures w.entries[i].key != k || w.entries[i].sn > r {
      EntrySays(w, w.entries[i]);
      assert Fresh(w, last, w.entries[i].key);
    }
    FoldNothing(w.entries, AllTombs(ps), k, r, Resolve(older, AllTombs(ps), k, r));
  }

  /** The batch's entries of a key stand in front of all others. */
  lemma WriteOnKey(ps: seq<Part>, last: SeqNo, w: Part, qs: seq<Part>, last': SeqNo, k: Key)
    requires Writes(ps, last, w, qs, last')
    ensures OnKey(qs, k) == OfKey(w.entries, k) + OnKey(ps, k)
  {
    hide OfKey, AllEntries, Sorted, Tidy, Fresh;
    assert ps == [ps[0]] + ps[1..] && qs == [qs[0]] + ps[1..];
    OnKeyConcat([ps[0]], ps[1..], k);
    OnKeyConcat([qs[0]], ps[1..], k);
    OnKeyOne(ps[0], k);
    OnKeyOne(qs[0], k);
    Associate(OfKey(w.entries, k), OfKey(ps[0].entries, k), OnKey(ps[1..], k));
  }

  /** And its tombstones come in addition to all others. */
  lemma WriteTombs(ps: seq<Part>, last: SeqNo, w: Part, qs: seq<Part>, last': SeqNo, t: Tombstone)
    requires Writes(ps, last, w, qs, last')
    ensures HasTomb(qs, t) <==> HasTomb(ps, t) || t in w.tombs
  {
    hide Sorted, OfKey, Tidy, Fresh;
    assert Joins(qs[0], w, ps[0]);
    assert forall i | 0 < i < |ps| :: qs[i] == qs[1..][i - 1] == ps[i];
    if i :| 0 <= i < |qs| && t in qs[i].tombs {
      assert i == 0 || t in ps[i].tombs;
    }
    if i :| 0 <= i < |ps| && t in ps[i].tombs {
      assert t in qs[i].tombs;
    }
    if t in w.tombs {
      assert t in qs[0].tombs;
    }
  }

  lemma WriteHidesNothing(ps: seq<Part>, last: SeqNo, w: Part, qs: seq<Part>, last': SeqNo, k: Key, s: SeqNo, r: SeqNo)
    requires Writes(ps, last, w, qs, last') && r <= last
    ensures HiddenIn(qs, k, s, r) == HiddenIn(ps, k, s, r)
  {
    hide EntryAt, TombAt, Sorted, OfKey, Tidy, HasTomb;
    assert Fresh(w, last, k);
    forall t: Tombstone | t.Covers(k) && t.sn <= r ensures HasTomb(qs, t) == HasTomb(ps, t) {
      if t in w.tombs {
        TombSays(w, t, k);
      }
      WriteTombs(ps, last, w, qs, last', t);
    }
  }

  // ---- Moves: memtable switches, flushes, files that change level as they are ----

  /** What layer i says besides `rest` moves behind the older layer q; none in between says anything of its keys. */
  ghost predicate Moves(ps: seq<Part>, i: nat, q: nat, moved: Part, rest: Part, qs: seq<Part>) {
    && i < q < |ps| && |qs| == |ps|
    && (forall j | 0 <= j < |ps| && j != i && j != q :: qs[j] == ps[j])
    && qs[i] == rest && Sorted(rest.entries)
    && Joins(ps[i], moved, rest) && Joins(qs[q], moved, ps[q])
    && forall k: Key | Says(moved, k) :: !Says(rest, k) && forall j | i < j <= q :: !Says(ps[j], k)
  }

  /** A move keeps the layer order: of a moved key, nothing is in between. */
  lemma MoveKeepsOrder(ps: seq<Part>, last: SeqNo, i: nat, q: nat, moved: Part, rest: Part, qs: seq<Part>)
    requires InOrder(ps, last) && Moves(ps, i, q, moved, rest, qs)
    ensures InOrder(qs, last)
  {
    hide EntryAt, TombAt, Sorted, Joins, Echoes, Tidy, NewerOn, Says;
    JoinedSorted(qs[q], moved, ps[q]);
    forall k: Key ensures OrderOn(qs, last, k) {
      var to := if Says(moved, k) then i else q;
      var from := seq(|qs|, (x: nat) => if x == q then Slice(to, to + 1) else Slice(x, x + 1));
      JoinEcho(ps[i], moved, rest, k);
      JoinMembers(ps[i], moved, rest, k);
      JoinEcho(qs[q], moved, ps[q], k);
      JoinMembers(qs[q], moved, ps[q], k);
      forall x | 0 <= x < |qs| && Says(qs[x], k) ensures Echoes(qs[x], ps[from[x].lo..from[x].hi], k) {
        MovedEcho(ps, i, q, moved, rest, qs, k, x, from[x].lo);
        JustOne(ps, from[x].lo);
      }
      RepeatsInOrder(qs, ps, last, k, from);
    }
  }

  lemma MovedEcho(ps: seq<Part>, i: nat, q: nat, moved: Part, rest: Part, qs: seq<Part>, k: Key, x: nat, y: nat)
    requires Moves(ps, i, q, moved, rest, qs) && x < |qs| && Says(qs[x], k)
    requires y == if x == q && Says(moved, k) then i else x
    ensures Echoes(qs[x], [ps[y]], k)
  {
    hide EntryAt, TombAt, Sorted, Joins, Tidy, NewerOn, Says;
    JoinMembers(ps[i], moved, rest, k);
    JoinMembers(qs[q], moved, ps[q], k);
    assert [ps[y]][0] == ps[y];
    if x == q || x == i {
      JoinEcho(qs[q], moved, ps[q], k);
      JoinEcho(ps[i], moved, rest, k);
      if x == q && Says(moved, k) {
        assert !Says(ps[q], k);
      }
    } else {
      SelfEcho(qs[x], [ps[y]], k);
    }
  }

  lemma MoveOnKey(ps: seq<Part>, i: nat, q: nat, moved: Part, rest: Part, qs: seq<Part>, k: Key)
    requires Moves(ps, i, q, moved, rest, qs)
    ensures OnKey(qs, k) == OnKey(ps, k)
  {
    hide EntryAt, TombAt, Sorted, Says, OfKey, AllEntries;
    if Says(moved, k) {
      MovedOnKey(ps, i, q, moved, rest, qs, k);
      var a, b := ps[i..q + 1], qs[i..q + 1];
      SwapMiddle(ps[..i], a, b, ps[q + 1..], k);
      assert ps == ps[..i] + a + ps[q + 1..] && qs == ps[..i] + b + ps[q + 1..];
    } else {
      UnmovedOnKey(ps, i, q, moved, rest, qs, k);
      LayerByLayer(qs, ps, k);
    }
  }

  /** Of a key that does not move, every layer says what it said. */
  lemma UnmovedOnKey(ps: seq<Part>, i: nat, q: nat, moved: Part, rest: Part, qs: seq<Part>, k: Key)
    requires Moves(ps, i, q, moved, rest, qs) && !Says(moved, k)
    ensures forall j | 0 <= j < |ps| :: OfKey(qs[j].entries, k) == OfKey(ps[j].entries, k)
  {
    hide EntryAt, TombAt, Sorted, Says, OfKey;
    Silent(moved, k);
    assert [] + OfKey(rest.entries, k) == OfKey(rest.entries, k);
    assert [] + OfKey(ps[q].entries, k) == OfKey(ps[q].entries, k);
  }

  /** Of a moved key, only the layer it came from said anything, and only the one it goes to does. */
  lemma MovedOnKey(ps: seq<Part>, i: nat, q: nat, moved: Part, rest: Part, qs: seq<Part>, k: Key)
    requires Moves(ps, i, q, moved, rest, qs) && Says(moved, k)
    ensures OnKey(ps[i..q + 1], k) == OnKey(qs[i..q + 1], k)
  {
    hide EntryAt, TombAt, Sorted, Says, OfKey, AllEntries;
    Silent(rest, k);
    Silent(ps[q], k);
    var a, b := ps[i..q + 1], qs[i..q + 1];
    forall j | 0 < j < |a| ensures !Says(a[j], k) {
      assert a[j] == ps[i + j];
    }
    forall j | 0 <= j < |b| - 1 ensures !Says(b[j], k) {
      assert b[j] == qs[i + j];
      assert j > 0 ==> qs[i + j] == ps[i + j];
    }
    OnlyOne(a, 0, k);
    OnlyOne(b, q - i, k);
  }

  /** A move changes no read at all. */
  lemma MoveUnnoticed(mop: Option<MergeOperator>, ps: seq<Part>, i: nat, q: nat, moved: Part, rest: Part,
                      qs: seq<Part>, k: Key, r: SeqNo)
    requires Moves(ps, i, q, moved, rest, qs)
    ensures ReadAll(mop, qs, k, r) == ReadAll(mop, ps, k, r)
  {
    hide Says, OnKey, ReadAll, Sorted;
    MoveOnKey(ps, i, q, moved, rest, qs, k);
    forall t: Tombstone ensures HasTomb(qs, t) <==> HasTomb(ps, t) {
      if x :| 0 <= x < |qs| && t in qs[x].tombs {
        assert t in ps[x].tombs || t in ps[i].tombs;
      }
      if x :| 0 <= x < |ps| && t in ps[x].tombs {
        assert t in qs[x].tombs || t in qs[q].tombs;
      }
    }
    SameOnKey(mop, qs, ps, k, r);
  }

  /** A layer moves as it is to the free place behind it. */
  lemma WholeMoves(ps: seq<Part>, i: nat)
    requires i + 1 < |ps| && ps[i + 1] == EMPTY && Sorted(ps[i].entries)
    ensures Moves(ps, i, i + 1, ps[i], EMPTY, ps[..i] + [EMPTY, ps[i]] + ps[i + 2..])
  {
    JoinNothing(ps[i]);
  }

  lemma JoinNothing(p: Part)
    requires Sorted(p.entries)
    ensures Joins(p, p, EMPTY) && (forall k: Key :: !Says(EMPTY, k))
  {
    forall k: Key ensures OfKey(p.entries, k) == OfKey(p.entries, k) + OfKey(EMPTY.entries, k) {
    }
  }

  // ---- Places for layers ----

  /** An empty layer, or the place of one that has become empty, comes or goes. */
  ghost predicate Makes(ps: seq<Part>, at: nat, qs: seq<Part>) {
    at <= |ps| && qs == ps[..at] + [EMPTY] + ps[at..]
  }

  lemma PlaceOnKey(ps: seq<Part>, at: nat, qs: seq<Part>, k: Key)
    requires Makes(ps, at, qs)
    ensures OnKey(qs, k) == OnKey(ps, k)
  {
    hide OfKey, AllEntries;
    assert ps == ps[..at] + ps[at..];
    OnKeyConcat(ps[..at] + [EMPTY], ps[at..], k);
    OnKeyConcat(ps[..at], [EMPTY], k);
    OnKeyConcat(ps[..at], ps[at..], k);
    AllSilent([EMPTY], k);
  }

  lemma PlaceUnnoticed(mop: Option<MergeOperator>, ps: seq<Part>, at: nat, qs: seq<Part>, k: Key, r: SeqNo)
    requires Makes(ps, at, qs)
    ensures ReadAll(mop, qs, k, r) == ReadAll(mop, ps, k, r)
  {
    hide OnKey, ReadAll;
    PlaceOnKey(ps, at, qs, k);
    forall t: Tombstone ensures HasTomb(qs, t) <==> HasTomb(ps, t) {
      if x :| 0 <= x < |qs| && t in qs[x].tombs {
        assert x != at && t in ps[if x < at then x else x - 1].tombs;
      }
      if x :| 0 <= x < |ps| && t in ps[x].tombs {
        assert t in qs[if x < at then x else x + 1].tombs;
      }
    }
    SameOnKey(mop, qs, ps, k, r);
  }

  /** Empty layers make no difference to the layer order. */
  lemma PlaceKeepsOrder(ps: seq<Part>, last: SeqNo, at: nat, qs: seq<Part>)
    requires Makes(ps, at, qs)
    ensures InOrder(ps, last) <==> InOrder(qs, last)
  {
    hide OrderOn, Sorted, Makes;
    PlaceSorted(ps, at, qs);
    forall k: Key ensures OrderOn(ps, last, k) <==> OrderOn(qs, last, k) {
      if OrderOn(ps, last, k) {
        PlaceOrder(ps, last, at, qs, k);
      }
      if OrderOn(qs, last, k) {
        ClearOrder(ps, last, at, qs, k);
      }
    }
  }

  lemma PlaceSorted(ps: seq<Part>, at: nat, qs: seq<Part>)
    requires Makes(ps, at, qs)
    ensures AllSorted(ps) <==> AllSorted(qs)
  {
    hide Sorted, AllSorted;
    EmptySorted();
    assert ps == ps[..at] + ps[at..];
    SortedConcat(ps[..at], ps[at..]);
    SortedConcat(ps[..at] + [EMPTY], ps[at..]);
    SortedConcat(ps[..at], [EMPTY]);
  }

  lemma SortedConcat(a: seq<Part>, b: seq<Part>)
    ensures AllSorted(a + b) <==> AllSorted(a) && AllSorted(b)
  {
    hide Sorted;
    var ab := a + b;
    assert forall i | 0 <= i < |a| :: a[i] == ab[i];
    assert forall i | 0 <= i < |b| :: b[i] == ab[|a| + i];
  }

  lemma ClearOrder(ps: seq<Part>, last: SeqNo, at: nat, qs: seq<Part>, k: Key)
    requires Makes(ps, at, qs) && OrderOn(qs, last, k)
    ensures OrderOn(ps, last, k)
  {
    hide EntryAt, TombAt, NewerOn, Tidy;
    assert forall x | 0 <= x < |ps| :: ps[x] == qs[if x < at then x else x + 1];
    forall x, y | 0 <= x < y < |ps| ensures NewerOn(ps[x], ps[y], k) {
      assert NewerOn(qs[if x < at then x else x + 1], qs[if y < at then y else y + 1], k);
    }
  }

  lemma PlaceOrder(ps: seq<Part>, last: SeqNo, at: nat, qs: seq<Part>, k: Key)
    requires Makes(ps, at, qs) && OrderOn(ps, last, k)
    ensures OrderOn(qs, last, k)
  {
    hide EntryAt, TombAt, NewerOn, Tidy;
    EmptyAnywhere(last, k);
    forall x, y | 0 <= x < y < |qs| ensures NewerOn(qs[x], qs[y], k) {
      if x != at && y != at {
        assert NewerOn(ps[if x < at then x else x - 1], ps[if y < at then y else y - 1], k);
      }
    }
  }

  lemma EmptySorted()
    ensures AllSorted([EMPTY])
  {
  }

  lemma EmptyAnywhere(last: SeqNo, k: Key)
    ensures Tidy(EMPTY, last, k) && forall p: Part :: NewerOn(p, EMPTY, k) && NewerOn(EMPTY, p, k)
  {
  }

  /** SwitchMemTable: the memtable takes the free place of the one being flushed. */
  lemma SwitchMoves(ps: seq<Part>)
    requires |ps| >= 2 && ps[1] == EMPTY && Sorted(ps[0].entries)
    ensures Moves(ps, 0, 1, ps[0], EMPTY, [EMPTY, ps[0]] + ps[2..])
  {
    WholeMoves(ps, 0);
    assert ps[..0] == [];
  }

  /** CompactMemTable, into level 0: a place behind the memtables, and the one being flushed moves there. */
  lemma FlushMoves(ps: seq<Part>, qs: seq<Part>)
    requires |ps| >= 2 && Sorted(ps[1].entries) && Makes(ps, 2, qs)
    ensures Moves(qs, 1, 2, ps[1], EMPTY, [ps[0], EMPTY, ps[1]] + ps[2..])
  {
    WholeMoves(qs, 1);
    assert qs[..1] + [EMPTY, qs[1]] + qs[3..] == [ps[0], EMPTY, ps[1]] + ps[2..];
  }
}
