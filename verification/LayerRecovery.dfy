/**
 * The layers across a crash.  What the memtables held comes back from the logs, cut
 * anew into files and memtables; in front of the same tables they are layers in order
 * again, and every reader reads what it read before.
 */
module LayerRecoveries {
  import opened Core
  import opened Visibility
  import opened Layers
  import opened CompactionTheorems
  import opened LayerSteps
  import opened LayerMoves
  import opened LayerCompactions
  import opened LayerRuns
  import opened Lookup
  import L = SharedLogs
  import P = SharedLogProofs
  import R = LogRecoveries

  // ---- Records as entries and tombstones ----

  /** What the text of a record means. */
  datatype Meaning = AnEntry(key: Key, kind: Kind, value: Value) | ATombstone(begin: Key, end: Key)

  type Reading = string -> Meaning

  function EntryOf(what: Reading, i: L.Item): Option<Entry> {
    match what(i.op)
    case AnEntry(k, kind, v) => Some(Entry(k, i.sn, kind, v))
    case ATombstone(_, _) => None
  }

  function TombOf(what: Reading, i: L.Item): Option<Tombstone> {
    match what(i.op)
    case AnEntry(_, _, _) => None
    case ATombstone(b, e) => Some(Tombstone(b, e, i.sn, 0))
  }

  ghost predicate IsEntry(what: Reading, items: seq<L.Item>, e: Entry) {
    exists i :: 0 <= i < |items| && EntryOf(what, items[i]) == Some(e)
  }

  ghost predicate IsTomb(what: Reading, items: seq<L.Item>, t: Tombstone) {
    exists i :: 0 <= i < |items| && TombOf(what, items[i]) == Some(t)
  }

  /** The memtable, or the table written from it, that holds these records. */
  ghost predicate Holds(what: Reading, p: Part, items: seq<L.Item>) {
    && Sorted(p.entries)
    && (forall e: Entry :: e in p.entries <==> IsEntry(what, items, e))
    && (forall t: Tombstone | t.begin < t.end :: t in p.tombs <==> IsTomb(what, items, t))
  }

  /** Memtables and files, newest first, that together hold these records, cut anywhere. */
  ghost predicate Cut(what: Reading, ps: seq<Part>, items: seq<L.Item>) {
    if ps == [] then items == []
    else exists n :: 0 <= n <= |items| && Holds(what, ps[0], items[n..]) && Cut(what, ps[1..], items[..n])
  }

  lemma MembersConcat(what: Reading, a: seq<L.Item>, b: seq<L.Item>)
    ensures forall e: Entry :: IsEntry(what, a + b, e) <==> IsEntry(what, a, e) || IsEntry(what, b, e)
    ensures forall t: Tombstone :: IsTomb(what, a + b, t) <==> IsTomb(what, a, t) || IsTomb(what, b, t)
  {
    var ab := a + b;
    assert forall i | 0 <= i < |a| :: a[i] == ab[i];
    assert forall i | 0 <= i < |b| :: b[i] == ab[|a| + i];
  }

  /** Together the layers hold exactly the records. */
  lemma {:induction false} CutMembers(what: Reading, ps: seq<Part>, items: seq<L.Item>)
    requires Cut(what, ps, items)
    ensures forall e: Entry :: e in AllEntries(ps) <==> IsEntry(what, items, e)
    ensures forall t: Tombstone | t.begin < t.end :: HasTomb(ps, t) <==> IsTomb(what, items, t)
  {
    if ps == [] {
      NoTomb();
    } else {
      hide Holds;
      var n :| 0 <= n <= |items| && Holds(what, ps[0], items[n..]) && Cut(what, ps[1..], items[..n]);
      CutMembers(what, ps[1..], items[..n]);
      HeadMembers(what, ps, items, n);
    }
  }

  lemma HeadMembers(what: Reading, ps: seq<Part>, items: seq<L.Item>, n: nat)
    requires ps != [] && n <= |items| && Holds(what, ps[0], items[n..])
    requires forall e: Entry :: e in AllEntries(ps[1..]) <==> IsEntry(what, items[..n], e)
    requires forall t: Tombstone | t.begin < t.end :: HasTomb(ps[1..], t) <==> IsTomb(what, items[..n], t)
    ensures forall e: Entry :: e in AllEntries(ps) <==> IsEntry(what, items, e)
    ensures forall t: Tombstone | t.begin < t.end :: HasTomb(ps, t) <==> IsTomb(what, items, t)
  {
    hide IsEntry, IsTomb, HasTomb, Sorted;
    MembersConcat(what, items[..n], items[n..]);
    assert items == items[..n] + items[n..];
    assert ps == [ps[0]] + ps[1..];
    forall t: Tombstone ensures HasTomb(ps, t) <==> t in ps[0].tombs || HasTomb(ps[1..], t) {
      HasTombConcat([ps[0]], ps[1..], t);
      HasTombOne(ps[0], t);
    }
  }

  lemma HasTombOne(p: Part, t: Tombstone)
    ensures HasTomb([p], t) <==> t in p.tombs
  {
    assert [p][0] == p;
  }

  lemma NoTomb()
    ensures forall t: Tombstone :: !HasTomb([], t)
  {
  }

  // ---- In order ----

  /** Records numbered from lo to hi, increasing. */
  ghost predicate Numbered(items: seq<L.Item>, lo: SeqNo, hi: SeqNo) {
    P.Increasing(items) && forall i | 0 <= i < |items| :: lo <= items[i].sn <= hi
  }

  /** What one layer says of a key, its records say. */
  lemma HoldsSays(what: Reading, p: Part, items: seq<L.Item>, lo: SeqNo, hi: SeqNo, k: Key)
    requires Holds(what, p, items) && Numbered(items, lo, hi)
    ensures forall s: SeqNo | EntryAt(p, k, s) || TombAt(p, k, s) :: lo <= s <= hi
    ensures forall s: SeqNo | EntryAt(p, k, s) :: !TombAt(p, k, s)
  {
    forall s: SeqNo | EntryAt(p, k, s) ensures lo <= s <= hi && !TombAt(p, k, s) {
      var e :| e in p.entries && e.key == k && e.sn == s;
      var i :| 0 <= i < |items| && EntryOf(what, items[i]) == Some(e);
      forall t | t in p.tombs && t.begin < t.end ensures t.sn != s {
        var j :| 0 <= j < |items| && TombOf(what, items[j]) == Some(t);
        assert i != j;
      }
    }
    forall s: SeqNo | TombAt(p, k, s) ensures lo <= s <= hi {
      var t :| t in p.tombs && t.Covers(k) && t.sn == s;
      var j :| 0 <= j < |items| && TombOf(what, items[j]) == Some(t);
    }
  }

  /** Newer layers in front of older ones. */
  lemma JoinOrder(a: seq<Part>, b: seq<Part>, last: SeqNo, k: Key)
    requires OrderOn(a, last, k) && OrderOn(b, last, k)
    requires forall s: SeqNo, s': SeqNo | EntryIn(a, k, s) && EntryIn(b, k, s') :: s > s'
    requires forall s: SeqNo, s': SeqNo | TombIn(a, k, s) && EntryIn(b, k, s') :: s > s'
    requires forall s: SeqNo, s': SeqNo | EntryIn(a, k, s) && TombIn(b, k, s') :: s > s'
    ensures OrderOn(a + b, last, k)
  {
    hide EntryAt, TombAt, Tidy;
    var ab := a + b;
    forall i, j | 0 <= i < j < |ab| ensures NewerOn(ab[i], ab[j], k) {
      if j < |a| {
        assert NewerOn(a[i], a[j], k);
      } else if i >= |a| {
        assert NewerOn(b[i - |a|], b[j - |a|], k);
      } else {
        Somewhere(a, i, k);
        Somewhere(b, j - |a|, k);
      }
    }
  }

  lemma Somewhere(ps: seq<Part>, i: nat, k: Key)
    requires i < |ps|
    ensures forall s: SeqNo :: EntryAt(ps[i], k, s) ==> EntryIn(ps, k, s)
    ensures forall s: SeqNo :: TombAt(ps[i], k, s) ==> TombIn(ps, k, s)
  {
    hide EntryAt, TombAt;
  }

  /** Where records are cut, their numbers are. */
  lemma CutNumbers(items: seq<L.Item>, n: nat, lo: SeqNo, hi: SeqNo) returns (mid: SeqNo)
    requires Numbered(items, lo, hi) && n <= |items| && 1 <= lo <= hi + 1
    ensures lo <= mid <= hi + 1 && Numbered(items[n..], mid, hi) && Numbered(items[..n], lo, mid - 1)
  {
    mid := if n < |items| then items[n].sn else hi + 1;
    var newer, older := items[n..], items[..n];
    assert forall i | 0 <= i < |newer| :: newer[i] == items[n + i];
    assert forall i | 0 <= i < |older| :: older[i] == items[i];
  }

  lemma LaterOrder(ps: seq<Part>, last: SeqNo, last': SeqNo, k: Key)
    requires OrderOn(ps, last, k) && last <= last'
    ensures OrderOn(ps, last', k)
  {
    hide EntryAt, TombAt;
    assert forall i | 0 <= i < |ps| :: Tidy(ps[i], last, k) ==> Tidy(ps[i], last', k);
  }

  /** All that the layers say of a key is numbered from lo to hi. */
  ghost predicate SaysWithin(ps: seq<Part>, k: Key, lo: SeqNo, hi: SeqNo) {
    forall s: SeqNo | EntryIn(ps, k, s) || TombIn(ps, k, s) :: lo <= s <= hi
  }

  lemma OneLayer(what: Reading, p: Part, items: seq<L.Item>, lo: SeqNo, hi: SeqNo, k: Key)
    requires Holds(what, p, items) && Numbered(items, lo, hi) && 1 <= lo
    ensures OrderOn([p], hi, k) && SaysWithin([p], k, lo, hi)
  {
    hide EntryAt, TombAt, Holds;
    HoldsSays(what, p, items, lo, hi, k);
    assert [p][0] == p;
  }

  /** However the records are cut, the layers are in order. */
  lemma {:induction false} CutOrder(what: Reading, ps: seq<Part>, items: seq<L.Item>, lo: SeqNo, hi: SeqNo, k: Key)
    requires Cut(what, ps, items) && Numbered(items, lo, hi) && 1 <= lo <= hi + 1
    ensures OrderOn(ps, hi, k) && SaysWithin(ps, k, lo, hi)
  {
    hide EntryAt, TombAt, Sorted, Holds, Numbered, EntryIn, TombIn, OrderOn;
    if ps == [] {
      NoLayers(hi, k, lo);
    } else {
      var n :| 0 <= n <= |items| && Holds(what, ps[0], items[n..]) && Cut(what, ps[1..], items[..n]);
      var mid := CutNumbers(items, n, lo, hi);
      var head, rest := [ps[0]], ps[1..];
      OneLayer(what, ps[0], items[n..], mid, hi, k);
      CutOrder(what, rest, items[..n], lo, mid - 1, k);
      assert ps == head + rest;
      Front(head, rest, k, lo, mid, hi);
    }
  }

  /** Newer numbers in front of older ones. */
  lemma Front(a: seq<Part>, b: seq<Part>, k: Key, lo: SeqNo, mid: SeqNo, hi: SeqNo)
    requires 1 <= lo <= mid <= hi + 1 && OrderOn(a, hi, k) && OrderOn(b, mid - 1, k)
    requires SaysWithin(a, k, mid, hi) && SaysWithin(b, k, lo, mid - 1)
    ensures OrderOn(a + b, hi, k) && SaysWithin(a + b, k, lo, hi)
  {
    hide EntryAt, TombAt, OrderOn, EntryIn, TombIn;
    LaterOrder(b, mid - 1, hi, k);
    JoinOrder(a, b, hi, k);
    forall s: SeqNo ensures EntryIn(a + b, k, s) ==> EntryIn(a, k, s) || EntryIn(b, k, s)
                    ensures TombIn(a + b, k, s) ==> TombIn(a, k, s) || TombIn(b, k, s)
    {
      InConcat(a, b, k, s);
    }
  }

  lemma InConcat(a: seq<Part>, b: seq<Part>, k: Key, s: SeqNo)
    ensures EntryIn(a + b, k, s) <==> EntryIn(a, k, s) || EntryIn(b, k, s)
    ensures TombIn(a + b, k, s) <==> TombIn(a, k, s) || TombIn(b, k, s)
  {
    hide EntryAt, TombAt;
    var ab := a + b;
    assert forall i | 0 <= i < |a| :: a[i] == ab[i];
    assert forall i | 0 <= i < |b| :: b[i] == ab[|a| + i];
  }

  lemma NoLayers(last: SeqNo, k: Key, lo: SeqNo)
    ensures OrderOn([], last, k) && SaysWithin([], k, lo, last)
  {
  }

  lemma {:induction false} CutSorted(what: Reading, ps: seq<Part>, items: seq<L.Item>)
    requires Cut(what, ps, items)
    ensures AllSorted(ps)
  {
    if ps != [] {
      hide Sorted;
      var n :| 0 <= n <= |items| && Holds(what, ps[0], items[n..]) && Cut(what, ps[1..], items[..n]);
      CutSorted(what, ps[1..], items[..n]);
      assert forall i | 0 < i < |ps| :: ps[i] == ps[1..][i - 1];
    }
  }

  // ---- Cut anew ----

  /** Two ways of cutting the same records say the same of every key. */
  lemma CutAlike(what: Reading, ps: seq<Part>, qs: seq<Part>, items: seq<L.Item>, lo: SeqNo, hi: SeqNo, k: Key)
    requires Cut(what, ps, items) && Cut(what, qs, items) && Numbered(items, lo, hi) && 1 <= lo <= hi + 1
    ensures OnKey(ps, k) == OnKey(qs, k)
    ensures forall t: Tombstone | t.Covers(k) :: HasTomb(ps, t) <==> HasTomb(qs, t)
    ensures forall s: SeqNo :: (EntryIn(ps, k, s) <==> EntryIn(qs, k, s)) && (TombIn(ps, k, s) <==> TombIn(qs, k, s))
  {
    hide Cut, AllEntries, OfKey, HasTomb, OrderOn, EntryIn, TombIn, Numbered, IsEntry, IsTomb;
    CutMembers(what, ps, items);
    CutMembers(what, qs, items);
    CutOrder(what, ps, items, lo, hi, k);
    CutOrder(what, qs, items, lo, hi, k);
    CutSorted(what, ps, items);
    CutSorted(what, qs, items);
    LayersDescend(ps, hi, k);
    LayersDescend(qs, hi, k);
    OfKeyMembers(AllEntries(ps), k);
    OfKeyMembers(AllEntries(qs), k);
    OneWay(OnKey(ps, k), OnKey(qs, k));
    forall s: SeqNo ensures (EntryIn(ps, k, s) <==> EntryIn(qs, k, s)) && (TombIn(ps, k, s) <==> TombIn(qs, k, s)) {
      InMeans(ps, k, s);
      InMeans(qs, k, s);
    }
  }

  /** What layers say, in terms of all their entries and tombstones. */
  lemma InMeans(ps: seq<Part>, k: Key, s: SeqNo)
    ensures EntryIn(ps, k, s) <==> exists e :: e in AllEntries(ps) && e.key == k && e.sn == s
    ensures TombIn(ps, k, s) <==> exists t :: HasTomb(ps, t) && t.Covers(k) && t.sn == s
  {
    if EntryIn(ps, k, s) {
      var i :| 0 <= i < |ps| && EntryAt(ps[i], k, s);
      var e :| e in ps[i].entries && e.key == k && e.sn == s;
      AllEntriesMembers(ps, e);
    }
    if e :| e in AllEntries(ps) && e.key == k && e.sn == s {
      EntryAmong(ps, e);
    }
    if TombIn(ps, k, s) {
      var i :| 0 <= i < |ps| && TombAt(ps[i], k, s);
      var t :| t in ps[i].tombs && t.Covers(k) && t.sn == s;
      assert HasTomb(ps, t);
    }
    if t :| HasTomb(ps, t) && t.Covers(k) && t.sn == s {
      var i :| 0 <= i < |ps| && t in ps[i].tombs;
      TombSays(ps[i], t, k);
    }
  }

  /** In front of the same tables they are in order alike. */
  lemma CutKeepsOrder(what: Reading, ps: seq<Part>, qs: seq<Part>, items: seq<L.Item>, lo: SeqNo, last: SeqNo,
                      tables: seq<Part>)
    requires Cut(what, ps, items) && Cut(what, qs, items) && Numbered(items, lo, last) && 1 <= lo <= last + 1
    requires InOrder(ps + tables, last)
    ensures InOrder(qs + tables, last)
  {
    hide Cut, OrderOn, EntryIn, TombIn, AllSorted, Numbered;
    CutSorted(what, qs, items);
    SortedConcat(ps, tables);
    SortedConcat(qs, tables);
    forall k: Key ensures OrderOn(qs + tables, last, k) {
      CutAlike(what, ps, qs, items, lo, last, k);
      CutOrder(what, qs, items, lo, last, k);
      InFront(ps, tables, last, k);
      JoinOrder(qs, tables, last, k);
    }
  }

  /** And read alike. */
  lemma CutReadsSame(mop: Option<MergeOperator>, what: Reading, ps: seq<Part>, qs: seq<Part>, items: seq<L.Item>,
                     lo: SeqNo, last: SeqNo, tables: seq<Part>, k: Key, r: SeqNo)
    requires Cut(what, ps, items) && Cut(what, qs, items) && Numbered(items, lo, last) && 1 <= lo <= last + 1
    ensures ReadAll(mop, qs + tables, k, r) == ReadAll(mop, ps + tables, k, r)
  {
    hide Cut, OnKey, ReadAll, HasTomb, Numbered;
    CutAlike(what, ps, qs, items, lo, last, k);
    OnKeyConcat(ps, tables, k);
    OnKeyConcat(qs, tables, k);
    forall t: Tombstone | t.Covers(k) ensures HasTomb(qs + tables, t) <==> HasTomb(ps + tables, t) {
      HasTombConcat(ps, tables, t);
      HasTombConcat(qs, tables, t);
    }
    SameOnKey(mop, qs + tables, ps + tables, k, r);
  }

  // ---- Pieces ----

  lemma CutCons(what: Reading, p: Part, newer: seq<L.Item>, rest: seq<Part>, older: seq<L.Item>)
    requires Holds(what, p, newer) && Cut(what, rest, older)
    ensures Cut(what, [p] + rest, older + newer)
  {
    hide Holds;
    var ps, items, n := [p] + rest, older + newer, |older|;
    assert ps[1..] == rest && items[n..] == newer && items[..n] == older;
    assert Holds(what, ps[0], items[n..]) && Cut(what, ps[1..], items[..n]);
  }

  lemma CutHead(what: Reading, ps: seq<Part>, items: seq<L.Item>) returns (n: nat)
    requires Cut(what, ps, items) && ps != []
    ensures n <= |items| && Holds(what, ps[0], items[n..]) && Cut(what, ps[1..], items[..n])
  {
    hide Holds;
    n :| 0 <= n <= |items| && Holds(what, ps[0], items[n..]) && Cut(what, ps[1..], items[..n]);
  }

  lemma CutNothing(what: Reading, items: seq<L.Item>)
    ensures Cut(what, [], items) <==> items == []
  {
  }

  lemma CutOne(what: Reading, p: Part, items: seq<L.Item>)
    requires Holds(what, p, items)
    ensures Cut(what, [p], items)
  {
    hide Holds, Cut;
    CutNothing(what, []);
    CutCons(what, p, items, [], []);
    assert [p] + [] == [p] && [] + items == items;
  }

  /** Newer layers in front of older ones hold the older records and then the newer ones. */
  lemma {:induction false} CutConcat(what: Reading, a: seq<Part>, x: seq<L.Item>, b: seq<Part>, y: seq<L.Item>)
    requires Cut(what, a, x) && Cut(what, b, y)
    ensures Cut(what, a + b, y + x)
  {
    hide Holds, Cut;
    if a == [] {
      CutNothing(what, x);
      assert a + b == b && y + x == y;
    } else {
      var n := CutHead(what, a, x);
      CutConcat(what, a[1..], x[..n], b, y);
      CutCons(what, a[0], x[n..], a[1..] + b, y + x[..n]);
      assert [a[0]] + (a[1..] + b) == a + b;
      Associate(y, x[..n], x[n..]);
      assert x[..n] + x[n..] == x;
    }
  }

  /** A memtable that holds the records. */
  lemma {:induction false} MemtableOf(what: Reading, items: seq<L.Item>) returns (p: Part)
    requires P.Increasing(items)
    ensures Holds(what, p, items)
  {
    if items == [] {
      p := EMPTY;
    } else {
      var init, i := items[..|items| - 1], items[|items| - 1];
      var older := MemtableOf(what, init);
      assert items == init + [i];
      MembersConcat(what, init, [i]);
      OnlyItem(what, i);
      match what(i.op)
      case AnEntry(k, kind, v) =>
        var e := Entry(k, i.sn, kind, v);
        forall y | y in older.entries ensures e.sn > y.sn {
          assert IsEntry(what, init, y);
        }
        MergedSorted([e], older.entries);
        p := Part(Merged([e], older.entries), older.tombs);
      case ATombstone(b, end) =>
        p := Part(older.entries, older.tombs + [Tombstone(b, end, i.sn, 0)]);
    }
  }

  lemma OnlyItem(what: Reading, i: L.Item)
    ensures forall e: Entry :: IsEntry(what, [i], e) <==> EntryOf(what, i) == Some(e)
    ensures forall t: Tombstone :: IsTomb(what, [i], t) <==> TombOf(what, i) == Some(t)
  {
    assert [i][0] == i;
  }

  // ---- A batch that only the log has ----

  /** Newer records in front of everything are not noticed at an earlier snapshot. */
  lemma NewerUnseen(mop: Option<MergeOperator>, w: Part, ps: seq<Part>, k: Key, r: SeqNo)
    requires forall s: SeqNo | EntryAt(w, k, s) || TombAt(w, k, s) :: s > r
    ensures ReadAll(mop, [w] + ps, k, r) == ReadAll(mop, ps, k, r)
  {
    hide EntryAt, TombAt, Fold, OfKey, Hidden, HiddenIn, AllTombs, AllEntries, HasTomb;
    var older := AllEntries(ps);
    OnKeyConcat([w], ps, k);
    OnKeyOne(w, k);
    OfKeyConcat(w.entries, older, k);
    forall t | t in w.tombs && t.Covers(k) ensures t.sn > r {
      TombSays(w, t, k);
    }
    forall s: SeqNo ensures HiddenIn([w] + ps, k, s, r) == Hidden(AllTombs(ps), k, s, r) {
      AllTombsHide(ps, k, s, r);
      HiddenInConcat([w], ps, k, s, r);
      NotHidden(w, k, s, r);
    }
    ReadLike(mop, [w] + ps, w.entries + older, AllTombs(ps), k, r);
    FoldConcat(w.entries, older, AllTombs(ps), k, r, ABSENT);
    forall i | 0 <= i < |w.entries| ensures w.entries[i].key != k || w.entries[i].sn > r {
      EntrySays(w, w.entries[i]);
    }
    FoldNothing(w.entries, AllTombs(ps), k, r, Resolve(older, AllTombs(ps), k, r));
  }

  lemma NotHidden(w: Part, k: Key, s: SeqNo, r: SeqNo)
    requires forall t | t in w.tombs && t.Covers(k) :: t.sn > r
    ensures !HiddenIn([w], k, s, r)
  {
    forall t: Tombstone ensures HasTomb([w], t) <==> t in w.tombs {
      HasTombOne(w, t);
    }
  }

  lemma MoreSays(what: Reading, w: Part, more: seq<L.Item>, last: SeqNo, last': SeqNo, r: SeqNo, k: Key)
    requires Holds(what, w, more) && Numbered(more, 1, last')
    requires forall i | 0 <= i < |more| :: more[i].sn > last && more[i].sn > r
    ensures Tidy(w, last', k) && Fresh(w, last, k)
    ensures forall s: SeqNo | EntryAt(w, k, s) || TombAt(w, k, s) :: s > r
  {
    hide EntryAt, TombAt, Holds;
    HoldsSays(what, w, more, 1, last', k);
    HoldsSays(what, w, more, Max(last, r) + 1, last', k);
  }

  lemma HoldsSorted(what: Reading, w: Part, items: seq<L.Item>)
    requires Holds(what, w, items)
    ensures Sorted(w.entries)
  {
  }

  lemma MoreInFront(w: Part, ps: seq<Part>, last: SeqNo, last': SeqNo)
    requires InOrder(ps, last) && Sorted(w.entries) && last <= last'
    requires forall k: Key :: Tidy(w, last', k) && Fresh(w, last, k)
    ensures InOrder([w] + ps, last')
  {
    hide Sorted, OrderOn, Tidy, Fresh;
    forall k: Key ensures OrderOn([w] + ps, last', k) {
      WriteInFront(ps, last, w, last', k);
    }
    assert AllSorted([w]) by {
      assert [w][0] == w;
    }
    SortedConcat([w], ps);
  }

  /** Layers before and after: the same records, then more, all newer than the snapshot. */
  lemma MoreRecords(mop: Option<MergeOperator>, what: Reading, ps: seq<Part>, items: seq<L.Item>,
                    qs: seq<Part>, more: seq<L.Item>, last: SeqNo, last': SeqNo, tables: seq<Part>, k: Key, r: SeqNo)
    requires Cut(what, ps, items) && Cut(what, qs, items + more) && InOrder(ps + tables, last)
    requires Numbered(items, 1, last) && Numbered(items + more, 1, last') && last <= last'
    requires forall i | 0 <= i < |more| :: more[i].sn > last && more[i].sn > r
    ensures InOrder(qs + tables, last')
    ensures ReadAll(mop, qs + tables, k, r) == ReadAll(mop, ps + tables, k, r)
  {
    hide Cut, ReadAll, Holds, InOrder, EntryAt, TombAt, Fresh, Tidy;
    var ab := items + more;
    assert forall i | 0 <= i < |more| :: more[i] == ab[|items| + i];
    var w := MemtableOf(what, more);
    CutOne(what, w, more);
    CutConcat(what, [w], more, ps, items);
    forall k': Key ensures Tidy(w, last', k') && Fresh(w, last, k')
                   ensures forall s: SeqNo | EntryAt(w, k', s) || TombAt(w, k', s) :: s > r
    {
      MoreSays(what, w, more, last, last', r, k');
    }
    HoldsSorted(what, w, more);
    MoreInFront(w, ps + tables, last, last');
    assert [w] + ps + tables == [w] + (ps + tables);
    CutKeepsOrder(what, [w] + ps, qs, ab, 1, last', tables);
    CutReadsSame(mop, what, [w] + ps, qs, ab, 1, last', tables, k, r);
    MoreSays(what, w, more, last, last', r, k);
    NewerUnseen(mop, w, ps + tables, k, r);
  }

  // ---- Through a crash ----

  /** Recovery only adds to a family's tables. */
  lemma RecoveryAdds(s: L.State, e: L.Event, id: L.FamilyId)
    requires P.Ok(s) && id in s.disk.families && (s.Up? ==> s.todo != {} || s.run.pending == None)
    requires P.Recovery(e) && L.Step(s, e).Some? && id in s.disk.manifests
    ensures var t := L.Step(s, e).value;
            id in t.disk.families && id in t.disk.manifests
              && s.disk.manifests[id].tables <= t.disk.manifests[id].tables
  {
    hide P.CfOk, P.Unborn, P.LogsSorted, P.StoredOk, L.Parts, L.Items, L.Part, L.AppendTo, L.FreshMemories, L.MinLog,
      L.MaxLogSeq, L.MarkUsed;
  }

  lemma {:induction false} RecoveryRunAdds(s: L.State, es: seq<L.Event>, id: L.FamilyId)
    requires P.Ok(s) && id in s.disk.families && id in s.disk.manifests
    requires s.Up? ==> s.todo != {} || s.run.pending == None
    requires (forall e <- es :: P.Recovery(e)) && L.Run(s, es).Some?
    ensures var t := L.Run(s, es).value;
            id in t.disk.families && id in t.disk.manifests
              && s.disk.manifests[id].tables <= t.disk.manifests[id].tables
  {
    hide P.Ok, L.Step, P.Recovery;
    if es != [] {
      var init, e := es[..|es| - 1], es[|es| - 1];
      assert (forall x <- init :: x in es) && e in es;
      RecoveryRunAdds(s, init, id);
      P.RunKeeps(s, init);
      P.RecoveryRun(s, init);
      RecoveryAdds(L.Run(s, init).value, e, id);
    }
  }

  /** Numbers start at 1. */
  ghost predicate Counted(s: L.State) {
    && (forall b <- s.history :: b.first >= 1)
    && (s.Up? && s.run.pending.Some? ==> s.run.pending.value.first >= 1)
  }

  lemma CountedStep(s: L.State, e: L.Event)
    requires Counted(s) && L.Step(s, e).Some?
    ensures Counted(L.Step(s, e).value)
  {
    hide L.Items, L.MinLog, L.MaxLogSeq, L.MarkUsed, L.FreshMemories, L.OldestLiveLog, L.Part;
  }

  lemma {:induction false} CountedRun(s: L.State, es: seq<L.Event>)
    requires Counted(s) && L.Run(s, es).Some?
    ensures Counted(L.Run(s, es).value)
  {
    hide Counted, L.Step;
    if es != [] {
      CountedRun(s, es[..|es| - 1]);
      CountedStep(L.Run(s, es[..|es| - 1]).value, es[|es| - 1]);
    }
  }

  lemma {:induction false} PartCounted(id: L.FamilyId, b: L.Batch, n: nat)
    requires n <= |b.records|
    ensures forall i <- L.PartUpTo(id, b, n) :: i.sn >= b.first
  {
    if n > 0 {
      PartCounted(id, b, n - 1);
    }
  }

  lemma {:induction false} PartsCounted(id: L.FamilyId, bs: seq<L.Batch>)
    requires forall b <- bs :: b.first >= 1
    ensures forall i <- L.Parts(id, bs) :: i.sn >= 1
  {
    if bs != [] {
      PartsCounted(id, bs[..|bs| - 1]);
      PartCounted(id, bs[|bs| - 1], |bs[|bs| - 1].records|);
    }
  }

  function Newest(items: seq<L.Item>): SeqNo {
    if items == [] then 0 else items[|items| - 1].sn
  }

  /** The family's memtable, and the one being flushed. */
  ghost predicate Memtables(what: Reading, s: L.State, id: L.FamilyId, ms: seq<Part>) {
    && s.Up? && id in s.run.cfs && id in s.disk.manifests && |ms| == 2
    && Holds(what, ms[0], s.run.cfs[id].mem) && Holds(what, ms[1], s.run.cfs[id].Unsaved())
  }

  /** What recovery has added to the family's tables. */
  function Added(s: L.State, t: L.State, id: L.FamilyId): seq<L.Item>
    requires id in s.disk.manifests && id in t.disk.manifests
  {
    var had, has := s.disk.manifests[id].tables, t.disk.manifests[id].tables;
    if |had| <= |has| then has[|had|..] else []
  }

  lemma MemtablesCut(what: Reading, s: L.State, id: L.FamilyId, ms: seq<Part>)
    requires Memtables(what, s, id, ms)
    ensures Cut(what, ms, s.run.cfs[id].Unsaved() + s.run.cfs[id].mem)
  {
    CutOne(what, ms[0], s.run.cfs[id].mem);
    CutOne(what, ms[1], s.run.cfs[id].Unsaved());
    CutConcat(what, [ms[0]], s.run.cfs[id].mem, [ms[1]], s.run.cfs[id].Unsaved());
    assert ms == [ms[0]] + [ms[1]];
  }

  /** A family's contents are numbered, from 1 up to the last number. */
  lemma ContentsNumbered(s: L.State, id: L.FamilyId)
    requires P.Ok(s) && Counted(s) && s.Up? && id in s.disk.families
    ensures id in s.disk.manifests && id in s.run.cfs
    ensures Numbered(P.Contents(s.disk, s.run, id), 1, s.run.lastSeq)
    ensures forall i <- L.PendingPart(id, s.run.pending) :: i.sn > s.run.lastSeq
  {
    hide L.Parts, L.Items, L.Part, P.Unborn, P.LogsSorted;
    P.HistoryInMemory(s, id);
    PartsCounted(id, s.history);
    assert P.CfOk(id, s.disk.manifests[id], s.run.cfs[id], s.disk.logs, L.Parts(id, s.history),
                  L.PendingPart(id, s.run.pending), s.run);
    assert P.CountersOk(s.disk, s.run);
    if s.run.pending.Some? {
      var b := s.run.pending.value;
      PartIsUpTo(id, b);
      PartCounted(id, b, |b.records|);
    }
  }

  lemma PartIsUpTo(id: L.FamilyId, b: L.Batch)
    ensures L.Part(id, b) == L.PartUpTo(id, b, |b.records|)
  {
  }

  /** The end of numbered records is numbered, up to the newest of all. */
  lemma EndNumbered(a: seq<L.Item>, b: seq<L.Item>, last: SeqNo)
    requires Numbered(a + b, 1, last)
    ensures Numbered(b, 1, Newest(a + b)) && Newest(a + b) <= last && Numbered(b, 1, last)
  {
    var ab := a + b;
    assert forall i | 0 <= i < |b| :: b[i] == ab[|a| + i];
  }

  lemma NewestFirst(a: seq<L.Item>, b: seq<L.Item>, last: SeqNo)
    requires Numbered(a + b, 1, last)
    ensures Newest(a) <= last
  {
    assert a != [] ==> (a + b)[|a| - 1] == a[|a| - 1];
  }

  /** What crash and recovery leave of a family: its records in full, and the one batch that only the log had. */
  lemma AfterCrash(s: L.State, before: seq<L.Event>, es: seq<L.Event>, t: L.State, id: L.FamilyId)
    requires P.Reachable(s, before) && s.Up? && id in s.disk.families
    requires (forall e <- es :: P.Recovery(e)) && L.Run(L.Step(s, L.Crash).value, es) == Some(t) && t.Up?
    ensures id in s.disk.manifests && id in s.run.cfs && id in t.disk.manifests && id in t.run.cfs
    ensures var items, more := s.run.cfs[id].Unsaved() + s.run.cfs[id].mem, L.PendingPart(id, s.run.pending);
            var last := Newest(P.Contents(s.disk, s.run, id));
            && Added(s, t, id) + (t.run.cfs[id].Unsaved() + t.run.cfs[id].mem) == items + more
            && Numbered(items, 1, last) && Numbered(items + more, 1, t.run.lastSeq) && last <= t.run.lastSeq
            && forall i | 0 <= i < |more| :: more[i].sn > last && more[i].sn > s.run.lastSeq
  {
    hide P.Ok, L.Step, L.Part, L.PendingPart, Numbered, Counted, P.Recovery, Newest;
    var d := P.CrashState(s);
    P.ReachableOk(s, before);
    StartCounted();
    CountedRun(L.Down(L.NEW_DISK, []), before);
    CountedStep(s, L.Crash);
    CountedRun(d, es);
    P.StepKeeps(s, L.Crash);
    P.RunKeeps(d, es);
    P.RecoveryRestores(s, before, es, t, id);
    RecoveryRunAdds(d, es, id);
    ContentsNumbered(s, id);
    ContentsNumbered(t, id);
    var had, items, more := s.disk.manifests[id].tables, s.run.cfs[id].Unsaved() + s.run.cfs[id].mem,
      L.PendingPart(id, s.run.pending);
    var added, rest := Added(s, t, id), t.run.cfs[id].Unsaved() + t.run.cfs[id].mem;
    assert P.Contents(s.disk, s.run, id) == had + items;
    assert t.disk.manifests[id].tables == had + added;
    assert P.Contents(t.disk, t.run, id) == had + (added + rest);
    assert had + items + more == had + (items + more);
    R.Cancel(had, added + rest, items + more);
    EndNumbered(had, items, s.run.lastSeq);
    EndNumbered(had, items + more, t.run.lastSeq);
    NewestFirst(had + items, more, t.run.lastSeq);
    forall i | 0 <= i < |more| ensures more[i].sn > s.run.lastSeq {
      assert more[i] in more;
    }
  }

  lemma StartCounted()
    ensures Counted(L.Down(L.NEW_DISK, []))
  {
  }

  /**
   * A crash goes unnoticed.  Whatever files and memtables recovery, itself crashed as
   * often as may be, cuts the records into: in front of the tables there were, they
   * are layers in order, and every reader up to the last number reads what it read.
   */
  lemma CrashUnnoticed(mop: Option<MergeOperator>, what: Reading,
                       s: L.State, before: seq<L.Event>, es: seq<L.Event>, t: L.State, id: L.FamilyId,
                       ms: seq<Part>, ms': seq<Part>, files: seq<Part>, tables: seq<Part>, k: Key, r: SeqNo)
    requires P.Reachable(s, before) && s.Up? && id in s.disk.families
    requires (forall e <- es :: P.Recovery(e)) && L.Run(L.Step(s, L.Crash).value, es) == Some(t) && t.Up?
    requires Memtables(what, s, id, ms) && InOrder(ms + tables, Newest(P.Contents(s.disk, s.run, id)))
    requires Memtables(what, t, id, ms') && Cut(what, files, Added(s, t, id)) && r <= s.run.lastSeq
    ensures InOrder(ms' + files + tables, t.run.lastSeq)
    ensures ReadAll(mop, ms' + files + tables, k, r) == ReadAll(mop, ms + tables, k, r)
  {
    hide P.Reachable, P.Recovery, L.Step, L.Run, Memtables, Cut, Numbered, Newest, InOrder, ReadAll, Added,
      L.PendingPart;
    AfterCrash(s, before, es, t, id);
    MemtablesCut(what, s, id, ms);
    MemtablesCut(what, t, id, ms');
    CutConcat(what, ms', t.run.cfs[id].Unsaved() + t.run.cfs[id].mem, files, Added(s, t, id));
    MoreRecords(mop, what, ms, s.run.cfs[id].Unsaved() + s.run.cfs[id].mem, ms' + files,
                L.PendingPart(id, s.run.pending),
                Newest(P.Contents(s.disk, s.run, id)), t.run.lastSeq, tables, k, r);
  }

  /** Point reads before a crash and after the recovery from it agree. */
  method GetThroughCrash(early: Reader, late: Reader, ghost what: Reading,
                         ghost s: L.State, ghost before: seq<L.Event>, ghost es: seq<L.Event>, ghost t: L.State,
                         ghost id: L.FamilyId, ghost ms: seq<Part>, ghost ms': seq<Part>, ghost files: seq<Part>,
                         ghost tables: seq<Part>, k: Key, r: SeqNo)
    returns (first: Outcome, second: Outcome)
    requires early.mop == late.mop && P.Reachable(s, before) && s.Up? && id in s.disk.families
    requires (forall e <- es :: P.Recovery(e)) && L.Run(L.Step(s, L.Crash).value, es) == Some(t) && t.Up?
    requires Memtables(what, s, id, ms) && InOrder(ms + tables, Newest(P.Contents(s.disk, s.run, id)))
    requires Memtables(what, t, id, ms') && Cut(what, files, Added(s, t, id)) && r <= s.run.lastSeq
    requires Shows(early, ms + tables) && Views(early.view, early.ts)
    requires Shows(late, ms' + files + tables) && Views(late.view, late.ts)
    ensures first == second == ReadAll(early.mop, ms + tables, k, r)
  {
    hide P.Reachable, P.Recovery, L.Step, L.Run, Holds, Cut, Newest, InOrder, ReadAll, Added, Shows, Views;
    CrashUnnoticed(early.mop, what, s, before, es, t, id, ms, ms', files, tables, k, r);
    first := GetShown(early, Db(ms + tables, Newest(P.Contents(s.disk, s.run, id))), k, r);
    second := GetShown(late, Db(ms' + files + tables, t.run.lastSeq), k, r);
  }
}
