/**
 * The output side of a compaction: groups are written to files one after another,
 * never splitting a user key, and each file carries the part of the kept tombstones
 * between its cut points.  The files partition the tombstones' coverage.
 */
module CompactionOutputs {
  import opened Core
  import opened Visibility
  import opened Layers
  import opened CompactGroups
  import opened CompactGroupLoops

  /** An internal key; the tag orders entries of one number, a tombstone's boundary first. */
  datatype IKey = IKey(key: Key, sn: SeqNo, tag: nat)

  const RANGE_DELETION_TAG: nat := 3

  function Tag(kind: Kind): nat {
    match kind
    case Deletion => 0
    case Put => 1
    case Merge => 2
  }

  function KeyOf(e: Entry): IKey {
    IKey(e.key, e.sn, Tag(e.kind))
  }

  /** InternalKeyComparator: user key ascending, then number and tag descending. */
  predicate Less(a: IKey, b: IKey) {
    a.key < b.key || (a.key == b.key && (a.sn > b.sn || (a.sn == b.sn && a.tag > b.tag)))
  }

  /** The stretch of keys a file answers for; None is unbounded. */
  predicate InRegion(k: Key, lower: Option<Key>, upper: Option<Key>) {
    (lower.Some? ==> lower.value <= k) && (upper.Some? ==> k < upper.value)
  }

  /** The part of a tombstone within a region. */
  function Clip(t: Tombstone, lower: Option<Key>, upper: Option<Key>): Tombstone {
    t.(begin := if lower.Some? && t.begin < lower.value then lower.value else t.begin,
       end := if upper.Some? && upper.value < t.end then upper.value else t.end)
  }

  /** The parts of all tombstones within a region that are not empty. */
  function ClipAll(ts: seq<Tombstone>, lower: Option<Key>, upper: Option<Key>): seq<Tombstone> {
    if ts == [] then []
    else
      var rest := ClipAll(ts[..|ts| - 1], lower, upper);
      var p := Clip(ts[|ts| - 1], lower, upper);
      if p.begin < p.end then rest + [p] else rest
  }

  lemma {:induction false} ClipAllMembers(ts: seq<Tombstone>, lower: Option<Key>, upper: Option<Key>)
    ensures forall p :: p in ClipAll(ts, lower, upper) <==>
                        exists t :: t in ts && p == Clip(t, lower, upper) && p.begin < p.end
  {
    if ts != [] {
      var init, last := ts[..|ts| - 1], ts[|ts| - 1];
      ClipAllMembers(init, lower, upper);
      forall p ensures p in ClipAll(ts, lower, upper) <==>
                       exists t :: t in ts && p == Clip(t, lower, upper) && p.begin < p.end
      {
        if t :| t in ts && p == Clip(t, lower, upper) && p.begin < p.end {
          assert t in init || t == last;
        }
        if p in ClipAll(init, lower, upper) {
          var t :| t in init && p == Clip(t, lower, upper) && p.begin < p.end;
          assert t in ts;
        }
      }
    }
  }

  /** A clipped tombstone covers what the tombstone covers within the region. */
  lemma ClipCovers(t: Tombstone, lower: Option<Key>, upper: Option<Key>, k: Key)
    ensures Clip(t, lower, upper).Covers(k) <==> t.Covers(k) && InRegion(k, lower, upper)
  {
  }

  /** A finished output file. */
  datatype Output = Output(entries: seq<Entry>, tombs: seq<Tombstone>, lower: Option<Key>, upper: Option<Key>,
                           smallest: IKey, largest: IKey)
  {
    /** The file's bounds enclose its entries and tombstones, and stay within its region. */
    ghost predicate Bounded() {
      && (forall e :: e in entries ==> !Less(KeyOf(e), smallest) && !Less(largest, KeyOf(e)))
      && (forall t :: t in tombs ==> !Less(IKey(t.begin, t.sn, RANGE_DELETION_TAG), smallest)
                                     && !Less(largest, IKey(t.end, MAX_SEQ, RANGE_DELETION_TAG)))
      && Within(smallest, largest, lower, upper)
    }

    ghost predicate Valid(ts: seq<Tombstone>) {
      && tombs == ClipAll(ts, lower, upper)
      && (forall e :: e in entries ==> InRegion(e.key, lower, upper))
      && Sorted(entries)
      && (entries != [] || tombs != [])
      && Bounded()
    }
  }

  /** Bounds that stay within a region, the upper one at most the cut's first internal key. */
  ghost predicate Within(smallest: IKey, largest: IKey, lower: Option<Key>, upper: Option<Key>) {
    && (lower.Some? ==> lower.value <= smallest.key)
    && smallest.sn < MAX_SEQ
    && (upper.Some? ==> largest.key < upper.value || largest == IKey(upper.value, MAX_SEQ, RANGE_DELETION_TAG))
  }

  /** Every number is a real one, below kMaxSequenceNumber. */
  ghost predicate Numbers(ts: seq<Tombstone>) {
    forall t :: t in ts ==> t.sn < MAX_SEQ && t.begin < t.end
  }

  /** AddTombstoneBounds: widen [smallest, largest] to cover the tombstones, and no further. */
  method AddTombstoneBounds(tombs: seq<Tombstone>, haveKeys0: bool, smallest0: IKey, largest0: IKey,
                            ghost entries: seq<Entry>, ghost lower: Option<Key>, ghost upper: Option<Key>)
    returns (smallest: IKey, largest: IKey)
    requires haveKeys0 || (entries == [] && tombs != [])
    requires haveKeys0 ==> Within(smallest0, largest0, lower, upper)
    requires haveKeys0 ==> forall e :: e in entries ==> !Less(KeyOf(e), smallest0) && !Less(largest0, KeyOf(e))
    requires forall t :: t in tombs ==>
               t.sn < MAX_SEQ && (lower.Some? ==> lower.value <= t.begin) && (upper.Some? ==> t.end <= upper.value)
    ensures Within(smallest, largest, lower, upper)
    ensures forall e :: e in entries ==> !Less(KeyOf(e), smallest) && !Less(largest, KeyOf(e))
    ensures forall t :: t in tombs ==> !Less(IKey(t.begin, t.sn, RANGE_DELETION_TAG), smallest)
                                       && !Less(largest, IKey(t.end, MAX_SEQ, RANGE_DELETION_TAG))
    ensures (haveKeys0 && smallest == smallest0)
            || exists t :: t in tombs && smallest == IKey(t.begin, t.sn, RANGE_DELETION_TAG)
    ensures (haveKeys0 && largest == largest0)
            || exists t :: t in tombs && largest == IKey(t.end, MAX_SEQ, RANGE_DELETION_TAG)
  {
    smallest, largest := smallest0, largest0;
    var haveKeys := haveKeys0;
    var i := 0;
    while i < |tombs|
      invariant 0 <= i <= |tombs|
      invariant i > 0 ==> haveKeys
      invariant haveKeys0 ==> haveKeys
      invariant haveKeys || entries == []
      invariant haveKeys ==> Within(smallest, largest, lower, upper)
      invariant haveKeys ==> forall e :: e in entries ==> !Less(KeyOf(e), smallest) && !Less(largest, KeyOf(e))
      invariant forall j | 0 <= j < i :: !Less(IKey(tombs[j].begin, tombs[j].sn, RANGE_DELETION_TAG), smallest)
                                         && !Less(largest, IKey(tombs[j].end, MAX_SEQ, RANGE_DELETION_TAG))
      invariant haveKeys ==> (haveKeys0 && smallest == smallest0)
                             || exists t :: t in tombs && smallest == IKey(t.begin, t.sn, RANGE_DELETION_TAG)
      invariant haveKeys ==> (haveKeys0 && largest == largest0)
                             || exists t :: t in tombs && largest == IKey(t.end, MAX_SEQ, RANGE_DELETION_TAG)
    {
      var t := tombs[i];
      assert t in tombs;
      var lo, hi := IKey(t.begin, t.sn, RANGE_DELETION_TAG), IKey(t.end, MAX_SEQ, RANGE_DELETION_TAG);
      if !haveKeys || Less(lo, smallest) {
        smallest := lo;
      }
      if !haveKeys || Less(largest, hi) {
        largest := hi;
      }
      haveKeys := true;
      i := i + 1;
    }
  }

  /** All entries written so far, file after file. */
  ghost function Written(outs: seq<Output>): seq<Entry> {
    if outs == [] then [] else Written(outs[..|outs| - 1]) + outs[|outs| - 1].entries
  }

  /** The files' regions follow each other from the beginning, each ending where the next one starts. */
  ghost predicate Chained(outs: seq<Output>) {
    && (outs != [] ==> outs[0].lower == None)
    && (forall i | 0 <= i < |outs| - 1 :: outs[i].upper.Some? && outs[i + 1].lower == outs[i].upper)
    && (forall i, j | 0 <= i < j < |outs| && outs[j].upper.Some? ::
          outs[i].upper.Some? && outs[i].upper.value < outs[j].upper.value)
  }

  /** The finished files, the last of which ends where the next one starts. */
  ghost predicate Closed(outs: seq<Output>, ts: seq<Tombstone>, cut: Option<Key>) {
    && Chained(outs)
    && (forall i | 0 <= i < |outs| :: outs[i].Valid(ts) && outs[i].upper.Some?)
    && cut == (if outs == [] then None else outs[|outs| - 1].upper)
  }

  lemma ChainedAppend(outs: seq<Output>, o: Output)
    requires Chained(outs) && o.lower == (if outs == [] then None else outs[|outs| - 1].upper)
    requires outs != [] ==> o.lower.Some? && (o.upper.Some? ==> o.lower.value < o.upper.value)
    ensures Chained(outs + [o])
  {
    var r := outs + [o];
    forall i, j | 0 <= i < j < |r| && r[j].upper.Some? ensures r[i].upper.Some? && r[i].upper.value < r[j].upper.value {
      if j == |outs| {
        assert i == |outs| - 1 || outs[i].upper.value < outs[|outs| - 1].upper.value;
      } else {
        assert r[i] == outs[i] && r[j] == outs[j];
      }
    }
  }

  lemma ClosedAppend(outs: seq<Output>, ts: seq<Tombstone>, cut: Option<Key>, o: Output)
    requires Closed(outs, ts, cut) && o.Valid(ts) && o.lower == cut
    requires cut.Some? && o.upper.Some? ==> cut.value < o.upper.value
    ensures Chained(outs + [o]) && Written(outs + [o]) == Written(outs) + o.entries
    ensures o.upper.Some? ==> Closed(outs + [o], ts, o.upper)
    ensures forall i | 0 <= i <= |outs| :: (outs + [o])[i].Valid(ts)
  {
    assert (outs + [o])[..|outs|] == outs;
    ChainedAppend(outs, o);
    forall i | 0 <= i <= |outs| ensures (outs + [o])[i].Valid(ts) && (i < |outs| ==> (outs + [o])[i].upper.Some?) {
      if i < |outs| {
        assert (outs + [o])[i] == outs[i];
      } else {
        assert (outs + [o])[i] == o;
      }
    }
  }

  /** The file being built, if any, and the bounds of its keys. */
  ghost predicate Open(building: bool, es: seq<Entry>, smallest: IKey, largest: IKey, cut: Option<Key>) {
    && (building <==> es != [])
    && Sorted(es)
    && (forall e :: e in es ==> InRegion(e.key, cut, None) && e.sn < MAX_SEQ)
    && (building ==> smallest == KeyOf(es[0]) && largest == KeyOf(es[|es| - 1]))
  }

  /** Everything in the current file lies below k, and so does the last cut. */
  ghost predicate Behind(es: seq<Entry>, cut: Option<Key>, k: Key) {
    (forall e :: e in es ==> e.key < k) && (cut.Some? ==> cut.value < k)
  }

  /** Nothing in the current file lies above k, nor does the last cut. */
  ghost predicate UpTo(es: seq<Entry>, cut: Option<Key>, k: Key) {
    (forall e :: e in es ==> e.key <= k) && (cut.Some? ==> cut.value <= k)
  }

  /** Entries of k may be written: the file ends before k, or starts with it. */
  ghost predicate Ready(es: seq<Entry>, cut: Option<Key>, k: Key) {
    Behind(es, cut, k) || (es == [] && cut == Some(k))
  }

  lemma GroupWritten(outs: seq<Output>, es: seq<Entry>, cut: Option<Key>, out: seq<Entry>, k: Key)
    requires Ready(es, cut, k) && IsGroup(out, k)
    ensures UpTo(es + out, cut, k)
    ensures Written(outs) + (es + out) == Written(outs) + es + out
  {
  }

  /** One more file, with these entries and this region. */
  ghost predicate Added(outs: seq<Output>, outs': seq<Output>, es: seq<Entry>, lower: Option<Key>, upper: Option<Key>) {
    && |outs'| == |outs| + 1 && outs'[..|outs|] == outs
    && outs'[|outs|].entries == es && outs'[|outs|].lower == lower && outs'[|outs|].upper == upper
  }

  /** The next group is written: a file that was full, or is to stop before it, ends first. */
  ghost predicate GroupFlushed(outs: seq<Output>, es: seq<Entry>, lower: Option<Key>, pending: bool,
                               outs': seq<Output>, es': seq<Entry>, lower': Option<Key>, pending': bool,
                               k: Key, out: seq<Entry>, stop: bool, full: bool) {
    && (if es != [] && (pending || stop)
        then Added(outs, outs', es, lower, Some(k)) && lower' == Some(k) && es' == out
        else outs' == outs && lower' == lower && es' == es + out)
    && pending' == ((es' != [] && full) || (pending && es == []))
  }

  class CompactionState {
    /** The tombstones to carry on. */
    const tombstones: seq<Tombstone>
    var outputs: seq<Output>
    /** Where the current output starts; None for the first one. */
    var lowerCut: Option<Key>
    /** The current output, if one is open: its entries and the bounds of its keys. */
    var building: bool
    var entries: seq<Entry>
    var smallest: IKey
    var largest: IKey
    var pendingCut: bool

    constructor (tombstones: seq<Tombstone>)
      requires Numbers(tombstones)
      ensures Valid() && this.tombstones == tombstones && outputs == [] && !building && lowerCut == None
      ensures !pendingCut
      ensures AllWritten() == []
    {
      this.tombstones := tombstones;
      outputs, lowerCut, building, entries, pendingCut := [], None, false, [], false;
      smallest, largest := IKey(0.0, 0, 0), IKey(0.0, 0, 0);
    }

    ghost predicate Valid()
      reads this`outputs, this`lowerCut, this`building, this`entries, this`smallest, this`largest
    {
      && Numbers(tombstones)
      && Closed(outputs, tombstones, lowerCut)
      && Open(building, entries, smallest, largest, lowerCut)
    }

    ghost function AllWritten(): seq<Entry>
      reads this`outputs, this`entries
    {
      Written(outputs) + entries
    }

    /** A file is open exactly if it has entries, and they are sorted. */
    lemma OpenFile()
      requires Valid()
      ensures (building <==> entries != []) && Sorted(entries)
    {
    }

    /** The bounds of the current file's keys enclose them. */
    lemma KeysBounded(es: seq<Entry>, lower: Option<Key>, upper: Option<Key>)
      requires es != [] && Sorted(es) && (forall e :: e in es ==> InRegion(e.key, lower, upper) && e.sn < MAX_SEQ)
      ensures Within(KeyOf(es[0]), KeyOf(es[|es| - 1]), lower, upper)
      ensures forall e :: e in es ==> !Less(KeyOf(e), KeyOf(es[0])) && !Less(KeyOf(es[|es| - 1]), KeyOf(e))
    {
      assert es[0] in es && es[|es| - 1] in es;
      forall e | e in es ensures !Less(KeyOf(e), KeyOf(es[0])) && !Less(KeyOf(es[|es| - 1]), KeyOf(e)) {
        var i :| 0 <= i < |es| && es[i] == e;
        assert i == 0 || Before(es[0].key, es[0].sn, es[i].key, es[i].sn);
        assert i == |es| - 1 || Before(es[i].key, es[i].sn, es[|es| - 1].key, es[|es| - 1].sn);
      }
    }

    /** FinishCompactionOutputFile, clipping: the parts of the tombstones between the cuts. */
    method ClipTombstones(upper: Option<Key>) returns (mine: seq<Tombstone>)
      ensures mine == ClipAll(tombstones, lowerCut, upper)
    {
      mine := [];
      var i := 0;
      while i < |tombstones|
        invariant 0 <= i <= |tombstones|
        invariant mine == ClipAll(tombstones[..i], lowerCut, upper)
      {
        var t := tombstones[i];
        var b, e := t.begin, t.end;
        if lowerCut.Some? && b < lowerCut.value {
          b := lowerCut.value;
        }
        if upper.Some? && upper.value < e {
          e := upper.value;
        }
        if b < e {
          mine := mine + [t.(begin := b, end := e)];
        }
        assert tombstones[..i + 1][..i] == tombstones[..i];
        i := i + 1;
      }
      assert tombstones[..i] == tombstones;
    }

    /** The finished file: entries, clipped tombstones, and bounds widened to cover both. */
    method MakeOutput(upper: Option<Key>) returns (o: Output)
      requires Numbers(tombstones) && Open(building, entries, smallest, largest, lowerCut)
      requires forall e :: e in entries ==> InRegion(e.key, lowerCut, upper)
      requires entries != [] || ClipAll(tombstones, lowerCut, upper) != []
      ensures o.Valid(tombstones) && o.entries == entries && o.lower == lowerCut && o.upper == upper
    {
      var mine := ClipTombstones(upper);
      var lo, hi := smallest, largest;
      if entries != [] {
        KeysBounded(entries, lowerCut, upper);
      }
      if mine != [] {
        ClipAllMembers(tombstones, lowerCut, upper);
        lo, hi := AddTombstoneBounds(mine, entries != [], lo, hi, entries, lowerCut, upper);
      }
      o := Output(entries, mine, lowerCut, upper, lo, hi);
    }

    /** Close the current file at a cut: the first key of what follows. */
    method CutAt(cut: Key)
      requires Valid() && building && Behind(entries, lowerCut, cut)
      modifies this
      ensures Valid() && entries == [] && lowerCut == Some(cut) && AllWritten() == old(AllWritten())
      ensures Added(old(outputs), outputs, old(entries), old(lowerCut), Some(cut))
      ensures !building && pendingCut == old(pendingCut)
    {
      hide Closed, Written, ClipAll, Output.Valid, Numbers;
      var o := MakeOutput(Some(cut));
      ClosedAppend(outputs, tombstones, lowerCut, o);
      outputs := outputs + [o];
      lowerCut, building, entries := Some(cut), false, [];
    }

    /** One entry goes to the current file, or to a new one if none is open. */
    method Emit(e: Entry)
      requires Valid() && e.sn < MAX_SEQ && (lowerCut.Some? ==> lowerCut.value <= e.key)
      requires building ==> Before(entries[|entries| - 1].key, entries[|entries| - 1].sn, e.key, e.sn)
      modifies this`building, this`entries, this`smallest, this`largest
      ensures Valid() && building && entries == old(entries) + [e]
    {
      SortedAppend(entries, e);
      if !building {
        building := true;
        smallest := KeyOf(e);
      }
      largest := KeyOf(e);
      entries := entries + [e];
    }

    /** Write what a group compacted to. */
    method EmitGroup(k: Key, out: seq<Entry>)
      requires Valid() && Ready(entries, lowerCut, k)
      requires IsGroup(out, k) && forall i | 0 <= i < |out| :: out[i].sn < MAX_SEQ
      modifies this`building, this`entries, this`smallest, this`largest
      ensures Valid() && UpTo(entries, lowerCut, k) && AllWritten() == old(AllWritten()) + out
      ensures entries == old(entries) + out && building == (old(building) || out != [])
    {
      hide Closed, Written, Sorted;
      ghost var before := entries;
      var i := 0;
      while i < |out|
        invariant 0 <= i <= |out|
        invariant Valid()
        invariant entries == before + out[..i] && building == (old(building) || i > 0)
      {
        LastBelow(before, out, i, k);
        Emit(out[i]);
        i := i + 1;
      }
      assert out[..i] == out;
      GroupWritten(outputs, before, lowerCut, out, k);
    }

    /**
     * flush_group: the group goes to the current file, or to a new one if `stop` says
     * so or the file was full after an earlier group.  `stop` and `full` stand for
     * ShouldStopBefore and the file size test, which may answer anything.
     */
    method FlushGroup(k: Key, out: seq<Entry>, stop: bool, full: bool)
      requires Valid() && Behind(entries, lowerCut, k)
      requires IsGroup(out, k) && forall i | 0 <= i < |out| :: out[i].sn < MAX_SEQ
      modifies this
      ensures Valid() && UpTo(entries, lowerCut, k) && AllWritten() == old(AllWritten()) + out
      ensures GroupFlushed(old(outputs), old(entries), old(lowerCut), old(pendingCut), outputs, entries, lowerCut,
                           pendingCut, k, out, stop, full)
    {
      hide Closed, Open, Written, Sorted, Added, Numbers;
      OpenFile();
      if building && (pendingCut || stop) {
        CutAt(k);
        pendingCut := false;
      }
      EmitGroup(k, out);
      if building && full {
        pendingCut := true;
      }
    }

    /** Does a tombstone reach past the last output? */
    method Leftover() returns (left: bool)
      requires Numbers(tombstones)
      ensures left <==> ClipAll(tombstones, lowerCut, None) != []
    {
      ClipAllMembers(tombstones, lowerCut, None);
      left := false;
      var i := 0;
      while i < |tombstones|
        invariant 0 <= i <= |tombstones| && !left
        invariant forall j | 0 <= j < i :: lowerCut.Some? && tombstones[j].end <= lowerCut.value
      {
        var t := tombstones[i];
        assert t in tombstones;
        if lowerCut.None? || lowerCut.value < t.end {
          assert Clip(t, lowerCut, None) in ClipAll(tombstones, lowerCut, None);
          return true;
        }
        i := i + 1;
      }
      if ClipAll(tombstones, lowerCut, None) != [] {
        NothingLeft(tombstones, lowerCut);
      }
    }

    /** The end of DoCompactionWork: the last file, opened for leftover tombstones if need be. */
    method Close()
      requires Valid()
      modifies this
      ensures Finished(outputs, tombstones) && Written(outputs) == old(AllWritten())
      ensures (outputs == old(outputs) && !old(building))
              || Added(old(outputs), outputs, old(entries), old(lowerCut), None)
    {
      var left := Leftover();
      if building || left {
        var o := MakeOutput(None);
        ClosedAppend(outputs, tombstones, lowerCut, o);
        outputs := outputs + [o];
      } else {
        assert Written(outputs) + [] == Written(outputs);
      }
    }
  }

  lemma SortedAppend(es: seq<Entry>, e: Entry)
    requires Sorted(es) && (es != [] ==> Before(es[|es| - 1].key, es[|es| - 1].sn, e.key, e.sn))
    ensures Sorted(es + [e])
  {
    var r := es + [e];
    forall i, j | 0 <= i < j < |r| ensures Before(r[i].key, r[i].sn, r[j].key, r[j].sn) {
      if j == |es| {
        assert i == |es| - 1 || Before(es[i].key, es[i].sn, es[|es| - 1].key, es[|es| - 1].sn);
      } else {
        assert Before(es[i].key, es[i].sn, es[j].key, es[j].sn);
      }
    }
  }

  /** What was written last comes before the group's next entry. */
  lemma LastBelow(before: seq<Entry>, out: seq<Entry>, i: nat, k: Key)
    requires IsGroup(out, k) && i < |out| && forall e :: e in before ==> e.key < k
    ensures var es := before + out[..i];
            es != [] ==> Before(es[|es| - 1].key, es[|es| - 1].sn, out[i].key, out[i].sn)
    ensures before + out[..i] + [out[i]] == before + out[..i + 1]
  {
    if i == 0 && before != [] {
      assert before[|before| - 1] in before;
    }
  }

  /** If every tombstone ends by the cut, nothing of them is left past it. */
  lemma {:induction false} NothingLeft(ts: seq<Tombstone>, lower: Option<Key>)
    requires ts == [] || (lower.Some? && forall j | 0 <= j < |ts| :: ts[j].end <= lower.value)
    ensures ClipAll(ts, lower, None) == []
  {
    if ts != [] {
      var init := ts[..|ts| - 1];
      assert forall j | 0 <= j < |init| :: init[j] == ts[j];
      NothingLeft(init, lower);
    }
  }

  /** The files of a finished compaction: a chain of valid files that leaves nothing of the tombstones out. */
  ghost predicate Finished(outs: seq<Output>, ts: seq<Tombstone>) {
    && Chained(outs)
    && (forall i | 0 <= i < |outs| :: outs[i].Valid(ts))
    && (if outs == [] then ClipAll(ts, None, None) == []
        else outs[|outs| - 1].upper.Some? ==> ClipAll(ts, outs[|outs| - 1].upper, None) == [])
  }

  // ---- What the files promise together ----

  /** Output i carries the part of tombstone t over key k. */
  ghost predicate Carries(o: Output, t: Tombstone, k: Key) {
    Clip(t, o.lower, o.upper) in o.tombs && Clip(t, o.lower, o.upper).Covers(k)
  }

  /** The regions are disjoint and in order. */
  lemma RegionsApart(outs: seq<Output>, i: nat, j: nat, k: Key, k': Key)
    requires Chained(outs) && i < j < |outs|
    requires InRegion(k, outs[i].lower, outs[i].upper) && InRegion(k', outs[j].lower, outs[j].upper)
    ensures outs[i].upper.Some? && k < outs[i].upper.value <= k'
  {
    assert outs[j].lower == outs[j - 1].upper;
    if i < j - 1 {
      assert outs[i].upper.value < outs[j - 1].upper.value;
    }
  }

  /** Every key lies in some file's region, or past the last cut. */
  lemma {:induction false} RegionOf(outs: seq<Output>, n: nat, k: Key) returns (i: nat)
    requires Chained(outs) && n <= |outs|
    ensures i <= n
    ensures i < n ==> InRegion(k, outs[i].lower, outs[i].upper)
    ensures i == n && n > 0 ==> outs[n - 1].upper.Some? && outs[n - 1].upper.value <= k
  {
    if n == 0 {
      return 0;
    }
    i := RegionOf(outs, n - 1, k);
    if i == n - 1 && InRegion(k, outs[n - 1].lower, outs[n - 1].upper) {
      return n - 1;
    } else if i == n - 1 {
      return n;
    }
  }

  /** A covered key lies in some file's region, for past the last cut nothing is left. */
  lemma CoveredRegion(outs: seq<Output>, ts: seq<Tombstone>, t: Tombstone, k: Key) returns (i: nat)
    requires Finished(outs, ts) && t in ts && t.Covers(k)
    ensures i < |outs| && InRegion(k, outs[i].lower, outs[i].upper)
  {
    i := RegionOf(outs, |outs|, k);
    var cut := if outs == [] then None else outs[|outs| - 1].upper;
    ClipAllMembers(ts, cut, None);
    ClipCovers(t, cut, None, k);
    assert InRegion(k, cut, None) ==> Clip(t, cut, None) in ClipAll(ts, cut, None);
  }

  /** Exactly the file whose region holds the key carries the tombstone's piece over it. */
  lemma CarriedWhere(o: Output, ts: seq<Tombstone>, t: Tombstone, k: Key)
    requires o.tombs == ClipAll(ts, o.lower, o.upper) && t in ts
    ensures Carries(o, t, k) <==> t.Covers(k) && InRegion(k, o.lower, o.upper)
  {
    ClipAllMembers(ts, o.lower, o.upper);
    ClipCovers(t, o.lower, o.upper, k);
  }

  /**
   * The files partition the coverage: a kept tombstone covers a key iff some output
   * carries a piece of it over that key, and then exactly one does.
   */
  lemma CoveragePartition(outs: seq<Output>, ts: seq<Tombstone>, t: Tombstone, k: Key)
    requires Finished(outs, ts) && t in ts
    ensures t.Covers(k) <==> exists i :: 0 <= i < |outs| && Carries(outs[i], t, k)
    ensures forall i, j | 0 <= i < j < |outs| :: !(Carries(outs[i], t, k) && Carries(outs[j], t, k))
  {
    forall i | 0 <= i < |outs|
      ensures Carries(outs[i], t, k) <==> t.Covers(k) && InRegion(k, outs[i].lower, outs[i].upper)
    {
      assert outs[i].Valid(ts);
      CarriedWhere(outs[i], ts, t, k);
    }
    forall i, j | 0 <= i < j < |outs| && Carries(outs[i], t, k) ensures !Carries(outs[j], t, k) {
      if Carries(outs[j], t, k) {
        RegionsApart(outs, i, j, k, k);
      }
    }
    if t.Covers(k) {
      var i := CoveredRegion(outs, ts, t, k);
      assert Carries(outs[i], t, k);
    }
  }

  /** A user key's entries are all in one file. */
  lemma KeysNotSplit(outs: seq<Output>, ts: seq<Tombstone>, i: nat, j: nat, e: Entry, f: Entry)
    requires Finished(outs, ts) && i < |outs| && j < |outs| && e in outs[i].entries && f in outs[j].entries
    ensures e.key == f.key ==> i == j
    ensures i < j ==> e.key < f.key
  {
    if i < j {
      RegionsApart(outs, i, j, e.key, f.key);
    } else if j < i {
      RegionsApart(outs, j, i, f.key, e.key);
    }
  }

  /** The recorded bounds of the files are strictly increasing in internal key order. */
  lemma BoundsIncrease(outs: seq<Output>, ts: seq<Tombstone>, i: nat, j: nat)
    requires Finished(outs, ts) && i < j < |outs|
    ensures Less(outs[i].largest, outs[j].smallest)
  {
    assert outs[j].lower == outs[j - 1].upper;
    assert i == j - 1 || outs[i].upper.value < outs[j - 1].upper.value;
    assert outs[i].Valid(ts) && outs[j].Valid(ts);
  }

  /** All pieces of tombstones in the files. */
  ghost function Pieces(outs: seq<Output>): seq<Tombstone> {
    if outs == [] then [] else Pieces(outs[..|outs| - 1]) + outs[|outs| - 1].tombs
  }

  lemma {:induction false} PiecesMembers(outs: seq<Output>)
    ensures forall p :: p in Pieces(outs) <==> exists i :: 0 <= i < |outs| && p in outs[i].tombs
  {
    if outs != [] {
      PiecesMembers(outs[..|outs| - 1]);
      forall p ensures p in Pieces(outs) <==> exists i :: 0 <= i < |outs| && p in outs[i].tombs {
        if i :| 0 <= i < |outs| && p in outs[i].tombs {
          assert i == |outs| - 1 || p in outs[..|outs| - 1][i].tombs;
        }
        if p in Pieces(outs[..|outs| - 1]) {
          var i :| 0 <= i < |outs| - 1 && p in outs[..|outs| - 1][i].tombs;
          assert p in outs[i].tombs;
        }
      }
    }
  }

  /** To every reader the pieces hide what the kept tombstones hide. */
  lemma PiecesHide(outs: seq<Output>, ts: seq<Tombstone>, k: Key, s: SeqNo, r: SeqNo)
    requires Finished(outs, ts)
    ensures Hidden(Pieces(outs), k, s, r) <==> Hidden(ts, k, s, r)
  {
    PiecesMembers(outs);
    if Hidden(ts, k, s, r) {
      var t :| t in ts && t.Covers(k) && s < t.sn <= r;
      CoveragePartition(outs, ts, t, k);
      var i :| 0 <= i < |outs| && Carries(outs[i], t, k);
      assert Clip(t, outs[i].lower, outs[i].upper) in Pieces(outs);
    }
    if Hidden(Pieces(outs), k, s, r) {
      var p :| p in Pieces(outs) && p.Covers(k) && s < p.sn <= r;
      var i :| 0 <= i < |outs| && p in outs[i].tombs;
      ClipAllMembers(ts, outs[i].lower, outs[i].upper);
      var t :| t in ts && p == Clip(t, outs[i].lower, outs[i].upper) && p.begin < p.end;
      ClipCovers(t, outs[i].lower, outs[i].upper, k);
    }
  }
}
