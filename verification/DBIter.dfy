/**
 * DBIter: turns an internal iterator (every version of every key, newest first
 * within a key) into a cursor over the keys a reader at one snapshot sees, in both
 * directions, folding merge operands on the way.  The partner is the map from keys
 * to Visibility.Read: each move lands on the nearest key that exists there, with
 * the value it has there.
 */
module DBIters {
  import opened Core
  import opened Visibility
  import opened Layers

  /** The keys a search may land on. */
  datatype Bound = Every | AtLeast(k: Key) | MoreThan(k: Key) | LessThan(k: Key)
  {
    predicate Admits(x: Key) {
      match this
      case Every => true
      case AtLeast(k) => k <= x
      case MoreThan(k) => k < x
      case LessThan(k) => x < k
    }
  }

  /** The internal iterator and the reader: entries in internal key order, tombstones, snapshot. */
  datatype Source = Source(entries: seq<Entry>, ts: seq<Tombstone>, r: SeqNo, mop: Option<MergeOperator>)
  {
    ghost predicate Valid() {
      Sorted(entries) && LayersBounded(ts)
    }

    /** The entry's type as the reader sees it: covered by a tombstone it is a deletion. */
    function EffectiveKind(e: Entry): Kind {
      if e.kind != Deletion && NaiveMax(ts, e.key, r, ALL_LAYERS) > e.sn then Deletion else e.kind
    }

    /** What the entries from index i on say about k. */
    ghost function From(i: nat, k: Key): Content
      requires i <= |entries|
    {
      Resolve(entries[i..], ts, k, r)
    }

    ghost function At(k: Key): Content {
      Resolve(entries, ts, k, r)
    }

    ghost function Out(k: Key): Outcome {
      Finish(mop, k, At(k))
    }

    ghost predicate Exists(k: Key) {
      At(k) != ABSENT
    }

    /** One entry at a time, from the oldest end. */
    lemma FromStep(i: nat, k: Key)
      requires i < |entries|
      ensures From(i, k) == Step(entries[i], ts, k, r, From(i + 1, k))
    {
      assert entries[i..][1..] == entries[i + 1..];
    }

    /** The same, with the entry's effective kind. */
    lemma FromKind(i: nat)
      requires Valid() && i < |entries| && entries[i].sn <= r
      ensures var e := entries[i];
              From(i, e.key) == match EffectiveKind(e)
                                case Deletion => ABSENT
                                case Put => Content(Some(e.value), [])
                                case Merge => Push(From(i + 1, e.key), [e.value])
    {
      FromStep(i, entries[i].key);
      HiddenIffMaxAbove(ts, entries[i].key, entries[i].sn, r);
    }

    /** Entries before i that say nothing about k can be left out. */
    lemma StartAt(i: nat, k: Key)
      requires i <= |entries|
      requires forall j | 0 <= j < i :: entries[j].key != k || entries[j].sn > r
      ensures At(k) == From(i, k)
    {
      assert entries == entries[..i] + entries[i..];
      FoldConcat(entries[..i], entries[i..], ts, k, r, ABSENT);
      FoldNothing(entries[..i], ts, k, r, From(i, k));
    }

    /** Entries from i on that say nothing about k leave it absent. */
    lemma EndsAt(i: nat, k: Key)
      requires i <= |entries|
      requires forall j | i <= j < |entries| :: entries[j].key != k || entries[j].sn > r
      ensures From(i, k) == ABSENT
    {
      forall j | 0 <= j < |entries[i..]| ensures entries[i..][j].key != k || entries[i..][j].sn > r {
        assert entries[i..][j] == entries[i + j];
      }
      FoldNothing(entries[i..], ts, k, r, ABSENT);
    }

    lemma Ascending(i: nat, j: nat)
      requires Valid() && i <= j < |entries|
      ensures entries[i].key <= entries[j].key
      ensures i < j && entries[i].key == entries[j].key ==> entries[i].sn > entries[j].sn
    {
      assert i == j || Before(entries[i].key, entries[i].sn, entries[j].key, entries[j].sn);
    }

    lemma NoEntriesAbsent(k: Key)
      requires forall j | 0 <= j < |entries| :: entries[j].key != k || entries[j].sn > r
      ensures !Exists(k)
    {
      FoldNothing(entries, ts, k, r, ABSENT);
    }

    // ---- Going forward ----

    /**
     * The state of the forward search before entry i: admitted keys below the
     * entry's key do not exist; if the entry's key is being skipped it does not
     * exist either; otherwise it is admitted and nothing visible of it was passed.
     */
    ghost predicate Searching(i: nat, from: Bound, skipping: bool, skip: Key) {
      && i <= |entries| && !from.LessThan?
      && (skipping ==>
            && (forall k | from.Admits(k) && k <= skip :: !Exists(k))
            && (forall k | skip < k :: from.Admits(k))
            && (forall j | i <= j < |entries| && entries[j].key < skip :: entries[j].sn > r))
      && (forall k | from.Admits(k) && (i == |entries| || k < entries[i].key) :: !Exists(k))
      && (i < |entries| && !(skipping && entries[i].key <= skip) ==>
            && from.Admits(entries[i].key)
            && forall j | 0 <= j < i && entries[j].key == entries[i].key :: entries[j].sn > r)
    }

    /** Keys strictly between neighbouring entries do not exist. */
    lemma NothingBetween(i: nat, k: Key)
      requires Valid() && i < |entries| && entries[i].key < k
      requires i + 1 == |entries| || k < entries[i + 1].key
      ensures !Exists(k)
    {
      forall j | 0 <= j < |entries| ensures entries[j].key != k {
        if j <= i {
          Ascending(j, i);
        } else {
          Ascending(i + 1, j);
        }
      }
      NoEntriesAbsent(k);
    }

    /** Passing an entry whose key is skipped, or which the reader does not see. */
    lemma PassEntry(i: nat, from: Bound, skipping: bool, skip: Key)
      requires Valid() && i < |entries| && Searching(i, from, skipping, skip)
      requires (skipping && entries[i].key <= skip) || entries[i].sn > r
      ensures Searching(i + 1, from, skipping, skip)
    {
      var kc := entries[i].key;
      var skipped := skipping && kc <= skip;
      if i + 1 < |entries| {
        Ascending(i, i + 1);
      }
      var moved := i + 1 == |entries| || kc < entries[i + 1].key;
      if !skipped && moved {
        forall j | 0 <= j < |entries| ensures entries[j].key != kc || entries[j].sn > r {
          if j > i + 1 {
            Ascending(i + 1, j);
          }
        }
        NoEntriesAbsent(kc);
      }
      forall k | from.Admits(k) && (i + 1 == |entries| || k < entries[i + 1].key) ensures !Exists(k) {
        if k > kc {
          NothingBetween(i, k);
        }
      }
      if i + 1 < |entries| && moved {
        forall j | 0 <= j < i + 1 ensures entries[j].key != entries[i + 1].key {
          Ascending(j, i);
        }
      }
    }

    /** A visible deletion: the key does not exist, and the rest of it is skipped. */
    lemma PassDeletion(i: nat, from: Bound, skipping: bool, skip: Key)
      requires Valid() && i < |entries| && Searching(i, from, skipping, skip)
      requires entries[i].sn <= r && EffectiveKind(entries[i]) == Deletion
      ensures Searching(i, from, true, entries[i].key)
    {
      var kc := entries[i].key;
      if !(skipping && kc <= skip) {
        FromKind(i);
        StartAt(i, kc);
      }
      forall j | i <= j < |entries| ensures kc <= entries[j].key {
        Ascending(i, j);
      }
    }

    lemma NoneAbove(i: nat)
      requires Valid() && i < |entries|
      ensures forall j | 0 <= j < i :: entries[j].key <= entries[i].key
    {
      forall j | 0 <= j < i ensures entries[j].key <= entries[i].key {
        Ascending(j, i);
      }
    }

    /** The first visible entry of a key that is not skipped says whether the key exists. */
    lemma FirstVisible(i: nat, from: Bound, skipping: bool, skip: Key)
      requires Valid() && i < |entries| && Searching(i, from, skipping, skip)
      requires !(skipping && entries[i].key <= skip) && entries[i].sn <= r
      ensures At(entries[i].key) == From(i, entries[i].key) && from.Admits(entries[i].key)
      ensures forall k | from.Admits(k) && k < entries[i].key :: !Exists(k)
      ensures forall j | 0 <= j < i && entries[j].key == entries[i].key :: entries[j].sn > r
    {
      StartAt(i, entries[i].key);
    }

    /** A search that has come to the end has found no key. */
    lemma SearchEnds(from: Bound, skipping: bool, skip: Key)
      requires Searching(|entries|, from, skipping, skip)
      ensures forall k | from.Admits(k) :: !Exists(k)
    {
    }

    /** So has a backward scan that came to the front with nothing in hand. */
    lemma NonePrev(to: Bound, saved: Key)
      requires Valid() && Scanning(-1, to, Deletion, saved, ABSENT)
      ensures forall k | to.Admits(k) :: !Exists(k)
    {
      ScanEnds(-1, to, Deletion, saved, ABSENT);
    }

    /** Seek puts the search before the first entry at or after the target. */
    lemma SeekStarts(i: nat, target: Key)
      requires Valid() && i <= |entries|
      requires forall j | 0 <= j < i :: entries[j].key < target || (entries[j].key == target && entries[j].sn > r)
      requires forall j | i <= j < |entries| ::
                 entries[j].key > target || (entries[j].key == target && entries[j].sn <= r)
      ensures Searching(i, AtLeast(target), false, target)
    {
      forall k | target <= k && (i == |entries| || k < entries[i].key) ensures !Exists(k) {
        forall j | 0 <= j < |entries| ensures entries[j].key != k || entries[j].sn > r {
          if j >= i {
            Ascending(i, j);
          }
        }
        NoEntriesAbsent(k);
      }
    }

    lemma FirstStarts()
      requires Valid()
      ensures Searching(0, Every, false, 0.0)
    {
      forall k | |entries| == 0 || k < entries[0].key ensures !Exists(k) {
        forall j | 0 <= j < |entries| ensures entries[j].key != k {
          Ascending(0, j);
        }
        NoEntriesAbsent(k);
      }
    }

    /** Continuing after key k from any place that has nothing visible above k behind it. */
    lemma NextStarts(i: nat, k: Key)
      requires Valid() && i <= |entries|
      requires forall j | 0 <= j < i :: entries[j].key <= k
      requires forall j | i <= j < |entries| && entries[j].key < k :: entries[j].sn > r
      ensures Searching(i, MoreThan(k), true, k)
    {
      forall x | k < x && (i == |entries| || x < entries[i].key) ensures !Exists(x) {
        forall j | 0 <= j < |entries| ensures entries[j].key != x {
          if j >= i {
            Ascending(i, j);
          }
        }
        NoEntriesAbsent(x);
      }
    }

    // ---- Folding forward ----

    /** MergeForward's state: the operands so far, newest first, and the base once it is settled. */
    ghost predicate Merging(i: nat, k: Key, ops: seq<Value>, settled: bool, base: Option<Value>) {
      && i <= |entries|
      && At(k) == Push(if settled then Content(base, []) else From(i, k), Reversed(ops))
      && (forall j | 0 <= j < i :: entries[j].key <= k)
      && (i < |entries| ==> k <= entries[i].key && (entries[i].key == k ==> entries[i].sn <= r))
    }

    lemma MergingMoves(i: nat, k: Key)
      requires Valid() && i < |entries| && entries[i].key == k && entries[i].sn <= r
      ensures forall j | 0 <= j <= i :: entries[j].key <= k
      ensures i + 1 < |entries| ==> k <= entries[i + 1].key && (entries[i + 1].key == k ==> entries[i + 1].sn <= r)
    {
      forall j | 0 <= j <= i ensures entries[j].key <= k {
        Ascending(j, i);
      }
      if i + 1 < |entries| {
        Ascending(i, i + 1);
      }
    }

    lemma MergingStarts(i: nat, v: Value)
      requires Valid() && i < |entries| && entries[i].sn <= r && EffectiveKind(entries[i]) == Merge
      requires v == entries[i].value && At(entries[i].key) == From(i, entries[i].key)
      ensures Merging(i + 1, entries[i].key, [v], false, None)
    {
      FromKind(i);
      MergingMoves(i, entries[i].key);
      assert Reversed([v]) == [v];
    }

    lemma MergingStep(i: nat, k: Key, ops: seq<Value>, settled: bool, base: Option<Value>)
      requires Valid() && Merging(i, k, ops, settled, base) && i < |entries| && entries[i].key == k
      ensures settled ==> Merging(i + 1, k, ops, true, base)
      ensures !settled ==> var v := entries[i].value;
                           match EffectiveKind(entries[i])
                           case Merge => Merging(i + 1, k, ops + [v], false, base)
                           case Put => Merging(i + 1, k, ops, true, Some(v))
                           case Deletion => Merging(i + 1, k, ops, true, None)
    {
      MergingMoves(i, k);
      if !settled {
        FromKind(i);
        var v := entries[i].value;
        ReversedAppend(ops, v);
        assert Push(Push(From(i + 1, k), [v]), Reversed(ops)) == Push(From(i + 1, k), Reversed(ops + [v]));
      }
    }

    lemma MergingEnds(i: nat, k: Key, ops: seq<Value>, settled: bool, base: Option<Value>)
      requires Valid() && Merging(i, k, ops, settled, base) && (i == |entries| || entries[i].key != k)
      requires !settled ==> base == None
      ensures At(k) == Content(base, Reversed(ops))
    {
      forall j | i <= j < |entries| ensures entries[j].key != k {
        Ascending(i, j);
      }
      EndsAt(i, k);
      assert Push(Content(base, []), Reversed(ops)) == Content(base, Reversed(ops));
    }

    // ---- Going backward ----

    /**
     * The state of the backward scan when entries up to i are still to be seen:
     * of the admitted keys, the scanned entries leave only the saved one
     * existing, with the content made of them; and nothing visible of a smaller
     * key was passed since.
     */
    ghost predicate Scanning(i: int, to: Bound, kind: Kind, saved: Key, c: Content) {
      && -1 <= i < |entries| && (to.Every? || to.LessThan?)
      && (forall j | 0 <= j <= i :: to.Admits(entries[j].key))
      && (kind == Deletion ==> forall k | to.Admits(k) :: From(i + 1, k) == ABSENT)
      && (kind != Deletion ==>
            && to.Admits(saved) && c != ABSENT && From(i + 1, saved) == c
            && (forall k | to.Admits(k) && k != saved :: From(i + 1, k) == ABSENT)
            && (forall j | i < j < |entries| && entries[j].key < saved :: entries[j].sn > r)
            && (forall j | 0 <= j <= i :: entries[j].key <= saved))
    }

    /** An entry the reader does not see. */
    lemma ScanInvisible(i: int, to: Bound, kind: Kind, saved: Key, c: Content)
      requires Valid() && Scanning(i, to, kind, saved, c) && 0 <= i && entries[i].sn > r
      ensures Scanning(i - 1, to, kind, saved, c)
    {
      forall k | to.Admits(k) ensures From(i, k) == From(i + 1, k) {
        FromStep(i, k);
      }
    }

    /** A visible entry that does not end the scan: what it makes of its key. */
    lemma ScanVisible(i: int, to: Bound, kind: Kind, saved: Key, c: Content)
      requires Valid() && Scanning(i, to, kind, saved, c) && 0 <= i && entries[i].sn <= r
      requires kind == Deletion || saved <= entries[i].key
      ensures var e := entries[i];
              var older := if kind == Deletion then ABSENT else c;
              match EffectiveKind(e)
              case Deletion => Scanning(i - 1, to, Deletion, saved, c)
              case Put => Scanning(i - 1, to, Put, e.key, Content(Some(e.value), []))
              case Merge => Scanning(i - 1, to, Merge, e.key, Push(older, [e.value]))
    {
      var e := entries[i];
      FromKind(i);
      forall k | to.Admits(k) && k != e.key ensures From(i, k) == From(i + 1, k) {
        FromStep(i, k);
      }
      forall j | 0 <= j <= i ensures entries[j].key <= e.key {
        Ascending(j, i);
      }
      forall j | i < j < |entries| ensures entries[j].key >= e.key {
        Ascending(i, j);
      }
    }

    /** A finished backward scan: the saved key is the last admitted one that exists, or there is none. */
    ghost predicate Scanned(i: int, to: Bound, kind: Kind, saved: Key, c: Content) {
      && -1 <= i < |entries|
      && (kind == Deletion ==> forall k | to.Admits(k) :: !Exists(k))
      && (kind != Deletion ==>
            && to.Admits(saved) && At(saved) == c
            && (forall k | to.Admits(k) && saved < k :: !Exists(k))
            && (forall j | 0 <= j <= i :: entries[j].key < saved)
            && (forall j | i < j < |entries| && entries[j].key < saved :: entries[j].sn > r))
    }

    /** The scan ends at a visible entry of a smaller key, or before the first entry. */
    lemma ScanEnds(i: int, to: Bound, kind: Kind, saved: Key, c: Content)
      requires Valid() && Scanning(i, to, kind, saved, c)
      requires i == -1 || (kind != Deletion && entries[i].key < saved)
      ensures Scanned(i, to, kind, saved, c)
    {
      forall j | 0 <= j <= i ensures kind != Deletion && entries[j].key < saved {
        Ascending(j, i);
      }
      forall k | to.Admits(k) && (kind == Deletion || saved <= k) ensures At(k) == From(i + 1, k) {
        StartAt(i + 1, k);
      }
    }

    lemma LastStarts(saved: Key)
      requires Valid()
      ensures Scanning(|entries| - 1, Every, Deletion, saved, ABSENT)
    {
      forall k ensures From(|entries|, k) == ABSENT {
        EndsAt(|entries|, k);
      }
    }

    /** Continuing below key k from any place that has nothing visible below k ahead of it. */
    lemma PrevStarts(i: int, k: Key, saved: Key)
      requires Valid() && -1 <= i < |entries|
      requires forall j | 0 <= j <= i :: entries[j].key < k
      requires forall j | i < j < |entries| && entries[j].key < k :: entries[j].sn > r
      ensures Scanning(i, LessThan(k), Deletion, saved, ABSENT)
    {
      forall x | LessThan(k).Admits(x) ensures From(i + 1, x) == ABSENT {
        EndsAt(i + 1, x);
      }
    }
  }

  class DBIter {
    const src: Source
    /** The internal iterator's cursor: valid iff within the entries. */
    var pos: int
    var forward: bool
    var valid: bool
    /** Moving forward, and the current key's operands were folded: the cursor is past the key's entries. */
    var merged: bool
    var mergedKey: Key
    var savedKey: Key
    var savedValue: Value
    var status: Status

    constructor (src: Source)
      requires src.Valid()
      ensures this.src == src && Valid() && !valid && status == Success
    {
      this.src := src;
      pos, forward, valid, merged := 0, true, false, false;
      mergedKey, savedKey, savedValue, status := 0.0, 0.0, "", Success;
    }

    function CurrentKey(): Key
      requires valid && (forward && !merged ==> 0 <= pos < |src.entries|)
      reads this
    {
      if forward then (if merged then mergedKey else src.entries[pos].key) else savedKey
    }

    function CurrentValue(): Value
      requires valid && (forward && !merged ==> 0 <= pos < |src.entries|)
      reads this
    {
      if forward && !merged then src.entries[pos].value else savedValue
    }

    /**
     * Where the cursor stands.  Moving forward: at the entry that yields the key
     * and value, or past all entries of a merged key.  Moving backward: at the last
     * entry before the key's own that the reader sees, or before the first entry.
     */
    ghost predicate Placed()
      reads this
    {
      && -1 <= pos <= |src.entries|
      && (valid && forward && !merged ==>
            && 0 <= pos < |src.entries|
            && (forall j | 0 <= j < pos :: src.entries[j].key <= src.entries[pos].key))
      && (valid && forward && merged ==>
            && 0 <= pos
            && (forall j | 0 <= j < pos :: src.entries[j].key <= mergedKey)
            && (forall j | pos <= j < |src.entries| :: mergedKey < src.entries[j].key))
      && (valid && !forward ==>
            && pos < |src.entries| && !merged
            && (forall j | 0 <= j <= pos :: src.entries[j].key < savedKey)
            && (forall j | pos < j < |src.entries| && src.entries[j].key < savedKey :: src.entries[j].sn > src.r)
            && (pos >= 0 ==> src.entries[pos].sn <= src.r))
    }

    /** The iterator is at a key that exists, and shows what a read of it returns. */
    ghost predicate Valid()
      reads this
    {
      src.Valid() && Placed() && (valid ==> src.Out(CurrentKey()) == Found(CurrentValue()))
    }

    /** The fold of key k failed, and the status says how. */
    ghost predicate Failed(k: Key)
      reads this
    {
      && !valid
      && (src.Out(k) == NoOperator || src.Out(k) == Corrupt)
      && status == (if src.Out(k) == NoOperator then InvalidArgument else Corruption)
    }

    /** No admitted key below k exists. */
    ghost predicate NoneBefore(from: Bound, k: Key) {
      forall x | from.Admits(x) && x < k :: !src.Exists(x)
    }

    /** No admitted key above k exists. */
    ghost predicate NoneAfter(to: Bound, k: Key) {
      forall x | to.Admits(x) && k < x :: !src.Exists(x)
    }

    /**
     * A forward move came to the first admitted key that exists, failed on it, or
     * found there is none; only a failure changes the status.
     */
    ghost predicate LandedFirst(from: Bound, before: Status)
      requires Valid()
      reads this
    {
      if valid then from.Admits(CurrentKey()) && NoneBefore(from, CurrentKey()) && status == before
      else ((forall k | from.Admits(k) :: !src.Exists(k)) && status == before)
           || (exists k :: from.Admits(k) && Failed(k) && NoneBefore(from, k))
    }

    /** The same for a backward move and the last admitted key that exists. */
    ghost predicate LandedLast(to: Bound, before: Status)
      requires Valid()
      reads this
    {
      if valid then to.Admits(CurrentKey()) && NoneAfter(to, CurrentKey()) && status == before && !forward
      else ((forall k | to.Admits(k) :: !src.Exists(k)) && status == before)
           || (exists k :: to.Admits(k) && Failed(k) && NoneAfter(to, k))
    }

    /** FullMerge of what was collected for key k; false if it failed. */
    method FullMerge(k: Key, base: Option<Value>, operands: seq<Value>) returns (ok: bool)
      requires operands != []
      modifies this`status, this`savedValue
      ensures ok ==> Finish(src.mop, k, Content(base, operands)) == Found(savedValue) && status == old(status)
      ensures !ok ==> Finish(src.mop, k, Content(base, operands)) ==
                      if status == InvalidArgument then NoOperator else Corrupt
      ensures !ok ==> status == InvalidArgument || status == Corruption
    {
      if src.mop.None? {
        status := InvalidArgument;
        return false;
      }
      match src.mop.value.full(k, base, operands)
      case None =>
        status := Corruption;
        return false;
      case Some(v) =>
        savedValue := v;
        return true;
    }

    /** Walk the older entries of key k, collecting operands until the base is settled. */
    method CollectOperands(k: Key, first: Value) returns (base: Option<Value>, operands: seq<Value>)
      requires src.Valid() && 0 <= pos <= |src.entries|
      requires src.Merging(pos, k, [first], false, None)
      modifies this`pos
      ensures old(pos) <= pos <= |src.entries| && operands != []
      ensures src.At(k) == Content(base, Reversed(operands))
      ensures forall j | 0 <= j < pos :: src.entries[j].key <= k
      ensures forall j | pos <= j < |src.entries| :: k < src.entries[j].key
    {
      var settled := false;
      base, operands := None, [first];  // newest first
      while pos < |src.entries| && src.entries[pos].key == k
        invariant old(pos) <= pos <= |src.entries|
        invariant src.Merging(pos, k, operands, settled, base) && operands != [] && (!settled ==> base == None)
        decreases |src.entries| - pos
      {
        src.MergingStep(pos, k, operands, settled, base);
        if !settled {
          match src.EffectiveKind(src.entries[pos])
          case Merge =>
            operands := operands + [src.entries[pos].value];
          case Put =>
            base, settled := Some(src.entries[pos].value), true;
          case Deletion =>
            settled := true;
        }
        pos := pos + 1;
      }
      src.MergingEnds(pos, k, operands, settled, base);
      forall j | pos <= j < |src.entries| ensures k < src.entries[j].key {
        src.Ascending(pos, j);
      }
    }

    /** Fold the key at the cursor, whose newest entry in sight is an operand. */
    method MergeForward(ghost from: Bound)
      requires src.Valid() && forward && 0 <= pos < |src.entries|
      requires src.entries[pos].sn <= src.r && src.EffectiveKind(src.entries[pos]) == Merge
      requires src.At(src.entries[pos].key) == src.From(pos, src.entries[pos].key)
      requires from.Admits(src.entries[pos].key) && NoneBefore(from, src.entries[pos].key)
      modifies this
      ensures Valid() && forward && LandedFirst(from, old(status))
    {
      var k, first := src.entries[pos].key, src.entries[pos].value;
      src.MergingStarts(pos, first);
      pos := pos + 1;
      var base, operands := CollectOperands(k, first);
      mergedKey, merged := k, true;
      valid := FullMerge(k, base, Reversed(operands));
      assert !valid ==> Failed(k);
    }

    /** Move to the next key that exists, looking at the entries from the cursor on. */
    method FindNextUserEntry(skipping0: bool, skip0: Key, ghost from: Bound)
      requires src.Valid() && forward && !merged && 0 <= pos < |src.entries|
      requires src.Searching(pos, from, skipping0, skip0)
      modifies this
      ensures Valid() && forward && LandedFirst(from, old(status))
    {
      hide Source.Searching;
      var skipping, skip := skipping0, skip0;
      while pos < |src.entries|
        invariant 0 <= pos <= |src.entries| && forward && !merged && status == old(status)
        invariant src.Searching(pos, from, skipping, skip)
        decreases |src.entries| - pos
      {
        var e := src.entries[pos];
        if e.sn <= src.r {
          match src.EffectiveKind(e)
          case Deletion =>
            src.PassDeletion(pos, from, skipping, skip);
            skip, skipping := e.key, true;
          case Put =>
            if !(skipping && e.key <= skip) {
              src.FirstVisible(pos, from, skipping, skip);
              src.FromKind(pos);
              src.NoneAbove(pos);
              valid := true;
              return;
            }
          case Merge =>
            if !(skipping && e.key <= skip) {
              src.FirstVisible(pos, from, skipping, skip);
              MergeForward(from);
              return;
            }
        }
        src.PassEntry(pos, from, skipping, skip);
        pos := pos + 1;
      }
      src.SearchEnds(from, skipping, skip);
      valid := false;
    }

    /** What the backward scan has collected. */
    function Collected(hasBase: bool, operands: seq<Value>): Content
      reads this
    {
      Content(if hasBase then Some(savedValue) else None, operands)
    }

    /** The variables of the backward scan agree with each other. */
    predicate Coherent(kind: Kind, hasBase: bool, operands: seq<Value>) {
      && (kind == Deletion <==> operands == [] && !hasBase)
      && (kind == Put ==> operands == [] && hasBase)
    }

    /** One visible entry of the backward scan, newer than those of its key before. */
    method Absorb(kind0: Kind, hasBase0: bool, operands0: seq<Value>, ghost to: Bound)
      returns (kind: Kind, hasBase: bool, operands: seq<Value>)
      requires src.Valid() && 0 <= pos < |src.entries| && src.entries[pos].sn <= src.r
      requires Coherent(kind0, hasBase0, operands0)
      requires kind0 == Deletion || savedKey <= src.entries[pos].key
      requires src.Scanning(pos, to, kind0, savedKey, Collected(hasBase0, operands0))
      modifies this`savedKey, this`savedValue
      ensures Coherent(kind, hasBase, operands)
      ensures src.Scanning(pos - 1, to, kind, savedKey, Collected(hasBase, operands))
    {
      var e := src.entries[pos];
      src.ScanVisible(pos, to, kind0, savedKey, Collected(hasBase0, operands0));
      match src.EffectiveKind(e)
      case Deletion =>
        return Deletion, false, [];
      case Put =>
        savedKey, savedValue := e.key, e.value;
        return Put, true, [];
      case Merge =>
        if kind0 == Deletion {
          savedKey := e.key;
          assert Push(ABSENT, [e.value]) == Content(None, [e.value]);
          return Merge, false, [e.value];
        }
        return Merge, hasBase0, operands0 + [e.value];
    }

    /** Move to the last key that exists among the entries up to the cursor. */
    method FindPrevUserEntry(ghost to: Bound)
      requires src.Valid() && !forward && -1 <= pos < |src.entries|
      requires src.Scanning(pos, to, Deletion, savedKey, ABSENT)
      modifies this
      ensures Valid() && LandedLast(to, old(status))
    {
      hide Source.Scanning, Source.Scanned, LandedLast;
      var kind, hasBase, operands := Deletion, false, [];
      merged := false;
      while 0 <= pos
        invariant -1 <= pos < |src.entries| && !forward && !merged && status == old(status)
        invariant Coherent(kind, hasBase, operands)
        invariant src.Scanning(pos, to, kind, savedKey, Collected(hasBase, operands))
        decreases pos
      {
        if src.entries[pos].sn <= src.r {
          if kind != Deletion && src.entries[pos].key < savedKey {
            break;  // a key with a value is complete
          }
          kind, hasBase, operands := Absorb(kind, hasBase, operands, to);
        } else {
          src.ScanInvisible(pos, to, kind, savedKey, Collected(hasBase, operands));
        }
        pos := pos - 1;
      }
      src.ScanEnds(pos, to, kind, savedKey, Collected(hasBase, operands));
      Conclude(kind, hasBase, operands, to);
    }

    /** The end of the backward scan, when operands were collected: fold them. */
    method ConcludeMerge(hasBase: bool, operands: seq<Value>, ghost to: Bound)
      requires src.Valid() && !forward && !merged && operands != [] && -1 <= pos < |src.entries|
      requires src.At(savedKey) == Collected(hasBase, operands)
      requires to.Admits(savedKey) && NoneAfter(to, savedKey)
      requires forall j | 0 <= j <= pos :: src.entries[j].key < savedKey
      requires forall j | pos < j < |src.entries| && src.entries[j].key < savedKey :: src.entries[j].sn > src.r
      requires pos >= 0 ==> src.entries[pos].sn <= src.r
      modifies this`valid, this`savedValue, this`status
      ensures Valid() && LandedLast(to, old(status))
    {
      var base := if hasBase then Some(savedValue) else None;
      valid := FullMerge(savedKey, base, operands);
      assert !valid ==> Failed(savedKey);
    }

    /** The end of the backward scan. */
    method Conclude(kind: Kind, hasBase: bool, operands: seq<Value>, ghost to: Bound)
      requires src.Valid() && !forward && !merged && Coherent(kind, hasBase, operands)
      requires src.Scanned(pos, to, kind, savedKey, Collected(hasBase, operands))
      requires kind != Deletion && pos >= 0 ==> src.entries[pos].sn <= src.r
      modifies this`valid, this`forward, this`savedValue, this`status
      ensures Valid() && LandedLast(to, old(status))
    {
      if kind == Deletion {
        valid, forward := false, true;
      } else if operands != [] {
        ConcludeMerge(hasBase, operands, to);
      } else {
        valid := true;
      }
    }

    method SeekTo(target: Key)
      requires Valid()
      modifies this
      ensures Valid() && LandedFirst(AtLeast(target), old(status))
    {
      forward, merged := true, false;
      var i := Seek(src.entries, target, src.r);
      pos := i;
      src.SeekStarts(i, target);
      if pos < |src.entries| {
        FindNextUserEntry(false, target, AtLeast(target));
      } else {
        valid := false;
      }
    }

    method SeekToFirst()
      requires Valid()
      modifies this
      ensures Valid() && LandedFirst(Every, old(status))
    {
      forward, merged, pos := true, false, 0;
      src.FirstStarts();
      if pos < |src.entries| {
        FindNextUserEntry(false, 0.0, Every);
      } else {
        valid := false;
      }
    }

    method SeekToLast()
      requires Valid()
      modifies this
      ensures Valid() && LandedLast(Every, old(status))
    {
      forward, merged, pos := false, false, |src.entries| - 1;
      src.LastStarts(savedKey);
      FindPrevUserEntry(Every);
    }

    /** From the current key to the next one that exists, whichever way the iterator was moving. */
    method Next()
      requires Valid() && valid
      modifies this
      ensures Valid() && LandedFirst(MoreThan(old(CurrentKey())), old(status))
    {
      ghost var k := CurrentKey();
      if !forward {
        // A backward cursor stops short of the current key.
        forward := true;
        pos := pos + 1;
      } else if merged {
        // The fold has read the current key to its end.
        merged := false;
        savedKey := mergedKey;
      } else {
        savedKey := src.entries[pos].key;
        forall j | pos < j < |src.entries| ensures savedKey <= src.entries[j].key {
          src.Ascending(pos, j);
        }
        pos := pos + 1;
      }
      assert savedKey == k;
      src.NextStarts(pos, k);
      if pos >= |src.entries| {
        valid := false;
        return;
      }
      FindNextUserEntry(true, savedKey, MoreThan(k));
    }

    /** From the current key to the one before it that exists. */
    method Prev()
      requires Valid() && valid
      modifies this
      ensures Valid() && LandedLast(LessThan(old(CurrentKey())), old(status))
    {
      hide Source.Scanning;
      ghost var k := CurrentKey();
      if forward {
        if merged {
          merged := false;
          savedKey := mergedKey;
          if pos >= |src.entries| {
            pos := |src.entries| - 1;
          }
        } else {
          savedKey := src.entries[pos].key;
          forall j | pos < j < |src.entries| ensures src.entries[j].key >= savedKey {
            src.Ascending(pos, j);
          }
        }
        while 0 <= pos && src.entries[pos].key >= savedKey
          invariant -1 <= pos < |src.entries| && savedKey == k && src.Valid() && status == old(status)
          invariant forall j | pos < j < |src.entries| :: src.entries[j].key >= savedKey
          decreases pos
        {
          pos := pos - 1;
        }
        forall j | 0 <= j <= pos ensures src.entries[j].key < savedKey {
          src.Ascending(j, pos);
        }
        src.PrevStarts(pos, k, savedKey);
        if pos < 0 {
          src.NonePrev(LessThan(k), savedKey);
          valid := false;
          return;
        }
        forward := false;
      }
      src.PrevStarts(pos, k, savedKey);
      FindPrevUserEntry(LessThan(k));
    }

    /** f is the first entry of key k. */
    ghost predicate FirstEntry(f: nat, k: Key) {
      f < |src.entries| && src.entries[f].key == k && (f == 0 || src.entries[f - 1].key < k)
    }

    /**
     * The class comment puts a backward cursor right in front of its key's entries.
     * It stands there exactly if the key's first entry is the first of all, or the
     * reader sees the entry in front of it.
     */
    lemma JustBeforeIff(f: nat)
      requires Valid() && valid && !forward && FirstEntry(f, CurrentKey())
      ensures pos == f - 1 <==> f == 0 || src.entries[f - 1].sn <= src.r
    {
    }

    /** A current key has a first entry. */
    lemma HasFirstEntry() returns (f: nat)
      requires Valid() && valid && !forward
      ensures FirstEntry(f, CurrentKey())
    {
      var k := savedKey;
      if forall j | 0 <= j < |src.entries| :: src.entries[j].key != k || src.entries[j].sn > src.r {
        src.NoEntriesAbsent(k);
      }
      f :| 0 <= f < |src.entries| && src.entries[f].key == k;
      while f > 0 && src.entries[f - 1].key == k
        invariant f < |src.entries| && src.entries[f].key == k
      {
        f := f - 1;
      }
      if f > 0 {
        src.Ascending(f - 1, f);
      }
    }
  }

  /** Key 1 written after the reader's snapshot, in front of a key the reader sees. */
  const UNSEEN_IN_FRONT: Source :=
    Source([Entry(1.0, 9, Put, "new"), Entry(2.0, 3, Put, "old")], [], 5, None)

  lemma UnseenInFront()
    ensures UNSEEN_IN_FRONT.Valid() && UNSEEN_IN_FRONT.Out(2.0) == Found("old")
    ensures forall k: Key | k != 2.0 :: !UNSEEN_IN_FRONT.Exists(k)
  {
    var src := UNSEEN_IN_FRONT;
    forall k: Key ensures src.At(k) == if k == 2.0 then Content(Some("old"), []) else ABSENT {
      src.FromStep(0, k);
      src.FromStep(1, k);
      src.EndsAt(2, k);
      src.StartAt(0, k);
    }
  }

  /** A backward cursor there is on key 2, whose only entry is at 1, and stands not at 0 but before the first entry. */
  lemma NeverJustBefore(it: DBIter)
    requires it.Valid() && it.valid && !it.forward && it.src == UNSEEN_IN_FRONT
    ensures it.CurrentKey() == 2.0 && it.FirstEntry(1, 2.0) && it.pos == -1
  {
    UnseenInFront();
    assert it.src.Exists(it.CurrentKey());
    assert it.src.entries[1].key == 2.0 && it.src.entries[0].sn == 9;
    assert it.pos < 1 && it.pos != 0;
  }

  /** And SeekToLast puts one there. */
  method SeekPastUnseen() returns (it: DBIter)
    ensures fresh(it) && it.Valid() && it.src == UNSEEN_IN_FRONT && it.valid && !it.forward && it.pos == -1
  {
    UnseenInFront();
    it := new DBIter(UNSEEN_IN_FRONT);
    it.SeekToLast();
    assert it.src.Exists(2.0) && Every.Admits(2.0);
    assert forall k | it.Failed(k) :: it.src.Exists(k);
    NeverJustBefore(it);
  }
}
