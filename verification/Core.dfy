/**
 * What every part of the engine shares: user keys, sequence numbers, entries of
 * the main key stream, range tombstones, and the two ways of asking whether a
 * tombstone hides an entry (the rule of the specification, and a naive scan).
 */
module Core {

  datatype Option<+T> = None | Some(value: T)

  /**
   * User keys.  The engine takes any comparator on byte strings, that is, any
   * strict total order on a countable set.  Every such order embeds in the
   * reals, and all properties below speak about all keys and all finite sets of
   * keys, so proving them for real keys proves them for every comparator.
   */
  type Key = real

  /** Sequence numbers of writes are at least 1; 0 means "no tombstone". */
  type SeqNo = nat

  type Value = string

  /** What a read or an iterator reports besides a value. */
  datatype Status = Success | NotFoundStatus | InvalidArgument | Corruption

  /** kMaxSequenceNumber: sequence numbers take 56 bits of an internal key. */
  const MAX_SEQ: SeqNo := 0xFF_FFFF_FFFF_FFFF

  /** kAllLayers: a layer bound above every layer. */
  const ALL_LAYERS: nat := 0x4000_0000

  /** The entry types of a memtable's or table's main key stream. */
  datatype Kind = Deletion | Put | Merge

  datatype Entry = Entry(key: Key, sn: SeqNo, kind: Kind, value: Value)

  /** A tombstone [begin, end)@seq; the layer says how old its home is. */
  datatype Tombstone = Tombstone(begin: Key, end: Key, sn: SeqNo, layer: nat)
  {
    predicate Covers(k: Key) {
      begin <= k < end
    }

    /** Covers k, was written at or before r, and lives in a layer newer than `below`. */
    predicate Applies(k: Key, r: SeqNo, below: nat) {
      Covers(k) && sn <= r && layer < below
    }
  }

  const MAX_64: nat := 0xFFFF_FFFF_FFFF_FFFF

  lemma Associate<T>(a: seq<T>, b: seq<T>, c: seq<T>)
    ensures a + b + c == a + (b + c)
  {
  }

  function Max(a: nat, b: nat): nat {
    if a < b then b else a
  }

  /**
   * The visibility rule: an entry of k written at s is hidden from a reader at r
   * iff some tombstone covering k has a sequence number t with s < t <= r.
   */
  ghost predicate Hidden(ts: seq<Tombstone>, k: Key, s: SeqNo, r: SeqNo) {
    exists t :: t in ts && t.Covers(k) && s < t.sn <= r
  }

  /** The largest sequence number among the tombstones that apply, or 0: one scan over all of them. */
  function NaiveMax(ts: seq<Tombstone>, k: Key, r: SeqNo, below: nat): SeqNo {
    if ts == [] then 0
    else
      var rest := NaiveMax(ts[1..], k, r, below);
      if ts[0].Applies(k, r, below) then Max(ts[0].sn, rest) else rest
  }

  /** NaiveMax is an upper bound of the tombstones that apply, and is attained unless it is 0. */
  lemma {:induction false} NaiveMaxIsMaximum(ts: seq<Tombstone>, k: Key, r: SeqNo, below: nat)
    ensures forall t :: t in ts && t.Applies(k, r, below) ==> t.sn <= NaiveMax(ts, k, r, below)
    ensures NaiveMax(ts, k, r, below) != 0 ==>
              exists t :: t in ts && t.Applies(k, r, below) && t.sn == NaiveMax(ts, k, r, below)
  {
    if ts != [] {
      NaiveMaxIsMaximum(ts[1..], k, r, below);
      var rest := NaiveMax(ts[1..], k, r, below);
      if NaiveMax(ts, k, r, below) != 0 {
        if ts[0].Applies(k, r, below) && ts[0].sn >= rest {
          assert ts[0] in ts;
        } else {
          var t :| t in ts[1..] && t.Applies(k, r, below) && t.sn == rest;
          assert t in ts;
        }
      }
    }
  }

  /** Any number with the two defining properties of the maximum is NaiveMax. */
  lemma NaiveMaxUnique(ts: seq<Tombstone>, k: Key, r: SeqNo, below: nat, m: SeqNo)
    requires forall t :: t in ts && t.Applies(k, r, below) ==> t.sn <= m
    requires m != 0 ==> exists t :: t in ts && t.Applies(k, r, below) && t.sn == m
    ensures m == NaiveMax(ts, k, r, below)
  {
    NaiveMaxIsMaximum(ts, k, r, below);
  }

  /** No tombstone reaches kAllLayers, so that bound filters nothing. */
  ghost predicate LayersBounded(ts: seq<Tombstone>) {
    forall t :: t in ts ==> t.layer < ALL_LAYERS
  }

  /** Comparing the naive maximum with the entry's number decides the visibility rule. */
  lemma HiddenIffMaxAbove(ts: seq<Tombstone>, k: Key, s: SeqNo, r: SeqNo)
    requires LayersBounded(ts)
    ensures Hidden(ts, k, s, r) <==> NaiveMax(ts, k, r, ALL_LAYERS) > s
  {
    NaiveMaxIsMaximum(ts, k, r, ALL_LAYERS);
    var m := NaiveMax(ts, k, r, ALL_LAYERS);
    if m > s {
      var t :| t in ts && t.Applies(k, r, ALL_LAYERS) && t.sn == m;
    }
    if Hidden(ts, k, s, r) {
      var t :| t in ts && t.Covers(k) && s < t.sn <= r;
      assert t.Applies(k, r, ALL_LAYERS);
    }
  }
}
