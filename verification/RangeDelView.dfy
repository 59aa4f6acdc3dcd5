/**
 * RangeDelView: the range tombstones of all layers, behind one interface.  The memtables
 * answer from their fragment maps, the tables from an index; together they answer
 * as one naive scan over every tombstone, each tagged with the layer it lives in.
 */
module RangeDelViews {
  import opened Core
  import Maps = RangeDelMaps
  import Indexes = RangeDelIndexes

  const LAYER_MEM: nat := 0
  const LAYER_IMM: nat := 1
  const FIRST_TABLE_LAYER: nat := 2

  /** The same tombstones in another layer. */
  function Relayer(ts: seq<Tombstone>, layer: nat): seq<Tombstone> {
    if ts == [] then [] else [ts[0].(layer := layer)] + Relayer(ts[1..], layer)
  }

  lemma {:induction false} NaiveMaxConcat(a: seq<Tombstone>, b: seq<Tombstone>, k: Key, r: SeqNo, below: nat)
    ensures NaiveMax(a + b, k, r, below) == Max(NaiveMax(a, k, r, below), NaiveMax(b, k, r, below))
  {
    if a == [] {
      assert a + b == b;
    } else {
      assert (a + b)[1..] == a[1..] + b;
      NaiveMaxConcat(a[1..], b, k, r, below);
    }
  }

  /** Tombstones of one layer are either all within the bound or all outside it. */
  lemma {:induction false} NaiveMaxRelayer(ts: seq<Tombstone>, layer: nat, k: Key, r: SeqNo, below: nat)
    requires forall t :: t in ts ==> t.layer < ALL_LAYERS
    ensures NaiveMax(Relayer(ts, layer), k, r, below) ==
            if layer < below then NaiveMax(ts, k, r, ALL_LAYERS) else 0
  {
    if ts != [] {
      NaiveMaxRelayer(ts[1..], layer, k, r, below);
    }
  }

  lemma {:induction false} NaiveMaxFar(ts: seq<Tombstone>, k: Key, r: SeqNo, below: nat)
    requires forall t :: t in ts ==> below <= t.layer
    ensures NaiveMax(ts, k, r, below) == 0
  {
    if ts != [] {
      NaiveMaxFar(ts[1..], k, r, below);
    }
  }

  /** Keys under the same tombstones get the same answer. */
  lemma {:induction false} NaiveMaxSame(ts: seq<Tombstone>, k: Key, k': Key, r: SeqNo, below: nat)
    requires forall t :: t in ts ==> (t.Covers(k) <==> t.Covers(k'))
    ensures NaiveMax(ts, k, r, below) == NaiveMax(ts, k', r, below)
  {
    if ts != [] {
      assert ts[0] in ts;
      NaiveMaxSame(ts[1..], k, k', r, below);
    }
  }

  class RangeDelView {
    const mem: Maps.RangeDelMap
    const imm: Maps.RangeDelMap?
    const tables: Indexes.RangeDelIndex?
    /** The objects an answer depends on. */
    ghost const Repr: set<object>

    constructor (mem: Maps.RangeDelMap, imm: Maps.RangeDelMap?, tables: Indexes.RangeDelIndex?)
      ensures this.mem == mem && this.imm == imm && this.tables == tables
      ensures mem in Repr && (imm != null ==> imm in Repr) && (tables != null ==> tables in Repr)
    {
      this.mem, this.imm, this.tables := mem, imm, tables;
      Repr := {mem} + (if imm != null then {imm} else {}) + (if tables != null then {tables} else {});
    }

    ghost predicate Valid()
      reads Repr
    {
      && mem in Repr && (imm != null ==> imm in Repr) && (tables != null ==> tables in Repr)
      && mem.Valid()
      && (imm != null ==> imm.Valid())
      && (tables != null ==>
            tables.Valid() && forall t :: t in tables.added ==> FIRST_TABLE_LAYER <= t.layer < ALL_LAYERS)
    }

    /** Every tombstone the read may meet, tagged with its layer. */
    ghost function All(): seq<Tombstone>
      requires Valid()
      reads Repr
    {
      Relayer(mem.added, LAYER_MEM)
      + (if imm != null then Relayer(imm.added, LAYER_IMM) else [])
      + (if tables != null then tables.added else [])
    }

    lemma AllMax(k: Key, r: SeqNo, below: nat)
      requires Valid()
      ensures NaiveMax(All(), k, r, below) ==
              Max(Max(if LAYER_MEM < below then NaiveMax(mem.added, k, r, ALL_LAYERS) else 0,
                      if imm != null && LAYER_IMM < below then NaiveMax(imm.added, k, r, ALL_LAYERS) else 0),
                  if tables != null then NaiveMax(tables.added, k, r, below) else 0)
    {
      var a := Relayer(mem.added, LAYER_MEM);
      var b := if imm != null then Relayer(imm.added, LAYER_IMM) else [];
      var c := if tables != null then tables.added else [];
      NaiveMaxConcat(a + b, c, k, r, below);
      NaiveMaxConcat(a, b, k, r, below);
      NaiveMaxRelayer(mem.added, LAYER_MEM, k, r, below);
      if imm != null {
        NaiveMaxRelayer(imm.added, LAYER_IMM, k, r, below);
      }
    }

    /**
     * The largest sequence number <= r among the tombstones of layers newer than
     * `below` that cover k, or 0.  A memtable without tombstones answers 0 by
     * itself, so the shortcut on its tombstone count needs no case here.
     */
    method MaxCovering(k: Key, r: SeqNo, below: nat) returns (best: SeqNo)
      requires Valid()
      ensures best == NaiveMax(All(), k, r, below)
    {
      AllMax(k, r, below);
      best := 0;
      if below > LAYER_MEM {
        var m := mem.MaxCovering(k, r);
        best := Max(best, m);
      }
      if below > LAYER_IMM && imm != null {
        var m := imm.MaxCovering(k, r);
        best := Max(best, m);
      }
      if tables != null {
        var m := tables.MaxCovering(k, r, below);
        best := Max(best, m);
      }
    }

    /** Is an entry of k written at sn hidden from readers at r? */
    method Covers(k: Key, sn: SeqNo, r: SeqNo) returns (hidden: bool)
      requires Valid() && LayersBounded(All())
      ensures hidden <==> Hidden(All(), k, sn, r)
    {
      HiddenIffMaxAbove(All(), k, sn, r);
      var m := MaxCovering(k, r, ALL_LAYERS);
      hidden := m > sn;
    }

    /**
     * If a tombstone of a layer newer than `below`, visible at r, covers k: an
     * interval around k all of whose keys are covered by such a tombstone.
     */
    method CoveredRange(k: Key, r: SeqNo, below: nat) returns (found: bool, b: Key, e: Key)
      requires Valid()
      ensures found <==> NaiveMax(All(), k, r, below) > 0
      ensures found ==> b <= k < e
      ensures found ==> forall k': Key :: b <= k' < e ==> NaiveMax(All(), k', r, below) > 0
    {
      AllMax(k, r, below);
      found, b, e := false, 0.0, 0.0;
      if below > LAYER_MEM {
        found, b, e := mem.CoveredRange(k, r);
        if found {
          Spread(mem.added, ALL_LAYERS, k, r, below, b, e);
          return;
        }
      }
      if below > LAYER_IMM && imm != null {
        found, b, e := imm.CoveredRange(k, r);
        if found {
          Spread(imm.added, ALL_LAYERS, k, r, below, b, e);
          return;
        }
      }
      if tables != null {
        found, b, e := tables.CoveredRange(k, r, below);
        if found {
          Spread(tables.added, below, k, r, below, b, e);
        }
      }
    }

    /** What holds at k holds over the whole interval that its source reported. */
    lemma Spread(ts: seq<Tombstone>, bound: nat, k: Key, r: SeqNo, below: nat, b: Key, e: Key)
      requires Valid()
      requires (ts == mem.added && bound == ALL_LAYERS && LAYER_MEM < below)
               || (imm != null && ts == imm.added && bound == ALL_LAYERS && LAYER_IMM < below)
               || (tables != null && ts == tables.added && bound == below)
      requires NaiveMax(ts, k, r, bound) > 0
      requires forall k': Key, t :: b <= k' < e && t in ts ==> (t.Covers(k') <==> t.Covers(k))
      ensures forall k': Key :: b <= k' < e ==> NaiveMax(All(), k', r, below) > 0
    {
      forall k': Key | b <= k' < e ensures NaiveMax(All(), k', r, below) > 0 {
        NaiveMaxSame(ts, k, k', r, bound);
        AllMax(k', r, below);
      }
    }
  }
}
