/**
 * Point lookups: LookupState collects the entries of a key newest first until one
 * settles the value, and Get feeds it layer by layer, stopping as soon as a newer
 * layer's tombstone hides the rest.  The partner is the flat rule, Visibility.Read.
 */
module Lookup {
  import opened Core
  import opened Visibility
  import opened Layers
  import opened RangeDelViews

  /** How far a lookup has come: the operands collected, newest first, or the final answer. */
  datatype Progress = Open(ops: seq<Value>) | Settled(outcome: Outcome)
  {
    /** The answer if what is older than the entries fed so far resolves to c. */
    ghost function Answer(mop: Option<MergeOperator>, k: Key, c: Content): Outcome {
      match this
      case Open(ops) => Finish(mop, k, Push(c, Reversed(ops)))
      case Settled(o) => o
    }
  }

  /** Before anything is fed, the answer is that of what is there. */
  lemma NothingFed(mop: Option<MergeOperator>, k: Key, c: Content)
    ensures Open([]).Answer(mop, k, c) == Finish(mop, k, c)
  {
    assert Push(c, []) == c;
  }

  /** The view answers for exactly the tombstones ts; a null view means there are none. */
  ghost predicate Views(view: RangeDelView?, ts: seq<Tombstone>)
    reads if view != null then view.Repr else {}
  {
    LayersBounded(ts) && if view == null then ts == [] else view.Valid() && view.All() == ts
  }

  lemma NothingHides(k: Key, s: SeqNo, r: SeqNo)
    ensures !Hidden([], k, s, r)
  {
  }

  /** The visibility rule, asked of a view that may be null. */
  method Hides(view: RangeDelView?, ghost ts: seq<Tombstone>, k: Key, sn: SeqNo, r: SeqNo) returns (hidden: bool)
    requires Views(view, ts)
    ensures hidden <==> Hidden(ts, k, sn, r)
  {
    hide Hidden;
    NothingHides(k, sn, r);
    hidden := false;
    if view != null {
      hidden := view.Covers(k, sn, r);
    }
  }

  class LookupState {
    const key: Key
    const snapshot: SeqNo
    const mop: Option<MergeOperator>
    const view: RangeDelView?
    /** Newest first. */
    var operands: seq<Value>
    var done: bool
    var status: Status
    var value: Value

    constructor (key: Key, snapshot: SeqNo, mop: Option<MergeOperator>, view: RangeDelView?)
      ensures this.key == key && this.snapshot == snapshot && this.mop == mop && this.view == view
      ensures Progress() == Open([])
    {
      this.key, this.snapshot, this.mop, this.view := key, snapshot, mop, view;
      operands, done, status, value := [], false, Success, "";
    }

    function Result(): Outcome
      reads this
    {
      match status
      case Success => Found(value)
      case NotFoundStatus => NotFound
      case InvalidArgument => NoOperator
      case Corruption => Corrupt
    }

    function Progress(): Progress
      reads this
    {
      if done then Settled(Result()) else Open(operands)
    }

    /** One more entry of the key, older than those before; true when no older one can matter. */
    method Add(kind: Kind, sn: SeqNo, v: Value, ghost ts: seq<Tombstone>, ghost c: Content) returns (settled: bool)
      requires Views(view, ts) && sn <= snapshot && (view != null ==> this !in view.Repr)
      modifies this
      ensures settled == Progress().Settled?
      ensures Progress().Answer(mop, key, c) ==
              old(Progress()).Answer(mop, key, Step(Entry(key, sn, kind, v), ts, key, snapshot, c))
    {
      hide Hidden, NaiveMax, Views, Finish;
      if done {
        return true;
      }
      var k := kind;
      if k != Deletion {
        var hidden := Hides(view, ts, key, sn, snapshot);
        if hidden {
          k := Deletion;
        }
      }
      match k
      case Put =>
        Settle(Some(v));
        return true;
      case Deletion =>
        Settle(None);
        return true;
      case Merge =>
        ReversedAppend(operands, v);
        assert Push(Push(c, [v]), Reversed(operands)) == Push(c, Reversed(operands + [v]));
        operands := operands + [v];
        return false;
    }

    /** Nothing older is visible, which is what a deletion would mean. */
    method SettleDeleted()
      modifies this
      ensures Progress() == Settled(old(Progress()).Answer(mop, key, ABSENT))
    {
      if !done {
        Settle(None);
      }
    }

    /** Nothing older is left. */
    method Conclude() returns (o: Outcome)
      modifies this
      ensures o == old(Progress()).Answer(mop, key, ABSENT)
    {
      if !done {
        Settle(None);
      }
      o := Result();
    }

    method Settle(base: Option<Value>)
      requires !done
      modifies this
      ensures Progress() == Settled(old(Progress()).Answer(mop, key, Content(base, [])))
    {
      done := true;
      assert Push(Content(base, []), Reversed(operands)) == Content(base, Reversed(operands));
      if operands == [] {
        if base.None? {
          status := NotFoundStatus;
        } else {
          value, status := base.value, Success;
        }
        return;
      }
      if mop.None? {
        status := InvalidArgument;
        return;
      }
      var ops := Reversed(operands);
      match mop.value.full(key, base, ops)
      case Some(v) => value, status := v, Success;
      case None => status := Corruption;
    }
  }

  lemma SkippedSaysNothing(es: seq<Entry>, i: nat, ts: seq<Tombstone>, k: Key, r: SeqNo, c: Content)
    requires i <= |es| && forall j | 0 <= j < i :: es[j].key < k || (es[j].key == k && es[j].sn > r)
    ensures Fold(es[i..], ts, k, r, c) == Fold(es, ts, k, r, c)
  {
    assert es == es[..i] + es[i..];
    FoldConcat(es[..i], es[i..], ts, k, r, c);
    FoldNothing(es[..i], ts, k, r, Fold(es[i..], ts, k, r, c));
  }

  lemma PastSaysNothing(es: seq<Entry>, i: nat, ts: seq<Tombstone>, k: Key, r: SeqNo, c: Content)
    requires Sorted(es) && i <= |es| && (i == |es| || es[i].key > k)
    ensures Fold(es[i..], ts, k, r, c) == c
  {
    forall j | 0 <= j < |es[i..]| ensures es[i..][j].key != k {
      assert es[i..][j] == es[i + j];
      assert j == 0 || Before(es[i].key, es[i].sn, es[i + j].key, es[i + j].sn);
    }
    FoldNothing(es[i..], ts, k, r, c);
  }

  lemma FoldHead(es: seq<Entry>, i: nat, ts: seq<Tombstone>, k: Key, r: SeqNo, c: Content)
    requires i < |es|
    ensures Fold(es[i..], ts, k, r, c) == Step(es[i], ts, k, r, Fold(es[i + 1..], ts, k, r, c))
  {
    assert es[i..][1..] == es[i + 1..];
  }

  /**
   * Feed the visible entries of the key in one memtable or table, newest first,
   * until settled; c is what the layers below resolve to.
   */
  method FeedLayer(es: seq<Entry>, state: LookupState, ghost ts: seq<Tombstone>, ghost c: Content)
    returns (settled: bool)
    requires Sorted(es) && Views(state.view, ts) && (state.view != null ==> state !in state.view.Repr)
    modifies state
    ensures settled == state.Progress().Settled?
    ensures state.Progress().Answer(state.mop, state.key, c) ==
            old(state.Progress()).Answer(state.mop, state.key, Fold(es, ts, state.key, state.snapshot, c))
  {
    hide Fold, Sorted, Finish;
    ghost var k, r := state.key, state.snapshot;
    ghost var goal := state.Progress().Answer(state.mop, k, Fold(es, ts, k, r, c));
    var i: nat := Seek(es, state.key, state.snapshot);
    ghost var start := i;
    SkippedSaysNothing(es, i, ts, k, r, c);
    while i < |es| && es[i].key == state.key
      invariant start <= i <= |es|
      invariant Views(state.view, ts)
      invariant state.Progress().Answer(state.mop, k, Fold(es[i..], ts, k, r, c)) == goal
      decreases |es| - i
    {
      var e := es[i];
      FoldHead(es, i, ts, k, r, c);
      settled := state.Add(e.kind, e.sn, e.value, ts, Fold(es[i + 1..], ts, k, r, c));
      i := i + 1;
      if settled {
        return;
      }
    }
    PastSaysNothing(es, i, ts, k, r, c);
    settled := state.done;
  }

  /** The layers of one family as a read sees them. */
  class Reader {
    /** Layer 0: the memtable.  Layer 1: the one being flushed, if any.  Then level 0 newest first, then the levels. */
    const layers: seq<Layer>
    const hasImm: bool
    const view: RangeDelView?
    const mop: Option<MergeOperator>
    /** Every tombstone the view answers for. */
    ghost const ts: seq<Tombstone>

    constructor (layers: seq<Layer>, hasImm: bool, view: RangeDelView?, mop: Option<MergeOperator>,
                 ghost ts: seq<Tombstone>)
      ensures this.layers == layers && this.hasImm == hasImm && this.view == view && this.mop == mop && this.ts == ts
    {
      this.layers, this.hasImm, this.view, this.mop, this.ts := layers, hasImm, view, mop, ts;
    }

    ghost predicate Valid() {
      && |layers| >= FIRST_TABLE_LAYER
      && (forall i | 0 <= i < |layers| :: layers[i].Valid())
      && (!hasImm ==> layers[LAYER_IMM].entries == [])
      && LayerOrder(layers, ts)
    }

    /** The lookup consults this reader's view, and is no part of it. */
    ghost predicate Apart(state: LookupState) {
      state.view == view && (view != null ==> state !in view.Repr)
    }

    /** What the layers from i down say about the key. */
    ghost function Below(i: nat, k: Key, r: SeqNo): Content
      requires i <= |layers|
    {
      Resolve(Flatten(layers[i..]), ts, k, r)
    }

    lemma BelowStep(i: nat, k: Key, r: SeqNo)
      requires i < |layers|
      ensures Below(i, k, r) == Fold(layers[i].entries, ts, k, r, Below(i + 1, k, r))
    {
      assert layers[i..][1..] == layers[i + 1..];
      FoldConcat(layers[i].entries, Flatten(layers[i + 1..]), ts, k, r, ABSENT);
    }

    /** A layer that does not span the key changes nothing. */
    lemma SkipLayer(i: nat, k: Key, r: SeqNo)
      requires Valid() && i < |layers| && !(layers[i].smallest <= k <= layers[i].largest)
      ensures Below(i, k, r) == Below(i + 1, k, r)
    {
      BelowStep(i, k, r);
      OutsideSpan(layers[i], ts, k, r, Below(i + 1, k, r));
    }

    lemma NothingBelow(k: Key, r: SeqNo)
      ensures Below(|layers|, k, r) == ABSENT
    {
      assert layers[|layers|..] == [];
    }

    /** Whether newer layers' tombstones leave anything to look for from this layer on. */
    method HiddenBelowLayer(state: LookupState, layer: nat) returns (hidden: bool)
      requires Valid() && layer <= |layers| && Apart(state) && Views(view, ts)
      modifies state
      ensures hidden ==> state.Progress() ==
                         Settled(old(state.Progress()).Answer(state.mop, state.key,
                                                              Below(layer, state.key, state.snapshot)))
      ensures !hidden ==> unchanged(state)
    {
      hidden := false;
      if view != null {
        var m := view.MaxCovering(state.key, state.snapshot, layer);
        if m > 0 {
          HiddenBelow(layers, ts, layer, state.key, state.snapshot);
          state.SettleDeleted();
          hidden := true;
        }
      }
    }

    /** Version::Get's Match, for one layer: false means stop. */
    method MatchLayer(state: LookupState, layer: nat) returns (more: bool)
      requires Valid() && layer < |layers| && Apart(state) && Views(view, ts)
      modifies state
      ensures !more ==> state.Progress().Settled?
      ensures state.Progress().Answer(state.mop, state.key, Below(layer + 1, state.key, state.snapshot)) ==
              old(state.Progress()).Answer(state.mop, state.key, Below(layer, state.key, state.snapshot))
    {
      hide Below, LayerOrder, Finish;
      var hidden := HiddenBelowLayer(state, layer);
      if hidden {
        return false;
      }
      BelowStep(layer, state.key, state.snapshot);
      var settled := FeedLayer(layers[layer].entries, state, ts, Below(layer + 1, state.key, state.snapshot));
      return !settled;
    }

    /** The tables, newest first: the files that span the key, until the lookup is settled. */
    method GetFromTables(state: LookupState)
      requires Valid() && Apart(state) && Views(view, ts)
      modifies state
      ensures state.Progress().Answer(state.mop, state.key, ABSENT) ==
              old(state.Progress()).Answer(state.mop, state.key, Below(FIRST_TABLE_LAYER, state.key, state.snapshot))
    {
      hide Below, LayerOrder, Finish, Views, LookupState.Progress, Layer.Valid;
      ghost var k, r := state.key, state.snapshot;
      ghost var goal := state.Progress().Answer(state.mop, k, Below(FIRST_TABLE_LAYER, k, r));
      var layer: nat := FIRST_TABLE_LAYER;
      while layer < |layers|
        invariant FIRST_TABLE_LAYER <= layer <= |layers| && Views(view, ts)
        invariant state.Progress().Answer(state.mop, k, Below(layer, k, r)) == goal
      {
        if layers[layer].smallest <= state.key <= layers[layer].largest {
          var more := MatchLayer(state, layer);
          if !more {
            return;
          }
        } else {
          SkipLayer(layer, k, r);
        }
        layer := layer + 1;
      }
      NothingBelow(k, r);
    }

    /** The memtable being flushed, unless the memtable's tombstones hide everything below. */
    method GetFromImm(state: LookupState) returns (settled: bool)
      requires Valid() && hasImm && Apart(state) && Views(view, ts)
      modifies state
      ensures settled ==> state.Progress().Settled?
      ensures state.Progress().Answer(state.mop, state.key, Below(FIRST_TABLE_LAYER, state.key, state.snapshot)) ==
              old(state.Progress()).Answer(state.mop, state.key, Below(LAYER_IMM, state.key, state.snapshot))
    {
      hide Below, LayerOrder, Finish;
      settled := HiddenBelowLayer(state, LAYER_IMM);
      if !settled {
        BelowStep(LAYER_IMM, state.key, state.snapshot);
        settled := FeedLayer(layers[LAYER_IMM].entries, state, ts, Below(FIRST_TABLE_LAYER, state.key, state.snapshot));
      }
    }

    /** Without a memtable being flushed its layer is empty. */
    lemma NoImm(k: Key, r: SeqNo)
      requires Valid() && !hasImm
      ensures Below(LAYER_IMM, k, r) == Below(FIRST_TABLE_LAYER, k, r)
    {
      BelowStep(LAYER_IMM, k, r);
    }

    /** DBImpl::Get: what it answers is what the flat rule says over all layers and all tombstones. */
    method Get(k: Key, r: SeqNo) returns (o: Outcome)
      requires Valid() && Views(view, ts)
      ensures o == Read(mop, Flatten(layers), ts, k, r)
    {
      hide LayerOrder, Fold, Finish, Views, LookupState.Progress, Sorted;
      var state := new LookupState(k, r, mop, view);
      ghost var goal := Read(mop, Flatten(layers), ts, k, r);
      assert layers[0..] == layers;
      NothingFed(mop, k, Below(0, k, r));
      assert state.Progress().Answer(mop, k, Below(0, k, r)) == goal;
      BelowStep(LAYER_MEM, k, r);
      var settled := FeedLayer(layers[LAYER_MEM].entries, state, ts, Below(LAYER_IMM, k, r));
      assert state.Progress().Answer(mop, k, Below(LAYER_IMM, k, r)) == goal;
      if !settled && hasImm {
        settled := GetFromImm(state);
      } else if !hasImm {
        NoImm(k, r);
      }
      assert settled || state.Progress().Answer(mop, k, Below(FIRST_TABLE_LAYER, k, r)) == goal;
      if !settled {
        settled := HiddenBelowLayer(state, FIRST_TABLE_LAYER);
        if !settled {
          GetFromTables(state);
        }
      }
      o := state.Conclude();
    }
  }
}
