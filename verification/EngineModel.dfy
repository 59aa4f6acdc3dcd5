/**
 * The engine and the harness's model over a whole run: whatever is written, switched,
 * flushed, moved and compacted, a reader at a live snapshot finds what the model held
 * when as many writes had been made.
 */
module EngineModels {
  import opened Core
  import opened Visibility
  import opened Layers
  import opened CompactionTheorems
  import opened LayerSteps
  import opened LayerMoves
  import opened LayerCompactions
  import opened LayerRuns
  import opened Lookup
  import E = EagerModels

  /** The batch w holds a family's part of the writes numbered last + 1 to last'. */
  ghost predicate Carries(w: Part, ws: seq<E.Write>, f: nat, base: SeqNo, last: SeqNo, last': SeqNo) {
    && base <= last <= last' <= base + |ws|
    && var batch := ws[last - base..last' - base];
       && (forall e: Entry :: e in w.entries <==> e in E.Entries(batch, f, last))
       && (forall t: Tombstone, k: Key | t.Covers(k) :: t in w.tombs <==> t in E.Tombstones(batch, f, last))
  }

  // ---- A key's part of a batch ----

  /** Entries of a batch have numbers of their own, newest first. */
  lemma {:induction false} EntriesDescend(ws: seq<E.Write>, f: nat, base: SeqNo)
    ensures Descending(E.Entries(ws, f, base))
  {
    if ws != [] {
      EntriesDescend(ws[..|ws| - 1], f, base);
      E.NumbersInRange(ws[..|ws| - 1], f, base);
      var older := E.Entries(ws[..|ws| - 1], f, base);
      assert forall j | 0 <= j < |older| :: older[j] in older;
    }
  }

  lemma {:induction false} PartDescends(es: seq<Entry>, k: Key)
    requires Descending(es)
    ensures Descending(OfKey(es, k))
  {
    if es != [] {
      PartDescends(es[1..], k);
      var part := OfKey(es[1..], k);
      OfKeyMembers(es[1..], k);
      forall j | 0 <= j < |part| ensures es[0].sn > part[j].sn {
        assert part[j] in es[1..];
        var i :| 0 <= i < |es[1..]| && es[1..][i] == part[j];
        assert es[i + 1] == part[j];
      }
    }
  }

  /** In the memtable a batch's entries of a key stand in front, newest first, as they were written. */
  lemma BatchOnKey(ps: seq<Part>, w: Part, qs: seq<Part>, ws: seq<E.Write>, f: nat, base: SeqNo, last: SeqNo,
                   last': SeqNo, k: Key)
    requires Writes(ps, last, w, qs, last') && Carries(w, ws, f, base, last, last')
    ensures OnKey(qs, k) == OfKey(E.Entries(ws[last - base..last' - base], f, last) + AllEntries(ps), k)
  {
    hide EntryAt, TombAt, OfKey, AllEntries, E.Entries, E.Tombstones, Tidy, Fresh, Sorted;
    var es := E.Entries(ws[last - base..last' - base], f, last);
    WriteOnKey(ps, last, w, qs, last', k);
    SortedDescends(qs[0].entries, k);
    assert Joins(qs[0], w, ps[0]);
    var front := OfKey(w.entries, k);
    forall i, j | 0 <= i < j < |front| ensures front[i].sn > front[j].sn {
      var all := OfKey(qs[0].entries, k);
      assert all == front + OfKey(ps[0].entries, k) && all[i] == front[i] && all[j] == front[j];
    }
    EntriesDescend(ws[last - base..last' - base], f, last);
    PartDescends(es, k);
    OfKeyMembers(w.entries, k);
    OfKeyMembers(es, k);
    OneWay(front, OfKey(es, k));
    OfKeyConcat(es, AllEntries(ps), k);
  }

  lemma BatchHides(ps: seq<Part>, w: Part, qs: seq<Part>, ws: seq<E.Write>, f: nat, base: SeqNo, last: SeqNo,
                   last': SeqNo,
                   k: Key, s: SeqNo, r: SeqNo)
    requires Writes(ps, last, w, qs, last') && Carries(w, ws, f, base, last, last')
    ensures HiddenIn(qs, k, s, r) ==
            Hidden(AllTombs(ps) + E.Tombstones(ws[last - base..last' - base], f, last), k, s, r)
  {
    hide EntryAt, TombAt, Sorted, OfKey, Tidy, Fresh, E.Entries, E.Tombstones, AllTombs, Hidden;
    var ts := E.Tombstones(ws[last - base..last' - base], f, last);
    HiddenConcat(AllTombs(ps), ts, k, s, r);
    AllTombsHide(ps, k, s, r);
    forall t: Tombstone | t.Covers(k) ensures HasTomb(qs, t) <==> HasTomb(ps, t) || t in ts {
      WriteTombs(ps, last, w, qs, last', t);
    }
    TombsTogether(ps, qs, ts, k, s, r);
  }

  lemma TombsTogether(ps: seq<Part>, qs: seq<Part>, ts: seq<Tombstone>, k: Key, s: SeqNo, r: SeqNo)
    requires forall t: Tombstone | t.Covers(k) :: HasTomb(qs, t) <==> HasTomb(ps, t) || t in ts
    ensures HiddenIn(qs, k, s, r) == (HiddenIn(ps, k, s, r) || Hidden(ts, k, s, r))
  {
    hide HasTomb;
  }

  // ---- Reading after a write ----

  /** After a write, a reader at any of its numbers reads as the model does. */
  lemma WriteIsEager(mop: MergeOperator, ps: seq<Part>, w: Part, qs: seq<Part>, last: SeqNo, last': SeqNo,
                     ws: seq<E.Write>, f: nat, base: SeqNo, k: Key, r: SeqNo)
    requires FullMergeSplits(mop) && E.AllMerge(mop, ws) && InOrder(ps, last)
    requires Writes(ps, last, w, qs, last') && Carries(w, ws, f, base, last, last') && last <= r <= last'
    requires ReadAll(Some(mop), ps, k, last) == E.AsOutcome(E.ValueAt(E.Eager(mop, ws[..last - base], f), k))
    ensures ReadAll(Some(mop), qs, k, r) == E.AsOutcome(E.ValueAt(E.Eager(mop, ws[..r - base], f), k))
  {
    hide EntryAt, TombAt, OfKey, AllEntries, E.Entries, E.Tombstones, E.Eager, AllTombs, Fold, Hidden, HiddenIn,
      Finish, FullMergeSplits, E.AsOutcome, E.AllMerge, Writes, Joins;
    var lo, batch := last - base, ws[last - base..last' - base];
    var es, ts, n := AllEntries(ps), AllTombs(ps), r - last;
    BatchOnKey(ps, w, qs, ws, f, base, last, last', k);
    forall s: SeqNo ensures HiddenIn(qs, k, s, r) == Hidden(ts + E.Tombstones(batch, f, last), k, s, r) {
      BatchHides(ps, w, qs, ws, f, base, last, last', k, s, r);
    }
    ReadLike(Some(mop), qs, E.Entries(batch, f, last) + es, ts + E.Tombstones(batch, f, last), k, r);
    assert batch[..|batch|] == batch && ws[..lo] + batch[..n] == ws[..r - base];
    PartsNoNewer(ps, last, k);
    BatchMerges(mop, ws, lo, last' - base);
    E.WritesOnTop(mop, ws[..lo], batch, n, f, last, es, ts, k);
    E.LaterWrites(batch, n, |batch|, f, last, es, ts, k);
  }

  lemma BatchMerges(mop: MergeOperator, ws: seq<E.Write>, lo: nat, hi: nat)
    requires E.AllMerge(mop, ws) && lo <= hi <= |ws|
    ensures E.AllMerge(mop, ws[lo..hi])
  {
  }

  lemma PartsNoNewer(ps: seq<Part>, last: SeqNo, k: Key)
    requires InOrder(ps, last)
    ensures E.NoNewer(AllEntries(ps), AllTombs(ps), k, last)
  {
    hide EntryAt, TombAt, AllEntries, AllTombs, Sorted, NewerOn;
    var es := AllEntries(ps);
    assert OrderOn(ps, last, k);
    forall i | 0 <= i < |es| && es[i].key == k ensures es[i].sn <= last {
      EntryAmong(ps, es[i]);
    }
    forall t | t in AllTombs(ps) && t.Covers(k) ensures t.sn <= last {
      TombAmong(ps, t, k);
    }
  }

  // ---- Over a run ----

  /** The layers of a family that has just been created. */
  ghost predicate JustCreated(d: Db, base: SeqNo) {
    d.last == base && forall i | 0 <= i < |d.layers| :: d.layers[i] == EMPTY
  }

  lemma NothingYet(mop: MergeOperator, d: Db, f: nat, base: SeqNo, k: Key)
    requires JustCreated(d, base)
    ensures d.Valid() && d.last == base
    ensures ReadAll(Some(mop), d.layers, k, base) == E.AsOutcome(E.ValueAt(E.Eager(mop, [], f), k))
  {
    AllSilent(d.layers, k);
    ReadLike(Some(mop), d.layers, [], [], k, base);
  }

  /** The writes of the run are those of the scenario, in order. */
  ghost predicate Follows(dbs: seq<Db>, steps: seq<Step>, ws: seq<E.Write>, f: nat, base: SeqNo)
    requires |dbs| == |steps| + 1
  {
    forall i | 0 <= i < |steps| && steps[i].Write? :: Carries(steps[i].w, ws, f, base, dbs[i].last, dbs[i + 1].last)
  }

  /** Of the first n steps, every compaction that came after the snapshot knew of it. */
  ghost predicate Held(dbs: seq<Db>, steps: seq<Step>, n: nat, r: SeqNo)
    requires |dbs| == |steps| + 1 && n <= |steps|
  {
    forall i | 0 <= i < n && r < dbs[i].last :: steps[i].Spares(r)
  }

  /** A step that is not noticed at r. */
  lemma HeldStep(mop: MergeOperator, d: Db, s: Step, d': Db, k: Key, r: SeqNo)
    requires d.Valid() && s.Takes(Some(mop), d, d') && r <= d.last && (r < d.last ==> s.Spares(r))
    ensures d'.Valid() && d.last <= d'.last
    ensures ReadAll(Some(mop), d'.layers, k, r) == ReadAll(Some(mop), d.layers, k, r)
  {
    hide ReadAll, Db.Valid;
    assert s.Spares(r) by {
      hide Writes, Makes, Moves, Plan.Fits, Plan.Yields;
    }
    StepRepeats(Some(mop), d, s, d', k, r);
  }

  /** A step that gives out numbers is a write. */
  lemma Numbering(mop: MergeOperator, d: Db, s: Step, d': Db)
    requires s.Takes(Some(mop), d, d') && d.last < d'.last
    ensures s.Write? && Writes(d.layers, d.last, s.w, d'.layers, d'.last)
  {
    hide Writes, Makes, Moves, Plan.Fits, Plan.Yields;
  }

  lemma StepCounts(mop: MergeOperator, d: Db, s: Step, d': Db)
    requires s.Takes(Some(mop), d, d')
    ensures d.last <= d'.last
  {
    hide Makes, Moves, Plan.Fits, Plan.Yields;
  }

  lemma {:induction false} LastsGrow(mop: MergeOperator, dbs: seq<Db>, steps: seq<Step>, n: nat)
    requires Run(Some(mop), dbs, steps) && n <= |steps|
    ensures forall i | 0 <= i <= n :: dbs[i].last <= dbs[n].last
  {
    hide Step.Takes;
    if n > 0 {
      LastsGrow(mop, dbs, steps, n - 1);
      assert steps[n - 1].Takes(Some(mop), dbs[n - 1], dbs[n - 1 + 1]);
      StepCounts(mop, dbs[n - 1], steps[n - 1], dbs[n]);
    }
  }

  /**
   * The engine is the model: through any run of writes, switches, flushes, moves and
   * compactions, from the family's creation on, reading a key at a snapshot gives what
   * the model held when the snapshot was taken, for as long as the snapshot is held.
   */
  lemma {:induction false} RunIsEager(mop: MergeOperator, dbs: seq<Db>, steps: seq<Step>, n: nat,
                                      ws: seq<E.Write>, f: nat, base: SeqNo, k: Key, r: SeqNo)
    requires FullMergeSplits(mop) && E.AllMerge(mop, ws)
    requires Run(Some(mop), dbs, steps) && n <= |steps| && JustCreated(dbs[0], base) && Follows(dbs, steps, ws, f, base)
    requires base <= r <= dbs[n].last && Held(dbs, steps, n, r)
    ensures dbs[n].Valid() && dbs[n].last <= base + |ws|
    ensures ReadAll(Some(mop), dbs[n].layers, k, r) == E.AsOutcome(E.ValueAt(E.Eager(mop, ws[..r - base], f), k))
  {
    hide ReadAll, InOrder, Step.Takes, Step.Spares, FullMergeSplits, E.AllMerge, E.Eager, E.AsOutcome;
    if n == 0 {
      NothingYet(mop, dbs[0], f, base, k);
      assert ws[..0] == [];
    } else {
      var d, s, d' := dbs[n - 1], steps[n - 1], dbs[n - 1 + 1];
      assert s.Takes(Some(mop), d, d');
      var seen := if r <= d.last then r else d.last;
      LastsGrow(mop, dbs, steps, n - 1);
      assert Held(dbs, steps, n - 1, seen);
      RunIsEager(mop, dbs, steps, n - 1, ws, f, base, k, seen);
      HeldStep(mop, d, s, d', k, seen);
      if d.last < d'.last {
        Numbering(mop, d, s, d');
        assert Carries(s.w, ws, f, base, d.last, d'.last);
      }
      if r > d.last {
        WriteIsEager(mop, d.layers, s.w, d'.layers, d.last, d'.last, ws, f, base, k, r);
      }
    }
  }

  /** DBImpl::Get at a snapshot that is held, at the end of such a run. */
  method GetIsEager(reader: Reader, ghost dbs: seq<Db>, ghost steps: seq<Step>,
                    ghost ws: seq<E.Write>, ghost f: nat, ghost base: SeqNo, k: Key, r: SeqNo)
    returns (o: Outcome)
    requires reader.mop.Some? && FullMergeSplits(reader.mop.value) && E.AllMerge(reader.mop.value, ws)
    requires Run(reader.mop, dbs, steps) && JustCreated(dbs[0], base) && Follows(dbs, steps, ws, f, base)
    requires base <= r <= dbs[|steps|].last && Held(dbs, steps, |steps|, r)
    requires Shows(reader, dbs[|steps|].layers) && Views(reader.view, reader.ts)
    ensures base <= r <= base + |ws|
    ensures o == E.AsOutcome(E.ValueAt(E.Eager(reader.mop.value, ws[..r - base], f), k))
  {
    hide ReadAll, InOrder, Step.Takes, FullMergeSplits, E.AllMerge, E.Eager, E.AsOutcome, Shows, Carries;
    RunIsEager(reader.mop.value, dbs, steps, |steps|, ws, f, base, k, r);
    o := GetShown(reader, dbs[|steps|], k, r);
  }

  /** With all of the scenario's writes made, the newest read of every key is what the harness's map holds. */
  method GetMeetsModel(reader: Reader, models: E.ConfModels, ghost dbs: seq<Db>, ghost steps: seq<Step>,
                       f: nat, ghost base: SeqNo, k: Key, newest: SeqNo)
    returns (o: Outcome)
    requires models.Valid() && f < E.MAX_FAMILIES && reader.mop == Some(models.mop)
    requires FullMergeSplits(models.mop) && E.AllMerge(models.mop, E.Since(models.ops, f))
    requires Run(reader.mop, dbs, steps) && JustCreated(dbs[0], base)
    requires Follows(dbs, steps, E.Since(models.ops, f), f, base)
    requires newest == dbs[|steps|].last == base + |E.Since(models.ops, f)|
    requires Shows(reader, dbs[|steps|].layers) && Views(reader.view, reader.ts)
    ensures o == E.AsOutcome(E.ValueAt(models.m[f], k))
  {
    hide Step.Takes, FullMergeSplits, E.AllMerge, E.Eager, E.AsOutcome, Shows, Carries, Views, E.Since;
    ghost var ws := E.Since(models.ops, f);
    assert ws[..|ws|] == ws;
    LastsGrow(models.mop, dbs, steps, |steps|);
    o := GetIsEager(reader, dbs, steps, ws, f, base, k, newest);
  }
}
