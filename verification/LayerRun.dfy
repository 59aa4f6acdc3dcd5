/**
 * The layers of a family over a whole run of writes, flushes and compactions: the layer
 * order is kept, and whoever reads at a snapshot reads the same from first to last.
 */
module LayerRuns {
  import opened Core
  import opened Visibility
  import opened Layers
  import opened CompactGroups
  import opened CompactionTheorems
  import opened CompactionOutputs
  import opened Compactions
  import opened LayerSteps
  import opened LayerMoves
  import opened LayerCompactions
  import opened RangeDelViews
  import opened Lookup

  // ---- Runs ----

  /** The layers of a family, and the last sequence number given out. */
  datatype Db = Db(layers: seq<Part>, last: SeqNo)
  {
    ghost predicate Valid() {
      InOrder(layers, last)
    }
  }

  datatype Step =
    | Write(w: Part)
    | OpenPlace(at: nat)
    | ClosePlace(at: nat)
    | Move(i: nat, q: nat, moved: Part, rest: Part)
    | Compact(plan: Plan, kept: seq<Tombstone>, outs: seq<Output>, c: Part)
  {
    /** A compaction knows of the snapshot: it is registered, or no older than all of the inputs. */
    ghost predicate Spares(r: SeqNo) {
      Compact? ==> plan.job.Live(r)
    }

    ghost predicate Takes(mop: Option<MergeOperator>, d: Db, d': Db) {
      match this
      case Write(w) => Writes(d.layers, d.last, w, d'.layers, d'.last)
      case OpenPlace(at) => Makes(d.layers, at, d'.layers) && d'.last == d.last
      case ClosePlace(at) => Makes(d'.layers, at, d.layers) && d'.last == d.last
      case Move(i, q, moved, rest) => Moves(d.layers, i, q, moved, rest, d'.layers) && d'.last == d.last
      case Compact(plan, kept, outs, c) =>
        && d.layers == plan.Before() && plan.job.last <= d.last && plan.Fits(mop)
        && plan.Yields(kept, outs, c) && d'.layers == plan.After(c) && d'.last == d.last
    }
  }

  /** Every step keeps the layer order, and no reader at a spared snapshot notices it. */
  lemma StepRepeats(mop: Option<MergeOperator>, d: Db, s: Step, d': Db, k: Key, r: SeqNo)
    requires d.Valid() && s.Takes(mop, d, d') && s.Spares(r) && r <= d.last
    ensures d'.Valid() && d.last <= d'.last
    ensures ReadAll(mop, d'.layers, k, r) == ReadAll(mop, d.layers, k, r)
  {
    hide ReadAll, InOrder, Writes, Makes, Moves, Plan.Yields;
    match s
    case Write(w) =>
      WriteKeepsOrder(d.layers, d.last, w, d'.layers, d'.last);
      WriteUnnoticed(mop, d.layers, d.last, w, d'.layers, d'.last, k, r);
      WriteCounts(d.layers, d.last, w, d'.layers, d'.last);
    case OpenPlace(at) =>
      PlaceKeepsOrder(d.layers, d.last, at, d'.layers);
      PlaceUnnoticed(mop, d.layers, at, d'.layers, k, r);
    case ClosePlace(at) =>
      PlaceKeepsOrder(d'.layers, d.last, at, d.layers);
      PlaceUnnoticed(mop, d'.layers, at, d.layers, k, r);
    case Move(i, q, moved, rest) =>
      MoveKeepsOrder(d.layers, d.last, i, q, moved, rest, d'.layers);
      MoveUnnoticed(mop, d.layers, i, q, moved, rest, d'.layers, k, r);
    case Compact(plan, kept, outs, c) =>
      CompactKeepsOrder(plan, d.last, kept, outs, c);
      CompactUnseen(mop, plan, d.last, kept, outs, c, k, r);
  }

  lemma WriteCounts(ps: seq<Part>, last: SeqNo, w: Part, qs: seq<Part>, last': SeqNo)
    requires Writes(ps, last, w, qs, last')
    ensures last <= last'
  {
  }

  ghost predicate Run(mop: Option<MergeOperator>, dbs: seq<Db>, steps: seq<Step>) {
    |dbs| == |steps| + 1 && forall i | 0 <= i < |steps| :: steps[i].Takes(mop, dbs[i], dbs[i + 1])
  }

  /**
   * Repeatable reads: through any run, a reader at a snapshot taken at its start finds
   * what it found then, for every key.
   */
  lemma {:induction false} SnapshotRepeats(mop: Option<MergeOperator>, dbs: seq<Db>, steps: seq<Step>, n: nat, k: Key,
                                           r: SeqNo)
    requires Run(mop, dbs, steps) && dbs[0].Valid() && r <= dbs[0].last
    requires (forall i | 0 <= i < |steps| :: steps[i].Spares(r)) && n <= |steps|
    ensures dbs[n].Valid() && r <= dbs[n].last
    ensures ReadAll(mop, dbs[n].layers, k, r) == ReadAll(mop, dbs[0].layers, k, r)
  {
    if n > 0 {
      hide ReadAll, Db.Valid, Step.Takes;
      SnapshotRepeats(mop, dbs, steps, n - 1, k, r);
      assert steps[n - 1].Takes(mop, dbs[n - 1], dbs[n - 1 + 1]);
      StepRepeats(mop, dbs[n - 1], steps[n - 1], dbs[n], k, r);
    }
  }

  /** The outputs and what stays in the output level have no key in common, so there is a level that holds both. */
  lemma OutputsMerge(p: Plan, kept: seq<Tombstone>, outs: seq<Output>) returns (c: Part)
    requires p.Divided() && p.Complete() && p.Collected() && Sorted(p.input) && Real(p.job, p.input)
    requires forall t :: t in kept ==> t in p.job.inputs
    requires Finished(outs, kept) && Written(outs) == CompactAll(p.job, p.files, p.input)
    ensures Joins(c, Part(Written(outs), Pieces(outs)), p.rest[|p.rest| - 1])
  {
    hide Sorted, Written, Pieces, Finished, CompactAll, Joins, EntryAt, TombAt, EntryIn, TombIn;
    var m := |p.rest| - 1;
    OutputSorted(p.job, p.files, p.input);
    forall x, y | x in Written(outs) && y in p.rest[m].entries ensures x.key != y.key {
      var e := OutputOf(p.job, p.files, p.input, x);
      var i :| 0 <= i < |p.taken| && e in p.taken[i].entries;
      EntrySays(p.taken[i], e);
      EntrySays(p.rest[m], y);
    }
    c := MergeJoins(Part(Written(outs), Pieces(outs)), p.rest[m]);
  }

  /** DoCompactionWork, whatever ends its files: with its outputs next to what stays, the compaction is a step. */
  method CompactStep(job: Job, files: seq<Span>, input: seq<Entry>, stop: nat -> bool, full: nat -> bool,
                     ghost d: Db, ghost p: Plan)
    returns (outs: seq<Output>)
    requires p.Fits(job.mop) && p.job == job && p.files == files && p.input == input && d.layers == p.Before()
    requires job.last <= d.last && job.last < MAX_SEQ && forall t :: t in job.inputs ==> t.begin < t.end
    ensures exists kept, c :: Compact(p, kept, outs, c).Takes(job.mop, d, Db(p.After(c), d.last))
  {
    hide Joins, Finished, Pieces, Written, CompactAll, MergeLaws;
    var kept;
    outs, kept := DoCompactionWork(job, files, input, stop, full);
    ghost var c := OutputsMerge(p, kept, outs);
    assert Compact(p, kept, outs, c).Takes(job.mop, d, Db(p.After(c), d.last));
  }

  // ---- Point reads over the layers of a run ----

  /** The reader stands on these layers; nothing is asked about the order between them. */
  ghost predicate Shows(reader: Reader, ps: seq<Part>) {
    && |reader.layers| == |ps| >= FIRST_TABLE_LAYER
    && (forall t: Tombstone, k: Key | t.Covers(k) :: t in reader.ts <==> t in AllTombs(ps))
    && (forall i | 0 <= i < |ps| :: reader.layers[i].entries == ps[i].entries && reader.layers[i].Valid())
    && (!reader.hasImm ==> ps[LAYER_IMM].entries == [])
  }

  lemma ShownRead(reader: Reader, ps: seq<Part>, k: Key, r: SeqNo)
    requires Shows(reader, ps)
    ensures Read(reader.mop, AllEntries(ps), reader.ts, k, r) == ReadAll(reader.mop, ps, k, r)
  {
    hide Fold, AllEntries, AllTombs;
    forall s: SeqNo ensures Hidden(reader.ts, k, s, r) == Hidden(AllTombs(ps), k, s, r) {
    }
    HideAlike(AllEntries(ps), reader.ts, AllTombs(ps), k, r, ABSENT);
  }

  /** DBImpl::Get over layers in order. */
  method GetShown(reader: Reader, ghost d: Db, k: Key, r: SeqNo) returns (o: Outcome)
    requires Shows(reader, d.layers) && d.Valid() && Views(reader.view, reader.ts)
    ensures o == ReadAll(reader.mop, d.layers, k, r)
  {
    hide LayerOrder, InOrder, AllTombs, AllEntries, Layer.Valid, Read;
    GivesLayerOrder(d.layers, d.last, reader.layers);
    SameCovering(reader.layers, AllTombs(d.layers), reader.ts);
    o := reader.Get(k, r);
    ShownRead(reader, d.layers, k, r);
  }

  /** Point reads at a snapshot, early and late in a run, agree. */
  method GetTwice(early: Reader, late: Reader, ghost dbs: seq<Db>, ghost steps: seq<Step>, k: Key, r: SeqNo)
    returns (first: Outcome, second: Outcome)
    requires early.mop == late.mop && Run(early.mop, dbs, steps) && dbs[0].Valid() && r <= dbs[0].last
    requires forall i | 0 <= i < |steps| :: steps[i].Spares(r)
    requires Shows(early, dbs[0].layers) && Shows(late, dbs[|steps|].layers)
    requires Views(early.view, early.ts) && Views(late.view, late.ts)
    ensures first == second == ReadAll(early.mop, dbs[0].layers, k, r)
  {
    hide Shows, Db.Valid, Step.Takes, ReadAll, Step.Spares;
    SnapshotRepeats(early.mop, dbs, steps, |steps|, k, r);
    first := GetShown(early, dbs[0], k, r);
    second := GetShown(late, dbs[|steps|], k, r);
  }
}
