# Proofs about a LevelDB with range tombstones, merge operands and column families

This project models the engine changes in `solution/reference.patch` and the harness
in `tests/harness`, and proves what both are for.

**Reads and compaction.**  The state is a set of numbered entries (put, deletion,
merge operand) and range tombstones `[begin, end)@seq`.  `Visibility` states the
visibility rule over sets and proves that folding a key's entries newest first is its
only solution.  Everything else is measured against that fold:

- `RangeDelMaps`, `RangeDelIndexes`, `RangeDelViews`: the two data structures that
  answer "which tombstone covers this key", each equal to a scan over all tombstones;
- `LayerNumbers`, `Lookup`: the order of the layers and the point read with all its early exits;
- `SkippingIterators`, `DBIters`, `FullScans`: the iterators, both directions, folds and
  their failures included; `ReadAgreements`: over the same layers, a scan through them
  and point reads find the same keys and values;
- `CompactGroups`, `CompactGroupLoops`, `CompactionOutputs`, `Compactions`,
  `CompactionTheorems`: a whole compaction, from input entries and tombstones to
  output files, is invisible to every live reader of every key; `CompactionSizes`: what
  it must get rid of, down to one entry for each set of readers; `CompactionCuts`: its
  files end exactly where the size and stop tests say;
- `LayerSteps`, `LayerMoves`, `LayerCompactions`, `LayerRuns`: the layer order as an
  invariant of writes, memtable switches, flushes, moves and compactions, and over any
  run of them every snapshot reads the same from first to last;
- `LayerRecoveries`: the same through a crash and any recovery from it; `EngineModels`:
  over any run, what a reader finds is what the harness's model holds.

**The shared log.**  `SharedLogs` is the machine: write, switch, flush, log deletion,
create, drop, crash, and each step of recovery.  `SharedLogProofs` proves its invariant
over all runs, and that recovery, crashed and restarted at will, restores exactly the
committed history of every family.  `LogEngines` and `LogRecoveries` are the engine's
own loops, shown to take only steps of that machine; `ForcedWrites` is the case of a
write without a batch, `RecoveredNumbers` what recovery counts on from.

**The harness.**  `Affines` (modular arithmetic and the laws of the merge operator),
`EagerModels` (the model against the engine's semantics), `Permutations` (the
cycle-walking Feistel network), `Checkers` (the crash checker), `WriteBatchCodecs`
(batches and tombstone blocks as bytes), `ManifestReplays` (the interval sweep and
the layout history).

Conventions.  Keys are real numbers: every comparator is a strict total order on a
countable set and so embeds in the reals, and all statements are about all keys and
finite sets of keys.  Sequence numbers are naturals, at least 1 for writes, 0 meaning
"no tombstone", and a compaction assumes them below kMaxSequenceNumber.  Child and
merging iterators are sorted sequences with a cursor.  An append to a log is durable
when it returns, a torn last record was never appended, and each manifest edit and
each rewrite of FAMILIES is atomic.  What the code asks of outside parties is a
parameter that may answer anything: file sizes and the stop test of a compaction,
memory use and level-0 counts, what other threads do while a writer waits, which
memtables are full during recovery, round functions, hashes and generated values.

In three places the code differs from what is said of it, and the model follows the code.
The comment on DBIter's directions (solution/reference.patch:3146-3147) places a
backward cursor right in front of its key; the scan also passes entries
the snapshot does not see, so the cursor may be further back.  It is where the comment
puts it exactly if nothing or a visible entry comes right before the key
(`DBIters.DBIter.JustBeforeIff`); `DBIters.NeverJustBefore` is an input where it is
not, and `DBIters.SeekPastUnseen` gets there.  `AffineFullMerge` returns a text for a
malformed operand where the operator reports a failure, so the harness's model and the
engine agree exactly on well-formed operands (`EagerModels.AgreeIffWellFormed`).
A write without a batch is said to apply to the default family
(solution/reference.patch:2256-2257); any switch clears `force`, so while the default
family is being flushed, a family that holds back the logs is switched in its place.
The first switch is the default family's exactly if that is neither being flushed nor
at the stop trigger (`ForcedWrites.ForcedSwitchIff`); `ForcedWrites.ForcedElsewhere` is
a run where it is not.

## Model

| member | source | states |
|---|---|---|
| `Core.NaiveMaxIsMaximum` | solution/reference.patch:4236-4238 | the scan over all tombstones returns an upper bound of the numbers that apply, and one of them unless it is 0 |
| `Core.HiddenIffMaxAbove` | solution/reference.patch:4444-4447 | an entry is hidden by some visible covering tombstone exactly if the largest visible covering number exceeds its own |
| `Visibility.RuleIsResolve` | solution/reference.patch:3581-3584 | the rule stated over sets of entries and tombstones (newest settling write, operands above it, base at it) has exactly one answer, the one the newest-first fold computes; both directions |
| `Visibility.FoldHidden` | solution/reference.patch:4255-4260 | entries that are all hidden from a reader leave the key absent |
| `Layers.HiddenBelow` | solution/reference.patch:4255-4260 | under the layer order, one visible covering tombstone of a newer layer makes everything from a layer down read as absent |
| `Layers.FlattenNewestFirst` | solution/reference.patch:4255-4260 | taken in layer order, the entries of every key come newest first |
| `Layers.LayeredReadFollowsRule` | solution/reference.patch:2022-2049 | reading layer by layer obeys the set-level rule over everything the layers hold |
| `Layers.SameMembersResolveAlike` | solution/reference.patch:1956-1959 | two collections with the same entries of a key, each newest first, resolve alike, however a merging iterator interleaves the layers |
| `RangeDelMaps.RangeDelMap.Add` | solution/reference.patch:4055-4099 | keeps fragments non-empty, sorted and disjoint, numbers descending, and every key covered by exactly the multiset of numbers of all tombstones added; terminates |
| `RangeDelMaps.CutAtBegin` | solution/reference.patch:4060-4071 | cutting the straddling fragment changes no key's covering numbers and leaves a fragment boundary at the tombstone's begin |
| `RangeDelMaps.FillGap` | solution/reference.patch:4073-4085 | a gap gets one fragment that no earlier tombstone cuts or covers, and the walk moves on by it |
| `RangeDelMaps.TagFragment` | solution/reference.patch:4087-4097 | the fragment at the walk is cut at the tombstone's end if need be and gains exactly its number, kept descending |
| `RangeDelMaps.Walk` | solution/reference.patch:4072-4098 | the splitting loop ends with the tombstone counted once over each key it covers and nowhere else; fragments left and the pending gap are the measure |
| `RangeDelMaps.RangeDelMap.Find` | solution/reference.patch:4101-4108 | returns the fragment that holds the key, or none exactly if no fragment does |
| `RangeDelMaps.RangeDelMap.MaxCovering` | solution/reference.patch:4110-4121 | equals the naive maximum over all tombstones ever added |
| `RangeDelMaps.RangeDelMap.CoveredRange` | solution/reference.patch:4123-4130 | found exactly if a visible tombstone covers the key; every key of the returned range has the same covering tombstones |
| `RangeDelIndexes.RangeDelIndex.Add` | solution/reference.patch:3949-3954 | adds a non-empty tombstone, and drops an empty one, which covers nothing |
| `RangeDelIndexes.Enter` | solution/reference.patch:3985-3994 | after a cut point the active set is exactly the tombstones that have begun and not ended |
| `RangeDelIndexes.Emit` | solution/reference.patch:3995-4006 | the emitted fragment records for its keys exactly the numbers and layers of the active tombstones; an empty active set emits nothing |
| `RangeDelIndexes.Sweep` | solution/reference.patch:3981-4007 | the fragments are sorted and disjoint and record, for every key below the last cut, exactly the tombstones over it |
| `RangeDelIndexes.RangeDelIndex.Finish` | solution/reference.patch:3956-4010 | sort, unique and sweep leave an index that answers for exactly the pending tombstones |
| `RangeDelIndexes.RangeDelIndex.Find` | solution/reference.patch:4012-4028 | the binary search returns the fragment that holds the key, or none exactly if no fragment does |
| `RangeDelIndexes.RangeDelIndex.MaxCovering` | solution/reference.patch:4030-4043 | equals the naive maximum over the tombstones at or below the snapshot in layers below the bound |
| `RangeDelIndexes.RangeDelIndex.CoveredRange` | solution/reference.patch:4045-4053 | found exactly if a tombstone applies; all keys of the range have the same tombstones |
| `RangeDelIndexes.MapAndIndexAgree` | solution/reference.patch:3949-4130 | the incrementally split map and the sweep-built index give one answer on the same tombstones, for every key and snapshot |
| `RangeDelViews.RangeDelView.MaxCovering` | solution/reference.patch:4424-4442 | memtable maps and table index together answer the naive maximum over all tombstones of layers below the bound |
| `RangeDelViews.RangeDelView.Covers` | solution/reference.patch:4444-4447 | true exactly if the entry is hidden from the reader |
| `RangeDelViews.RangeDelView.CoveredRange` | solution/reference.patch:4449-4464 | found exactly if a newer layer's visible tombstone covers the key, and then one covers every key of the range |
| `Lookup.LookupState.Add` | solution/reference.patch:3614-3637 | the answer after feeding an entry, on what is older, is the answer before on what the entry makes of what is older |
| `Lookup.LookupState.SettleDeleted` | solution/reference.patch:3641-3645 | settles with what the collected operands make of an absent value |
| `Lookup.LookupState.Settle` | solution/reference.patch:3656-3677 | status and value are those of FullMerge on base and collected operands, oldest first, with the error cases |
| `Lookup.FeedLayer` | solution/reference.patch:4697-4718 | feeding one layer until settled is folding all of its entries of the key |
| `Lookup.Reader.MatchLayer` | solution/reference.patch:4775-4822 | a file hidden by a newer layer, or fed until settled, contributes what the flat fold says of it and everything older |
| `Lookup.Reader.GetFromTables` | solution/reference.patch:4775-4822 | the walk over the tables that span the key answers like all tables |
| `Lookup.Reader.Get` | solution/reference.patch:2022-2049 | the point read with all its early exits returns exactly the flat rule over all layers and all tombstones |
| `LayerNumbers.LayerOf` | solution/reference.patch:4729-4738 | counts the newer level-0 files, and puts every level behind all of them |
| `LayerNumbers.NewestFirstAreLayers` | solution/reference.patch:4729-4738 | whatever order the files are listed in, the i-th newest one is the i-th table layer |
| `SkippingIterators.SkippingIterator.SkipForward` | solution/reference.patch:4180-4188 | stops at the first entry at or after the cursor that no newer layer hides; terminates |
| `SkippingIterators.SkippingIterator.SkipBackward` | solution/reference.patch:4190-4203 | stops at the last entry at or before the cursor that no newer layer hides; terminates, and the SeekToLast fallback is never taken |
| `SkippingIterators.SkippingIsInvisible` | solution/reference.patch:1935-1957 | leaving out what the skipping iterators leave out changes no read at that snapshot, through any number of layers |
| `DBIters.DBIter.MergeForward` | solution/reference.patch:3275-3308 | the value is FullMerge of the key's visible content, and the cursor is past the key |
| `DBIters.DBIter.FindNextUserEntry` | solution/reference.patch:3239-3273 | lands on the smallest key in the remaining range that exists at the snapshot, with its value, or on none if none exists |
| `DBIters.DBIter.FindPrevUserEntry` | solution/reference.patch:3373-3448 | lands on the largest key below that exists at the snapshot, folding operands met oldest first to the same value |
| `DBIters.DBIter.FullMerge` | solution/reference.patch:3310-3327 | value or error exactly as the read rule gives them |
| `DBIters.DBIter.SeekTo` | solution/reference.patch:3451-3456 | lands on the smallest existing key at or above the target |
| `DBIters.DBIter.SeekToFirst` | solution/reference.patch:3459-3464 | lands on the smallest existing key |
| `DBIters.DBIter.SeekToLast` | solution/reference.patch:3467-3472 | lands on the largest existing key |
| `DBIters.DBIter.Next` | solution/reference.patch:3222-3239 | from any valid position, in either direction, folded or not, moves to the next larger existing key |
| `DBIters.DBIter.Prev` | solution/reference.patch:3329-3371 | from any valid position, also after a forward fold that ran past the key, moves to the next smaller existing key |
| `DBIters.DBIter.JustBeforeIff` | solution/reference.patch:3146-3147 | the documented position of a backward cursor, right in front of its key's first entry, holds exactly if that entry is the first of all or the reader sees the entry in front of it |
| `DBIters.NeverJustBefore` | solution/reference.patch:3373-3448 | a concrete source where it fails: an unseen entry in front, and every backward cursor stands one further back |
| `ReadAgreements.RefusedReads` | solution/reference.patch:3656-3677 | a read fails for want of an operator exactly if there is none and the newest visible entry is an operand no tombstone hides, and with a corruption exactly if the operator refuses the fold |
| `ReadAgreements.GetWithoutOperator` | solution/reference.patch:3656-3677 | the point read of a column family without an operator: no operator exactly where such an operand is on top |
| `ReadAgreements.FirstWithoutOperator` | solution/reference.patch:3310-3327 | an iterator that comes to such a key first ends invalid with InvalidArgument |
| `FullScans.ScanForward` | tests/harness/conf_model.cc:577-586 | a forward scan lists, ascending, exactly the existing keys with the values the rule gives them, all of them or up to the first key whose fold fails, which the status then names |
| `FullScans.ScanBackward` | tests/harness/conf_model.cc:589-596 | a backward scan does the same, descending |
| `FullScans.EndedWell` | tests/harness/conf_model.cc:587-597 | a scan ends with success exactly if no key's fold fails, and then it has listed everything |
| `FullScans.BackwardIsReverse` | tests/harness/conf_model.cc:577-600 | the backward list is the forward list reversed, values included |
| `ReadAgreements.MergedReadsAlike` | solution/reference.patch:1917-1960 | a sorted merge of what the layers' skipping iterators show gives every key the content it has over all layers |
| `ReadAgreements.ScanIsReads` | tests/harness/conf_model.cc:577-597 | over the same layers a scan lists (k, v) exactly if reading k finds v, and no key reads as an error |
| `ReadAgreements.ScanMeetsGet` | tests/harness/conf_model.cc:577-597 | the iterator's full scan and the point read, both run: the pairs the scan lists for k are what Get finds for k |
| `CompactGroups.StripeVisibility` | solution/reference.patch:1510-1519 | a live reader sees all of a stripe or nothing of it |
| `CompactGroups.FoldPartialSame` | solution/reference.patch:1648-1663 | the operands folded by PartialMerge from the oldest up do to every base what the operands do in turn |
| `CompactGroups.FullMergeFolds` | solution/reference.patch:1638-1647 | a base with operands folded into one value stays indistinguishable under any operands put on top later |
| `CompactGroups.GroupInvisible` | solution/reference.patch:1594-1673 | for every live reader the compacted group, with kept tombstones only, reads over deeper data like the group with all tombstones, whatever operands lie on top: covered entries turned deletions, both ways of folding, dropped deletions and tombstones included |
| `CompactGroupLoops.CollectOperands` | solution/reference.patch:1600-1623 | collects exactly the leading operands of the stripe as its readers see them, and the entry that settles them in its rewritten form |
| `CompactGroupLoops.FoldPartials` | solution/reference.patch:1648-1659 | the in-place loop computes the recursive fold, failure included |
| `CompactGroupLoops.CompactGroup` | solution/reference.patch:1594-1673 | the loop over stripes computes the specification that GroupInvisible, GroupShrinks and GroupTrims speak about |
| `CompactGroupLoops.CompactedIsGroup` | solution/reference.patch:1594-1673 | outputs are numbered by entries of the group, newest first |
| `CompactGroupLoops.SinglePlainValue` | solution/reference.patch:1624-1647 | with no snapshot, nothing deeper and an operator that accepts the operands, a key is left with at most one entry, a plain value |
| `CompactionSizes.GroupShrinks` | solution/reference.patch:1594-1673 | with an operator that accepts every fold, each set of readers is left with one entry, under the number of its newest: a deletion, put or operand as what they see of the key folds to, and none exactly for a deletion with nothing older or deeper |
| `CompactionSizes.GroupTrims` | solution/reference.patch:1594-1673 | with any operator, two entries for the same readers are left only if the newer one is an operand; what is left is a deletion exactly where a tombstone or deletion settles it, and obsolete deletions are gone |
| `CompactionSizes.KeyShrinks` | solution/reference.patch:1531-1705 | the same of every key in what a whole input compacts to |
| `CompactionSizes.DroppedIff` | solution/reference.patch:1543-1548 | an input tombstone is dropped exactly if every live reader sees it and no deeper file spans a key of its closed range |
| `CompactionOutputs.AddTombstoneBounds` | solution/reference.patch:51-66 | the widened bounds enclose every key and both ends of every tombstone piece, are attained by one of them, and stay within the file's cuts |
| `CompactionOutputs.CompactionState.ClipTombstones` | solution/reference.patch:1418-1438 | the pieces are exactly the non-empty parts of the kept tombstones between the cuts |
| `CompactionOutputs.CompactionState.CutAt` | solution/reference.patch:1411-1452 | finishing a file at a cut leaves a chain of valid files and loses no entry |
| `CompactionOutputs.CompactionState.FlushGroup` | solution/reference.patch:1675-1705 | a group is written whole; the file before it ends in front of it exactly if it is to stop there or was full after an earlier group, and then has what it had |
| `CompactionOutputs.CompactionState.Leftover` | solution/reference.patch:1831-1841 | true exactly if something of the kept tombstones lies past the last cut |
| `CompactionOutputs.CompactionState.Close` | solution/reference.patch:1831-1845 | the finished files are a chain of non-empty files that leaves nothing of the tombstones out; an open file is the last one |
| `CompactionCuts.FlushCuts` | solution/reference.patch:1675-1705 | each flush keeps the files cut as told: nothing asked for a cut inside a file, and something asked for each end of one |
| `CompactionOutputs.CoveragePartition` | solution/reference.patch:1411-1452 | a kept tombstone covers a key exactly if some output carries a piece of it over that key, and never do two |
| `CompactionOutputs.KeysNotSplit` | solution/reference.patch:1675-1705 | entries of one user key are in one file, and files follow key order |
| `CompactionOutputs.BoundsIncrease` | solution/reference.patch:51-66 | the recorded bounds of successive files are strictly increasing in internal key order |
| `CompactionOutputs.PiecesHide` | solution/reference.patch:1411-1438 | to every reader the pieces in the files hide exactly what the kept tombstones hide |
| `Compactions.KeepTombstones` | solution/reference.patch:1532-1558 | carries on exactly the tombstones that some reader may not see or something deeper may need, sorted by begin |
| `Compactions.DoCompactionWork` | solution/reference.patch:1707-1845 | the whole loop, with any answers from the size and stop tests, writes group after group what each compacts to, into files that satisfy the partition conditions and end exactly where one of the tests asks for it |
| `CompactionTheorems.KeyCompacts` | solution/reference.patch:1594-1705 | the output's entries of a key are what its entries in the input compact to |
| `CompactionTheorems.OutputSorted` | solution/reference.patch:1675-1705 | the outputs together are in internal key order |
| `CompactionTheorems.CompactionInvisible` | solution/reference.patch:1531-1705 | for every key, every live snapshot and every reader at or past the last sequence, reading newer layers, output files and deeper layers equals reading newer layers, input files and deeper layers |
| `CompactionTheorems.CompactUnnoticed` | solution/reference.patch:1475-1845 | the loop and the theorem in one contract: running the compaction changes no live reader's read of any key, whatever surrounds its inputs |
| `CompactionTheorems.OrderKept` | solution/reference.patch:4255-4260 | the outputs take the inputs' place in the layer order, so the conditions hold again for the next compaction |
| `LayerSteps.GivesLayerOrder` | solution/reference.patch:4255-4260 | the layer comment, per key and in full, gives the order that point reads and skipping iterators ask for |
| `LayerSteps.RepeatsInOrder` | solution/reference.patch:4255-4260 | layers that say of a key what slices of ordered layers said, slice after slice, are ordered |
| `LayerMoves.WriteKeepsOrder` | solution/reference.patch:2175-2213 | a batch newer than everything before, joined to the memtable, keeps the layer order |
| `LayerMoves.WriteUnnoticed` | solution/reference.patch:2022-2049 | it changes no read at an earlier snapshot |
| `LayerMoves.MoveKeepsOrder` | solution/reference.patch:1087-1119 | contents that move to an older layer, past layers that say nothing of their keys, keep the layer order |
| `LayerMoves.MoveUnnoticed` | solution/reference.patch:1087-1119 | such a move changes no read of any key at any snapshot |
| `LayerMoves.SwitchMoves` | solution/reference.patch:2355-2367 | switching the memtable is such a move, where none is being flushed |
| `LayerMoves.FlushMoves` | solution/reference.patch:1117-1151 | so is a flush into level 0, once it has its place behind the memtables |
| `LayerCompactions.CompactKeepsOrder` | solution/reference.patch:1475-1845 | a compaction of some files of neighbouring layers, with others staying, keeps the whole layer order |
| `LayerCompactions.CompactUnseen` | solution/reference.patch:1475-1845 | and changes no live reader's read of any key through all layers |
| `LayerRuns.StepRepeats` | solution/reference.patch:4255-4260 | each step, a write, switch, flush, move or compaction, keeps the layer order and is not noticed at a spared snapshot |
| `LayerRuns.SnapshotRepeats` | tests/harness/conf_model.cc:830-839 | through any run of such steps, every key read at a snapshot taken at the start reads as it did then |
| `LayerRuns.CompactStep` | solution/reference.patch:1475-1845 | the compaction loop, whatever ends its files, yields outputs that make it a step of a run |
| `LayerRuns.GetTwice` | solution/reference.patch:2022-2049 | two point reads at one snapshot, at both ends of a run, return the same |
| `LayerSteps.MergeJoins` | solution/reference.patch:1486-1494 | where the first layer's part of every key is newer, there is a sorted layer that holds what both hold |
| `LayerRuns.OutputsMerge` | solution/reference.patch:1486-1494 | the outputs of a compaction and what stays in the output level have no key in common, so a level that holds both exists |
| `EagerModels.WritesOnTop` | tests/harness/conf_model.cc:327-348 | any writes on top of entries and tombstones that read as the model does read as the model after these writes |
| `EngineModels.WriteIsEager` | solution/reference.patch:2175-2213 | after a write, a reader at any of its numbers reads through the layers what the model then holds |
| `EngineModels.RunIsEager` | tests/harness/conf_model.cc:767-776 | from a family's creation through any run of writes, switches, flushes, moves and compactions, reading any key at a snapshot, for as long as it is held, gives what the model held after that many writes |
| `EngineModels.GetIsEager` | solution/reference.patch:2022-2049 | the point read at the end of such a run returns it |
| `EngineModels.GetMeetsModel` | tests/harness/conf_model.cc:540-563 | with all of a scenario's writes made, the newest point read of every key is what the harness's map holds |
| `LayerRecoveries.CutKeepsOrder` | solution/reference.patch:4255-4260 | however records are cut into memtables and files, in front of the same tables they are layers in order |
| `LayerRecoveries.CutReadsSame` | solution/reference.patch:4255-4260 | and every reader reads the same, whichever way they are cut |
| `LayerRecoveries.AfterCrash` | solution/reference.patch:842-893 | what recovery adds to a family's tables, with its memtables, is exactly the records that were in memory before the crash and the one batch only the log had |
| `LayerRecoveries.CrashUnnoticed` | solution/reference.patch:842-1057 | after a crash in any reachable state and a recovery crashed at will, new files and memtables in front of the old tables are layers in order, and every reader up to the last number reads as before |
| `LayerRecoveries.GetThroughCrash` | solution/reference.patch:2022-2049 | point reads before a crash and after the recovery from it return the same |
| `SharedLogProofs.KeepAppend` | solution/reference.patch:2175-2193 | a batch in the log is worth its part to every family, not yet in any memtable |
| `SharedLogProofs.KeepApply` | solution/reference.patch:2180-2213 | inserting it makes memory catch up with the log, numbers increasing |
| `SharedLogProofs.KeepSwitch` | solution/reference.patch:2355-2367 | a new log and memtable split the family's unflushed records at the log boundary |
| `SharedLogProofs.KeepFlushed` | solution/reference.patch:1117-1151 | tables plus the logs from the new log number on are again the family's history |
| `SharedLogProofs.KeepMarkObsolete` | solution/reference.patch:587-603 | no live family needs a log below OldestLiveLog |
| `SharedLogProofs.KeepDeleteLog` | solution/reference.patch:642-644 | deleting such a log, at any later time, takes nothing from any family |
| `SharedLogProofs.KeepBeginCreate` | solution/reference.patch:2561-2590 | a manifest that FAMILIES does not name yet changes nothing |
| `SharedLogProofs.KeepFinishCreate` | solution/reference.patch:2606-2617 | a new family starts empty and complete at its log |
| `SharedLogProofs.KeepDrop` | solution/reference.patch:2640-2658 | rewriting FAMILIES without a family leaves the others complete |
| `SharedLogProofs.KeepCrash` | solution/reference.patch:842-893 | after a crash the disk alone accounts for the committed history, a batch that reached the log included whole |
| `SharedLogProofs.KeepReplay` | solution/reference.patch:842-902 | replay, with the last log reused or not, rebuilds every family and starts numbers above everything in use |
| `SharedLogProofs.KeepInstall` | solution/reference.patch:2740-2760 | installing one family's recovery edit keeps the invariant, and the edit is never skipped where it is needed |
| `SharedLogProofs.StepKeeps` | solution/reference.patch:587-2760 | every step of the machine, crash and recovery steps included, keeps the invariant |
| `SharedLogProofs.OpenDatabaseIsHistory` | solution/reference.patch:2175-2213 | in every reachable open state each family holds exactly its records of the committed batches, in order, numbered increasingly and below the next number |
| `SharedLogProofs.RecoveryRestores` | solution/reference.patch:842-1057 | crash in any reachable state, recover with further crashes at any points: every family holds exactly what it held, plus its part of the one batch caught between log and memtables |
| `SharedLogProofs.RecoveryGoesOn` | solution/reference.patch:2730-2761 | recovery is never stuck, and every installed edit brings it nearer to its end |
| `SharedLogProofs.DropMakesGone` | solution/reference.patch:2640-2658 | once FAMILIES is rewritten without a family, it counts as dropped |
| `SharedLogProofs.DroppedStaysDropped` | solution/reference.patch:2640-2658 | a dropped family never comes back and its id is never used again, through any steps, crashes and recoveries |
| `LogEngines.DBImpl.OldestLive` | solution/reference.patch:587-603 | the loop over the families computes the smallest log number any live family may need |
| `LogEngines.DBImpl.RemoveObsoleteLogs` | solution/reference.patch:605-650 | exactly the logs from the oldest needed one on remain, and the removal is a run of machine steps |
| `LogEngines.DBImpl.Write` | solution/reference.patch:2143-2213 | refused, with nothing changed, exactly if a record names a family that is not there, or is an operand for one without a merge_operator; otherwise, after whatever other threads do during the wait for room, a dropped family included, the two machine steps of a write, numbered from the last number before the call, into memtables that have room when the batch is appended |
| `LogEngines.DBImpl.SwitchMemTable` | solution/reference.patch:2355-2367 | is the machine's switch step |
| `LogEngines.DBImpl.CompactMemTable` | solution/reference.patch:1117-1151 | is the machine's flush step, with the log number of the memtable, not the current log |
| `LogEngines.DBImpl.CreateColumnFamily` | solution/reference.patch:2561-2617 | manifest, then FAMILIES: the two machine steps of a creation |
| `LogEngines.DBImpl.DropColumnFamily` | solution/reference.patch:2627-2658 | is the machine's drop step; refused, with nothing changed, exactly for the default family or none |
| `LogEngines.DBImpl.MakeRoomForWrite` | solution/reference.patch:2242-2371 | look by look, whatever other threads do meanwhile: each switch is of the smallest family that must be switched and can be, below the stop trigger at that look; it sleeps at most once, exactly if none can be switched and one with room is at the slowdown trigger, and waits exactly while some must be switched and none can be; on return with room none must be, so no laggard is left that is not being flushed |
| `LogEngines.DBImpl.PickFamily` | solution/reference.patch:2259-2321 | picks the first wanted family that is due for a switch, is not being flushed and is below the level-0 stop trigger; none exactly if there is no such family, and then it is to wait exactly if some family is due, and to sleep exactly if that is allowed and one with room is at the slowdown trigger |
| `LogEngines.NoLaggardsLeft` | solution/reference.patch:2263-2285 | a family that needs the oldest log and is not being flushed would have been picked |
| `LogEngines.InsertInto` | solution/reference.patch:5239-5262 | record i goes to its family's memtable with number base + i; absent families consume numbers |
| `ForcedWrites.ForcedSwitchIff` | solution/reference.patch:2256-2262 | the first switch of a write without a batch is the default family's exactly if that is neither being flushed nor at the stop trigger at that look |
| `ForcedWrites.ForcedSwitches` | solution/reference.patch:2242-2371 | a write without a batch that finds room has switched some family |
| `ForcedWrites.ForcedElsewhere` | solution/reference.patch:2242-2371 | a concrete run where that is another family: the write reports room with the default family's memtable as it was |
| `LogRecoveries.Recoverer.FlushFull` | solution/reference.patch:990-1002 | exactly the full memtables become files, whole, and no others |
| `LogRecoveries.Recoverer.RecoverLogFile` | solution/reference.patch:938-1057 | whatever memtables fill up on the way, each family that still needs the log has collected exactly its part of it, in files or, if the log is reused, in the default family's memtable; a log is reused exactly if that is allowed, it is the last, the default family is alone and none of its memtables was full after any batch; nothing is installed |
| `LogRecoveries.Recoverer.ReplayAll` | solution/reference.patch:842-893 | all needed logs in order: each family has exactly its items, the largest sequence and the next file number are found, and which log is reused, exactly |
| `LogRecoveries.Recoverer.Recover` | solution/reference.patch:842-902 | the result is the replay step of the machine, the new log numbered past the logs and the tables written on the way |
| `RecoveredNumbers.PartHolds` | solution/reference.patch:5239-5262 | a family's part of a batch: the records that name it, in order, record i under the batch's number plus i |
| `RecoveredNumbers.RecoveredSequence` | solution/reference.patch:842-902 | recovery goes on from the largest sequence number on disk: of a registered family's manifest, or at the end of a batch in a log that some family needs; reached unless 0 |
| `RecoveredNumbers.NextFileReached` | solution/reference.patch:889-893 | the next file number is the least one not below the recorded one and above every replayed log |
| `Affines.AffineMul` | tests/harness/conf_model.h:85-91 | exact product modulo 2^61 - 1 for reduced inputs; product, halves and sum stay within 128 and 64 bits |
| `Affines.AffineAdd` | tests/harness/conf_model.h:93-96 | exact sum modulo 2^61 - 1 without overflow |
| `Affines.Compose` | tests/harness/conf_model.cc:95-97 | the map PartialMerge writes down is the left map followed by the right one |
| `Affines.ParseIff` | tests/harness/conf_model.cc:27-37 | the operands read, exactly: two numbers as strtoull reads them, spaces, sign, leading zeros and overflow included, around one comma and with nothing after |
| `Affines.OperandRoundTrip` | tests/harness/conf_model.cc:27-37 | every operand text parses back to its two numbers |
| `Affines.MergedLength` | tests/harness/conf_model.cc:47-55 | a merged value has 21 characters or as many as it is padded to |
| `Affines.MergedRoundTrip` | tests/harness/conf_model.cc:39-55 | a merged value is read back as its x whatever its padding |
| `Affines.FullMergeLoop` | tests/harness/conf_model.cc:57-85 | the loop, after the check of every operand, computes FullMerge, failing exactly if some operand is malformed |
| `Affines.FullMergeMeans` | tests/harness/conf_model.cc:40-67 | over operands that spell maps: the merged text is their composition, in turn, at the key's hash without a value, at the value's hash for a plain one, at x for a merged one; its length is the larger of 21 and the value's, padded with m |
| `Affines.RefusedIff` | tests/harness/conf_model.cc:57-98 | a full merge fails exactly if some operand does not parse, a partial one exactly if either does not |
| `Affines.PartialMergeMeans` | tests/harness/conf_model.cc:87-98 | the partial merge of two operands spells the first map followed by the second |
| `Affines.FullMergeInSteps` | tests/harness/conf_model.cc:57-85 | merging concatenated operands equals merging in two steps, padding and failures included |
| `Affines.PartialMergeStands` | tests/harness/conf_model.cc:87-98 | a partial merge does to every base what its two operands do |
| `Affines.AffineLaws` | tests/harness/conf_model.cc:70-98 | the operator satisfies the laws that reads and compactions assume |
| `EagerModels.ConfModels.Apply` | tests/harness/conf_model.cc:314-348 | a creation or a drop empties that family's map and sets it live or not, a batch applies its writes to their families' maps in order, and each leaves the other families as they are; so after any steps each map is what the writes since its family was last created or dropped make of an empty one |
| `EagerModels.SeenWrite` | solution/reference.patch:3614-3637 | what a newest numbered write makes of a key, on top of any older entries and tombstones, for a reader that sees it |
| `EagerModels.EagerIsLazy` | tests/harness/conf_model.cc:327-348 | for any writes, family, key and snapshot r, the versioned read at r gives what the eager map holds after r writes, for any operator that splits and accepts the operands, and wherever the numbering starts |
| `EagerModels.CreatedFamilyIsEager` | tests/harness/conf_model.cc:314-348 | the same for a family created in the middle of a scenario: its snapshots read what its map held when they were taken |
| `EagerModels.AgreeIffWellFormed` | tests/harness/conf_model.cc:57-85 | with the harness's operator the two agree everywhere exactly if every operand is well formed; a malformed one is a corruption to the engine and a value to the model |
| `Permutations.Bits` | tests/harness/workload.h:542-543 | ends with the smallest even number of bits that covers n, at most 62 |
| `Permutations.Network.EncodeInverts` | tests/harness/workload.h:548-556 | four rounds are a permutation of the covering range for any round function, undone by four rounds backwards |
| `Permutations.Network.FourRounds` | tests/harness/workload.h:548-556 | the four rounds written out: each half in turn takes the round function of the other, and the last one computed is the high half |
| `Permutations.XorBits` | tests/harness/workload.h:552 | bit i of the exclusive or is set exactly if one of the two bits is |
| `Permutations.Permute` | tests/harness/workload.h:538-558 | terminates for every i < n <= 2^62 and returns the point below n that the walk from i first reaches; the unvisited points outside [0, n) are the measure |
| `Permutations.PermuteIsBijection` | tests/harness/workload.h:538-558 | every start lands on exactly one point below n and every point below n is landed on from exactly one start |
| `Checkers.ParseId` | tests/harness/workload.h:156-165 | the loop reads exactly 16-digit keys, as their number |
| `Checkers.KeyRoundTrip` | tests/harness/workload.h:149-165 | every id of up to 16 digits is read back from its key |
| `Checkers.InFlight` | tests/harness/lsmbench.cc:670-689 | before and after hold the batch's ids only; putting the after versions into the model equals replaying the batch |
| `Checkers.DeletedIsDead` | tests/harness/workload.h:238-243 | the version of a deletion is not live and keeps its number in the low bits |
| `Checkers.ReplayLast` | tests/harness/lsmbench.cc:683-688 | after a batch an id has the number of the last operation on it, and is live exactly if that is a put |
| `Checkers.ReplayOthers` | tests/harness/lsmbench.cc:683-688 | an id without an operation keeps its version |
| `Checkers.Check.Decide` | tests/harness/lsmbench.cc:241-255 | one key's evidence: consistent with both states, decides, or is a mismatch |
| `Checkers.Check.JudgeMeans` | tests/harness/lsmbench.cc:241-255 | the verdict says exactly which of the two states all keys seen are in |
| `Checkers.Verify` | tests/harness/lsmbench.cc:237-306 | accepts a database exactly if it equals the model wholly without or wholly with the in-flight batch; true exactly if it equals the latter and differs from the former, false exactly if it equals the former |
| `Checkers.EqualsContents` | tests/harness/lsmbench.cc:237-306 | a scan equals a model exactly if it holds the live ids, under their versions' values, and nothing else |
| `Checkers.DecideBatch` | tests/harness/lsmbench.cc:670-692 | the two together: accepted as applied exactly if the database holds what the batch leaves and not what was there before, each id by the last operation on it |
| `WriteBatchCodecs.WriteBatch.Add` | solution/reference.patch:5166-5229 | every kind of record, of the default or another family, is appended and counted |
| `WriteBatchCodecs.RecordBytes` | solution/reference.patch:5166-5229 | the bytes of every record: tags 0 to 3, or 16 to 19 and the family, then lengths and contents |
| `WriteBatchCodecs.VarintBytes` | solution/reference.patch:3547-3553 | a varint is its number's digits to the base 128, low ones first, the top bit set on all but the last |
| `WriteBatchCodecs.HeaderBytes` | solution/reference.patch:5117-5163 | number in eight bytes and count in four, low ones first |
| `WriteBatchCodecs.UnknownTag` | solution/reference.patch:3533-3559 | a tag that no record has is read as no record |
| `WriteBatchCodecs.CountDecides` | solution/reference.patch:5117-5163 | the records come back exactly if the header counts them, and are a corruption otherwise |
| `WriteBatchCodecs.WriteBatch.Append` | solution/reference.patch:5231-5233 | the other batch's records follow this one's, counts added |
| `WriteBatchCodecs.WriteBatch.Iterate` | solution/reference.patch:5117-5163 | the loop computes the outcome that CountDecides and CutBatchIsCorrupt speak about |
| `WriteBatchCodecs.IterateGivesBack` | solution/reference.patch:5117-5229 | whatever calls filled a batch, iterating yields those records in order |
| `WriteBatchCodecs.CutBatchIsCorrupt` | solution/reference.patch:5117-5163 | a batch cut short anywhere is reported corrupt, never taken for a shorter one |
| `WriteBatchCodecs.EncodeRangeTombstones` | solution/reference.patch:3921-3929 | the block is the count and each tombstone's begin, end and number |
| `WriteBatchCodecs.DecodeRangeTombstones` | solution/reference.patch:3930-3947 | the loop computes what BlockRoundTrip and CutBlockIsCorrupt speak about |
| `WriteBatchCodecs.BlockRoundTrip` | solution/reference.patch:3930-3947 | decoding an encoded block, whatever follows it, gives the tombstones back |
| `WriteBatchCodecs.CutBlockIsCorrupt` | solution/reference.patch:3930-3947 | a block cut short anywhere is reported corrupt |
| `ManifestReplays.L0Depth` | tests/harness/manifest.py:247-265 | the sweep returns the largest number of closed key ranges that share a point: an upper bound for every key, and attained |
| `ManifestReplays.Replay.ApplyDeletes` | tests/harness/manifest.py:222-228 | deletes exactly the named files, failing exactly if one is not where the edit says |
| `ManifestReplays.Replay.ApplyAdds` | tests/harness/manifest.py:229-239 | adds exactly the named files, failing exactly if one is present on any level |
| `ManifestReplays.EditIff` | tests/harness/manifest.py:222-239 | an edit is acceptable exactly if the files it deletes are where it says, none twice, and those it adds go to existing levels under numbers that no file left has, none twice |
| `ManifestReplays.EditMeans` | tests/harness/manifest.py:222-239 | then a file is there exactly if the edit adds it, or it was there and is not deleted, and it is the same file |
| `ManifestReplays.Replay.Apply` | tests/harness/manifest.py:206-245 | after any edits each file number is on at most one level, files present are those added less those deleted, and the recorded maxima bound every layout so far and are reached by one |

## Left out

- Skiplist, table blocks, bloom filters, caches, the merging iterator, log reader and writer framing, and stock `VersionSet` code: sorted sequences, a key's layers and atomic manifest edits stand for them. Compaction inputs are assumed to include every overlapping file of the output level and, at level 0, every overlapping file, which appears as `LayerCompactions.Plan.Complete`: the files that stay say nothing of an input's keys in its layer or an older one.
- I/O errors, background errors, corrupt log records, unparsable internal keys in a compaction, shutdown in the middle of one.
- Mutexes and condition variables: steps are atomic where the mutex is held; releases of the mutex are places where other steps may come between.
- The path of DBIter::Next from backward to forward, partly unchanged stock code: modelled through the position rule of the class comment.
- Stateful `IsBaseLevelForKey` (its per-level pointers): a predicate over the deeper files' key spans.
- CompactGroupLoops.SinglePlainValue: assumes an operator that accepts all operands, because a refused fold keeps operands by design.
- SharedLogs: families are ids; names, options, handles and their reference counts, the checks on descriptors in Open, and the removal of table files are not modelled. A table file is its contents in order of writing.
- LogEngines.DBImpl.MakeRoomForWrite: returns StillWaiting when the given schedule of other threads' work runs out, where the engine would wait on.
- LogEngines.DBImpl.CreateColumnFamily: the refusal of names in use, and the release of the mutex between its two steps, where the machine lets others come in; families are ids here.
- LogEngines.DBImpl.Write: the grouping of waiting writers into one batch, and what other threads do between the log record and the memtables, where the machine lets them come in.
- LayerRecoveries.CrashUnnoticed: the memtables and the tables of level 0 that are written from them; what older tables hold is taken as any layers in order behind them.
- LogEngines.InsertInto: an empty range is kept as an item, where the memtable drops it; it covers nothing, and both give it a number.
- WriteBatchCodecs: the count check at the end of Iterate, the header layout and the varint limits are those of stock LevelDB 1.23, whose files are not part of this model.
- EagerModels: numbers count single writes of all families; batches and the generator of scenarios are left out.
- Checkers.Verify: the point reads and the reverse scan after the forward scan, which decide nothing further; ids whose keys would take more than 16 digits.
- ManifestReplays.L0Depth: files whose smallest user key exceeds their largest; the parsing of manifest records.
- ManifestReplays.Replay.Apply: the byte totals per level, the largest level in use and the log numbers it also keeps.
- `Finalize`'s space heuristic, statistics, properties, performance cases, generators' statistical quality.
