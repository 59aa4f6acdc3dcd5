/**
 * What a family's part of the log is, record by record, and the numbers that recovery
 * starts with: the largest sequence number in use, the next free file number and the
 * oldest log that any family needs.
 */
module RecoveredNumbers {
  import opened Core
  import opened SharedLogs
  import opened SharedLogProofs

  // ---- A family's part ----

  /** Record i of the batch is the family's, and this is the item it makes. */
  ghost predicate RecordIs(id: FamilyId, b: Batch, i: nat, x: Item) {
    i < |b.records| && b.records[i].family == id && x == Item(b.first + i, b.records[i].op)
  }

  ghost predicate Holds(id: FamilyId, b: Batch, n: nat, x: Item) {
    exists i: nat :: i < n && RecordIs(id, b, i, x)
  }

  lemma {:induction false} PartUpToHolds(id: FamilyId, b: Batch, n: nat, x: Item)
    requires n <= |b.records|
    ensures x in PartUpTo(id, b, n) <==> Holds(id, b, n, x)
  {
    if n > 0 {
      PartUpToHolds(id, b, n - 1, x);
      if Holds(id, b, n, x) && !Holds(id, b, n - 1, x) {
        assert RecordIs(id, b, n - 1, x);
      }
      if b.records[n - 1].family == id {
        assert RecordIs(id, b, n - 1, Item(b.first + n - 1, b.records[n - 1].op));
      }
    }
  }

  /** A family's part of a batch: the records that name it, in order, record i under the number first + i. */
  lemma PartHolds(id: FamilyId, b: Batch, x: Item)
    ensures x in Part(id, b) <==> exists i: nat :: RecordIs(id, b, i, x)
    ensures Increasing(Part(id, b))
  {
    PartUpToHolds(id, b, |b.records|, x);
    PartNumbers(id, b, |b.records|);
    if i: nat :| RecordIs(id, b, i, x) {
      assert Holds(id, b, |b.records|, x);
    }
  }

  /** A family's part of several batches: what any of them has for it. */
  lemma {:induction false} PartsHold(id: FamilyId, bs: seq<Batch>, x: Item)
    ensures x in Parts(id, bs) <==> exists b :: b in bs && x in Part(id, b)
  {
    hide Part;
    if bs != [] {
      var init, last := bs[..|bs| - 1], bs[|bs| - 1];
      assert bs == init + [last];
      PartsHold(id, init, x);
    }
  }

  // ---- The largest sequence number ----

  /** A batch of a log that is replayed ends with this number. */
  ghost predicate LogEnds(logs: seq<Log>, from: LogNo, x: int) {
    exists l :: l in logs && l.number >= from && BatchEnds(l.batches, x)
  }

  ghost predicate BatchEnds(bs: seq<Batch>, x: int) {
    exists b :: b in bs && b.Last() == x
  }

  /** A registered family below n has recorded this number. */
  ghost predicate Recorded(disk: Disk, n: FamilyId, x: int)
    requires disk.families <= disk.manifests.Keys
  {
    exists id: FamilyId :: id in disk.families && id < n && disk.manifests[id].lastSeq == x
  }

  lemma {:induction false} MaxManifestSeqReached(disk: Disk, n: FamilyId)
    requires disk.families <= disk.manifests.Keys
    ensures MaxManifestSeq(disk, n) == 0 || Recorded(disk, n, MaxManifestSeq(disk, n))
    ensures forall x: int :: Recorded(disk, n, x) ==> x <= MaxManifestSeq(disk, n)
  {
    MaxManifestSeqIsMax(disk, n);
    if n > 0 {
      MaxManifestSeqReached(disk, n - 1);
    }
  }

  lemma {:induction false} MaxBatchSeqReached(bs: seq<Batch>, acc: SeqNo)
    ensures MaxBatchSeq(bs, acc) == acc || BatchEnds(bs, MaxBatchSeq(bs, acc))
    ensures acc <= MaxBatchSeq(bs, acc) && forall b <- bs :: b.Last() <= MaxBatchSeq(bs, acc)
  {
    if bs != [] {
      var init, last := bs[..|bs| - 1], bs[|bs| - 1];
      assert bs == init + [last];
      MaxBatchSeqReached(init, acc);
    }
  }

  lemma LogEndsSnoc(logs: seq<Log>, l: Log, from: LogNo, x: int)
    ensures LogEnds(logs + [l], from, x) <==> LogEnds(logs, from, x) || (l.number >= from && BatchEnds(l.batches, x))
  {
    hide BatchEnds;
    if LogEnds(logs, from, x) {
      var k :| k in logs && k.number >= from && BatchEnds(k.batches, x);
      assert k in logs + [l];
    }
    assert l in logs + [l];
  }

  lemma {:induction false} MaxLogSeqReached(logs: seq<Log>, from: LogNo, acc: SeqNo)
    ensures MaxLogSeq(logs, from, acc) == acc || LogEnds(logs, from, MaxLogSeq(logs, from, acc))
    ensures acc <= MaxLogSeq(logs, from, acc)
    ensures forall x: int :: LogEnds(logs, from, x) ==> x <= MaxLogSeq(logs, from, acc)
  {
    if logs != [] {
      hide LogEnds, MaxBatchSeq;
      var init, last := logs[..|logs| - 1], logs[|logs| - 1];
      assert logs == init + [last];
      MaxLogSeqReached(init, from, acc);
      MaxBatchSeqReached(last.batches, MaxLogSeq(init, from, acc));
      forall x: int
        ensures LogEnds(logs, from, x) <==>
                LogEnds(init, from, x) || (last.number >= from && BatchEnds(last.batches, x))
      {
        LogEndsSnoc(init, last, from, x);
      }
    } else {
      assert forall x: int :: !LogEnds(logs, from, x);
    }
  }

  /** A number that the disk holds: in a manifest, or at the end of a batch in a log that some family needs. */
  ghost predicate InUse(disk: Disk, x: int)
    requires Registered(disk)
  {
    Recorded(disk, disk.nextId, x) || LogEnds(disk.logs, MinLog(disk, disk.nextId), x)
  }

  /** Recovery goes on from the largest number in use, or from 0 if there is none. */
  lemma RecoveredSequence(disk: Disk, x: int)
    requires Registered(disk)
    ensures var last := MaxLogSeq(disk.logs, MinLog(disk, disk.nextId), MaxManifestSeq(disk, disk.nextId));
            && (InUse(disk, x) ==> x <= last)
            && (last == 0 || InUse(disk, last))
  {
    hide Recorded, LogEnds, MinLog, MaxLogSeq, MaxManifestSeq;
    MaxManifestSeqReached(disk, disk.nextId);
    MaxLogSeqReached(disk.logs, MinLog(disk, disk.nextId), MaxManifestSeq(disk, disk.nextId));
  }

  // ---- File numbers ----

  /** A replayed log's number is the last one before `next`. */
  ghost predicate Follows(logs: seq<Log>, from: LogNo, next: nat) {
    exists l :: l in logs && l.number >= from && next == l.number + 1
  }

  lemma FollowsSnoc(logs: seq<Log>, l: Log, from: LogNo, next: nat)
    ensures Follows(logs + [l], from, next) <==> Follows(logs, from, next) || (l.number >= from && next == l.number + 1)
  {
    if Follows(logs, from, next) {
      var k :| k in logs && k.number >= from && next == k.number + 1;
      assert k in logs + [l];
    }
    assert l in logs + [l];
  }

  /** The next file number is the least that is neither below the recorded one nor taken by a replayed log or before. */
  lemma {:induction false} NextFileReached(logs: seq<Log>, from: LogNo, next: nat)
    ensures MarkUsed(logs, from, next) == next || Follows(logs, from, MarkUsed(logs, from, next))
    ensures next <= MarkUsed(logs, from, next)
    ensures forall l <- logs :: l.number >= from ==> l.number < MarkUsed(logs, from, next)
  {
    if logs != [] {
      hide Follows;
      var init, last := logs[..|logs| - 1], logs[|logs| - 1];
      assert logs == init + [last];
      NextFileReached(init, from, next);
      FollowsSnoc(init, last, from, MarkUsed(logs, from, next));
    }
  }
}
