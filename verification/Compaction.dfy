/**
 * A whole compaction: which input tombstones are carried on, the loop that collects
 * the entries of one key after another and writes what they compact to, and the main
 * result: no live reader of any key can tell that the compaction took place.
 */
module Compactions {
  import opened Core
  import opened Sorting
  import opened Visibility
  import opened Layers
  import opened CompactGroups
  import Loops = CompactGroupLoops
  import opened CompactionOutputs
  import opened CompactionCuts

  /** The user keys a table file of a level below the output level spans. */
  datatype Span = Span(smallest: Key, largest: Key)

  /** IsBaseLevelForKey: no deeper file spans the key. */
  predicate BaseForKey(deep: seq<Span>, k: Key) {
    forall i | 0 <= i < |deep| :: k < deep[i].smallest || deep[i].largest < k
  }

  /** IsBaseLevelForRange: no deeper file overlaps [begin, end]. */
  predicate BaseForRange(deep: seq<Span>, begin: Key, end: Key) {
    forall i | 0 <= i < |deep| :: end < deep[i].smallest || deep[i].largest < begin
  }

  // ---- Which tombstones are carried on ----

  /** A tombstone is dropped iff every reader sees it and nothing deeper can need it. */
  predicate Dropped(job: Job, deep: seq<Span>, t: Tombstone) {
    t.sn <= job.Smallest() && BaseForRange(deep, t.begin, t.end)
  }

  /** The input tombstones to carry on, by where they begin. */
  method KeepTombstones(job: Job, deep: seq<Span>) returns (kept: seq<Tombstone>)
    ensures forall t :: t in kept <==> t in job.inputs && !Dropped(job, deep, t)
    ensures SortedBy(kept, (t: Tombstone) => t.begin)
    ensures multiset(kept) <= multiset(job.inputs)
  {
    var found: seq<Tombstone> := [];
    var i := 0;
    while i < |job.inputs|
      invariant 0 <= i <= |job.inputs|
      invariant forall t :: t in found <==> t in job.inputs[..i] && !Dropped(job, deep, t)
      invariant multiset(found) <= multiset(job.inputs[..i])
    {
      var t := job.inputs[i];
      assert job.inputs[..i + 1] == job.inputs[..i] + [t];
      if !(t.sn <= job.Smallest() && BaseForRange(deep, t.begin, t.end)) {
        found := found + [t];
      }
      i := i + 1;
    }
    assert job.inputs[..i] == job.inputs;
    kept := Sort(found, (t: Tombstone) => t.begin);
    SameMembers(kept, found);
  }

  // ---- The loop over the input ----

  /** How many entries share the first one's key. */
  function GroupLength(es: seq<Entry>): (n: nat)
    requires es != []
    ensures 0 < n <= |es|
    ensures forall i | 0 <= i < n :: es[i].key == es[0].key
    ensures n < |es| ==> es[n].key != es[0].key
  {
    if |es| == 1 || es[1].key != es[0].key then 1
    else
      var n := 1 + GroupLength(es[1..]);
      assert n - 1 < |es[1..]| ==> es[1..][n - 1] == es[n];
      n
  }

  /** What the whole input compacts to: group after group. */
  function CompactAll(job: Job, deep: seq<Span>, es: seq<Entry>): seq<Entry>
    decreases |es|
  {
    if es == [] then []
    else
      var n := GroupLength(es);
      job.Compacted(es[..n], BaseForKey(deep, es[0].key)) + CompactAll(job, deep, es[n..])
  }

  lemma GroupLengthIs(es: seq<Entry>, n: nat)
    requires 0 < n <= |es| && (forall i | 0 <= i < n :: es[i].key == es[0].key)
    requires n < |es| ==> es[n].key != es[0].key
    ensures GroupLength(es) == n
  {
    if n > 1 {
      assert es[1..][0] == es[1];
      GroupLengthIs(es[1..], n - 1);
    }
  }

  /** A run of one key at the head of the input compacts on its own. */
  lemma CompactHead(job: Job, deep: seq<Span>, es: seq<Entry>, n: nat)
    requires 0 < n <= |es| && (forall i | 0 <= i < n :: es[i].key == es[0].key)
    requires n < |es| ==> es[n].key != es[0].key
    ensures CompactAll(job, deep, es) ==
            job.Compacted(es[..n], BaseForKey(deep, es[0].key)) + CompactAll(job, deep, es[n..])
  {
    GroupLengthIs(es, n);
  }

  /** A run of one key in a sorted input is a group. */
  lemma RunIsGroup(es: seq<Entry>, i: nat, j: nat, k: Key)
    requires Sorted(es) && i <= j <= |es| && forall x | i <= x < j :: es[i..j][x - i].key == k && es[x].sn >= 1
    ensures IsGroup(es[i..j], k)
  {
    forall x, y | 0 <= x < y < j - i ensures es[i..j][x].sn > es[i..j][y].sn {
      assert Before(es[i + x].key, es[i + x].sn, es[i + y].key, es[i + y].sn);
    }
  }

  /** The numbers of a compaction's entries: real ones, seen by every reader at the last sequence. */
  ghost predicate Real(job: Job, es: seq<Entry>) {
    forall e :: e in es ==> 1 <= e.sn <= job.last
  }

  /** compact_group and flush_group for the collected group. */
  method Flush(job: Job, deep: seq<Span>, st: CompactionState, k: Key, group: seq<Entry>, stop: bool, full: bool)
    requires st.Valid() && Behind(st.entries, st.lowerCut, k) && job.last < MAX_SEQ
    requires IsGroup(group, k) && Real(job, group)
    modifies st
    ensures st.Valid() && UpTo(st.entries, st.lowerCut, k)
    ensures st.AllWritten() == old(st.AllWritten()) + job.Compacted(group, BaseForKey(deep, k))
    ensures IsGroup(job.Compacted(group, BaseForKey(deep, k)), k)
    ensures GroupFlushed(old(st.outputs), old(st.entries), old(st.lowerCut), old(st.pendingCut), st.outputs, st.entries,
                         st.lowerCut, st.pendingCut, k, job.Compacted(group, BaseForKey(deep, k)), stop, full)
  {
    var out := Loops.CompactGroup(job, group, BaseForKey(deep, k));
    Loops.CompactedIsGroup(job, group, k, BaseForKey(deep, k));
    forall i | 0 <= i < |out| ensures out[i].sn < MAX_SEQ {
      assert Loops.Numbered(group, out[i].sn);
      var j :| 0 <= j < |group| && group[j].sn == out[i].sn;
      assert group[j] in group;
    }
    st.FlushGroup(k, out, stop, full);
  }

  /**
   * DoCompactionWork from the input files to the output files.  `stop` and `full`
   * answer ShouldStopBefore and the file size test at every point of the input.
   */
  method DoCompactionWork(job: Job, deep: seq<Span>, input: seq<Entry>, stop: nat -> bool, full: nat -> bool)
    returns (outputs: seq<Output>, kept: seq<Tombstone>)
    requires Sorted(input) && Real(job, input) && job.last < MAX_SEQ
    requires forall t :: t in job.inputs ==> t.sn <= job.last && t.begin < t.end
    ensures forall t :: t in kept <==> t in job.inputs && !Dropped(job, deep, t)
    ensures Finished(outputs, kept) && Written(outputs) == CompactAll(job, deep, input)
    ensures CutAsTold(outputs, input, stop, full)
  {
    kept := KeepTombstones(job, deep);
    var st := new CompactionState(kept);
    CompactInput(job, deep, input, st, stop, full);
    st.OpenFile();
    ghost var outs, es, lower := st.outputs, st.entries, st.lowerCut;
    st.Close();
    outputs := st.outputs;
    LastFile(outs, es, lower, outputs, input, stop, full);
  }

  /** The loop over the input, which leaves the last file open. */
  method CompactInput(job: Job, deep: seq<Span>, input: seq<Entry>, st: CompactionState, stop: nat -> bool,
                      full: nat -> bool)
    requires Sorted(input) && Real(job, input) && job.last < MAX_SEQ
    requires st.Valid() && st.AllWritten() == [] && st.lowerCut == None && st.outputs == [] && !st.pendingCut
    modifies st
    ensures st.Valid() && st.AllWritten() == CompactAll(job, deep, input)
    ensures CutAsTold(st.outputs, input, stop, full) && Uncut(st.entries, input, stop, full)
  {
    hide CompactAll, Job.Compacted, Sorted, CompactionState.Valid;
    var group: seq<Entry> := [];
    var i := 0;
    ghost var from := 0;
    assert input[0..] == input && st.entries == [];
    NothingCut(input, stop, full);
    hide CompactionState.AllWritten;
    while i < |input|
      invariant 0 <= i <= |input|
      invariant st.Valid()
      invariant Collected(input, group, from, i, st.entries, st.lowerCut)
      invariant Accounts(job, deep, st.AllWritten(), input, from)
      invariant CutSoFar(st.outputs, st.entries, st.pendingCut, input, from, stop, full)
    {
      group, from := TakeEntry(job, deep, input, st, group, from, i, stop, full);
      i := i + 1;
    }
    if group != [] {
      FlushGroup(job, deep, input, st, group, from, i, stop, full);
    }
    NothingMore(job, deep, input);
  }

  lemma NothingMore(job: Job, deep: seq<Span>, input: seq<Entry>)
    ensures CompactAll(job, deep, input[|input|..]) == []
  {
  }

  /** What is written, and what the input makes of itself from here on, make up the whole. */
  ghost predicate Accounts(job: Job, deep: seq<Span>, written: seq<Entry>, input: seq<Entry>, from: nat)
    requires from <= |input|
  {
    written + CompactAll(job, deep, input[from..]) == CompactAll(job, deep, input)
  }

  /** What is collected after i entries: the run of the last one's key, which is yet to be written. */
  ghost predicate Collected(input: seq<Entry>, group: seq<Entry>, from: nat, i: nat, es: seq<Entry>, cut: Option<Key>) {
    && from <= i <= |input| && group == input[from..i] && (i > 0 ==> group != [])
    && (i == 0 ==> es == [] && cut == None)
    && (group != [] ==> Behind(es, cut, group[0].key))
    && (forall j | 0 <= j < |group| :: group[j].key == group[0].key)
  }

  /** One round of the loop: flush the collected group if the key changes, then collect the entry. */
  method TakeEntry(job: Job, deep: seq<Span>, input: seq<Entry>, st: CompactionState, group0: seq<Entry>,
                   ghost from0: nat, i: nat, stop: nat -> bool, full: nat -> bool)
    returns (group: seq<Entry>, ghost from: nat)
    requires Sorted(input) && Real(job, input) && job.last < MAX_SEQ && st.Valid()
    requires i < |input| && Collected(input, group0, from0, i, st.entries, st.lowerCut)
    requires Accounts(job, deep, st.AllWritten(), input, from0)
    requires CutSoFar(st.outputs, st.entries, st.pendingCut, input, from0, stop, full)
    modifies st
    ensures CutSoFar(st.outputs, st.entries, st.pendingCut, input, from, stop, full)
    ensures st.Valid() && Collected(input, group, from, i + 1, st.entries, st.lowerCut)
    ensures Accounts(job, deep, st.AllWritten(), input, from)
  {
    hide CompactAll;
    group, from := group0, from0;
    if group != [] && input[i].key != group[0].key {
      FlushGroup(job, deep, input, st, group, from, i, stop, full);
      group, from := [], i;
    }
    CollectOne(input, group, from, i, st.entries, st.lowerCut);
    group := group + [input[i]];
  }

  /** The next entry joins the run of its key, or starts one. */
  lemma CollectOne(input: seq<Entry>, group: seq<Entry>, from: nat, i: nat, es: seq<Entry>, cut: Option<Key>)
    requires from <= i < |input| && group == input[from..i] && Behind(es, cut, input[i].key)
    requires forall j | 0 <= j < |group| :: group[j].key == input[i].key
    ensures Collected(input, group + [input[i]], from, i + 1, es, cut)
  {
  }

  /** Flush the collected group, which ends where the key changes or the input does. */
  method FlushGroup(job: Job, deep: seq<Span>, input: seq<Entry>, st: CompactionState, group: seq<Entry>,
                    ghost from: nat, i: nat, stop: nat -> bool, full: nat -> bool)
    requires Sorted(input) && Real(job, input) && job.last < MAX_SEQ && st.Valid()
    requires group != [] && Collected(input, group, from, i, st.entries, st.lowerCut)
    requires i < |input| ==> input[i].key != group[0].key
    requires Accounts(job, deep, st.AllWritten(), input, from)
    requires CutSoFar(st.outputs, st.entries, st.pendingCut, input, from, stop, full)
    modifies st
    ensures CutSoFar(st.outputs, st.entries, st.pendingCut, input, i, stop, full)
    ensures st.Valid() && (i < |input| ==> Behind(st.entries, st.lowerCut, input[i].key))
    ensures Accounts(job, deep, st.AllWritten(), input, i)
  {
    hide CompactAll, Job.Compacted, Sorted, CompactionState.AllWritten, CompactionState.Valid, CutSoFar, GroupFlushed;
    var k := group[0].key;
    RunIsGroup(input, from, i, k);
    st.OpenFile();
    ghost var before, outs, es, lower, pending := st.AllWritten(), st.outputs, st.entries, st.lowerCut, st.pendingCut;
    Flush(job, deep, st, k, group, stop(i), full(i));
    RunEnds(input, group, from, i);
    FlushCuts(outs, es, lower, pending, st.outputs, st.entries, st.lowerCut, st.pendingCut, input, from, i,
              job.Compacted(group, BaseForKey(deep, k)), stop, full);
    FlushAccounts(job, deep, before, input, from, i);
    LargerNext(input, from, i);
  }

  lemma RunEnds(input: seq<Entry>, group: seq<Entry>, from: nat, i: nat)
    requires from < i <= |input| && group == input[from..i]
    requires forall j | 0 <= j < |group| :: group[j].key == group[0].key
    requires i < |input| ==> input[i].key != group[0].key
    ensures KeyEnds(input, i) && group[0] == input[from]
    ensures forall j | from <= j < i :: input[j].key == input[from].key
  {
    forall j | from <= j < i ensures input[j].key == group[0].key {
      assert input[j] == group[j - from];
    }
  }

  /** Where the key changes it grows. */
  lemma LargerNext(input: seq<Entry>, from: nat, i: nat)
    requires Sorted(input) && from < i <= |input| && (i < |input| ==> input[i].key != input[from].key)
    ensures i < |input| ==> input[from].key < input[i].key
  {
    assert i < |input| ==> Before(input[from].key, input[from].sn, input[i].key, input[i].sn);
  }

  lemma FlushAccounts(job: Job, deep: seq<Span>, written: seq<Entry>, input: seq<Entry>, from: nat, i: nat)
    requires from < i <= |input| && (forall j | from <= j < i :: input[j].key == input[from].key)
    requires i < |input| ==> input[i].key != input[from].key
    requires Accounts(job, deep, written, input, from)
    ensures Accounts(job, deep, written + job.Compacted(input[from..i], BaseForKey(deep, input[from].key)), input, i)
  {
    hide CompactAll, Job.Compacted;
    CompactHead(job, deep, input[from..], i - from);
    assert input[from..][..i - from] == input[from..i] && input[from..][i - from..] == input[i..];
    Associate(written, job.Compacted(input[from..i], BaseForKey(deep, input[from].key)),
              CompactAll(job, deep, input[i..]));
  }
}
