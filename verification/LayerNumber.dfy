/**
 * Which layer a table file is.  Level-0 files may be listed in any order; numbered by
 * how many newer ones there are, they take the places of the newest-first list that
 * reads go through, right behind the memtables and right before the levels.
 */
module LayerNumbers {
  import opened Core
  import opened RangeDelViews
  import S = Sorting

  /** How many of the files are newer than file n. */
  function Newer(files: seq<nat>, n: nat): nat {
    if files == [] then 0 else Newer(files[..|files| - 1], n) + if files[|files| - 1] > n then 1 else 0
  }

  /** Version::LayerOf, given the numbers of the level-0 files. */
  method LayerOf(level0: seq<nat>, level: nat, n: nat) returns (layer: nat)
    ensures layer ==
            FIRST_TABLE_LAYER + if level > 0 then |level0| + level - 1 else Newer(level0, n)
  {
    if level > 0 {
      return FIRST_TABLE_LAYER + |level0| + level - 1;
    }
    var newer, i := 0, 0;
    while i < |level0|
      invariant 0 <= i <= |level0| && newer == Newer(level0[..i], n)
    {
      assert level0[..i + 1][..i] == level0[..i];
      if level0[i] > n {
        newer := newer + 1;
      }
      i := i + 1;
    }
    assert level0[..i] == level0;
    return FIRST_TABLE_LAYER + newer;
  }

  lemma {:induction false} NewerConcat(a: seq<nat>, b: seq<nat>, n: nat)
    ensures Newer(a + b, n) == Newer(a, n) + Newer(b, n)
  {
    if b == [] {
      assert a + b == a;
    } else {
      assert (a + b)[..|a + b| - 1] == a + b[..|b| - 1];
      NewerConcat(a, b[..|b| - 1], n);
    }
  }

  /** The order in which the files are listed does not matter. */
  lemma {:induction false} NewerPermuted(a: seq<nat>, b: seq<nat>, n: nat)
    requires multiset(a) == multiset(b)
    ensures Newer(a, n) == Newer(b, n)
    decreases |a|
  {
    assert |multiset(a)| == |a| && |multiset(b)| == |b|;
    if a != [] {
      var x := a[|a| - 1];
      assert x in multiset(a);
      var i :| 0 <= i < |b| && b[i] == x;
      S.PermutationTail(a, b, i);
      NewerPermuted(a[..|a| - 1], b[..i] + b[i + 1..], n);
      assert b == b[..i] + ([x] + b[i + 1..]);
      NewerConcat(b[..i], [x] + b[i + 1..], n);
      NewerConcat([x], b[i + 1..], n);
      NewerConcat(b[..i], b[i + 1..], n);
      assert [x][..0] == [];
    }
  }

  lemma {:induction false} NewerInOrder(s: seq<nat>, i: nat, m: nat)
    requires (forall x, y | 0 <= x < y < |s| :: s[x] > s[y]) && i < |s| && m <= |s|
    ensures Newer(s[..m], s[i]) == if m <= i then m else i
  {
    if m > 0 {
      NewerInOrder(s, i, m - 1);
      assert s[..m][..m - 1] == s[..m - 1];
    }
  }

  /** The i-th newest level-0 file is the i-th table layer; every level comes after all of them. */
  lemma NewestFirstAreLayers(level0: seq<nat>, newestFirst: seq<nat>, i: nat)
    requires multiset(level0) == multiset(newestFirst) && i < |newestFirst|
    requires forall x, y | 0 <= x < y < |newestFirst| :: newestFirst[x] > newestFirst[y]
    ensures Newer(level0, newestFirst[i]) == i < |level0|
  {
    NewerPermuted(level0, newestFirst, newestFirst[i]);
    NewerInOrder(newestFirst, i, |newestFirst|);
    assert newestFirst[..|newestFirst|] == newestFirst;
    assert |multiset(level0)| == |multiset(newestFirst)|;
  }
}
