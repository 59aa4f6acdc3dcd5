/** std::sort by a numeric rank: which order equal ranks end up in never matters below. */
module Sorting {

  ghost predicate SortedBy<T(!new)>(s: seq<T>, rank: T -> real) {
    forall i, j | 0 <= i < j < |s| :: rank(s[i]) <= rank(s[j])
  }

  /** Where x goes in a sorted sequence: after everything ranked below it. */
  function Position<T(!new)>(s: seq<T>, rank: T -> real, x: T): (i: nat)
    requires SortedBy(s, rank)
    ensures i <= |s|
    ensures forall j | 0 <= j < |s| :: rank(s[j]) < rank(x) <==> j < i
    decreases |s|
  {
    if s == [] then 0
    else if rank(s[|s| - 1]) < rank(x) then |s|
    else Position(s[..|s| - 1], rank, x)
  }

  lemma InsertKeepsOrder<T(!new)>(s: seq<T>, rank: T -> real, x: T)
    requires SortedBy(s, rank)
    ensures var i := Position(s, rank, x); SortedBy(s[..i] + [x] + s[i..], rank)
  {
    var i := Position(s, rank, x);
    var r := s[..i] + [x] + s[i..];
    forall a, b | 0 <= a < b < |r| ensures rank(r[a]) <= rank(r[b]) {
      if a == i {
        assert r[b] == s[b - 1];
      } else if b == i {
        assert r[a] == s[a];
      }
    }
  }

  lemma InsertMultiset<T>(s: seq<T>, i: nat, x: T)
    requires i <= |s|
    ensures multiset(s[..i] + [x] + s[i..]) == multiset(s) + multiset{x}
  {
    assert s == s[..i] + s[i..];
  }

  lemma RemoveMultiset<T>(s: seq<T>, i: nat)
    requires i < |s|
    ensures multiset(s) == multiset(s[..i] + s[i + 1..]) + multiset{s[i]}
  {
    assert s == s[..i] + [s[i]] + s[i + 1..];
  }

  function Sort<T(!new)>(s: seq<T>, rank: T -> real): (r: seq<T>)
    ensures SortedBy(r, rank) && multiset(r) == multiset(s) && |r| == |s|
    decreases |s|
  {
    if s == [] then []
    else
      var rest := Sort(s[..|s| - 1], rank);
      var x := s[|s| - 1];
      var i := Position(rest, rank, x);
      InsertKeepsOrder(rest, rank, x);
      InsertMultiset(rest, i, x);
      RemoveMultiset(s, |s| - 1);
      assert s[..|s| - 1] + s[|s|..] == s[..|s| - 1];
      rest[..i] + [x] + rest[i..]
  }

  lemma SameMembers<T>(a: seq<T>, b: seq<T>)
    requires multiset(a) == multiset(b)
    ensures forall x :: x in a <==> x in b
  {
    forall x ensures x in a <==> x in b {
      assert x in a <==> x in multiset(a);
      assert x in b <==> x in multiset(b);
    }
  }

  /** Taking equal elements out of two permutations leaves permutations. */
  lemma PermutationTail<T>(a: seq<T>, b: seq<T>, i: nat)
    requires multiset(a) == multiset(b) && a != [] && i < |b| && b[i] == a[|a| - 1]
    ensures multiset(a[..|a| - 1]) == multiset(b[..i] + b[i + 1..])
  {
    RemoveMultiset(b, i);
    assert a == a[..|a| - 1] + [a[|a| - 1]];
    assert multiset(a[..|a| - 1]) == multiset(a) - multiset{a[|a| - 1]};
  }
}
