/**
 * The workload's pseudo-random insertion order: four Feistel rounds on the
 * smallest even width that covers n, repeated until the result lands below n.  For any
 * round function the walk ends, and the outcome is a bijection on [0, n).
 */
module Permutations {
  import opened Arithmetic

  // ---- Bits ----

  function Pow2(k: nat): (p: nat)
    ensures p >= 1
  {
    if k == 0 then 1 else 2 * Pow2(k - 1)
  }

  lemma {:induction false} Pow2Add(a: nat, b: nat)
    ensures Pow2(a + b) == Pow2(a) * Pow2(b)
  {
    if a > 0 {
      Pow2Add(a - 1, b);
      assert a + b - 1 == a - 1 + b;
      assert 2 * (Pow2(a - 1) * Pow2(b)) == (2 * Pow2(a - 1)) * Pow2(b);
    }
  }

  /** l ^ f, bit by bit. */
  function Xor(a: nat, b: nat): nat
    decreases a + b
  {
    if a == 0 && b == 0 then 0 else 2 * Xor(a / 2, b / 2) + (a + b) % 2
  }

  lemma {:induction false} XorWithin(a: nat, b: nat, k: nat)
    requires a < Pow2(k) && b < Pow2(k)
    ensures Xor(a, b) < Pow2(k)
  {
    if a > 0 || b > 0 {
      XorWithin(a / 2, b / 2, k - 1);
    }
  }

  lemma XorStep(a: nat, b: nat)
    ensures Xor(a, b) == 2 * Xor(a / 2, b / 2) + (a + b) % 2
  {
    if a == 0 && b == 0 {
      assert Xor(0, 0) == 0;
    }
  }

  /** Taking the same bits twice takes nothing. */
  lemma {:induction false} XorTwice(a: nat, b: nat)
    ensures Xor(Xor(a, b), b) == a
    decreases a + b
  {
    if a == 0 && b == 0 {
      assert Xor(0, 0) == 0;
    } else {
      hide Xor;
      XorTwice(a / 2, b / 2);
      XorStep(a, b);
      XorStep(Xor(a, b), b);
      Peel(Xor(a, b), Xor(a / 2, b / 2), a, b);
    }
  }

  /** Bit i of l ^ f is set if it is set in one of them only. */
  lemma {:induction false} XorBits(a: nat, b: nat, i: nat)
    ensures (Xor(a, b) / Pow2(i)) % 2 == (a / Pow2(i) + b / Pow2(i)) % 2
    decreases i
  {
    hide Xor;
    XorStep(a, b);
    var c := Xor(a, b);
    Peel(c, Xor(a / 2, b / 2), a, b);
    if i == 0 {
      assert Pow2(0) == 1;
    } else {
      XorBits(a / 2, b / 2, i - 1);
      DivideTwice(a, 2, Pow2(i - 1));
      DivideTwice(b, 2, Pow2(i - 1));
      DivideTwice(c, 2, Pow2(i - 1));
    }
  }

  /** The last bit and the rest of a sum of bits. */
  lemma Peel(c: nat, high: nat, a: nat, b: nat)
    requires c == 2 * high + (a + b) % 2
    ensures c / 2 == high && (c + b) % 2 == a % 2
  {
  }

  // ---- The network ----

  /** The two halves of a number, the low one first. */
  datatype Halves = Halves(l: nat, r: nat)
  {
    predicate Within(half: nat) {
      l < Pow2(half) && r < Pow2(half)
    }
  }

  /** A Feistel network: any round function, four rounds, halves of `half` bits. */
  datatype Network = Network(half: nat, mix: (nat, nat) -> nat)
  {
    function Size(): nat {
      Pow2(half) * Pow2(half)
    }

    function F(round: nat, r: nat): (f: nat)
      ensures f < Pow2(half)
    {
      mix(round, r) % Pow2(half)
    }

    function Round(round: nat, h: Halves): Halves {
      Halves(h.r, Xor(h.l, F(round, h.r)))
    }

    function Unround(round: nat, h: Halves): Halves {
      Halves(Xor(h.r, F(round, h.l)), h.l)
    }

    function Rounds(n: nat, h: Halves): Halves {
      if n == 0 then h else Round(n - 1, Rounds(n - 1, h))
    }

    function Unrounds(n: nat, h: Halves): Halves {
      if n == 0 then h else Unrounds(n - 1, Unround(n - 1, h))
    }

    function Split(x: nat): Halves {
      Halves(x % Pow2(half), (x / Pow2(half)) % Pow2(half))
    }

    function Join(h: Halves): nat {
      h.r * Pow2(half) + h.l
    }

    function Encode(x: nat): nat {
      Join(Rounds(4, Split(x)))
    }

    function Decode(y: nat): nat {
      Join(Unrounds(4, Split(y)))
    }

    function Encoding(): nat -> nat {
      (x: nat) => Encode(x)
    }

    function Decoding(): nat -> nat {
      (y: nat) => Decode(y)
    }

    /** Four rounds, each half in turn taking the round function of the other; the high half comes out last. */
    lemma FourRounds(x: nat)
      ensures var p := Pow2(half);
              var l, r := x % p, x / p % p;
              var a := Xor(l, mix(0, r) % p);
              var b := Xor(r, mix(1, a) % p);
              var c := Xor(a, mix(2, b) % p);
              var d := Xor(b, mix(3, c) % p);
              Encode(x) == d * p + c
    {
      hide Xor, Pow2;
      var h0 := Split(x);
      var h1 := Round(0, h0);
      var h2 := Round(1, h1);
      var h3 := Round(2, h2);
      assert Rounds(1, h0) == h1 && Rounds(2, h0) == h2 && Rounds(3, h0) == h3;
      assert Rounds(4, h0) == Round(3, h3);
    }

    lemma RoundInverts(round: nat, h: Halves)
      requires h.Within(half)
      ensures Round(round, h).Within(half) && Unround(round, Round(round, h)) == h
      ensures Unround(round, h).Within(half) && Round(round, Unround(round, h)) == h
    {
      XorWithin(h.l, F(round, h.r), half);
      XorTwice(h.l, F(round, h.r));
      XorWithin(h.r, F(round, h.l), half);
      XorTwice(h.r, F(round, h.l));
    }

    lemma {:induction false} RoundsInvert(n: nat, h: Halves)
      requires h.Within(half)
      ensures Rounds(n, h).Within(half) && Unrounds(n, Rounds(n, h)) == h
      ensures Unrounds(n, h).Within(half) && Rounds(n, Unrounds(n, h)) == h
      decreases n
    {
      hide Round, Unround;
      if n > 0 {
        RoundsInvert(n - 1, h);
        RoundInverts(n - 1, Rounds(n - 1, h));
        RoundInverts(n - 1, h);
        RoundsInvert(n - 1, Unround(n - 1, h));
      }
    }

    lemma SplitJoin(h: Halves)
      requires h.Within(half)
      ensures Join(h) < Size() && Split(Join(h)) == h
    {
      hide Pow2;
      var p := Pow2(half);
      DivMod(h.r, h.l, p);
      Below(h.r, h.l, p);
      SmallRemainder(h.r, p);
    }

    lemma JoinSplit(x: nat)
      requires x < Size()
      ensures Split(x).Within(half) && Join(Split(x)) == x
    {
      var p := Pow2(half);
      assert x == (x / p) * p + x % p;
      HighBelow(x, p);
    }

    /** The network is a permutation of [0, Size()). */
    lemma EncodeInverts(x: nat)
      requires x < Size()
      ensures Encode(x) < Size() && Decode(Encode(x)) == x
      ensures Decode(x) < Size() && Encode(Decode(x)) == x
    {
      hide Split, Join, Rounds, Unrounds, Size;
      JoinSplit(x);
      var h := Split(x);
      RoundsInvert(4, h);
      SplitJoin(Rounds(4, h));
      SplitJoin(Unrounds(4, h));
    }
  }

  lemma Below(q: nat, r: nat, p: nat)
    requires q < p && r < p
    ensures q * p + r < p * p
  {
    AtLeast(p, q + 1, p);
    assert (q + 1) * p == q * p + p;
  }

  lemma HighBelow(x: nat, p: nat)
    requires p > 0 && x < p * p
    ensures x / p < p && (x / p) % p == x / p
  {
    assert (x / p) * p <= x;
    NotAtLeast(x / p, p, p);
    SmallRemainder(x / p, p);
  }

  // ---- Walking a permutation until it lands below n ----

  ghost predicate Undone(f: nat -> nat, g: nat -> nat, size: nat, x: nat) {
    x < size ==> f(x) < size && g(x) < size && g(f(x)) == x && f(g(x)) == x
  }

  /** f and g undo each other on [0, size). */
  ghost predicate Inverse(f: nat -> nat, g: nat -> nat, size: nat) {
    forall x: nat :: Undone(f, g, size, x)
  }

  function Iterate(f: nat -> nat, x: nat, s: nat): nat {
    if s == 0 then x else f(Iterate(f, x, s - 1))
  }

  lemma InverseSymmetric(f: nat -> nat, g: nat -> nat, size: nat)
    requires Inverse(f, g, size)
    ensures Inverse(g, f, size)
  {
    forall x: nat ensures Undone(g, f, size, x) {
      assert Undone(f, g, size, x);
    }
  }

  /** The first s points of the walk are not below n. */
  ghost predicate Outside(f: nat -> nat, n: nat, x: nat, s: nat) {
    forall t | 1 <= t <= s :: Iterate(f, x, t) >= n
  }

  lemma OneMore(f: nat -> nat, n: nat, start: nat, x: nat, s: nat)
    requires Outside(f, n, start, s) && x == Iterate(f, start, s)
    ensures f(x) == Iterate(f, start, s + 1)
    ensures if f(x) < n then Lands(f, n, start, f(x), s + 1) else Outside(f, n, start, s + 1)
  {
  }

  /** The first of x's iterates that is below n is the s-th, and it is y. */
  ghost predicate Lands(f: nat -> nat, n: nat, x: nat, y: nat, s: nat) {
    s >= 1 && y < n && y == Iterate(f, x, s) && forall t | 1 <= t < s :: Iterate(f, x, t) >= n
  }

  /** Finitely many numbers. */
  lemma {:induction false} RangeSize(v: set<nat>, lo: nat, hi: nat)
    requires lo <= hi && forall x :: x in v ==> lo <= x < hi
    ensures |v| <= hi - lo
    decreases hi - lo
  {
    if lo == hi {
      assert v == {};
    } else {
      RangeSize(v - {hi - 1}, lo, hi - 1);
    }
  }

  /** The points visited outside [0, n): each comes after another one or the start, and x, the last, before none. */
  ghost predicate Trail(g: nat -> nat, v: set<nat>, n: nat, size: nat, start: nat, x: nat) {
    && (forall y :: y in v ==> n <= y < size)
    && (x in v || x == start)
    && (forall y :: y in v ==> (g(y) in v || g(y) == start) && g(y) != x)
  }

  /** The next point, if it is still outside, is a new one. */
  lemma TrailGrows(f: nat -> nat, g: nat -> nat, v: set<nat>, n: nat, size: nat, start: nat, x: nat)
    requires Inverse(f, g, size) && Trail(g, v, n, size, start, x) && start < n <= size && x < size && f(x) >= n
    ensures f(x) !in v && Trail(g, v + {f(x)}, n, size, start, f(x)) && |v| < |v + {f(x)}| <= size - n
  {
    assert Undone(f, g, size, x);
    RangeSize(v + {f(x)}, n, size);
  }

  /** Walking on from x, the s-th iterate; the unvisited points outside [0, n) are the measure. */
  lemma {:induction false} WalkOn(f: nat -> nat, g: nat -> nat, n: nat, size: nat, start: nat, x: nat, s: nat,
                                  v: set<nat>)
    returns (y: nat, t: nat)
    requires Inverse(f, g, size) && Trail(g, v, n, size, start, x) && start < n <= size && x < size && |v| <= size - n
    requires x == Iterate(f, start, s) && Outside(f, n, start, s)
    ensures Lands(f, n, start, y, t)
    decreases size - n - |v|
  {
    hide Iterate, Outside, Lands;
    assert Undone(f, g, size, x);
    OneMore(f, n, start, x, s);
    if f(x) < n {
      y, t := f(x), s + 1;
    } else {
      TrailGrows(f, g, v, n, size, start, x);
      y, t := WalkOn(f, g, n, size, start, f(x), s + 1, v + {f(x)});
    }
  }

  /** Every start below n lands. */
  lemma WalkLands(f: nat -> nat, g: nat -> nat, n: nat, size: nat, start: nat) returns (y: nat, t: nat)
    requires Inverse(f, g, size) && start < n <= size
    ensures Lands(f, n, start, y, t)
  {
    y, t := WalkOn(f, g, n, size, start, start, 0, {});
  }

  lemma {:induction false} IterateWithin(f: nat -> nat, g: nat -> nat, size: nat, x: nat, s: nat)
    requires Inverse(f, g, size) && x < size
    ensures Iterate(f, x, s) < size
  {
    if s > 0 {
      IterateWithin(f, g, size, x, s - 1);
      assert Undone(f, g, size, Iterate(f, x, s - 1));
    }
  }

  /** Walking back. */
  lemma {:induction false} IterateBack(f: nat -> nat, g: nat -> nat, size: nat, x: nat, s: nat, t: nat)
    requires Inverse(f, g, size) && x < size && t <= s
    ensures Iterate(g, Iterate(f, x, s), t) == Iterate(f, x, s - t)
  {
    if t > 0 {
      IterateBack(f, g, size, x, s, t - 1);
      IterateWithin(f, g, size, x, s - t);
      assert Undone(f, g, size, Iterate(f, x, s - t));
      assert Iterate(f, x, s - t + 1) == f(Iterate(f, x, s - t));
    }
  }

  /** Two starts that land on the same point are the same. */
  lemma LandsOnce(f: nat -> nat, g: nat -> nat, n: nat, size: nat, i: nat, j: nat, y: nat, s: nat, t: nat)
    requires Inverse(f, g, size) && i < n <= size && j < n
    requires Lands(f, n, i, y, s) && Lands(f, n, j, y, t) && s <= t
    ensures i == j
  {
    IterateBack(f, g, size, i, s, s);
    IterateBack(f, g, size, j, t, s);
  }

  /** Where the inverse lands from y is a start that lands on y. */
  lemma LandsBack(f: nat -> nat, g: nat -> nat, n: nat, size: nat, y: nat, i: nat, s: nat)
    requires Inverse(f, g, size) && y < n <= size && Lands(g, n, y, i, s)
    ensures Lands(f, n, i, y, s)
  {
    InverseSymmetric(f, g, size);
    IterateBack(g, f, size, y, s, s);
    forall t | 1 <= t < s ensures Iterate(f, i, t) >= n {
      IterateBack(g, f, size, y, s, t);
    }
  }

  /** The walk from x lands on y. */
  ghost predicate LandsOn(f: nat -> nat, n: nat, x: nat, y: nat) {
    exists s: nat :: Lands(f, n, x, y, s)
  }

  ghost predicate Leaves(f: nat -> nat, n: nat, x: nat) {
    exists y: nat :: LandsOn(f, n, x, y)
  }

  ghost predicate Reached(f: nat -> nat, n: nat, y: nat) {
    exists x: nat :: x < n && LandsOn(f, n, x, y)
  }

  /** Every start below n lands on one point, and every point below n is landed on from one start. */
  ghost predicate IsBijection(f: nat -> nat, n: nat) {
    && (forall x: nat :: x < n ==> Leaves(f, n, x))
    && (forall y: nat :: y < n ==> Reached(f, n, y))
    && (forall x: nat, y: nat, y': nat :: x < n && LandsOn(f, n, x, y) && LandsOn(f, n, x, y') ==> y == y' < n)
    && (forall x: nat, x': nat, y: nat :: x < n && x' < n && LandsOn(f, n, x, y) && LandsOn(f, n, x', y) ==> x == x')
  }

  lemma WalkIsBijection(f: nat -> nat, g: nat -> nat, n: nat, size: nat)
    requires Inverse(f, g, size) && n <= size
    ensures IsBijection(f, n)
  {
    forall x: nat | x < n ensures Leaves(f, n, x) {
      var y, s := WalkLands(f, g, n, size, x);
      assert LandsOn(f, n, x, y);
    }
    InverseSymmetric(f, g, size);
    forall y: nat | y < n ensures Reached(f, n, y) {
      var x, s := WalkLands(g, f, n, size, y);
      LandsBack(f, g, n, size, y, x, s);
      assert LandsOn(f, n, x, y);
    }
    forall x: nat, x': nat, y: nat | x < n && x' < n && LandsOn(f, n, x, y) && LandsOn(f, n, x', y) ensures x == x' {
      var s: nat, t: nat :| Lands(f, n, x, y, s) && Lands(f, n, x', y, t);
      if s <= t {
        LandsOnce(f, g, n, size, x, x', y, s, t);
      } else {
        LandsOnce(f, g, n, size, x', x, y, t, s);
      }
    }
    forall x: nat, y: nat, y': nat | x < n && LandsOn(f, n, x, y) && LandsOn(f, n, x, y') ensures y == y' < n {
      var s: nat, t: nat :| Lands(f, n, x, y, s) && Lands(f, n, x, y', t);
      assert s == t;
    }
  }

  // ---- Permute ----

  /** Half the number of bits: the smallest, from 1 on, whose square of possibilities covers n. */
  function HalfBits(n: nat, from: nat): (half: nat)
    ensures half >= from
    decreases n - from
  {
    if n <= Pow2(2 * from) || n <= from then from else HalfBits(n, from + 1)
  }

  /** The number of bits: even, and enough for n. */
  method Bits(n: nat) returns (half: nat)
    requires n <= Pow2(62)
    ensures half == HalfBits(n, 1) && 1 <= half <= 31 && n <= Pow2(half) * Pow2(half)
  {
    hide Pow2;
    var bits := 2;
    half := 1;
    while Pow2(bits) < n
      invariant bits == 2 * half && 1 <= half <= 31 && HalfBits(n, half) == HalfBits(n, 1)
      decreases 62 - bits
    {
      PowAbove(half);
      bits, half := bits + 2, half + 1;
    }
    Pow2Add(half, half);
  }

  /** Once the count itself reaches n, its power has. */
  lemma {:induction false} PowAbove(k: nat)
    ensures k < Pow2(2 * k)
  {
    if k > 0 {
      PowAbove(k - 1);
      assert Pow2(2 * k) == 4 * Pow2(2 * (k - 1));
    }
  }

  /** One application of the network, round by round. */
  method ApplyNetwork(net: Network, x: nat) returns (y: nat)
    requires x < net.Size()
    ensures y == net.Encode(x)
  {
    var p := Pow2(net.half);
    var l: nat, r: nat := x % p, (x / p) % p;
    var round: nat := 0;
    while round < 4
      invariant 0 <= round <= 4 && Halves(l, r) == net.Rounds(round, net.Split(x))
    {
      var f := net.F(round, r);
      var nl, nr := r, Xor(l, f);
      l, r := nl, nr;
      round := round + 1;
    }
    y := r * p + l;
  }

  lemma NetworkInverse(net: Network)
    ensures Inverse(net.Encoding(), net.Decoding(), net.Size())
  {
    forall x: nat ensures Undone(net.Encoding(), net.Decoding(), net.Size(), x) {
      if x < net.Size() {
        net.EncodeInverts(x);
      }
    }
  }

  /** Permute: the point the walk from i lands on, whatever the round function. */
  method Permute(i: nat, n: nat, mix: (nat, nat) -> nat) returns (x: nat)
    requires i < n <= Pow2(62)
    ensures x < n && n <= Network(HalfBits(n, 1), mix).Size()
    ensures LandsOn(Network(HalfBits(n, 1), mix).Encoding(), n, i, x)
  {
    hide Iterate, Outside, Lands, Network.Encode, Network.Decode, Trail, HalfBits;
    var half := Bits(n);
    var network := Network(half, mix);
    NetworkInverse(network);
    ghost var f, g := network.Encoding(), network.Decoding();
    ghost var visited: set<nat>, steps: nat := {}, 0;
    x := i;
    WalkStarts(f, g, n, network.Size(), i);
    while true
      invariant x < network.Size() && x == Iterate(f, i, steps) && Outside(f, n, i, steps)
      invariant Trail(g, visited, n, network.Size(), i, x) && |visited| <= network.Size() - n
      decreases network.Size() - n - |visited|
    {
      ghost var before := x;
      x := ApplyNetwork(network, x);
      assert x == f(before);
      OneMore(f, n, i, before, steps);
      assert Undone(f, g, network.Size(), before);
      steps := steps + 1;
      if x < n {
        break;
      }
      TrailGrows(f, g, visited, n, network.Size(), i, before);
      visited := visited + {x};
    }
    assert Lands(f, n, i, x, steps);
  }

  lemma WalkStarts(f: nat -> nat, g: nat -> nat, n: nat, size: nat, i: nat)
    requires i < n <= size
    ensures i == Iterate(f, i, 0) && Outside(f, n, i, 0) && Trail(g, {}, n, size, i, i)
  {
  }

  /** For every n and every round function, what Permute computes is a bijection on [0, n). */
  lemma PermuteIsBijection(mix: (nat, nat) -> nat, n: nat)
    ensures IsBijection(Network(HalfBits(n, 1), mix).Encoding(), n)
  {
    var net := Network(HalfBits(n, 1), mix);
    HalfBitsCover(n, 1);
    NetworkInverse(net);
    WalkIsBijection(net.Encoding(), net.Decoding(), n, net.Size());
  }

  /** The covering range does cover n. */
  lemma {:induction false} HalfBitsCover(n: nat, from: nat)
    ensures n <= Pow2(HalfBits(n, from)) * Pow2(HalfBits(n, from))
    decreases n - from
  {
    var half := HalfBits(n, from);
    if n <= Pow2(2 * from) || n <= from {
      PowAbove(from);
      Pow2Add(from, from);
    } else {
      HalfBitsCover(n, from + 1);
    }
  }
}
