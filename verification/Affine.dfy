/**
 * The harness's merge operator: an operand "<a>,<b>" is the map x -> a*x + b modulo
 * P = 2^61 - 1, a merged value is "M<x>:" padded to the size of what it was merged
 * into.  Its arithmetic is exact in 64 and 128 bits, its texts are read back as
 * written, and it satisfies the laws that reads and compactions rely on.
 */
module Affines {
  import opened Core
  import opened Visibility

  const P: nat := 0x1FFF_FFFF_FFFF_FFFF
  const TWO_61: nat := 0x2000_0000_0000_0000
  const MAX_128: nat := 0xFFFF_FFFF_FFFF_FFFF_FFFF_FFFF_FFFF_FFFF

  // ---- Arithmetic modulo P ----

  /** r & P, r >> 61, and one subtraction: the remainder, without leaving 128 and 64 bits. */
  function AffineMul(a: nat, b: nat): (s: nat)
    requires a < P && b < P
    ensures a * b <= MAX_128 && (a * b) / TWO_61 <= MAX_64 && (a * b) % TWO_61 + (a * b) / TWO_61 <= MAX_64
    ensures s == (a * b) % P
  {
    ProductBound(a, b);
    var r := a * b;
    var lo, hi := r % TWO_61, r / TWO_61;
    Reduce(r, lo, hi);
    var s := lo + hi;
    if s >= P then s - P else s
  }

  lemma ProductBound(a: nat, b: nat)
    requires a < P && b < P
    ensures a * b <= (P - 1) * (P - 1)
  {
    ProductMonotone(a, b, P - 1, P - 1);
  }

  lemma ProductMonotone(a: nat, b: nat, c: nat, d: nat)
    requires a <= c && b <= d
    ensures a * b <= c * d
  {
    assert c * d - a * b == (c - a) * d + a * (d - b);
  }

  /** 2^61 is 1 modulo P, so high and low part add up. */
  lemma Reduce(r: nat, lo: nat, hi: nat)
    requires r <= (P - 1) * (P - 1) && lo == r % TWO_61 && hi == r / TWO_61
    ensures lo + hi < 2 * P && r % P == (if lo + hi >= P then lo + hi - P else lo + hi)
  {
    assert r == hi * P + (lo + hi);
  }

  function AffineAdd(a: nat, b: nat): (s: nat)
    requires a < P && b < P
    ensures a + b <= MAX_64
    ensures s == (a + b) % P
  {
    var s := a + b;
    if s >= P then s - P else s
  }

  /** Numbers a multiple of P apart have one remainder. */
  lemma SameRemainder(x: nat, y: nat, k: int)
    requires x == y + k * P
    ensures x % P == y % P
  {
  }

  lemma MulRemainder(a: nat, b: nat)
    ensures ((a % P) * b) % P == (a * b) % P
  {
    var q := a / P;
    assert a == q * P + a % P;
    assert a * b == (a % P) * b + (q * b) * P by {
      assert (q * P + a % P) * b == q * P * b + (a % P) * b;
    }
    SameRemainder(a * b, (a % P) * b, q * b);
  }

  lemma AddRemainder(a: nat, b: nat)
    ensures (a % P + b) % P == (a + b) % P
  {
    SameRemainder(a + b, a % P + b, a / P);
  }

  /** One map. */
  function Affine(a: nat, b: nat, x: nat): (y: nat)
    requires a < P && b < P && x < P
    ensures y == (a * x + b) % P
  {
    AddRemainder(a * x, b);
    AffineAdd(AffineMul(a, x), b)
  }

  /** The composition of two maps, the left one first, is the map PartialMerge writes down. */
  lemma Compose(a1: nat, b1: nat, a2: nat, b2: nat, x: nat)
    requires a1 < P && b1 < P && a2 < P && b2 < P && x < P
    ensures Affine(a2, b2, Affine(a1, b1, x)) == Affine(AffineMul(a2, a1), AffineAdd(AffineMul(a2, b1), b2), x)
  {
    hide AffineMul, AffineAdd, Affine;
    ComposeRemainders(a1, b1, a2, b2, x);
  }

  lemma ComposeRemainders(a1: nat, b1: nat, a2: nat, b2: nat, x: nat)
    ensures (a2 * ((a1 * x + b1) % P) + b2) % P == (((a2 * a1) % P) * x + ((a2 * b1) % P + b2) % P) % P
  {
    var a, b, y := a2 * a1, a2 * b1, a1 * x + b1;
    calc {
      (a2 * (y % P) + b2) % P;
      { InnerRemainder(a2, y, b2); }
      (a2 * y + b2) % P;
      { Distribute(a1, b1, a2, b2, x); }
      (a * x + (b + b2)) % P;
      { BothRemainders(a, x, b + b2); }
      ((a % P) * x + (b + b2) % P) % P;
      { AddRemainder(b, b2); }
      ((a % P) * x + (b % P + b2) % P) % P;
    }
  }

  lemma InnerRemainder(a: nat, y: nat, b: nat)
    ensures (a * (y % P) + b) % P == (a * y + b) % P
  {
    MulRemainder(y, a);
    AddRemainder((y % P) * a, b);
    AddRemainder(y * a, b);
  }

  lemma BothRemainders(a: nat, x: nat, b: nat)
    ensures ((a % P) * x + b % P) % P == (a * x + b) % P
  {
    MulRemainder(a, x);
    AddRemainder((a % P) * x, b % P);
    AddRemainder(a * x, b % P);
    AddRemainder(b, a * x);
  }

  lemma Distribute(a1: nat, b1: nat, a2: nat, b2: nat, x: nat)
    ensures a2 * (a1 * x + b1) + b2 == (a2 * a1) * x + (a2 * b1 + b2)
  {
  }

  // ---- Decimal texts ----

  function Digit(d: nat): char
    requires d < 10
  {
    '0' + d as char
  }

  predicate IsDigit(c: char) {
    '0' <= c <= '9'
  }

  function DigitValue(c: char): nat
    requires IsDigit(c)
  {
    c as int - '0' as int
  }

  predicate IsSpace(c: char) {
    c == ' ' || ('\t' <= c <= '\r')
  }

  /** %llu */
  function Decimal(n: nat): (s: string)
    ensures s != [] && forall c <- s :: IsDigit(c)
  {
    if n < 10 then [Digit(n)] else Decimal(n / 10) + [Digit(n % 10)]
  }

  /** Where the digits from i on end. */
  function DigitsEnd(s: string, i: nat): (e: nat)
    requires i <= |s|
    ensures i <= e <= |s| && (forall j | i <= j < e :: IsDigit(s[j])) && (e < |s| ==> !IsDigit(s[e]))
    decreases |s| - i
  {
    if i < |s| && IsDigit(s[i]) then DigitsEnd(s, i + 1) else i
  }

  /** The number that digits spell. */
  function Number(s: string): nat
    requires forall c <- s :: IsDigit(c)
  {
    if s == [] then 0
    else
      assert s[|s| - 1] in s;
      10 * Number(s[..|s| - 1]) + DigitValue(s[|s| - 1])
  }

  function SkipSpace(s: string, i: nat): (e: nat)
    requires i <= |s|
    ensures i <= e <= |s| && (forall j | i <= j < e :: IsSpace(s[j])) && (e < |s| ==> !IsSpace(s[e]))
    decreases |s| - i
  {
    if i < |s| && IsSpace(s[i]) then SkipSpace(s, i + 1) else i
  }

  /**
   * strtoull(s + i, &end, 10): white space, a sign, digits; too large a number reads
   * as the largest, a minus negates modulo 2^64, and without digits nothing is read.
   */
  function Strtoull(s: string, i: nat): (r: (nat, nat))
    requires i <= |s|
    ensures r.0 <= MAX_64 && i <= r.1 <= |s|
  {
    var start := SkipSpace(s, i);
    var minus := start < |s| && s[start] == '-';
    var first := if start < |s| && (s[start] == '-' || s[start] == '+') then start + 1 else start;
    var end := DigitsEnd(s, first);
    if end == first then (0, i)
    else
      var n := Number(s[first..end]);
      (if n > MAX_64 then MAX_64 else if minus && n > 0 then MAX_64 + 1 - n else n, end)
  }

  lemma {:induction false} NumberOfDecimal(n: nat)
    ensures Number(Decimal(n)) == n
  {
    var s := Decimal(n);
    if n < 10 {
      assert s[..0] == [];
    } else {
      NumberOfDecimal(n / 10);
      assert s[..|s| - 1] == Decimal(n / 10) && s[|s| - 1] == Digit(n % 10);
    }
  }

  /** Leading zeros change nothing. */
  lemma {:induction false} NumberPadded(zeros: nat, s: string)
    requires forall c <- s :: IsDigit(c)
    ensures forall c <- Repeat('0', zeros) + s :: IsDigit(c)
    ensures Number(Repeat('0', zeros) + s) == Number(s)
  {
    var p := Repeat('0', zeros);
    if s != [] {
      NumberPadded(zeros, s[..|s| - 1]);
      assert (p + s)[..|p + s| - 1] == p + s[..|s| - 1];
    } else if zeros > 0 {
      NumberPadded(zeros - 1, []);
      assert (p + s)[..|p + s| - 1] == Repeat('0', zeros - 1) + s;
    }
  }

  function Repeat(c: char, n: nat): (s: string)
    ensures |s| == n && forall i | 0 <= i < n :: s[i] == c
  {
    seq(n, _ => c)
  }

  /** Digits at i, up to something else, are read as their number. */
  lemma StrtoullDigits(s: string, i: nat, e: nat)
    requires i < e <= |s| && (forall j | i <= j < e :: IsDigit(s[j])) && (e < |s| ==> !IsDigit(s[e]))
    requires Number(s[i..e]) <= MAX_64
    ensures Strtoull(s, i) == (Number(s[i..e]), e)
  {
    assert SkipSpace(s, i) == i;
    DigitsEndIs(s, i, e);
  }

  lemma {:induction false} DigitsEndIs(s: string, i: nat, e: nat)
    requires i <= e <= |s| && (forall j | i <= j < e :: IsDigit(s[j])) && (e < |s| ==> !IsDigit(s[e]))
    ensures DigitsEnd(s, i) == e
    decreases e - i
  {
    if i < e {
      DigitsEndIs(s, i + 1, e);
    }
  }

  // ---- Operands ----

  function AffineOperand(a: nat, b: nat): string {
    Decimal(a) + "," + Decimal(b)
  }

  /** std::string::find(','), or the length. */
  function FindComma(s: string, i: nat): (e: nat)
    requires i <= |s|
    ensures i <= e <= |s| && (forall j | i <= j < e :: s[j] != ',') && (e < |s| ==> s[e] == ',')
    decreases |s| - i
  {
    if i < |s| && s[i] != ',' then FindComma(s, i + 1) else i
  }

  function AffineParseOperand(s: string): (r: Option<(nat, nat)>)
    ensures r.Some? ==> r.value.0 < P && r.value.1 < P
  {
    var comma := FindComma(s, 0);
    if comma == |s| || comma == 0 || comma + 1 >= |s| then None
    else
      var a, b := Strtoull(s, 0), Strtoull(s, comma + 1);
      if a.1 != comma || b.1 != |s| then None
      else if a.0 < P && b.0 < P then Some((a.0, b.0))
      else None
  }

  // ---- What operands are ----

  /** A digit is one of ten; a longer text is that of the tenth part, and the last digit. */
  lemma DecimalDigits(n: nat)
    ensures n < 10 ==> Decimal(n) == ["0123456789"[n]]
    ensures n >= 10 ==> Decimal(n) == Decimal(n / 10) + Decimal(n % 10)
  {
  }

  /** What strtoull makes of a number it has read. */
  function Signed(v: nat, minus: bool): nat {
    if v > 0xFFFF_FFFF_FFFF_FFFF then 0xFFFF_FFFF_FFFF_FFFF
    else if minus && v > 0 then 0x1_0000_0000_0000_0000 - v
    else v
  }

  /** White space up to i, perhaps a sign, and digits from j to the end. */
  ghost predicate Spelled(t: string, i: nat, j: nat) {
    && i <= j < |t| && j <= i + 1
    && (forall x | 0 <= x < i :: t[x] in " \t\n\r" || t[x] == 11 as char || t[x] == 12 as char)
    && (j == i + 1 ==> t[i] == '+' || t[i] == '-')
    && (forall x | j <= x < |t| :: '0' <= t[x] <= '9')
  }

  /** The whole text is a numeral for n. */
  ghost predicate Numeral(t: string, n: nat) {
    exists i: nat, j: nat ::
      && Spelled(t, i, j) && (forall c <- t[j..] :: IsDigit(c))
      && n == Signed(Number(t[j..]), j > i && t[i] == '-')
  }

  lemma Spaces(c: char)
    ensures IsSpace(c) <==> c in " \t\n\r" || c == 11 as char || c == 12 as char
  {
  }

  /** Where a numeral is spelled, strtoull finds its parts. */
  lemma SpelledRead(s: string, from: nat, to: nat, i: nat, j: nat)
    requires from <= to <= |s| && (to < |s| ==> s[to] == ',') && Spelled(s[from..to], i, j)
    ensures from + j < to && (forall c <- s[from..to][j..] :: IsDigit(c))
    ensures Strtoull(s, from) == (Signed(Number(s[from..to][j..]), j > i && s[from..to][i] == '-'), to)
  {
    hide Strtoull, SkipSpace, DigitsEnd, Number, Signed;
    var t := s[from..to];
    forall x | from <= x < from + i ensures IsSpace(s[x]) {
      Spaces(s[x]);
      assert t[x - from] == s[x];
    }
    assert t[i] == s[from + i] && t[j] == s[from + j] && IsDigit(t[j]);
    SkipSpaceIs(s, from, from + i);
    forall x | from + j <= x < to ensures IsDigit(s[x]) {
      assert t[x - from] == s[x];
    }
    DigitsEndIs(s, from + j, to);
    assert t[j..] == s[from + j..to];
    forall c | c in t[j..] ensures IsDigit(c) {
      var x :| 0 <= x < |t[j..]| && t[j..][x] == c;
      assert c == t[j + x];
    }
    StrtoullParts(s, from, from + i, from + j, to);
  }

  /** What strtoull makes of its parts. */
  lemma StrtoullParts(s: string, from: nat, start: nat, first: nat, to: nat)
    requires from <= start <= first < to <= |s| && first <= start + 1
    requires SkipSpace(s, from) == start && DigitsEnd(s, first) == to && IsDigit(s[first])
    requires first == start + 1 ==> s[start] == '+' || s[start] == '-'
    ensures Strtoull(s, from) == (Signed(Number(s[first..to]), first > start && s[start] == '-'), to)
  {
    hide SkipSpace, DigitsEnd, Number;
  }

  lemma {:induction false} SkipSpaceIs(s: string, i: nat, e: nat)
    requires i <= e <= |s| && (forall j | i <= j < e :: IsSpace(s[j])) && (e < |s| ==> !IsSpace(s[e]))
    ensures SkipSpace(s, i) == e
    decreases e - i
  {
    if i < e {
      SkipSpaceIs(s, i + 1, e);
    }
  }

  /** What strtoull reads up to a comma or the end, if it reads something, is spelled there. */
  lemma ReadSpelled(s: string, from: nat, to: nat) returns (i: nat, j: nat)
    requires from < to <= |s| && Strtoull(s, from).1 == to
    ensures Spelled(s[from..to], i, j)
  {
    var t, start := s[from..to], SkipSpace(s, from);
    var first := if start < |s| && (s[start] == '-' || s[start] == '+') then start + 1 else start;
    assert DigitsEnd(s, first) == to && first < to;
    i, j := start - from, first - from;
    forall x | 0 <= x < i ensures t[x] in " \t\n\r" || t[x] == 11 as char || t[x] == 12 as char {
      Spaces(t[x]);
      assert t[x] == s[from + x];
    }
    forall x | j <= x < |t| ensures '0' <= t[x] <= '9' {
      assert t[x] == s[from + x] && IsDigit(s[from + x]);
    }
  }

  /** strtoull takes in the whole of a text exactly if that is a numeral, as its number. */
  lemma StrtoullIff(s: string, from: nat, to: nat, n: nat)
    requires from <= to <= |s| && (to < |s| ==> s[to] == ',')
    ensures from < to && Strtoull(s, from) == (n, to) <==> Numeral(s[from..to], n)
  {
    var t := s[from..to];
    if from < to && Strtoull(s, from) == (n, to) {
      var i, j := ReadSpelled(s, from, to);
      SpelledRead(s, from, to, i, j);
    }
    if i: nat, j: nat :| Spelled(t, i, j) && (forall c <- t[j..] :: IsDigit(c))
                         && n == Signed(Number(t[j..]), j > i && t[i] == '-') {
      SpelledRead(s, from, to, i, j);
    }
  }

  /** An operand parses exactly if it is two numerals below P around its first comma, and as their numbers. */
  lemma ParseIff(s: string, a: nat, b: nat)
    ensures AffineParseOperand(s) == Some((a, b)) <==>
            exists c :: 0 <= c < |s| && s[c] == ',' && (forall j | 0 <= j < c :: s[j] != ',')
                        && Numeral(s[..c], a) && Numeral(s[c + 1..], b) && a < P && b < P
  {
    hide Strtoull, Numeral;
    var comma := FindComma(s, 0);
    if comma < |s| {
      assert s[0..comma] == s[..comma] && s[comma + 1..|s|] == s[comma + 1..];
      StrtoullIff(s, 0, comma, a);
      StrtoullIff(s, comma + 1, |s|, b);
    }
    if c :| 0 <= c < |s| && s[c] == ',' && (forall j | 0 <= j < c :: s[j] != ',')
            && Numeral(s[..c], a) && Numeral(s[c + 1..], b) && a < P && b < P {
      assert c == comma;
    }
  }

  lemma AroundComma(a: string, b: string)
    requires (forall c <- a :: IsDigit(c)) && forall c <- b :: IsDigit(c)
    ensures var s, n := a + "," + b, |a|;
            s[0..n] == a && s[n] == ',' && s[n + 1..|s|] == b && forall j | 0 <= j < |s| && j != n :: IsDigit(s[j])
  {
    var s, n := a + "," + b, |a|;
    forall j | 0 <= j < |s| && j != n ensures IsDigit(s[j]) {
      assert if j < n then s[j] == a[j] && s[j] in a else s[j] == b[j - n - 1] && s[j] in b;
    }
  }

  /** What is written is read back. */
  lemma OperandRoundTrip(a: nat, b: nat)
    requires a < P && b < P
    ensures AffineParseOperand(AffineOperand(a, b)) == Some((a, b))
  {
    hide Decimal, Number, Strtoull, FindComma;
    var s, n := AffineOperand(a, b), |Decimal(a)|;
    AroundComma(Decimal(a), Decimal(b));
    var comma := FindComma(s, 0);
    assert comma == n;
    NumberOfDecimal(a);
    NumberOfDecimal(b);
    StrtoullDigits(s, 0, n);
    StrtoullDigits(s, n + 1, |s|);
  }

  // ---- Merged values ----

  /** The hashes that plain values and keys start from. */
  datatype Hashes = Hashes(ofKey: Key -> nat, ofValue: Value -> nat)

  function ValueX(h: Hashes, k: Key, existing: Option<Value>): (x: nat)
    ensures x < P
  {
    match existing
    case None => h.ofKey(k) % P
    case Some(v) => if |v| > 1 && v[0] == 'M' then Strtoull(v[1..], 0).0 % P else h.ofValue(v) % P
  }

  /** "M%019llu:" padded with 'm'. */
  function AffineMerged(x: nat, length: nat): (v: Value)
    ensures |v| >= length
  {
    var digits := Decimal(x);
    var v := "M" + Repeat('0', if |digits| < 19 then 19 - |digits| else 0) + digits + ":";
    if |v| < length then v + Repeat('m', length - |v|) else v
  }

  lemma {:induction false} DecimalLength(n: nat, d: nat)
    requires d > 0 && n < Power10(d)
    ensures |Decimal(n)| <= d
  {
    if n >= 10 {
      DecimalLength(n / 10, d - 1);
    }
  }

  function Power10(d: nat): nat {
    if d == 0 then 1 else 10 * Power10(d - 1)
  }

  lemma PIsShort(x: nat)
    requires x < P
    ensures |Decimal(x)| <= 19
  {
    assert Power10(19) == 10_000_000_000_000_000_000 by {
      assert Power10(4) == 10_000;
      assert Power10(8) == 100_000_000;
      assert Power10(12) == 1_000_000_000_000;
      assert Power10(16) == 10_000_000_000_000_000;
    }
    DecimalLength(x, 19);
  }

  /** A merged value has 21 characters, or as many as it is padded to. */
  lemma MergedLength(x: nat, length: nat)
    requires x < P
    ensures |AffineMerged(x, length)| == Max(21, length)
  {
    PIsShort(x);
  }

  /** The text of a merged value: 'M', 19 digits that spell x, a colon. */
  lemma MergedText(x: nat, length: nat)
    requires x < P
    ensures var v := AffineMerged(x, length);
            && |v| > 20 && v[0] == 'M' && v[20] == ':' && (forall c <- v[1..20] :: IsDigit(c)) && Number(v[1..20]) == x
  {
    var v, digits := AffineMerged(x, length), Decimal(x);
    PIsShort(x);
    NumberPadded(19 - |digits|, digits);
    NumberOfDecimal(x);
    assert v[1..20] == Repeat('0', 19 - |digits|) + digits;
  }

  /** A merged value is read back as its x, whatever the padding. */
  lemma MergedRoundTrip(h: Hashes, k: Key, x: nat, length: nat)
    requires x < P
    ensures ValueX(h, k, Some(AffineMerged(x, length))) == x
  {
    hide AffineMerged, Strtoull, Number;
    var v := AffineMerged(x, length);
    MergedText(x, length);
    var t := v[1..];
    assert t[0..19] == v[1..20];
    forall j | 0 <= j < 19 ensures IsDigit(t[j]) {
      assert t[j] == v[1..20][j] && v[1..20][j] in v[1..20];
    }
    StrtoullDigits(t, 0, 19);
  }

  // ---- The operator ----

  /** All operands in turn; None if one is malformed. */
  function ApplyOperands(ops: seq<Value>, x: nat): (r: Option<nat>)
    requires x < P
    ensures r.Some? ==> r.value < P
  {
    if ops == [] then Some(x)
    else
      match AffineParseOperand(ops[0])
      case None => None
      case Some((a, b)) => ApplyOperands(ops[1..], Affine(a, b, x))
  }

  function Length(existing: Option<Value>): nat {
    if existing.Some? then |existing.value| else 0
  }

  function FullMerge(h: Hashes, k: Key, existing: Option<Value>, ops: seq<Value>): Option<Value> {
    match ApplyOperands(ops, ValueX(h, k, existing))
    case None => None
    case Some(x) => Some(AffineMerged(x, Length(existing)))
  }

  // ---- What a merge means ----

  /** The maps x -> a*x + b modulo P, one after another. */
  function InTurn(maps: seq<(nat, nat)>, x: nat): nat {
    if maps == [] then x else InTurn(maps[1..], (maps[0].0 * x + maps[0].1) % P)
  }

  /** Operand texts of these maps. */
  ghost predicate TextsOf(ops: seq<Value>, maps: seq<(nat, nat)>) {
    |ops| == |maps| && forall i | 0 <= i < |ops| :: AffineParseOperand(ops[i]) == Some(maps[i])
  }

  /** v is the merged text of x: M, 19 digits, a colon, and padding up to the length. */
  ghost predicate Spells(v: Value, x: nat, length: nat) {
    && |v| == Max(21, length) && v[0] == 'M' && v[20] == ':'
    && (forall c <- v[1..20] :: IsDigit(c)) && Number(v[1..20]) == x
    && (forall i | 21 <= i < |v| :: v[i] == 'm')
  }

  /** Whatever is merged, the result spells its number and has the length of what it was merged into. */
  lemma MergedSpells(x: nat, length: nat)
    requires x < P
    ensures Spells(AffineMerged(x, length), x, length)
  {
    PIsShort(x);
    MergedText(x, length);
    MergedLength(x, length);
  }

  /** What the maps start from: the key's hash, a plain value's hash, or the number that a merged value spells. */
  ghost predicate StartsFrom(h: Hashes, k: Key, existing: Option<Value>, x: nat) {
    match existing
    case None => x == h.ofKey(k) % P
    case Some(v) => if |v| <= 1 || v[0] != 'M' then x == h.ofValue(v) % P else x < P && Spells(v, x, |v|)
  }

  /** Full merge: the operands' maps in turn, from the start, spelled at the old value's length. */
  lemma FullMergeMeans(h: Hashes, k: Key, existing: Option<Value>, ops: seq<Value>, maps: seq<(nat, nat)>, start: nat)
    requires TextsOf(ops, maps) && StartsFrom(h, k, existing, start)
    ensures FullMerge(h, k, existing, ops).Some?
    ensures Spells(FullMerge(h, k, existing, ops).value, InTurn(maps, start), Length(existing))
  {
    hide AffineParseOperand, AffineMerged, Strtoull;
    assert ValueX(h, k, existing) == start by {
      if existing.Some? && |existing.value| > 1 && existing.value[0] == 'M' {
        SpelledStart(existing.value, start);
      }
    }
    ApplyInTurn(ops, maps, start);
    MergedSpells(InTurn(maps, start), Length(existing));
  }

  lemma SpelledStart(v: Value, x: nat)
    requires x < P && Spells(v, x, |v|)
    ensures Strtoull(v[1..], 0).0 % P == x
  {
    hide Number;
    var t := v[1..];
    assert t[0..19] == v[1..20] && t[19] == v[20];
    forall j | 0 <= j < 19 ensures IsDigit(t[j]) {
      assert t[j] == v[1..20][j] && v[1..20][j] in v[1..20];
    }
    StrtoullDigits(t, 0, 19);
  }

  lemma {:induction false} ApplyInTurn(ops: seq<Value>, maps: seq<(nat, nat)>, x: nat)
    requires TextsOf(ops, maps) && x < P
    ensures ApplyOperands(ops, x) == Some(InTurn(maps, x)) && InTurn(maps, x) < P
  {
    if ops != [] {
      hide AffineParseOperand;
      var (a, b) := maps[0];
      assert AffineParseOperand(ops[0]) == Some(maps[0]);
      assert Affine(a, b, x) == (a * x + b) % P;
      ApplyInTurn(ops[1..], maps[1..], Affine(a, b, x));
    }
  }

  /** Both functions refuse exactly what does not parse. */
  lemma RefusedIff(h: Hashes, k: Key, existing: Option<Value>, ops: seq<Value>, l: Value, r: Value)
    ensures FullMerge(h, k, existing, ops).Some? <==> forall op <- ops :: AffineParseOperand(op).Some?
    ensures PartialMerge(l, r).Some? <==> AffineParseOperand(l).Some? && AffineParseOperand(r).Some?
  {
    hide AffineParseOperand, ValueX, AffineMerged;
    AllOrNone(ops, ValueX(h, k, existing));
  }

  lemma {:induction false} AllOrNone(ops: seq<Value>, x: nat)
    requires x < P
    ensures ApplyOperands(ops, x).Some? <==> forall op <- ops :: AffineParseOperand(op).Some?
  {
    if ops != [] {
      hide AffineParseOperand;
      match AffineParseOperand(ops[0])
      case None =>
        assert ops[0] in ops;
      case Some((a, b)) =>
        AllOrNone(ops[1..], Affine(a, b, x));
        assert forall op :: op in ops <==> op == ops[0] || op in ops[1..];
    }
  }

  /** A partial merge is the text of the left map followed by the right one. */
  lemma PartialMergeMeans(l: Value, r: Value, a1: nat, b1: nat, a2: nat, b2: nat, x: nat)
    requires AffineParseOperand(l) == Some((a1, b1)) && AffineParseOperand(r) == Some((a2, b2)) && x < P
    ensures PartialMerge(l, r).Some? && AffineParseOperand(PartialMerge(l, r).value).Some?
    ensures var (a, b) := AffineParseOperand(PartialMerge(l, r).value).value;
            (a * x + b) % P == (a2 * ((a1 * x + b1) % P) + b2) % P
  {
    hide AffineParseOperand, AffineMul, AffineAdd, AffineOperand;
    var a, b := AffineMul(a2, a1), AffineAdd(AffineMul(a2, b1), b2);
    OperandRoundTrip(a, b);
    Composed(a1, b1, a2, b2, a, b, x);
  }

  lemma Composed(a1: nat, b1: nat, a2: nat, b2: nat, a: nat, b: nat, x: nat)
    requires a1 < P && b1 < P && a2 < P && b2 < P && a < P && b < P && x < P
    requires a == AffineMul(a2, a1) && b == AffineAdd(AffineMul(a2, b1), b2)
    ensures (a * x + b) % P == (a2 * ((a1 * x + b1) % P) + b2) % P
  {
    hide AffineMul, AffineAdd, Affine;
    Compose(a1, b1, a2, b2, x);
    assert Affine(a, b, x) == Affine(a2, b2, Affine(a1, b1, x));
  }

  function PartialMerge(l: Value, r: Value): Option<Value> {
    match (AffineParseOperand(l), AffineParseOperand(r))
    case (Some((a1, b1)), Some((a2, b2))) => Some(AffineOperand(AffineMul(a2, a1), AffineAdd(AffineMul(a2, b1), b2)))
    case _ => None
  }

  function Operator(h: Hashes): MergeOperator {
    MergeOperator((k, existing, ops) => FullMerge(h, k, existing, ops), (k, l, r) => PartialMerge(l, r))
  }

  /** The loop of AffineFullMerge, after FullMerge has looked at every operand. */
  method FullMergeLoop(h: Hashes, k: Key, existing: Option<Value>, ops: seq<Value>) returns (r: Option<Value>)
    ensures r == FullMerge(h, k, existing, ops)
  {
    hide AffineParseOperand, AffineMerged, ValueX;
    var j: nat := 0;
    while j < |ops|
      invariant 0 <= j <= |ops|
      invariant forall i | 0 <= i < j :: AffineParseOperand(ops[i]).Some?
    {
      if AffineParseOperand(ops[j]).None? {
        Malformed(ops, j, ValueX(h, k, existing));
        return None;
      }
      j := j + 1;
    }
    var x: nat := ValueX(h, k, existing);
    var i := 0;
    assert ops[0..] == ops;
    while i < |ops|
      invariant 0 <= i <= |ops| && x < P
      invariant ApplyOperands(ops[i..], x) == ApplyOperands(ops, ValueX(h, k, existing))
    {
      var ab := AffineParseOperand(ops[i]).value;
      assert ops[i..][1..] == ops[i + 1..];
      x := AffineAdd(AffineMul(ab.0, x), ab.1);
      i := i + 1;
    }
    return Some(AffineMerged(x, Length(existing)));
  }

  lemma {:induction false} Malformed(ops: seq<Value>, j: nat, x: nat)
    requires j < |ops| && x < P && AffineParseOperand(ops[j]).None?
    ensures ApplyOperands(ops, x) == None
  {
    if j > 0 {
      match AffineParseOperand(ops[0])
      case None =>
      case Some((a, b)) => Malformed(ops[1..], j - 1, Affine(a, b, x));
    }
  }

  lemma {:induction false} ApplyConcat(xs: seq<Value>, ys: seq<Value>, x: nat)
    requires x < P
    ensures ApplyOperands(xs + ys, x) ==
            match ApplyOperands(xs, x) case None => None case Some(y) => ApplyOperands(ys, y)
  {
    if xs == [] {
      assert xs + ys == ys;
    } else {
      assert (xs + ys)[1..] == xs[1..] + ys;
      match AffineParseOperand(xs[0])
      case None =>
      case Some((a, b)) => ApplyConcat(xs[1..], ys, Affine(a, b, x));
    }
  }

  /** Merging in two steps, padding included, is merging in one. */
  lemma FullMergeInSteps(h: Hashes, k: Key, existing: Option<Value>, xs: seq<Value>, ys: seq<Value>)
    ensures FullMerge(h, k, existing, xs + ys) ==
            match FullMerge(h, k, existing, xs) case None => None case Some(v) => FullMerge(h, k, Some(v), ys)
  {
    hide AffineMerged, ValueX;
    ApplyConcat(xs, ys, ValueX(h, k, existing));
    match ApplyOperands(xs, ValueX(h, k, existing))
    case None =>
    case Some(x) =>
      MergedRoundTrip(h, k, x, Length(existing));
      MergedLength(x, Length(existing));
      match ApplyOperands(ys, x)
      case None =>
      case Some(y) => SamePadding(y, Length(existing));
  }

  lemma SamePadding(x: nat, length: nat)
    requires x < P
    ensures AffineMerged(x, Max(21, length)) == AffineMerged(x, length)
  {
    PIsShort(x);
  }

  /** A partial merge stands for its two operands. */
  lemma PartialMergeStands(h: Hashes, k: Key, existing: Option<Value>, l: Value, r: Value)
    requires PartialMerge(l, r).Some?
    ensures FullMerge(h, k, existing, [l, r]) == FullMerge(h, k, existing, [PartialMerge(l, r).value])
  {
    var x := ValueX(h, k, existing);
    var (a1, b1) := AffineParseOperand(l).value;
    var (a2, b2) := AffineParseOperand(r).value;
    var a, b := AffineMul(a2, a1), AffineAdd(AffineMul(a2, b1), b2);
    OperandRoundTrip(a, b);
    Compose(a1, b1, a2, b2, x);
    ApplyTwo(l, r, x);
    ApplyOne(AffineOperand(a, b), x);
  }

  lemma ApplyOne(op: Value, x: nat)
    requires x < P && AffineParseOperand(op).Some?
    ensures var (a, b) := AffineParseOperand(op).value; ApplyOperands([op], x) == Some(Affine(a, b, x))
  {
    assert [op][1..] == [];
  }

  lemma ApplyTwo(l: Value, r: Value, x: nat)
    requires x < P && AffineParseOperand(l).Some? && AffineParseOperand(r).Some?
    ensures var (a1, b1), (a2, b2) := AffineParseOperand(l).value, AffineParseOperand(r).value;
            ApplyOperands([l, r], x) == Some(Affine(a2, b2, Affine(a1, b1, x)))
  {
    var (a1, b1) := AffineParseOperand(l).value;
    assert [l, r][1..] == [r];
    ApplyOne(r, Affine(a1, b1, x));
  }

  /** The operator satisfies what reads and compactions ask of merge operators. */
  lemma AffineLaws(h: Hashes)
    ensures MergeLaws(Some(Operator(h)))
  {
    var m := Operator(h);
    forall k: Key, b: Option<Value>, xs: seq<Value>, ys: seq<Value> | xs != [] && ys != []
      ensures m.full(k, b, xs + ys) == match m.full(k, b, xs) case None => None case Some(v) => m.full(k, Some(v), ys)
    {
      FullMergeInSteps(h, k, b, xs, ys);
    }
    forall k: Key, l: Value, r: Value, b: Option<Value> | m.partial(k, l, r).Some?
      ensures m.full(k, b, [l, r]) == m.full(k, b, [m.partial(k, l, r).value])
    {
      PartialMergeStands(h, k, b, l, r);
    }
  }
}
