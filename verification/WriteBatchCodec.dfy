/**
 * Write batches as bytes.  What any calls put into a batch, iterating gets out again in
 * order; appending is concatenation; a batch cut short anywhere is never taken for a
 * whole one.  The block that carries a table's range tombstones is read as written.
 */
module WriteBatchCodecs {
  import opened Core
  import opened Arithmetic

  type Byte = b: int | 0 <= b < 256

  type Bytes = seq<Byte>

  const MAX_32: nat := 0xFFFF_FFFF
  const HEADER: nat := 12

  // ---- Numbers ----

  function Power(base: nat, k: nat): (p: nat)
    ensures base > 0 ==> p > 0
  {
    if k == 0 then 1 else base * Power(base, k - 1)
  }

  /** PutVarint32 and PutVarint64: seven bits a byte, low ones first, the top bit says that more follow. */
  function Varint(n: nat): (s: Bytes)
    ensures s != []
  {
    if n < 128 then [n] else [n % 128 + 128] + Varint(n / 128)
  }

  /** GetVarint of at most `max` bytes: the number, and what follows it. */
  function GetVarint(s: Bytes, max: nat): (r: Option<(nat, Bytes)>)
    ensures r.Some? ==> |r.value.1| < |s|
  {
    if s == [] || max == 0 then None
    else if s[0] < 128 then Some((s[0], s[1..]))
    else
      match GetVarint(s[1..], max - 1)
      case None => None
      case Some((high, rest)) => Some((s[0] - 128 + 128 * high, rest))
  }

  lemma {:induction false} VarintRoundTrip(n: nat, max: nat, rest: Bytes)
    requires n < Power(128, max) && max > 0
    ensures GetVarint(Varint(n) + rest, max) == Some((n, rest))
  {
    var s := Varint(n) + rest;
    if n < 128 {
      assert s[1..] == rest;
    } else {
      VarintRoundTrip(n / 128, max - 1, rest);
      assert s[1..] == Varint(n / 128) + rest;
    }
  }

  /** A number cut short is no number. */
  lemma {:induction false} VarintCut(n: nat, max: nat, k: nat)
    requires k < |Varint(n)|
    ensures GetVarint(Varint(n)[..k], max) == None
  {
    if k > 0 && n >= 128 && max > 0 {
      VarintCut(n / 128, max - 1, k - 1);
      assert Varint(n)[..k][1..] == Varint(n / 128)[..k - 1];
    }
  }

  lemma WidthsFit()
    ensures MAX_32 < Power(128, 5) && MAX_64 < Power(128, 10)
  {
    assert Power(128, 3) == 0x20_0000;
    assert Power(128, 5) == 0x8_0000_0000;
    assert Power(128, 7) == 0x2_0000_0000_0000;
    assert Power(128, 9) == 0x8000_0000_0000_0000;
  }

  // ---- The bytes of numbers ----

  lemma ShiftedDigit(n: nat, base: nat, i: nat)
    requires base > 0
    ensures n / base / Power(base, i) == n / Power(base, i + 1)
  {
    DivideTwice(n, base, Power(base, i));
  }

  lemma OneMoreDigit(n: nat, base: nat, p: nat)
    requires base > 0
    ensures n / base < p <==> n < base * p
  {
    var q := n / base;
    assert n == base * q + n % base;
    if q < p {
      assert base * (q + 1) <= base * p;
    } else {
      assert base * p <= base * q;
    }
  }

  /** The bytes of a fixed-width number are its digits to the base 256, low ones first. */
  lemma {:induction false} FixedBytes(n: nat, k: nat, i: nat)
    requires i < k
    ensures Fixed(n, k)[i] == n / Power(256, i) % 256
  {
    if i > 0 {
      FixedBytes(n / 256, k - 1, i - 1);
      ShiftedDigit(n, 256, i - 1);
    }
  }

  /** A varint has as many bytes as its number has digits to the base 128. */
  lemma {:induction false} VarintLength(n: nat)
    ensures n < Power(128, |Varint(n)|)
    ensures |Varint(n)| > 1 ==> n >= Power(128, |Varint(n)| - 1)
  {
    if n < 128 {
      assert Power(128, 1) == 128 * Power(128, 0) == 128;
    } else {
      var len := |Varint(n / 128)|;
      VarintLength(n / 128);
      OneMoreDigit(n, 128, Power(128, len));
      if len > 1 {
        OneMoreDigit(n, 128, Power(128, len - 1));
      } else {
        assert Power(128, 1) == 128 * Power(128, 0) == 128;
      }
    }
  }

  /** Its bytes are those digits, low ones first, and all but the last have the top bit set. */
  lemma {:induction false} VarintBytes(n: nat, i: nat)
    requires i < |Varint(n)|
    ensures Varint(n)[i] % 128 == n / Power(128, i) % 128
    ensures Varint(n)[i] >= 128 <==> i < |Varint(n)| - 1
  {
    if i > 0 {
      VarintBytes(n / 128, i - 1);
      ShiftedDigit(n, 128, i - 1);
    } else {
      assert Power(128, 0) == 1;
    }
  }

  // ---- Slices ----

  /** PutLengthPrefixedSlice */
  function Slice(x: Bytes): Bytes {
    Varint(|x|) + x
  }

  /** GetVarint32: 32 bits of what five bytes say. */
  function GetVarint32(s: Bytes): (r: Option<(nat, Bytes)>)
    ensures r.Some? ==> |r.value.1| < |s|
  {
    match GetVarint(s, 5)
    case None => None
    case Some((n, rest)) => Some((n % (MAX_32 + 1), rest))
  }

  /** GetLengthPrefixedSlice */
  function GetSlice(s: Bytes): (r: Option<(Bytes, Bytes)>)
    ensures r.Some? ==> |r.value.1| < |s|
  {
    match GetVarint32(s)
    case None => None
    case Some((n, rest)) => if n <= |rest| then Some((rest[..n], rest[n..])) else None
  }

  lemma Varint32RoundTrip(n: nat, rest: Bytes)
    requires n <= MAX_32
    ensures GetVarint32(Varint(n) + rest) == Some((n, rest))
  {
    hide Varint, GetVarint, Power;
    WidthsFit();
    VarintRoundTrip(n, 5, rest);
  }

  lemma SliceRoundTrip(x: Bytes, rest: Bytes)
    requires |x| <= MAX_32
    ensures GetSlice(Slice(x) + rest) == Some((x, rest))
  {
    Varint32RoundTrip(|x|, x + rest);
    assert Slice(x) + rest == Varint(|x|) + (x + rest);
    assert (x + rest)[..|x|] == x && (x + rest)[|x|..] == rest;
  }

  lemma SliceCut(x: Bytes, k: nat)
    requires |x| <= MAX_32 && k < |Slice(x)|
    ensures GetSlice(Slice(x)[..k]) == None
  {
    var v := Varint(|x|);
    if k < |v| {
      assert Slice(x)[..k] == v[..k];
      VarintCut(|x|, 5, k);
    } else {
      assert Slice(x)[..k] == v + x[..k - |v|];
      Varint32RoundTrip(|x|, x[..k - |v|]);
    }
  }

  // ---- Records ----

  datatype RecordKind = RDelete | RPut | RMerge | RDeleteRange

  /** A call on the batch: `value` is the end of a range, and empty for a deletion. */
  datatype Record = Record(kind: RecordKind, family: nat, key: Bytes, value: Bytes)
  {
    predicate Valid() {
      family <= MAX_32 && |key| <= MAX_32 && |value| <= MAX_32 && (kind == RDelete ==> value == [])
    }
  }

  /** kTypeDeletion, kTypeValue, kTypeMerge, kTypeRangeDeletion */
  function TagOf(kind: RecordKind): (t: Byte)
    ensures t < 4
  {
    match kind
    case RDelete => 0
    case RPut => 1
    case RMerge => 2
    case RDeleteRange => 3
  }

  function KindOf(tag: nat): RecordKind
    requires tag < 4
  {
    if tag == 0 then RDelete else if tag == 1 then RPut else if tag == 2 then RMerge else RDeleteRange
  }

  const FAMILY_TAG_BASE: Byte := 0x10

  /** Key, and value unless the record is a deletion. */
  function Payload(r: Record): Bytes {
    if r.kind == RDelete then Slice(r.key) else Slice(r.key) + Slice(r.value)
  }

  /** Records of the default family carry the plain tag, others kCFTagBase plus it, and the family. */
  function Encode(r: Record): (s: Bytes)
    ensures s != []
  {
    if r.family == 0 then [TagOf(r.kind)] + Payload(r)
    else [FAMILY_TAG_BASE + TagOf(r.kind)] + (Varint(r.family) + Payload(r))
  }

  function EncodeAll(rs: seq<Record>): Bytes {
    if rs == [] then [] else Encode(rs[0]) + EncodeAll(rs[1..])
  }

  /** One round of WriteBatch::Iterate after the tag is known. */
  function ParsePayload(kind: RecordKind, family: nat, s: Bytes): (r: Option<(Record, Bytes)>)
    ensures r.Some? ==> |r.value.1| < |s|
  {
    match GetSlice(s)
    case None => None
    case Some((key, rest)) =>
      if kind == RDelete then Some((Record(kind, family, key, []), rest))
      else
        match GetSlice(rest)
        case None => None
        case Some((value, rest')) => Some((Record(kind, family, key, value), rest'))
  }

  /** One round of WriteBatch::Iterate. */
  function ParseRecord(s: Bytes): (r: Option<(Record, Bytes)>)
    requires s != []
    ensures r.Some? ==> |r.value.1| < |s|
  {
    var tag := s[0];
    if FAMILY_TAG_BASE <= tag < FAMILY_TAG_BASE + 4 then
      match GetVarint32(s[1..])
      case None => None
      case Some((family, rest)) => ParsePayload(KindOf(tag - FAMILY_TAG_BASE), family, rest)
    else if tag < 4 then ParsePayload(KindOf(tag), 0, s[1..])
    else None
  }

  function ParseAll(s: Bytes): Option<seq<Record>>
    decreases |s|
  {
    if s == [] then Some([])
    else
      match ParseRecord(s)
      case None => None
      case Some((r, rest)) =>
        match ParseAll(rest)
        case None => None
        case Some(rs) => Some([r] + rs)
  }

  lemma PayloadRoundTrip(r: Record, rest: Bytes)
    requires r.Valid()
    ensures ParsePayload(r.kind, r.family, Payload(r) + rest) == Some((r, rest))
  {
    hide GetSlice, Slice;
    if r.kind == RDelete {
      SliceRoundTrip(r.key, rest);
    } else {
      SliceRoundTrip(r.key, Slice(r.value) + rest);
      SliceRoundTrip(r.value, rest);
      assert Payload(r) + rest == Slice(r.key) + (Slice(r.value) + rest);
    }
  }

  lemma RecordRoundTrip(r: Record, rest: Bytes)
    requires r.Valid()
    ensures ParseRecord(Encode(r) + rest) == Some((r, rest))
  {
    hide ParsePayload, Payload, GetVarint32, Varint;
    var s := Encode(r) + rest;
    PayloadRoundTrip(r, rest);
    assert KindOf(TagOf(r.kind)) == r.kind;
    if r.family == 0 {
      assert s[0] == TagOf(r.kind) && s[1..] == Payload(r) + rest;
    } else {
      assert s[0] == FAMILY_TAG_BASE + TagOf(r.kind) && s[1..] == Varint(r.family) + (Payload(r) + rest);
      Varint32RoundTrip(r.family, Payload(r) + rest);
    }
  }

  /** Tag, family, lengths and contents of every kind of record, of the default family and the others. */
  lemma RecordBytes(r: Record)
    ensures Encode(r)[0] == (if r.family == 0 then 0 else 16)
                            + match r.kind case RDelete => 0 case RPut => 1 case RMerge => 2 case RDeleteRange => 3
    ensures var key, value := Varint(|r.key|) + r.key, Varint(|r.value|) + r.value;
            Encode(r)[1..] == (if r.family == 0 then [] else Varint(r.family)) + key
                              + if r.kind.RDelete? then [] else value
  {
    hide Varint;
    assert [] + Payload(r) == Payload(r);
  }

  /** A tag that no kind of record has is not read as a record. */
  lemma UnknownTag(s: Bytes)
    requires s != []
    ensures (exists r: Record :: r.Valid() && Encode(r)[0] == s[0]) <==> s[0] < 4 || 16 <= s[0] < 20
    ensures !(s[0] < 4 || 16 <= s[0] < 20) ==> ParseRecord(s) == None
  {
    hide Varint, Payload;
    if s[0] < 4 {
      var r := Record(KindOf(s[0]), 0, [], []);
      assert r.Valid() && Encode(r)[0] == s[0];
    } else if 16 <= s[0] < 20 {
      var r := Record(KindOf(s[0] - 16), 1, [], []);
      assert r.Valid() && Encode(r)[0] == s[0];
    }
  }

  ghost predicate AllValid(rs: seq<Record>) {
    forall r <- rs :: r.Valid()
  }

  lemma ParseStep(s: Bytes, r: Record, rest: Bytes, rs: seq<Record>)
    requires s != [] && ParseRecord(s) == Some((r, rest)) && ParseAll(rest) == Some(rs)
    ensures ParseAll(s) == Some([r] + rs)
  {
  }

  /** Iterating yields the records put in, in order. */
  lemma {:induction false} BatchRoundTrip(rs: seq<Record>)
    requires AllValid(rs)
    ensures ParseAll(EncodeAll(rs)) == Some(rs)
  {
    if rs != [] {
      hide ParseRecord, Encode, ParseAll;
      BatchRoundTrip(rs[1..]);
      RecordRoundTrip(rs[0], EncodeAll(rs[1..]));
      ParseStep(EncodeAll(rs), rs[0], EncodeAll(rs[1..]), rs[1..]);
      assert [rs[0]] + rs[1..] == rs;
    }
  }

  lemma {:induction false} EncodeConcat(a: seq<Record>, b: seq<Record>)
    ensures EncodeAll(a + b) == EncodeAll(a) + EncodeAll(b)
  {
    hide Encode;
    if a == [] {
      assert a + b == b;
    } else {
      assert (a + b)[1..] == a[1..] + b;
      EncodeConcat(a[1..], b);
      Associate(Encode(a[0]), EncodeAll(a[1..]), EncodeAll(b));
    }
  }

  // ---- Cut short ----

  lemma PayloadCut(r: Record, k: nat)
    requires r.Valid() && k < |Payload(r)|
    ensures ParsePayload(r.kind, r.family, Payload(r)[..k]) == None
  {
    hide GetSlice, Slice;
    if r.kind == RDelete || k < |Slice(r.key)| {
      assert Payload(r)[..k] == Slice(r.key)[..k];
      SliceCut(r.key, k);
    } else {
      var m := k - |Slice(r.key)|;
      assert Payload(r)[..k] == Slice(r.key) + Slice(r.value)[..m];
      SliceRoundTrip(r.key, Slice(r.value)[..m]);
      SliceCut(r.value, m);
    }
  }

  lemma RecordCut(r: Record, k: nat)
    requires r.Valid() && 0 < k < |Encode(r)|
    ensures ParseRecord(Encode(r)[..k]) == None
  {
    hide ParsePayload, Payload, GetVarint32, Varint;
    var s := Encode(r)[..k];
    if r.family == 0 {
      assert s[1..] == Payload(r)[..k - 1];
      PayloadCut(r, k - 1);
    } else {
      FamilyRecordCut(r, k);
    }
  }

  lemma CutAfterTag(tag: Byte, a: Bytes, b: Bytes, k: nat)
    requires 0 < k < |a| + |b| + 1
    ensures var s := ([tag] + (a + b))[..k];
            s[0] == tag && s[1..] == if k - 1 < |a| then a[..k - 1] else a + b[..k - 1 - |a|]
  {
  }

  /** The same for a record that names its family. */
  lemma FamilyRecordCut(r: Record, k: nat)
    requires r.Valid() && r.family != 0 && 0 < k < |Encode(r)|
    ensures ParseRecord(Encode(r)[..k]) == None
  {
    hide ParsePayload, Payload, GetVarint32, Varint;
    var v := Varint(r.family);
    CutAfterTag(Encode(r)[0], v, Payload(r), k);
    if k - 1 < |v| {
      FamilyCut(r.family, k - 1);
    } else {
      var p := Payload(r)[..k - 1 - |v|];
      Varint32RoundTrip(r.family, p);
      PayloadCut(r, k - 1 - |v|);
    }
  }

  lemma FamilyCut(n: nat, k: nat)
    requires k < |Varint(n)|
    ensures GetVarint32(Varint(n)[..k]) == None
  {
    VarintCut(n, 5, k);
  }

  /** A body cut short does not parse, or has fewer records. */
  lemma {:induction false} BodyCut(rs: seq<Record>, k: nat)
    requires AllValid(rs) && k < |EncodeAll(rs)|
    ensures match ParseAll(EncodeAll(rs)[..k]) case None => true case Some(got) => |got| < |rs|
  {
    hide ParseRecord, Encode;
    if rs != [] && k > 0 {
      var head, rest := Encode(rs[0]), EncodeAll(rs[1..]);
      if k < |head| {
        assert EncodeAll(rs)[..k] == head[..k];
        RecordCut(rs[0], k);
      } else {
        assert EncodeAll(rs)[..k] == head + rest[..k - |head|];
        RecordRoundTrip(rs[0], rest[..k - |head|]);
        BodyCut(rs[1..], k - |head|);
      }
    }
  }

  // ---- The batch ----

  /** EncodeFixed32 and EncodeFixed64: k bytes, low ones first. */
  function Fixed(n: nat, k: nat): (s: Bytes)
    ensures |s| == k
  {
    if k == 0 then [] else [n % 256] + Fixed(n / 256, k - 1)
  }

  function Unfixed(s: Bytes): nat {
    if s == [] then 0 else s[0] + 256 * Unfixed(s[1..])
  }

  lemma {:induction false} FixedRoundTrip(n: nat, k: nat)
    requires n < Power(256, k)
    ensures Unfixed(Fixed(n, k)) == n
  {
    if k > 0 {
      FixedRoundTrip(n / 256, k - 1);
    }
  }

  datatype Iteration = Records(records: seq<Record>) | Corruption

  class WriteBatch {
    /** Sequence number in 8 bytes, count in 4, records. */
    var rep: Bytes

    ghost predicate Holds(sn: SeqNo, rs: seq<Record>)
      reads this
    {
      AllValid(rs) && |rs| <= MAX_32 && rep == Fixed(sn, 8) + Fixed(|rs|, 4) + EncodeAll(rs)
    }

    constructor ()
      ensures Holds(0, [])
    {
      rep := Fixed(0, 8) + Fixed(0, 4);
      assert Fixed(0, 8) + Fixed(0, 4) == Fixed(0, 8) + Fixed(0, 4) + [];
    }

    function Count(): nat
      reads this
      requires |rep| >= HEADER
    {
      Unfixed(rep[8..12])
    }

    method SetCount(n: nat, ghost sn: SeqNo, ghost count: nat, ghost body: Bytes)
      requires rep == Fixed(sn, 8) + Fixed(count, 4) + body
      modifies this
      ensures rep == Fixed(sn, 8) + Fixed(n, 4) + body
    {
      assert rep[..8] == Fixed(sn, 8) && rep[12..] == body;
      rep := rep[..8] + Fixed(n, 4) + rep[12..];
    }

    lemma CountIs(sn: SeqNo, n: nat, body: Bytes)
      requires rep == Fixed(sn, 8) + Fixed(n, 4) + body && n <= MAX_32
      ensures |rep| >= HEADER && Count() == n && rep[HEADER..] == body
    {
      assert rep[8..12] == Fixed(n, 4);
      assert Power(256, 4) == MAX_32 + 1;
      FixedRoundTrip(n, 4);
    }

    /** Put, Delete, Merge and DeleteRange, of the default or another family. */
    method Add(r: Record, ghost sn: SeqNo, ghost rs: seq<Record>)
      requires Holds(sn, rs) && r.Valid() && |rs| < MAX_32
      modifies this
      ensures Holds(sn, rs + [r])
    {
      hide EncodeAll, Encode, Fixed, Count;
      CountIs(sn, |rs|, EncodeAll(rs));
      SetCount(Count() + 1, sn, |rs|, EncodeAll(rs));
      EncodeOneMore(rs, r);
      AddRecord(r);
      Associate(Fixed(sn, 8) + Fixed(|rs| + 1, 4), EncodeAll(rs), Encode(r));
    }

    /** Tag, family if it is not the default one, key, and value if there is one. */
    method AddRecord(r: Record)
      requires r.Valid()
      modifies this
      ensures rep == old(rep) + Encode(r)
    {
      hide Slice, Varint;
      if r.family == 0 {
        rep := rep + [TagOf(r.kind)];
      } else {
        rep := rep + [FAMILY_TAG_BASE + TagOf(r.kind)];
        rep := rep + Varint(r.family);
      }
      rep := rep + Slice(r.key);
      if r.kind != RDelete {
        rep := rep + Slice(r.value);
      }
    }

    /** Append: the other batch's records after this one's. */
    method Append(source: WriteBatch, ghost sn: SeqNo, ghost rs: seq<Record>, ghost sn': SeqNo, ghost more: seq<Record>)
      requires Holds(sn, rs) && source.Holds(sn', more) && |rs| + |more| <= MAX_32
      modifies this
      ensures Holds(sn, rs + more)
    {
      hide EncodeAll, Fixed, Count;
      source.CountIs(sn', |more|, EncodeAll(more));
      CountIs(sn, |rs|, EncodeAll(rs));
      var body := source.rep[HEADER..];
      SetCount(Count() + source.Count(), sn, |rs|, EncodeAll(rs));
      EncodeConcat(rs, more);
      Associate(Fixed(sn, 8) + Fixed(|rs| + |more|, 4), EncodeAll(rs), EncodeAll(more));
      rep := rep + body;
    }

    /** Iterate: the records, unless one does not parse or their number is not the count. */
    method Iterate() returns (result: Iteration)
      ensures result == Iterated(rep)
    {
      if |rep| < HEADER {
        return Iteration.Corruption;
      }
      var input := rep[HEADER..];
      var found: seq<Record> := [];
      assert ParseAll(input).Some? ==> found + ParseAll(input).value == ParseAll(input).value;
      while input != []
        invariant ParseAll(rep[HEADER..]) == match ParseAll(input) case None => None case Some(rs) => Some(found + rs)
        decreases |input|
      {
        var next := ParseRecord(input);
        if next.None? {
          return Iteration.Corruption;
        }
        Regroup(found, next.value.0, next.value.1);
        found, input := found + [next.value.0], next.value.1;
      }
      assert found + [] == found;
      if |found| != Count() {
        return Iteration.Corruption;
      }
      return Records(found);
    }
  }

  lemma EncodeOneMore(rs: seq<Record>, r: Record)
    ensures EncodeAll(rs + [r]) == EncodeAll(rs) + Encode(r)
  {
    EncodeConcat(rs, [r]);
    assert EncodeAll([r]) == Encode(r) + [] == Encode(r);
  }

  lemma Regroup(found: seq<Record>, r: Record, rest: Bytes)
    ensures ParseAll(rest).Some? ==> found + ([r] + ParseAll(rest).value) == found + [r] + ParseAll(rest).value
  {
  }

  /** What iterating over these bytes comes to. */
  function Iterated(rep: Bytes): Iteration {
    if |rep| < HEADER then Iteration.Corruption
    else
      match ParseAll(rep[HEADER..])
      case None => Iteration.Corruption
      case Some(rs) => if |rs| == Unfixed(rep[8..12]) then Records(rs) else Iteration.Corruption
  }

  /** Whatever calls filled the batch, Iterate gives them back. */
  lemma IterateGivesBack(sn: SeqNo, rs: seq<Record>)
    requires AllValid(rs) && |rs| <= MAX_32
    ensures Iterated(Fixed(sn, 8) + Fixed(|rs|, 4) + EncodeAll(rs)) == Records(rs)
  {
    CountDecides(sn, rs, |rs|);
  }

  /** The header: the number in eight bytes and the count in four, low bytes first. */
  lemma HeaderBytes(sn: SeqNo, n: nat, body: Bytes, i: nat)
    requires i < HEADER
    ensures (Fixed(sn, 8) + Fixed(n, 4) + body)[i] ==
            if i < 8 then sn / Power(256, i) % 256 else n / Power(256, i - 8) % 256
  {
    hide Fixed, Power;
    if i < 8 {
      FixedBytes(sn, 8, i);
    } else {
      FixedBytes(n, 4, i - 8);
    }
  }

  /** The records come back exactly if the header counts them. */
  lemma CountDecides(sn: SeqNo, rs: seq<Record>, n: nat)
    requires AllValid(rs) && n <= MAX_32
    ensures Iterated(Fixed(sn, 8) + Fixed(n, 4) + EncodeAll(rs)) ==
            if n == |rs| then Records(rs) else Iteration.Corruption
  {
    hide Fixed, Power, EncodeAll, AllValid, Unfixed;
    var rep := Fixed(sn, 8) + Fixed(n, 4) + EncodeAll(rs);
    assert rep[HEADER..] == EncodeAll(rs) && rep[8..12] == Fixed(n, 4);
    CountFits();
    FixedRoundTrip(n, 4);
    BatchRoundTrip(rs);
  }

  /** A batch cut short anywhere is corrupt, never a shorter batch. */
  lemma CutBatchIsCorrupt(sn: SeqNo, rs: seq<Record>, k: nat)
    requires AllValid(rs) && |rs| <= MAX_32
    requires k < |Fixed(sn, 8) + Fixed(|rs|, 4) + EncodeAll(rs)|
    ensures Iterated((Fixed(sn, 8) + Fixed(|rs|, 4) + EncodeAll(rs))[..k]) == Iteration.Corruption
  {
    hide EncodeAll, ParseAll, Fixed, Unfixed, AllValid, Power;
    if k >= HEADER {
      CutParts(Fixed(sn, 8), Fixed(|rs|, 4), EncodeAll(rs), k);
      CountFits();
      FixedRoundTrip(|rs|, 4);
      BodyCut(rs, k - HEADER);
    }
  }

  lemma CountFits()
    ensures Power(256, 4) == MAX_32 + 1
  {
  }

  lemma CutParts(sn: Bytes, count: Bytes, body: Bytes, k: nat)
    requires |sn| == 8 && |count| == 4 && HEADER <= k <= |sn + count + body|
    ensures (sn + count + body)[..k][HEADER..] == body[..k - HEADER]
    ensures (sn + count + body)[..k][8..12] == count
  {
  }

  // ---- The range-deletion block ----

  datatype StoredTombstone = StoredTombstone(begin: Bytes, end: Bytes, sn: SeqNo)
  {
    predicate Valid() {
      |begin| <= MAX_32 && |end| <= MAX_32 && sn <= MAX_64
    }
  }

  ghost predicate AllStored(ts: seq<StoredTombstone>) {
    forall t <- ts :: t.Valid()
  }

  /** Begin, end and number. */
  function EncodeTombstone(t: StoredTombstone): (s: Bytes)
    ensures s != []
  {
    Slice(t.begin) + (Slice(t.end) + Varint(t.sn))
  }

  function EncodeTombstones(ts: seq<StoredTombstone>): Bytes {
    if ts == [] then [] else EncodeTombstone(ts[0]) + EncodeTombstones(ts[1..])
  }

  /** EncodeRangeTombstones */
  method EncodeRangeTombstones(ts: seq<StoredTombstone>) returns (dst: Bytes)
    ensures dst == Varint(|ts|) + EncodeTombstones(ts)
  {
    hide Slice, Varint;
    dst := Varint(|ts|);
    var i := 0;
    assert ts[0..] == ts;
    while i < |ts|
      invariant 0 <= i <= |ts| && dst + EncodeTombstones(ts[i..]) == Varint(|ts|) + EncodeTombstones(ts)
    {
      assert ts[i..][0] == ts[i] && ts[i..][1..] == ts[i + 1..];
      OneMoreTombstone(dst, ts[i], EncodeTombstones(ts[i + 1..]));
      dst := dst + Slice(ts[i].begin);
      dst := dst + Slice(ts[i].end);
      dst := dst + Varint(ts[i].sn);
      i := i + 1;
    }
    assert dst + [] == dst;
  }

  lemma OneMoreTombstone(dst: Bytes, t: StoredTombstone, rest: Bytes)
    ensures dst + (EncodeTombstone(t) + rest) == dst + Slice(t.begin) + Slice(t.end) + Varint(t.sn) + rest
  {
    hide Slice, Varint;
  }

  /** GetVarint64: 64 bits of what ten bytes say. */
  function GetVarint64(s: Bytes): (r: Option<(nat, Bytes)>)
    ensures r.Some? ==> |r.value.1| < |s|
  {
    match GetVarint(s, 10)
    case None => None
    case Some((n, rest)) => Some((n % (MAX_64 + 1), rest))
  }

  lemma Varint64RoundTrip(n: nat, rest: Bytes)
    requires n <= MAX_64
    ensures GetVarint64(Varint(n) + rest) == Some((n, rest))
  {
    hide Varint, GetVarint, Power;
    WidthsFit();
    VarintRoundTrip(n, 10, rest);
  }

  function GetTombstone(s: Bytes): (r: Option<(StoredTombstone, Bytes)>)
    ensures r.Some? ==> |r.value.1| < |s|
  {
    match GetSlice(s)
    case None => None
    case Some((begin, s1)) =>
      match GetSlice(s1)
      case None => None
      case Some((end, s2)) =>
        match GetVarint64(s2)
        case None => None
        case Some((sn, rest)) => Some((StoredTombstone(begin, end, sn), rest))
  }

  function GetTombstones(s: Bytes, n: nat): Option<seq<StoredTombstone>>
    decreases n
  {
    if n == 0 then Some([])
    else
      match GetTombstone(s)
      case None => None
      case Some((t, rest)) => Prepended([t], GetTombstones(rest, n - 1))
  }

  function Prepended(a: seq<StoredTombstone>, b: Option<seq<StoredTombstone>>): Option<seq<StoredTombstone>> {
    if b.None? then None else Some(a + b.value)
  }

  /** What a block says: as many tombstones as it counts, whatever follows them; None is Corruption. */
  function BlockSays(src: Bytes): Option<seq<StoredTombstone>> {
    match GetVarint32(src)
    case None => None
    case Some((n, rest)) => GetTombstones(rest, n)
  }

  lemma RegroupTombstones(got: seq<StoredTombstone>, t: StoredTombstone, rest: Option<seq<StoredTombstone>>)
    ensures Prepended(got, Prepended([t], rest)) == Prepended(got + [t], rest)
  {
    if rest.Some? {
      assert got + ([t] + rest.value) == got + [t] + rest.value;
    }
  }

  lemma NoTombstones(got: seq<StoredTombstone>, all: Option<seq<StoredTombstone>>)
    ensures Prepended([], all) == all && Prepended(got, Some([])) == Some(got)
  {
    assert got + [] == got;
    if all.Some? {
      assert [] + all.value == all.value;
    }
  }

  /** DecodeRangeTombstones: what the block adds to `t`; None is Corruption. */
  method DecodeRangeTombstones(src: Bytes) returns (t: Option<seq<StoredTombstone>>)
    ensures t == BlockSays(src)
  {
    hide GetSlice, GetVarint32, GetVarint64, Prepended;
    var count := GetVarint32(src);
    if count.None? {
      return None;
    }
    var n, input := count.value.0, count.value.1;
    var got: seq<StoredTombstone> := [];
    var i: nat := 0;
    NoTombstones([], BlockSays(src));
    while i < n
      invariant 0 <= i <= n && Prepended(got, GetTombstones(input, n - i)) == BlockSays(src)
    {
      var next := GetTombstone(input);
      if next.None? {
        NothingPrepended(got);
        return None;
      }
      RegroupTombstones(got, next.value.0, GetTombstones(next.value.1, n - i - 1));
      got, input, i := got + [next.value.0], next.value.1, i + 1;
    }
    NoTombstones(got, None);
    return Some(got);
  }

  lemma NothingPrepended(got: seq<StoredTombstone>)
    ensures Prepended(got, None) == None
  {
  }

  lemma TombstoneRoundTrip(t: StoredTombstone, rest: Bytes)
    requires t.Valid()
    ensures GetTombstone(EncodeTombstone(t) + rest) == Some((t, rest))
  {
    hide GetSlice, GetVarint64, Slice, Varint;
    var more := Slice(t.end) + (Varint(t.sn) + rest);
    assert EncodeTombstone(t) + rest == Slice(t.begin) + more;
    SliceRoundTrip(t.begin, more);
    SliceRoundTrip(t.end, Varint(t.sn) + rest);
    Varint64RoundTrip(t.sn, rest);
  }

  lemma TombstoneCut(t: StoredTombstone, k: nat)
    requires t.Valid() && k < |EncodeTombstone(t)|
    ensures GetTombstone(EncodeTombstone(t)[..k]) == None
  {
    hide GetSlice, Slice, Varint;
    var s, b, e, v := EncodeTombstone(t), Slice(t.begin), Slice(t.end), Varint(t.sn);
    if k < |b| {
      assert s[..k] == b[..k];
      SliceCut(t.begin, k);
    } else if k < |b| + |e| {
      assert s[..k] == b + e[..k - |b|];
      SliceRoundTrip(t.begin, e[..k - |b|]);
      SliceCut(t.end, k - |b|);
    } else {
      var left := v[..k - |b| - |e|];
      assert s[..k] == b + (e + left);
      SliceRoundTrip(t.begin, e + left);
      SliceRoundTrip(t.end, left);
      VarintCut(t.sn, 10, |left|);
    }
  }

  lemma TombstonesStep(s: Bytes, t: StoredTombstone, rest: Bytes, n: nat)
    requires n > 0 && GetTombstone(s) == Some((t, rest))
    ensures GetTombstones(s, n) == Prepended([t], GetTombstones(rest, n - 1))
  {
  }

  lemma TombstonesHead(ts: seq<StoredTombstone>, trailing: Bytes)
    requires ts != []
    ensures EncodeTombstones(ts) + trailing == EncodeTombstone(ts[0]) + (EncodeTombstones(ts[1..]) + trailing)
  {
    hide EncodeTombstone;
    Associate(EncodeTombstone(ts[0]), EncodeTombstones(ts[1..]), trailing);
  }

  lemma {:induction false} TombstonesRoundTrip(ts: seq<StoredTombstone>, trailing: Bytes)
    requires AllStored(ts)
    ensures GetTombstones(EncodeTombstones(ts) + trailing, |ts|) == Some(ts)
  {
    if ts != [] {
      TombstonesRoundTrip(ts[1..], trailing);
      MoreRoundTrip(ts, trailing);
    }
  }

  lemma MoreRoundTrip(ts: seq<StoredTombstone>, trailing: Bytes)
    requires AllStored(ts) && ts != []
    requires GetTombstones(EncodeTombstones(ts[1..]) + trailing, |ts| - 1) == Some(ts[1..])
    ensures GetTombstones(EncodeTombstones(ts) + trailing, |ts|) == Some(ts)
  {
    hide GetTombstone, EncodeTombstone, EncodeTombstones, GetTombstones;
    var more := EncodeTombstones(ts[1..]) + trailing;
    TombstonesHead(ts, trailing);
    TombstoneRoundTrip(ts[0], more);
    TombstonesStep(EncodeTombstones(ts) + trailing, ts[0], more, |ts|);
    assert [ts[0]] + ts[1..] == ts;
  }

  lemma {:induction false} TombstonesCut(ts: seq<StoredTombstone>, k: nat)
    requires AllStored(ts) && k < |EncodeTombstones(ts)|
    ensures GetTombstones(EncodeTombstones(ts)[..k], |ts|) == None
  {
    hide GetTombstone, EncodeTombstone;
    var head, rest := EncodeTombstone(ts[0]), EncodeTombstones(ts[1..]);
    if k < |head| {
      assert EncodeTombstones(ts)[..k] == head[..k];
      TombstoneCut(ts[0], k);
    } else {
      assert EncodeTombstones(ts)[..k] == head + rest[..k - |head|];
      TombstoneRoundTrip(ts[0], rest[..k - |head|]);
      TombstonesCut(ts[1..], k - |head|);
    }
  }

  /** An encoded block, whatever follows it, gives the tombstones back. */
  lemma BlockRoundTrip(ts: seq<StoredTombstone>, trailing: Bytes)
    requires AllStored(ts) && |ts| <= MAX_32
    ensures BlockSays(Varint(|ts|) + EncodeTombstones(ts) + trailing) == Some(ts)
  {
    hide Varint, GetVarint32, EncodeTombstones;
    Associate(Varint(|ts|), EncodeTombstones(ts), trailing);
    Varint32RoundTrip(|ts|, EncodeTombstones(ts) + trailing);
    TombstonesRoundTrip(ts, trailing);
  }

  /** A block cut short anywhere is corrupt. */
  lemma CutBlockIsCorrupt(ts: seq<StoredTombstone>, k: nat)
    requires AllStored(ts) && |ts| <= MAX_32
    requires k < |Varint(|ts|) + EncodeTombstones(ts)|
    ensures BlockSays((Varint(|ts|) + EncodeTombstones(ts))[..k]) == None
  {
    hide Varint, GetVarint, EncodeTombstones;
    var v, body := Varint(|ts|), EncodeTombstones(ts);
    if k < |v| {
      assert (v + body)[..k] == v[..k];
      VarintCut(|ts|, 5, k);
    } else {
      assert (v + body)[..k] == v + body[..k - |v|];
      Varint32RoundTrip(|ts|, body[..k - |v|]);
      TombstonesCut(ts, k - |v|);
    }
  }
}
