/** Object identifiers (asn.cpp) and unsigned integers (asn.h) in DER. */
module DerValues {
  import opened Bits
  import opened Bytes
  import opened DerLengths
  import opened Wrappers

  datatype Error = BERDecodeErr

  type Decoding<T> = Result<T, Error>

  const WORD25: nat := 0x200_0000

  type word32 = x: int | 0 <= x < WORD32

  const BOOLEAN: byte := 0x01
  const OBJECT_IDENTIFIER: byte := 0x06

  // ----- sub-identifiers

  /** Base 128, most significant first. */
  function Value7(s: seq<byte>): nat {
    if |s| == 0 then 0 else 128 * Value7(s[..|s| - 1]) + (s[|s| - 1] as int) % 128
  }

  /** All but the last digit of a number, each with the continuation bit. */
  function Leading(v: nat): (s: seq<byte>) {
    if v == 0 then [] else Leading(v / 128) + [0x80 + v % 128]
  }

  function SubIdentifier(v: nat): (s: seq<byte>)
    ensures |s| >= 1
  {
    Leading(v / 128) + [v % 128]
  }

  function RoundUp(n: nat, m: nat): (r: nat)
    requires m > 0
    ensures n <= r < n + m && Multiple(r, m)
  {
    if n == 0 then 0 else if n <= m then m else m + RoundUp(n - m, m)
  }

  predicate Multiple(n: nat, m: nat)
    requires m > 0
  {
    n == 0 || (n >= m && Multiple(n - m, m))
  }

  lemma {:induction false} ShrSeven(v: nat, i: nat)
    ensures Shr(v, i + 7) == Shr(v, i) / 128
  {
    assert Shr(v, i + 2) == Shr(v, i) / 4;
    assert Shr(v, i + 4) == Shr(v, i + 2) / 4;
    assert Shr(v, i + 6) == Shr(v, i + 4) / 4;
    assert Shr(v, i + 7) == Shr(v, i + 6) / 2;
  }

  /** A number keeps its bits above i until none are left. */
  lemma {:induction false} ShrNonzero(v: nat, i: nat)
    ensures Shr(v, i) == 0 <==> BitCount(v) <= i
  {
    if BitCount(v) <= i {
      Pow2Monotone(BitCount(v), i);
      ShrZero(v, i);
    } else {
      Pow2Monotone(i, BitCount(v) - 1);
      Split(v, i);
      Pow2IsShl(i);
    }
  }

  method EncodeValue(bt: ByteQueue, v: nat)
    modifies bt
    ensures bt.bytes == old(bt.bytes) + SubIdentifier(v)
  {
    var bits := if BitCount(v) > 7 then BitCount(v) else 7;
    var i: nat := RoundUp(bits, 7) - 7;
    ShrNonzero(v, i + 7);
    while i != 0
      invariant Multiple(i, 7) && (i > 0 ==> BitCount(v) > i)
      invariant bt.bytes == old(bt.bytes) + Leading(Shr(v, i + 7))
    {
      ShrNonzero(v, i);
      ShrSeven(v, i);
      bt.Put(0x80 + Shr(v, i) % 128);
      i := i - 7;
    }
    ShrSeven(v, 0);
    bt.Put(v % 128);
  }

  /** How many octets at the front say that more follow. */
  function Continued(s: seq<byte>): (d: nat)
    ensures d <= |s| && (d < |s| ==> s[d] < 0x80)
  {
    if |s| > 0 && s[0] >= 0x80 then 1 + Continued(s[1..]) else 0
  }

  lemma {:induction false} ContinuedBefore(s: seq<byte>, i: nat)
    requires i < Continued(s)
    ensures s[i] >= 0x80
  {
    if i > 0 { ContinuedBefore(s[1..], i - 1); }
  }

  /** The value and its size: all octets up to the first without the continuation bit, in 32 bits. */
  function DecodedValue(s: seq<byte>): (r: Decoding<(word32, nat)>)
    ensures r.Ok? ==> 1 <= r.value.1 <= |s|
  {
    var d := Continued(s);
    if d < |s| && Value7(s[..d + 1]) < WORD32 then Ok((Value7(s[..d + 1]), d + 1)) else Err(BERDecodeErr)
  }

  lemma {:induction false} Value7Grows(s: seq<byte>, i: nat)
    requires i <= |s|
    ensures Value7(s[..i]) <= Value7(s)
  {
    if i < |s| {
      assert s[..|s| - 1][..i] == s[..i];
      Value7Grows(s[..|s| - 1], i);
    } else {
      assert s[..i] == s;
    }
  }

  lemma {:induction false} Value7Next(s: seq<byte>, i: nat)
    requires i < |s|
    ensures Value7(s[..i + 1]) == 128 * Value7(s[..i]) + (s[i] as int) % 128
  {
    assert s[..i + 1][..i] == s[..i];
  }

  /** A prefix already too large stays so. */
  lemma {:induction false} TooLarge(s: seq<byte>, i: nat)
    requires i < |s| && Value7(s[..i]) >= WORD25
    ensures Value7(s) >= WORD32
  {
    var init := s[..|s| - 1];
    assert init[..i] == s[..i];
    Value7Grows(init, i);
  }

  method DecodeValue(bt: ByteQueue) returns (r: Decoding<(word32, nat)>)
    modifies bt
    ensures r == DecodedValue(old(bt.bytes))
    ensures r.Ok? ==> bt.bytes == old(bt.bytes)[r.value.1..]
  {
    ghost var s := bt.bytes;
    ghost var d := Continued(s);
    var v, i := 0, 0;
    while true
      invariant 0 <= i <= d && bt.bytes == s[i..] && v == Value7(s[..i])
      decreases |bt.bytes|
    {
      var ok, b := bt.Get();
      if !ok { return Err(BERDecodeErr); }
      if v >= WORD25 {
        if d < |s| {
          assert s[..d + 1][..i] == s[..i];
          TooLarge(s[..d + 1], i);
        }
        return Err(BERDecodeErr);
      }
      Value7Next(s, i);
      v := v * 128 + (b as int) % 128;
      i := i + 1;
      if b < 0x80 {
        if i - 1 < d { ContinuedBefore(s, i - 1); }
        return Ok((v, i));
      }
    }
  }

  lemma {:induction false} LeadingValue(v: nat)
    ensures Value7(Leading(v)) == v
    ensures forall i :: 0 <= i < |Leading(v)| ==> Leading(v)[i] >= 0x80
  {
    if v != 0 {
      LeadingValue(v / 128);
      Value7Last(Leading(v / 128), 0x80 + v % 128);
    }
  }

  lemma {:induction false} ContinuedAfter(leading: seq<byte>, last: byte, rest: seq<byte>)
    requires (forall i :: 0 <= i < |leading| ==> leading[i] >= 0x80) && last < 0x80
    ensures Continued(leading + [last] + rest) == |leading|
  {
    if |leading| != 0 {
      assert (leading + [last] + rest)[1..] == leading[1..] + [last] + rest;
      ContinuedAfter(leading[1..], last, rest);
    }
  }

  lemma {:induction false} SubIdentifierValue(v: nat)
    ensures Value7(SubIdentifier(v)) == v
    ensures forall i :: 0 <= i < |Leading(v / 128)| ==> Leading(v / 128)[i] >= 0x80
  {
    LeadingValue(v / 128);
    Value7Last(Leading(v / 128), v % 128);
  }

  lemma {:induction false} Value7Last(s: seq<byte>, last: byte)
    ensures Value7(s + [last]) == 128 * Value7(s) + (last as int) % 128
  {
    assert (s + [last])[..|s|] == s;
  }

  /** Every 32-bit sub-identifier decodes to itself, whatever follows. */
  lemma {:induction false} SubIdentifierRoundTrip(v: nat, rest: seq<byte>)
    requires v < WORD32
    ensures DecodedValue(SubIdentifier(v) + rest) == Ok((v, |SubIdentifier(v)|))
  {
    var s := SubIdentifier(v);
    SubIdentifierValue(v);
    ContinuedAfter(Leading(v / 128), v % 128, rest);
    Regroup([], s, rest);
  }

  /** Section 8.19.2 of ITU-T X.690: no leading zero digits. */
  lemma {:induction false} SubIdentifierMinimal(v: nat)
    ensures SubIdentifier(v)[0] != 0x80
  {
    if v / 128 != 0 { LeadingMinimal(v / 128); }
  }

  lemma {:induction false} LeadingMinimal(v: nat)
    requires v > 0
    ensures |Leading(v)| > 0 && Leading(v)[0] != 0x80
  {
    if v >= 128 { LeadingMinimal(v / 128); }
  }

  // ----- object identifiers

  function Arcs(values: seq<word32>): (s: seq<byte>) {
    if |values| == 0 then [] else SubIdentifier(values[0]) + Arcs(values[1..])
  }

  function FirstByte(first: int, second: int): byte {
    (40 * first + second) % 256
  }

  /** The contents: the first two arcs in one byte, 32-bit arithmetic and all. */
  function OidContent(values: seq<word32>): (s: seq<byte>)
    requires |values| >= 2
    ensures |s| >= 1
  {
    [FirstByte(values[0], values[1])] + Arcs(values[2..])
  }

  function EncodedOid(values: seq<word32>): (s: seq<byte>)
    requires |values| >= 2 && |OidContent(values)| < WORD64
  {
    Tlv(OBJECT_IDENTIFIER, OidContent(values))
  }

  method DEREncodeOid(bt: ByteQueue, values: seq<word32>)
    requires |values| >= 2 && |OidContent(values)| < WORD64
    modifies bt
    ensures bt.bytes == old(bt.bytes) + EncodedOid(values)
  {
    var temp := new ByteQueue();
    temp.Put(FirstByte(values[0], values[1]));
    var i := 2;
    while i < |values|
      invariant 2 <= i <= |values| && fresh(temp) && bt.bytes == old(bt.bytes)
      invariant temp.bytes + Arcs(values[i..]) == OidContent(values)
    {
      EncodeValue(temp, values[i]);
      i := i + 1;
    }
    var _ := PutTlv(bt, OBJECT_IDENTIFIER, temp.bytes);
  }

  /** Sub-identifiers that fill n octets exactly. */
  function DecodedArcs(s: seq<byte>, n: nat): (r: Decoding<seq<word32>>)
    decreases n
  {
    if n == 0 then Ok([])
    else
      var first := DecodedValue(s);
      if first.Err? || first.value.1 > n then Err(BERDecodeErr)
      else
        var others := DecodedArcs(s[first.value.1..], n - first.value.1);
        if others.Ok? then Ok([first.value.0] + others.value) else Err(BERDecodeErr)
  }

  /** The identifier at the front, and what follows it. */
  function DecodedOid(s: seq<byte>): (r: Decoding<(seq<word32>, seq<byte>)>)
  {
    if |s| == 0 || s[0] != OBJECT_IDENTIFIER then Err(BERDecodeErr)
    else
      match DecodedLength(s[1..])
      case Definite(n) =>
        var rest := AfterLength(s[1..]);
        if n < 1 || |rest| < 1 then Err(BERDecodeErr)
        else
          var arcs := DecodedArcs(rest[1..], n - 1);
          if arcs.Err? || |rest| < n then Err(BERDecodeErr)
          else Ok(([(rest[0] as int) / 40, (rest[0] as int) % 40] + arcs.value, rest[n..]))
      case _ => Err(BERDecodeErr)
  }

  /** What was decoded lies in the octets there are. */
  lemma {:induction false} ArcsFit(s: seq<byte>, n: nat)
    requires DecodedArcs(s, n).Ok?
    ensures n <= |s|
    decreases n
  {
    if n != 0 {
      var k := DecodedValue(s).value.1;
      ArcsFit(s[k..], n - k);
    }
  }

  /** Arcs so far in front of those to come. */
  function AfterArcs(values: seq<word32>, r: Decoding<seq<word32>>): Decoding<seq<word32>> {
    if r.Ok? then Ok(values + r.value) else Err(BERDecodeErr)
  }

  lemma {:induction false} OneArc(values: seq<word32>, s: seq<byte>, n: nat)
    requires n > 0
    ensures var first := DecodedValue(s);
            AfterArcs(values, DecodedArcs(s, n)) ==
              if first.Err? || first.value.1 > n then Err(BERDecodeErr)
              else AfterArcs(values + [first.value.0], DecodedArcs(s[first.value.1..], n - first.value.1))
  {
    var first := DecodedValue(s);
    if first.Ok? && first.value.1 <= n && DecodedArcs(s[first.value.1..], n - first.value.1).Ok? {
      var others := DecodedArcs(s[first.value.1..], n - first.value.1).value;
      assert values + ([first.value.0] + others) == values + [first.value.0] + others;
    }
  }

  lemma {:induction false} Further(s: seq<byte>, i: nat, k: nat, next: nat)
    requires i <= |s| && k <= |s[i..]| && next == i + k
    ensures next <= |s| && s[i..][k..] == s[next..]
  {
  }

  /** One arc of the remaining contents octets. */
  method BERDecodeArc(bt: ByteQueue, left: nat, values: seq<word32>)
    returns (ok: bool, left': nat, values': seq<word32>)
    requires left > 0
    modifies bt
    ensures var r := AfterArcs(values, DecodedArcs(old(bt.bytes), left));
            r == if ok then AfterArcs(values', DecodedArcs(bt.bytes, left')) else Err(BERDecodeErr)
    ensures ok ==> left' < left && left - left' <= |old(bt.bytes)| && bt.bytes == old(bt.bytes)[left - left'..]
  {
    OneArc(values, bt.bytes, left);
    var v := DecodeValue(bt);
    if v.Err? || v.value.1 > left { return false, left, values; }
    ok, left', values' := true, left - v.value.1, values + [v.value.0];
  }

  /** The loop over the remaining contents octets. */
  method BERDecodeArcs(bt: ByteQueue, length: nat, start: seq<word32>) returns (r: Decoding<seq<word32>>)
    modifies bt
    ensures r == AfterArcs(start, DecodedArcs(old(bt.bytes), length))
    ensures r.Ok? ==> length <= |old(bt.bytes)| && bt.bytes == old(bt.bytes)[length..]
  {
    var left: nat, values, ok := length, start, true;
    ghost var s, at := bt.bytes, 0;
    while left > 0
      invariant at + left == length && at <= |s| && bt.bytes == s[at..]
      invariant AfterArcs(start, DecodedArcs(s, length)) == AfterArcs(values, DecodedArcs(bt.bytes, left))
      decreases left
    {
      ghost var before := left;
      ok, left, values := BERDecodeArc(bt, left, values);
      if !ok { return Err(BERDecodeErr); }
      Further(s, at, before - left, length - left);
      at := length - left;
    }
    assert values + [] == values;
    r := Ok(values);
  }

  method BERDecodeOid(bt: ByteQueue) returns (r: Decoding<seq<word32>>)
    modifies bt
    ensures var d := DecodedOid(old(bt.bytes));
            if d.Ok? then r == Ok(d.value.0) && bt.bytes == d.value.1 else r == Err(BERDecodeErr)
  {
    var ok, b := bt.Get();
    if !ok || b != OBJECT_IDENTIFIER { return Err(BERDecodeErr); }
    var l := BERLengthDecode(bt);
    if !l.Definite? || l.length < 1 { return Err(BERDecodeErr); }
    ok, b := bt.Get();
    if !ok { return Err(BERDecodeErr); }
    ghost var s := bt.bytes;
    if DecodedArcs(s, l.length - 1).Ok? { ArcsFit(s, l.length - 1); }
    r := BERDecodeArcs(bt, l.length - 1, [(b as int) / 40, (b as int) % 40]);
  }

  lemma {:induction false} ArcFirst(first: seq<byte>, v: word32, others: seq<byte>, n: nat, values: seq<word32>)
    requires |first| >= 1 && DecodedValue(first + others) == Ok((v, |first|)) && DecodedArcs(others, n) == Ok(values)
    ensures DecodedArcs(first + others, |first| + n) == Ok([v] + values)
  {
    assert (first + others)[|first|..] == others;
  }

  lemma {:induction false} ArcsRoundTrip(values: seq<word32>, rest: seq<byte>)
    ensures DecodedArcs(Arcs(values) + rest, |Arcs(values)|) == Ok(values)
  {
    if |values| == 0 {
      assert values == [];
    } else {
      var first, others := SubIdentifier(values[0]), Arcs(values[1..]);
      SubIdentifierRoundTrip(values[0], others + rest);
      ArcsRoundTrip(values[1..], rest);
      ArcFirst(first, values[0], others + rest, |others|, values[1..]);
      Regroup(first, others, rest);
      assert [values[0]] + values[1..] == values;
    }
  }

  lemma {:induction false} OidContents(s: seq<byte>, b: byte, tail: seq<byte>, n: nat, arcs: seq<word32>)
    requires |s| > 0 && s[0] == OBJECT_IDENTIFIER && DecodedLength(s[1..]) == Definite(n + 1)
    requires AfterLength(s[1..]) == [b] + tail && n <= |tail| && DecodedArcs(tail, n) == Ok(arcs)
    ensures DecodedOid(s) == Ok(([(b as int) / 40, (b as int) % 40] + arcs, tail[n..]))
  {
    Behind(b, tail, n, n + 1);
  }

  lemma {:induction false} Behind(b: byte, tail: seq<byte>, n: nat, next: nat)
    requires next == n + 1 && n <= |tail|
    ensures ([b] + tail)[0] == b && ([b] + tail)[1..] == tail && ([b] + tail)[next..] == tail[n..]
  {
  }

  lemma {:induction false} OidFollowed(b: byte, packed: seq<byte>, arcs: seq<word32>, rest: seq<byte>)
    requires 1 + |packed| < WORD64 && DecodedArcs(packed + rest, |packed|) == Ok(arcs)
    ensures DecodedOid(Tlv(OBJECT_IDENTIFIER, [b] + packed) + rest) ==
            Ok(([(b as int) / 40, (b as int) % 40] + arcs, rest))
  {
    TlvFront(OBJECT_IDENTIFIER, [b] + packed, rest);
    Regroup([b], packed, rest);
    OidContents(Tlv(OBJECT_IDENTIFIER, [b] + packed) + rest, b, packed + rest, |packed|, arcs);
  }

  lemma {:induction false} FirstTwo(first: word32, second: word32)
    ensures var b := FirstByte(first, second) as int;
            (b / 40 == first && b % 40 == second) <==> (second < 40 && 40 * (first as int) + second < 256)
  {
    if second < 40 && 40 * (first as int) + second < 256 {
      assert (40 * (first as int) + second) / 40 == first;
    }
  }

  /** An identifier decodes to itself exactly when its first two arcs fit their byte, and in any
      case the other arcs and what follows come back. */
  lemma {:induction false} OidRoundTrip(values: seq<word32>, rest: seq<byte>)
    requires |values| >= 2 && |OidContent(values)| < WORD64
    ensures DecodedOid(EncodedOid(values) + rest) == Ok((values, rest)) <==>
            values[1] < 40 && 40 * (values[0] as int) + values[1] < 256
    ensures var d := DecodedOid(EncodedOid(values) + rest);
            d.Ok? && |d.value.0| == |values| && d.value.0[2..] == values[2..] && d.value.1 == rest
  {
    var b := FirstByte(values[0], values[1]);
    ArcsRoundTrip(values[2..], rest);
    OidFollowed(b, Arcs(values[2..]), values[2..], rest);
    FirstTwo(values[0], values[1]);
    SamePair((b as int) / 40, (b as int) % 40, values);
  }

  /** An identifier that does not: the first two arcs make 1079, and the byte is what fits of it. */
  lemma {:induction false} OidThatFails()
    ensures |OidContent([2, 999])| < WORD64 && DecodedOid(EncodedOid([2, 999])) != Ok(([2, 999], []))
  {
    assert OidContent([2, 999]) == [FirstByte(2, 999)];
    OidRoundTrip([2, 999], []);
    assert EncodedOid([2, 999]) + [] == EncodedOid([2, 999]);
  }

  lemma {:induction false} SamePair(x: word32, y: word32, values: seq<word32>)
    requires |values| >= 2
    ensures var d := [x, y] + values[2..];
            |d| == |values| && d[2..] == values[2..] && (d == values <==> x == values[0] && y == values[1])
  {
    var d := [x, y] + values[2..];
    assert d[0] == x && d[1] == y;
    assert values == [values[0], values[1]] + values[2..];
  }

  // ----- unsigned integers

  /** Contents octets: a leading zero where the top bit would read as a sign. */
  function UnsignedContent(w: nat, asnTag: byte): (c: seq<byte>)
    ensures |c| >= 1
  {
    if asnTag == BOOLEAN then [if w != 0 then 0xff else 0] else SignedContent(BigEndian(w, Octets(w)))
  }

  function Octets(w: nat): (n: nat)
    ensures n >= 1
  {
    if w == 0 then 1 else BytePrecision(w)
  }

  function SignedContent(c: seq<byte>): (d: seq<byte>)
    requires |c| >= 1
    ensures |c| <= |d| <= |c| + 1
  {
    if c[0] >= 0x80 then [0] + c else c
  }

  function EncodedUnsigned(w: nat, asnTag: byte): (s: seq<byte>)
    requires |UnsignedContent(w, asnTag)| < WORD64
  {
    Tlv(asnTag, UnsignedContent(w, asnTag))
  }

  lemma {:induction false} BigEndianAt(w: nat, n: nat, i: nat)
    requires i < n
    ensures BigEndian(w, n)[i] == ShrBytes(w, n - 1 - i) % 256
  {
    if i < n - 1 {
      BigEndianAt(w / 256, n - 1, i);
      ShrBytesFirst(w, n - 2 - i);
    }
  }

  /** The first byte is zero exactly when the others suffice. */
  lemma {:induction false} FirstByteZero(w: nat, n: nat)
    requires n >= 1 && w < Pow2(8 * n)
    ensures BigEndian(w, n)[0] == 0 <==> w < Pow2(8 * (n - 1))
  {
    EightBits(8 * (n - 1));
    if n == 1 {
      assert Pow2(0) == 1;
      assert BigEndian(w, 1) == BigEndian(w / 256, 0) + [w % 256];
    } else {
      EightBits(8 * (n - 2));
      FirstByteZero(w / 256, n - 1);
    }
  }

  lemma {:induction false} OctetsAre(w: nat, n: nat)
    requires n >= 1 && w < Pow2(8 * n) && (n == 1 || w >= Pow2(8 * (n - 1)))
    ensures Octets(w) == n
  {
    PrecisionLeast(w, n);
    if BytePrecision(w) < n {
      Pow2Monotone(8 * BytePrecision(w), 8 * (n - 1));
    }
  }

  lemma {:induction false} OctetsFit(w: nat, size: nat)
    requires w < Pow2(8 * size) && size >= 1
    ensures Octets(w) <= size
  {
    PrecisionLeast(w, size);
  }

  /** The buffer is filled with all bytes of the type and trimmed from the left. */
  method TrimmedBuffer(w: nat, size: nat, asnTag: byte) returns (content: seq<byte>)
    requires 1 <= size <= 8 && w < Pow2(8 * size)
    ensures content == UnsignedContent(w, asnTag)
  {
    var buf := new byte[size + 1](_ => 0);
    var bc: nat := 1;
    if asnTag == BOOLEAN {
      buf[size] := if w != 0 then 0xff else 0;
      assert buf[size..] == UnsignedContent(w, asnTag);
    } else {
      var i := 0;
      while i < size
        invariant 0 <= i <= size && buf[0] == 0 && buf[1..i + 1] == BigEndian(w, size)[..i]
        modifies buf
      {
        BigEndianAt(w, size, i);
        buf[i + 1] := ShrBytes(w, size - 1 - i) % 256;
        i := i + 1;
      }
      assert buf[1..] == buf[1..i + 1] && BigEndian(w, size)[..i] == BigEndian(w, size);
      bc := size;
      while bc > 1 && buf[size + 1 - bc] == 0
        invariant 1 <= bc <= size && w < Pow2(8 * bc) && buf[size + 1 - bc..] == BigEndian(w, bc) && buf[size - bc] == 0
      {
        FirstByteZero(w, bc);
        BigEndianLow(w, bc, bc - 1);
        assert buf[size + 2 - bc..] == buf[size + 1 - bc..][1..];
        bc := bc - 1;
      }
      FirstByteZero(w, bc);
      OctetsAre(w, bc);
      if buf[size + 1 - bc] >= 0x80 {
        assert buf[size - bc..] == [0] + buf[size + 1 - bc..];
        bc := bc + 1;
      }
      assert buf[size + 1 - bc..] == UnsignedContent(w, asnTag);
    }
    content := buf[size + 1 - bc..];
  }

  method DEREncodeUnsigned(out: ByteQueue, w: nat, size: nat, asnTag: byte) returns (written: nat)
    requires 1 <= size <= 8 && w < Pow2(8 * size)
    modifies out
    ensures |UnsignedContent(w, asnTag)| <= 9
    ensures out.bytes == old(out.bytes) + EncodedUnsigned(w, asnTag) && written == |EncodedUnsigned(w, asnTag)|
  {
    OctetsFit(w, size);
    var content := TrimmedBuffer(w, size, asnTag);
    var lengthBytes := PutTlv(out, asnTag, content);
    written := 1 + lengthBytes + |content|;
  }

  /** The octets' value, if it fits the type and the bounds. `stale` stands for what the length
      variable holds when an indefinite length leaves it unset. */
  function DecodedUnsigned(s: seq<byte>, size: nat, asnTag: byte, minValue: nat, maxValue: nat, stale: nat)
    : (r: Decoding<(nat, seq<byte>)>)
  {
    if |s| == 0 || s[0] != asnTag || DecodedLength(s[1..]).Truncated? || DecodedLength(s[1..]).Overflow?
    then Err(BERDecodeErr)
    else
      var n := if DecodedLength(s[1..]).Definite? then DecodedLength(s[1..]).length else stale;
      var rest := AfterLength(s[1..]);
      if |rest| < n then Err(BERDecodeErr)
      else
        var v := Value(rest[..n]);
        if v < Pow2(8 * size) && minValue <= v <= maxValue then Ok((v, rest[n..])) else Err(BERDecodeErr)
  }

  lemma {:induction false} LeadingZero(s: seq<byte>)
    requires |s| >= 1 && s[0] == 0
    ensures Value(s) == Value(s[1..])
  {
    if |s| > 1 {
      LeadingZero(s[..|s| - 1]);
      assert s[..|s| - 1][1..] == s[1..][..|s| - 2];
    } else {
      assert s == [0];
    }
  }

  lemma {:induction false} LeadingNonzero(s: seq<byte>)
    requires |s| >= 1 && s[0] != 0
    ensures Value(s) >= Pow2(8 * (|s| - 1))
  {
    if |s| > 1 {
      LeadingNonzero(s[..|s| - 1]);
      EightBits(8 * (|s| - 2));
    } else {
      assert Pow2(0) == 1;
    }
  }

  /** Leading zeros are dropped down to the size of the type, then the bytes are read. */
  method ReadUnsigned(buf: seq<byte>, size: nat) returns (r: Decoding<nat>)
    ensures r == if Value(buf) < Pow2(8 * size) then Ok(Value(buf)) else Err(BERDecodeErr)
  {
    var bc: nat, ptr: nat := |buf|, 0;
    while bc > size && buf[ptr] == 0
      invariant ptr <= |buf| && bc == |buf| - ptr && Value(buf[ptr..]) == Value(buf)
    {
      LeadingZero(buf[ptr..]);
      assert buf[ptr..][1..] == buf[ptr + 1..];
      bc := bc - 1;
      ptr := ptr + 1;
    }
    ghost var left := buf[ptr..];
    if bc > size {
      LeadingNonzero(left);
      Pow2Monotone(8 * size, 8 * (bc - 1));
      return Err(BERDecodeErr);
    }
    Pow2Monotone(8 * bc, 8 * size);
    var w: nat, i := 0, 0;
    while i < bc
      invariant 0 <= i <= bc && w == Value(left[..i])
    {
      assert left[..i + 1][..i] == left[..i];
      w := w * 256 + buf[ptr + i];
      i := i + 1;
    }
    assert left[..i] == left;
    r := Ok(w);
  }

  method BERDecodeUnsigned(input: ByteQueue, size: nat, asnTag: byte, minValue: nat, maxValue: nat, stale: nat)
    returns (r: Decoding<nat>)
    requires 1 <= size <= 8
    modifies input
    ensures var d := DecodedUnsigned(old(input.bytes), size, asnTag, minValue, maxValue, stale);
            if d.Ok? then r == Ok(d.value.0) && input.bytes == d.value.1 else r == Err(BERDecodeErr)
  {
    var ok, b := input.Get();
    if !ok || b != asnTag { return Err(BERDecodeErr); }
    var l := BERLengthDecode(input);
    if l.Truncated? || l.Overflow? { return Err(BERDecodeErr); }
    var bc := if l.Definite? then l.length else stale;
    if |input.bytes| < bc { return Err(BERDecodeErr); }
    var buf := input.bytes[..bc];
    input.bytes := input.bytes[bc..];
    var w := ReadUnsigned(buf, size);
    if w.Err? || w.value < minValue || w.value > maxValue { return Err(BERDecodeErr); }
    r := w;
  }

  lemma {:induction false} ContentValue(w: nat, asnTag: byte)
    requires asnTag != BOOLEAN
    ensures Value(UnsignedContent(w, asnTag)) == w
  {
    var n := Octets(w);
    var c := BigEndian(w, n);
    assert w < Pow2(8 * n) by {
      Pow2Monotone(0, 8 * n);
    }
    BigEndianValue(w, n);
    if c[0] >= 0x80 {
      LeadingZero([0] + c);
      assert ([0] + c)[1..] == c;
    }
  }

  lemma {:induction false} BooleanValue(w: nat)
    ensures Value(UnsignedContent(w, BOOLEAN)) == if w != 0 then 255 else 0
  {
    assert UnsignedContent(w, BOOLEAN)[..0] == [];
  }

  /** Every integer of the type and within the bounds decodes to itself, whatever follows, except
      as a BOOLEAN, where only 0 and 255 do. */
  lemma {:induction false} UnsignedRoundTrip(w: nat, size: nat, asnTag: byte, minValue: nat, maxValue: nat,
                                             stale: nat, rest: seq<byte>)
    requires 1 <= size <= 8 && w < Pow2(8 * size) && minValue <= w <= maxValue
    ensures |UnsignedContent(w, asnTag)| <= 9
    ensures var d := DecodedUnsigned(EncodedUnsigned(w, asnTag) + rest, size, asnTag, minValue, maxValue, stale);
            d == Ok((w, rest)) <==> asnTag != BOOLEAN || w == 0 || w == 255
  {
    OctetsFit(w, size);
    var content := UnsignedContent(w, asnTag);
    if asnTag == BOOLEAN { BooleanValue(w); } else { ContentValue(w, asnTag); }
    TlvFront(asnTag, content, rest);
    Regroup([], content, rest);
  }

  // ----- the unset length

  /** The value fits the type and lies within the bounds. */
  predicate InRange(v: nat, size: nat, minValue: nat, maxValue: nat) {
    v < Pow2(8 * size) && minValue <= v <= maxValue
  }

  /** The tag is right, and the length is of the indefinite form. */
  predicate OpenLength(s: seq<byte>, asnTag: byte) {
    |s| > 0 && s[0] == asnTag && DecodedLength(s[1..]).Indefinite?
  }

  /** With any other tag or length what the variable holds makes no difference. */
  lemma {:induction false} StaleUnused(s: seq<byte>, size: nat, asnTag: byte, minValue: nat, maxValue: nat, a: nat,
                                       b: nat)
    requires !OpenLength(s, asnTag)
    ensures DecodedUnsigned(s, size, asnTag, minValue, maxValue, a) ==
            DecodedUnsigned(s, size, asnTag, minValue, maxValue, b)
  {
  }

  /** With an indefinite length it makes none exactly where no number of the octets that follow
      would be accepted; then nothing is. */
  lemma {:induction false} StaleMatters(s: seq<byte>, size: nat, asnTag: byte, minValue: nat, maxValue: nat)
    requires OpenLength(s, asnTag)
    ensures (forall a: nat, b: nat ::
               DecodedUnsigned(s, size, asnTag, minValue, maxValue, a) ==
               DecodedUnsigned(s, size, asnTag, minValue, maxValue, b)) <==>
            (forall n: nat :: n <= |AfterLength(s[1..])| ==>
               !InRange(Value(AfterLength(s[1..])[..n]), size, minValue, maxValue))
  {
    var rest := AfterLength(s[1..]);
    forall n: nat | n <= |rest| && InRange(Value(rest[..n]), size, minValue, maxValue)
      ensures DecodedUnsigned(s, size, asnTag, minValue, maxValue, n) !=
              DecodedUnsigned(s, size, asnTag, minValue, maxValue, |rest| + 1)
    {
      assert DecodedUnsigned(s, size, asnTag, minValue, maxValue, |rest| + 1).Err?;
    }
  }

  /** So one string of octets is 0, is 5 and is an error. */
  lemma {:induction false} StaleLength()
    ensures DecodedUnsigned([2, 0x80, 5], 4, 2, 0, 0xffff_ffff, 0) == Ok((0, [5]))
    ensures DecodedUnsigned([2, 0x80, 5], 4, 2, 0, 0xffff_ffff, 1) == Ok((5, []))
    ensures DecodedUnsigned([2, 0x80, 5], 4, 2, 0, 0xffff_ffff, 2) == Err(BERDecodeErr)
  {
    var rest: seq<byte> := [5];
    OpenUnsigned(2, rest, 4, 0, 0xffff_ffff, 0);
    OpenUnsigned(2, rest, 4, 0, 0xffff_ffff, 1);
    OpenUnsigned(2, rest, 4, 0, 0xffff_ffff, 2);
    assert [2, 0x80] + rest == [2, 0x80, 5];
    assert rest[..0] == [] && rest[..1] == rest && rest[1..] == [];
    ValuePair([], 5);
    assert [] + rest == rest;
    Pow2Monotone(3, 8 * 4);
  }

  lemma {:induction false} OpenUnsigned(asnTag: byte, rest: seq<byte>, size: nat, minValue: nat, maxValue: nat,
                                        n: nat)
    ensures var d := DecodedUnsigned([asnTag, 0x80] + rest, size, asnTag, minValue, maxValue, n);
            if n <= |rest| && InRange(Value(rest[..n]), size, minValue, maxValue)
            then d == Ok((Value(rest[..n]), rest[n..])) else d == Err(BERDecodeErr)
  {
    assert ([asnTag, 0x80] + rest)[1..] == [0x80] + rest;
    assert ([0x80] + rest)[1..] == rest;
  }

  /** Section 8.3.2 of ITU-T X.690: the first nine bits are not all equal, and the sign bit of an
      unsigned value is clear. */
  lemma {:induction false} UnsignedMinimal(w: nat, asnTag: byte)
    requires asnTag != BOOLEAN
    ensures var c := UnsignedContent(w, asnTag);
            c[0] < 0x80 && (|c| > 1 ==> !(c[0] == 0 && c[1] < 0x80))
  {
    var n := Octets(w);
    if w == 0 {
      assert BigEndian(0, 1) == BigEndian(0, 0) + [0];
    } else {
      FirstByteZero(w, n);
    }
  }
}
