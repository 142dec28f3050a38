/** Length octets (asn.cpp, `DERLengthEncode` and `BERLengthDecode`), and the byte queue they
    are put into and taken from. */
module DerLengths {
  import opened Bits
  import opened Bytes

  class ByteQueue {
    var bytes: seq<byte>

    constructor ()
      ensures bytes == []
    {
      bytes := [];
    }

    method Put(b: byte)
      modifies this
      ensures bytes == old(bytes) + [b]
    {
      bytes := bytes + [b];
    }

    method PutString(s: seq<byte>)
      modifies this
      ensures bytes == old(bytes) + s
    {
      bytes := bytes + s;
    }

    method Get() returns (ok: bool, b: byte)
      modifies this
      ensures ok <==> old(bytes) != []
      ensures if ok then b == old(bytes)[0] && bytes == old(bytes)[1..] else bytes == old(bytes)
    {
      ok, b := |bytes| > 0, 0;
      if ok {
        b := bytes[0];
        bytes := bytes[1..];
      }
    }
  }

  // ----- encoding

  /** The number of bytes of n. */
  function BytePrecision(n: nat): (p: nat)
    ensures n < Pow2(8 * p)
    ensures p > 0 ==> Pow2(8 * (p - 1)) <= n
  {
    if n == 0 then 0
    else
      var p := BytePrecision(n / 256);
      EightBits(8 * p);
      if p > 0 then
        EightBits(8 * (p - 1));
        p + 1
      else 1
  }

  lemma {:induction false} PrecisionLeast(n: nat, k: nat)
    requires n < Pow2(8 * k)
    ensures BytePrecision(n) <= k
  {
    if BytePrecision(n) > k {
      Pow2Monotone(8 * k, 8 * (BytePrecision(n) - 1));
    }
  }

  lemma {:induction false} Word64Bytes()
    ensures Pow2(8 * 8) == WORD64
  {
    assert Pow2(0) == 1;
    EightBits(0);
    EightBits(8);
    EightBits(16);
    EightBits(24);
    EightBits(32);
    EightBits(40);
    EightBits(48);
    EightBits(56);
  }

  /** Sections 8.1.3.4 and 8.1.3.5 of ITU-T X.690. */
  function LengthOctets(n: nat): (s: seq<byte>)
    requires n < WORD64
    ensures 1 <= |s| <= 9
  {
    if n <= 0x7f then [n]
    else
      Word64Bytes();
      PrecisionLeast(n, 8);
      [0x80 + BytePrecision(n)] + BigEndian(n, BytePrecision(n))
  }

  /** n >> 8·j */
  function ShrBytes(n: nat, j: nat): nat {
    if j == 0 then n else ShrBytes(n, j - 1) / 256
  }

  lemma {:induction false} ShrAllBytes(n: nat, j: nat)
    requires n < Pow2(8 * j)
    ensures ShrBytes(n, j) == 0
  {
    if j == 0 {
      assert Pow2(0) == 1;
    } else {
      EightBits(8 * (j - 1));
      ShrAllBytes(n / 256, j - 1);
      ShrBytesFirst(n, j - 1);
    }
  }

  lemma {:induction false} ShrBytesFirst(n: nat, j: nat)
    ensures ShrBytes(n, j) / 256 == ShrBytes(n / 256, j)
  {
    if j != 0 { ShrBytesFirst(n, j - 1); }
  }

  method DERLengthEncode(bt: ByteQueue, length: nat) returns (i: nat)
    requires length < WORD64
    modifies bt
    ensures bt.bytes == old(bt.bytes) + LengthOctets(length) && i == |LengthOctets(length)|
  {
    i := 0;
    if length <= 0x7f {
      bt.Put(length);
      i := i + 1;
    } else {
      Word64Bytes();
      PrecisionLeast(length, 8);
      var p := BytePrecision(length);
      bt.Put(p + 0x80);
      i := i + 1;
      var j := p;
      ShrAllBytes(length, p);
      while j > 0
        invariant j <= p && i == 1 + (p - j)
        invariant bt.bytes == old(bt.bytes) + [0x80 + p] + BigEndian(ShrBytes(length, j), p - j)
      {
        bt.Put(ShrBytes(length, j - 1) % 256);
        i := i + 1;
        j := j - 1;
      }
    }
  }

  // ----- decoding

  const WORD56: nat := 0x100_0000_0000_0000

  datatype Length = Definite(length: nat) | Indefinite | Truncated | Overflow

  /** What the octets at the front mean: the value of as many octets as the first one says, in
      64 bits. Leading zero octets are allowed. */
  function DecodedLength(s: seq<byte>): (r: Length)
  {
    if |s| == 0 then Truncated
    else if s[0] < 0x80 then Definite(s[0])
    else if s[0] == 0x80 then Indefinite
    else
      var n := (s[0] as int) - 0x80;
      if |s| > n then if Value(s[1..n + 1]) < WORD64 then Definite(Value(s[1..n + 1])) else Overflow
      else if Value(s[1..]) < WORD56 then Truncated else Overflow
  }

  /** What is left after the length. */
  function AfterLength(s: seq<byte>): (rest: seq<byte>)
    requires DecodedLength(s).Definite? || DecodedLength(s).Indefinite?
    ensures |rest| < |s|
  {
    if s[0] <= 0x80 then s[1..] else s[(s[0] as int) - 0x80 + 1..]
  }

  /** A longer string of octets has at least the value. */
  lemma {:induction false} ValueGrows(s: seq<byte>, i: nat)
    requires i <= |s|
    ensures Value(s[..i]) <= Value(s)
  {
    if i < |s| {
      assert s[..|s| - 1][..i] == s[..i];
      ValueGrows(s[..|s| - 1], i);
    } else {
      assert s[..i] == s;
    }
  }

  method BERLengthDecode(bt: ByteQueue) returns (r: Length)
    modifies bt
    ensures r == DecodedLength(old(bt.bytes))
    ensures r.Definite? || r.Indefinite? ==> bt.bytes == AfterLength(old(bt.bytes))
    ensures |bt.bytes| <= |old(bt.bytes)|
  {
    var ok, b := bt.Get();
    if !ok { return Truncated; }
    if b < 0x80 { return Definite(b); }
    var lengthBytes: nat := (b as int) - 0x80;
    if lengthBytes == 0 { return Indefinite; }
    var length, i := 0, 0;
    ghost var s := bt.bytes;
    assert old(bt.bytes)[1..] == s && (|s| >= lengthBytes ==> old(bt.bytes)[1..lengthBytes + 1] == s[..lengthBytes]);
    while i < lengthBytes
      invariant 0 <= i <= lengthBytes && i <= |s| && bt.bytes == s[i..]
      invariant length == Value(s[..i]) < WORD64
    {
      if length >= WORD56 {
        if |s| >= lengthBytes {
          assert s[..lengthBytes][..i] == s[..i];
          Overflows(s[..lengthBytes], i);
        } else {
          ValueGrows(s, i);
        }
        return Overflow;
      }
      ok, b := bt.Get();
      if !ok {
        assert s[..i] == s;
        return Truncated;
      }
      assert s[..i + 1][..i] == s[..i];
      length := length * 256 + b;
      i := i + 1;
    }
    r := Definite(length);
  }

  /** A value too large after i octets is too large after all of them. */
  lemma {:induction false} Overflows(s: seq<byte>, i: nat)
    requires i < |s| && Value(s[..i]) >= WORD56
    ensures Value(s) >= WORD64
  {
    var init, last := s[..|s| - 1], s[|s| - 1];
    assert init[..i] == s[..i];
    ValueGrows(init, i);
    assert Value(s) == 256 * Value(init) + last;
  }

  /** These octets, and no fewer, say n. */
  ghost predicate Says(length: seq<byte>, n: nat) {
    DecodedLength(length) == Definite(n) && AfterLength(length) == []
  }

  lemma {:induction false} SaysInFront(length: seq<byte>, n: nat, rest: seq<byte>)
    requires Says(length, n)
    ensures DecodedLength(length + rest) == Definite(n) && AfterLength(length + rest) == rest
  {
    if length[0] >= 0x80 {
      var k := (length[0] as int) - 0x80;
      assert (length + rest)[1..k + 1] == length[1..k + 1];
    }
  }

  /** The length octets at the front. */
  lemma {:induction false} LengthInFront(s: seq<byte>) returns (length: seq<byte>)
    requires DecodedLength(s).Definite?
    ensures Says(length, DecodedLength(s).length) && s == length + AfterLength(s)
  {
    var k: nat := if s[0] < 0x80 then 1 else (s[0] as int) - 0x80 + 1;
    length := s[..k];
    if s[0] >= 0x80 { assert length[1..k] == s[1..k]; }
  }

  /** Tag, length octets, contents and what follows. */
  lemma {:induction false} DefiniteFront(s: seq<byte>)
    returns (length: seq<byte>, content: seq<byte>, rest: seq<byte>)
    requires |s| > 0 && DecodedLength(s[1..]).Definite? && DecodedLength(s[1..]).length <= |AfterLength(s[1..])|
    ensures Says(length, |content|) && |content| == DecodedLength(s[1..]).length
    ensures content == AfterLength(s[1..])[..|content|] && rest == AfterLength(s[1..])[|content|..]
    ensures s == [s[0]] + length + content + rest
  {
    var after, n := AfterLength(s[1..]), DecodedLength(s[1..]).length;
    length := LengthInFront(s[1..]);
    content, rest := after[..n], after[n..];
    FourParts(s, s[1..], length, after, content, rest);
  }

  lemma {:induction false} FourParts(s: seq<byte>, t: seq<byte>, length: seq<byte>, after: seq<byte>,
                                     content: seq<byte>, rest: seq<byte>)
    requires |s| > 0 && t == s[1..] == length + after && after == content + rest
    ensures s == [s[0]] + length + content + rest
  {
    assert s == [s[0]] + t;
  }

  // ----- main results

  /** Every 64-bit length decodes to itself, whatever follows. */
  lemma {:induction false} LengthRoundTrip(n: nat, rest: seq<byte>)
    requires n < WORD64
    ensures DecodedLength(LengthOctets(n) + rest) == Definite(n)
    ensures AfterLength(LengthOctets(n) + rest) == rest
  {
    if n > 0x7f {
      var p := BytePrecision(n);
      Word64Bytes();
      PrecisionLeast(n, 8);
      BigEndianValue(n, p);
      assert (LengthOctets(n) + rest)[1..p + 1] == BigEndian(n, p);
    }
  }

  /** The long form, minimal or not: read if the value has 64 bits, and refused otherwise. */
  lemma {:induction false} LongLength(octets: seq<byte>, rest: seq<byte>)
    requires 1 <= |octets| < 0x80
    ensures var s := [0x80 + |octets|] + octets + rest;
            if Value(octets) < WORD64 then DecodedLength(s) == Definite(Value(octets)) && AfterLength(s) == rest
            else DecodedLength(s).Overflow?
  {
    var s := [0x80 + |octets|] + octets + rest;
    assert s[1..|octets| + 1] == octets;
  }

  /** Length octets that are cut off say nothing. */
  lemma {:induction false} CutOffLength(length: seq<byte>, n: nat, k: nat)
    requires Says(length, n) && k < |length|
    ensures DecodedLength(length[..k]).Truncated? || DecodedLength(length[..k]).Overflow?
  {
    if length[0] >= 0x80 && k > 0 {
      assert length[..k][0] == length[0];
    }
  }

  /** Section 10.1: no octets that decode to n are fewer, and no others are as few. */
  lemma {:induction false} LengthIsShortest(s: seq<byte>, n: nat)
    requires DecodedLength(s) == Definite(n)
    ensures n < WORD64 && |LengthOctets(n)| <= |s| - |AfterLength(s)|
    ensures |LengthOctets(n)| == |s| - |AfterLength(s)| <==> LengthOctets(n) <= s
  {
    if s[0] >= 0x80 {
      var k := (s[0] as int) - 0x80;
      PrecisionLeast(n, k);
      if n <= 0x7f {
        assert LengthOctets(n)[0] == n;
      } else if BytePrecision(n) == k {
        LongForm(s, n, k);
      }
    }
  }

  lemma {:induction false} LongForm(s: seq<byte>, n: nat, k: nat)
    requires 0x7f < n < WORD64 && |s| > k == BytePrecision(n) && s[0] == 0x80 + k && Value(s[1..k + 1]) == n
    ensures LengthOctets(n) == s[..k + 1]
  {
    ValueBytes(s[1..k + 1]);
    assert s[..k + 1] == [s[0]] + s[1..k + 1];
  }

  // ----- whole objects

  /** Tag, length, contents. */
  function Tlv(asnTag: byte, content: seq<byte>): (s: seq<byte>)
    requires |content| < WORD64
  {
    [asnTag] + LengthOctets(|content|) + content
  }

  method PutTlv(bt: ByteQueue, asnTag: byte, content: seq<byte>) returns (lengthBytes: nat)
    requires |content| < WORD64
    modifies bt
    ensures bt.bytes == old(bt.bytes) + Tlv(asnTag, content) && lengthBytes == |LengthOctets(|content|)|
  {
    ghost var before, octets := bt.bytes, LengthOctets(|content|);
    bt.Put(asnTag);
    lengthBytes := DERLengthEncode(bt, |content|);
    bt.PutString(content);
    assert before + [asnTag] + octets + content == before + ([asnTag] + octets + content);
  }

  /** Reading tag and length leaves the contents in front of what follows. */
  lemma {:induction false} TlvFront(asnTag: byte, content: seq<byte>, rest: seq<byte>)
    requires |content| < WORD64
    ensures var s := Tlv(asnTag, content) + rest;
            s[0] == asnTag && DecodedLength(s[1..]) == Definite(|content|) && AfterLength(s[1..]) == content + rest
  {
    var octets := LengthOctets(|content|);
    BehindFirst(asnTag, octets, content, rest);
    LengthRoundTrip(|content|, content + rest);
  }

  lemma {:induction false} BehindFirst(first: byte, a: seq<byte>, b: seq<byte>, c: seq<byte>)
    ensures var s := [first] + a + b + c;
            s[0] == first && s[1..] == a + (b + c)
  {
  }

  lemma {:induction false} Regroup(a: seq<byte>, b: seq<byte>, c: seq<byte>)
    ensures a + b + c == a + (b + c) && (b + c)[..|b|] == b && (b + c)[|b|..] == c
  {
  }
}
