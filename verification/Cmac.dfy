/** CMAC (cmac.cpp) over an arbitrary block cipher. */
module Cmac {
  import opened Bits
  import opened Bytes
  import opened Gf2Polynomials
  import opened BlockChain
  import opened Wrappers

  datatype Error = UnsupportedBlockSize | InvalidTruncatedSize

  // ----- subkeys

  /** The constant added for a carry, as the last bytes of a block of this length. */
  function Reduction(length: nat): (r: nat)
    ensures r < 0x10000
  {
    if length == 8 then 0x1b else if length == 16 then 0x87 else 0x0423
  }

  predicate Supported(length: nat) {
    length == 8 || length == 16 || length == 32
  }

  /** `b >> 7` */
  function TopBit(b: byte): nat {
    if b >= 128 then 1 else 0
  }

  /** `b += b + carry`, which drops the top bit. */
  function ShiftedByte(b: byte, carry: nat): (s: byte)
    requires carry < 2
    ensures s == 2 * (b as int) + carry - 256 * TopBit(b)
  {
    var sum := (b as int) + (b as int) + carry;
    if sum >= 256 then sum - 256 else sum
  }

  /** A big-endian buffer shifted left by one bit, with a carry coming in from the right. */
  function Carried(k: seq<byte>, carry: nat): (d: seq<byte>)
    requires carry < 2
    ensures |d| == |k|
  {
    if |k| == 0 then []
    else
      var n := |k| - 1;
      Carried(k[..n], TopBit(k[n])) + [ShiftedByte(k[n], carry)]
  }

  /** The bytes the loop comes to: an odd length leaves the first one out. */
  function Skipped(length: nat): nat {
    length % 2
  }

  function Doubled(k: seq<byte>): (d: seq<byte>)
    ensures |d| == |k|
  {
    k[..Skipped(|k|)] + Carried(k[Skipped(|k|)..], 0)
  }

  /** The bit that falls off. */
  function Lost(k: seq<byte>): (carry: nat)
    ensures carry < 2 && (carry == 1 ==> |k| >= 2)
  {
    if |k| < 2 then 0 else TopBit(k[Skipped(|k|)])
  }

  lemma {:induction false} EvenDoubled(k: seq<byte>)
    requires |k| % 2 == 0
    ensures Doubled(k) == Carried(k, 0)
    ensures |k| > 0 ==> Lost(k) == TopBit(k[0])
  {
    assert k[0..] == k;
  }

  /** The state of the loop after the bytes from i on: `tail` is what they have become. */
  ghost predicate Shifting(k: seq<byte>, d: seq<byte>, i: nat, carry: nat, tail: seq<byte>) {
    && i <= |k| && i % 2 == |k| % 2 && carry < 2
    && d == k[..i] + tail
    && (i >= Skipped(|k|) ==> Doubled(k) == k[..Skipped(|k|)] + Carried(k[Skipped(|k|)..i], carry) + tail)
    && carry == if i < |k| then TopBit(k[i]) else 0
  }

  lemma {:induction false} ShiftStart(k: seq<byte>)
    ensures Shifting(k, k, |k|, 0, [])
  {
    assert k[..|k|] == k && k + [] == k;
    assert k[Skipped(|k|)..|k|] == k[Skipped(|k|)..];
    assert Doubled(k) + [] == Doubled(k);
  }

  lemma {:induction false} ShiftTwo(k: seq<byte>, d: seq<byte>, i: nat, carry: nat, tail: seq<byte>)
    requires i >= 2 && Shifting(k, d, i, carry, tail)
    ensures |d| == |k| && d[i - 1] == k[i - 1] && d[i - 2] == k[i - 2]
    ensures var low, high := ShiftedByte(k[i - 1], carry), ShiftedByte(k[i - 2], TopBit(k[i - 1]));
            Shifting(k, d[i - 1 := low][i - 2 := high], i - 2, TopBit(k[i - 2]), [high, low] + tail)
  {
    var low, high := ShiftedByte(k[i - 1], carry), ShiftedByte(k[i - 2], TopBit(k[i - 1]));
    var f := Skipped(|k|);
    TwoReplaced(k[..i], tail, high, low);
    assert k[..i][..i - 2] == k[..i - 2];
    TwoBytes(k[f..i], carry);
    assert k[f..i][..i - f - 2] == k[f..i - 2];
    assert k[f..i][i - f - 1] == k[i - 1] && k[f..i][i - f - 2] == k[i - 2];
    TwoJoined(k[..f], Carried(k[f..i - 2], TopBit(k[i - 2])), [high, low], tail);
  }

  lemma {:induction false} TwoReplaced(a: seq<byte>, tail: seq<byte>, high: byte, low: byte)
    requires |a| >= 2
    ensures (a + tail)[|a| - 1] == a[|a| - 1] && (a + tail)[|a| - 2] == a[|a| - 2]
    ensures (a + tail)[|a| - 1 := low][|a| - 2 := high] == a[..|a| - 2] + ([high, low] + tail)
  {
  }

  lemma {:induction false} TwoJoined(a: seq<byte>, b: seq<byte>, two: seq<byte>, tail: seq<byte>)
    ensures a + (b + two) + tail == a + b + (two + tail)
  {
  }

  /** The carry loop, two bytes at a time from the end. */
  method ShiftLeft(k: seq<byte>) returns (d: seq<byte>, carry: nat)
    ensures d == Doubled(k) && carry == Lost(k)
  {
    d, carry := k, 0;
    var i := |k| - 1;
    ghost var tail: seq<byte> := [];
    ShiftStart(k);
    while i >= 1
      invariant -1 <= i < |k| && Shifting(k, d, i + 1, carry, tail)
    {
      ShiftTwo(k, d, i + 1, carry, tail);
      tail := [ShiftedByte(d[i - 1], TopBit(d[i])), ShiftedByte(d[i], carry)] + tail;
      var carry2 := TopBit(d[i]);
      d := d[i := ShiftedByte(d[i], carry)];
      carry := TopBit(d[i - 1]);
      d := d[i - 1 := ShiftedByte(d[i - 1], carry2)];
      i := i - 2;
    }
    ShiftDone(k, d, i + 1, carry, tail);
  }

  lemma {:induction false} ShiftDone(k: seq<byte>, d: seq<byte>, i: nat, carry: nat, tail: seq<byte>)
    requires Shifting(k, d, i, carry, tail) && i < 2
    ensures d == Doubled(k) && carry == Lost(k)
  {
    assert i == Skipped(|k|);
    assert k[i..i] == [] && k[..i] + [] == k[..i];
  }

  lemma {:induction false} TwoBytes(k: seq<byte>, carry: nat)
    requires |k| >= 2 && carry < 2
    ensures var n := |k| - 1;
            Carried(k, carry) == Carried(k[..n - 1], TopBit(k[n - 1])) +
              [ShiftedByte(k[n - 1], TopBit(k[n])), ShiftedByte(k[n], carry)]
  {
    var n := |k| - 1;
    assert k[..n][..n - 1] == k[..n - 1];
  }

  /** One byte's share of the shift, in numbers. */
  lemma {:induction false} ShiftStep(high: int, last: byte, carry: nat, lost: int)
    requires carry < 2
    ensures 256 * (2 * high + TopBit(last) - lost) + ShiftedByte(last, carry) ==
            2 * (256 * high + last) + carry - 256 * lost
  {
  }

  /** In numbers: twice the value plus the carry, without the bit that falls off. */
  lemma {:induction false} CarriedValue(k: seq<byte>, carry: nat)
    requires |k| >= 1 && carry < 2
    ensures Value(Carried(k, carry)) == 2 * Value(k) + carry - (if k[0] >= 128 then Pow2(8 * |k|) else 0)
  {
    var n := |k| - 1;
    var last, init := k[n], k[..n];
    EightBits(8 * n);
    ValuePair(Carried(init, TopBit(last)), ShiftedByte(last, carry));
    ValuePair(init, last);
    assert k == init + [last];
    if n == 0 {
      assert Pow2(0) == 1;
    } else {
      CarriedValue(init, TopBit(last));
      ShiftStep(Value(init), last, carry, if k[0] >= 128 then Pow2(8 * n) else 0);
    }
  }

  lemma {:induction false} DoubledValue(k: seq<byte>, n: nat)
    requires |k| >= 2 && |k| % 2 == 0 && n == 8 * |k|
    ensures k[0] < 128 ==> Value(Doubled(k)) == 2 * Value(k)
    ensures k[0] >= 128 ==> Value(Doubled(k)) + Pow2(n) == 2 * Value(k)
    ensures Value(Doubled(k)) < Pow2(n)
  {
    EvenDoubled(k);
    CarriedValue(k, 0);
    ValueFits(Doubled(k), |k|);
  }

  /** `MulU`: a one-bit shift, reduced by the constant for the block size if a bit fell off. */
  method MulU(k: seq<byte>) returns (r: Result<seq<byte>, Error>)
    ensures r == if Lost(k) == 1 && !Supported(|k|) then Err(UnsupportedBlockSize) else Ok(Subkey(k))
  {
    var d, carry := ShiftLeft(k);
    if carry != 0 {
      var n := |k|;
      match n {
        case 8 => d := d[7 := XorByte(d[7], 0x1b)];
        case 16 => d := d[15 := XorByte(d[15], 0x87)];
        case 32 =>
          d := d[30 := XorByte(d[30], 4)];
          d := d[31 := XorByte(d[31], 0x23)];
        case _ => return Err(UnsupportedBlockSize);
      }
      SubkeyCarry(k);
    }
    r := Ok(d);
  }

  /** What is xored in for a carry. */
  function ReductionBlock(length: nat): (b: seq<byte>)
    requires length >= 2
    ensures |b| == length
  {
    Zeros(length - 2) + [Reduction(length) / 256, Reduction(length) % 256]
  }

  function Subkey(k: seq<byte>): (s: seq<byte>)
    ensures |s| == |k|
  {
    if Lost(k) == 1 then XorInto(Doubled(k), 0, ReductionBlock(|k|)) else Doubled(k)
  }

  lemma {:induction false} SubkeyCarry(k: seq<byte>)
    requires Supported(|k|) && Lost(k) == 1
    ensures var n, d := |k|, Doubled(k);
            Subkey(k) == if n == 32 then d[30 := XorByte(d[30], 4)][31 := XorByte(d[31], 0x23)]
                         else d[n - 1 := XorByte(d[n - 1], Reduction(n))]
  {
    XorTail(Doubled(k), Reduction(|k|) / 256, Reduction(|k|) % 256);
  }

  lemma {:induction false} XorTail(d: seq<byte>, high: byte, low: byte)
    requires |d| >= 2
    ensures var n := |d|;
            XorInto(d, 0, Zeros(n - 2) + [high, low])
               == d[n - 2 := XorByte(d[n - 2], high)][n - 1 := XorByte(d[n - 1], low)]
    ensures high == 0 ==> XorByte(d[|d| - 2], high) == d[|d| - 2]
  {
    forall i | 0 <= i < |d| - 2 ensures XorByte(d[i], 0) == d[i] {
      XorZero(d[i]);
    }
    XorZero(d[|d| - 2]);
  }

  lemma {:induction false} XorOfBytes(a: nat, b: nat, x: byte, y: byte)
    ensures Xor(256 * a + x, 256 * b + y) == 256 * Xor(a, b) + Xor(x, y)
  {
    assert Pow2(8) == 256 by { EightBits(0); assert Pow2(0) == 1; }
    XorShlAdd(a, b, x, y, 8);
    ShiftByte(a);
    ShiftByte(b);
    ShiftByte(Xor(a, b));
  }

  lemma {:induction false} ValueXor(a: seq<byte>, b: seq<byte>)
    requires |a| == |b|
    ensures Value(XorInto(a, 0, b)) == Xor(Value(a), Value(b))
  {
    if |a| != 0 {
      var n := |a| - 1;
      ValueXor(a[..n], b[..n]);
      assert XorInto(a, 0, b)[..n] == XorInto(a[..n], 0, b[..n]);
      XorOfBytes(Value(a[..n]), Value(b[..n]), a[n], b[n]);
    }
  }

  lemma {:induction false} ZerosValue(n: nat)
    ensures Value(Zeros(n)) == 0
  {
    if n > 0 {
      ZerosValue(n - 1);
      assert Zeros(n)[..n - 1] == Zeros(n - 1);
    }
  }

  lemma {:induction false} ReductionValue(n: nat)
    requires n >= 2
    ensures Value(ReductionBlock(n)) == Reduction(n)
  {
    var high := [Reduction(n) / 256];
    ZerosValue(n - 2);
    ValuePair(Zeros(n - 2), Reduction(n) / 256);
    ValuePair(Zeros(n - 2) + high, Reduction(n) % 256);
    assert ReductionBlock(n) == Zeros(n - 2) + high + [Reduction(n) % 256];
  }

  /** A shift that loses the top bit, and adding R for it, is adding 2^n + R. */
  lemma {:induction false} LostBit(x: nat, low: nat, R: nat, n: nat, m: nat)
    requires low + Pow2(n) == x && m == Pow2(n) + R && low < Pow2(n) && R < Pow2(n)
    ensures Xor(low, R) == Xor(x, m)
  {
    LeadingTerm(R, n);
    LeadingTerm(low, n);
    XorSwap(Pow2(n), low, Pow2(n), R);
    XorSelf(Pow2(n));
    XorZero(Xor(low, R));
  }

  lemma {:induction false} CongruentPlusModulus(x: nat, m: nat)
    ensures Congruent(Xor(x, m), x, m)
  {
    XorComm(x, m);
    XorCancel(m, x);
    DividesSelf(m);
  }

  /** Subkeys are doublings: twice the value, modulo X^(8·length) plus the constant. */
  lemma {:induction false} SubkeyIsDouble(k: seq<byte>)
    requires |k| >= 2 && |k| % 2 == 0
    ensures Congruent(Value(Subkey(k)), 2 * Value(k), SubkeyModulus(|k|))
  {
    if k[0] >= 128 {
      SubkeyLostBit(k);
      SumCongruent(Value(Subkey(k)), 2 * Value(k), SubkeyModulus(|k|));
    } else {
      SubkeyPlain(k);
      CongruentRefl(2 * Value(k), SubkeyModulus(|k|));
    }
  }

  lemma {:induction false} SumCongruent(v: nat, x: nat, m: nat)
    requires v == Xor(x, m)
    ensures Congruent(v, x, m)
  {
    CongruentPlusModulus(x, m);
  }

  lemma {:induction false} SubkeyPlain(k: seq<byte>)
    requires |k| >= 2 && |k| % 2 == 0 && k[0] < 128
    ensures Value(Subkey(k)) == 2 * Value(k)
  {
    EvenDoubled(k);
    DoubledValue(k, 8 * |k|);
  }

  function SubkeyModulus(length: nat): nat {
    Pow2(8 * length) + Reduction(length)
  }

  /** X^(3·n + 1) is X modulo X² + X + 1. */
  lemma {:induction false} ThirdPowers(n: nat, e: nat)
    requires e == 3 * n + 1
    ensures Congruent(Pow2(e), 2, 7)
  {
    if n == 0 {
      assert Pow2(1) == 2;
      CongruentRefl(2, 7);
    } else {
      ThirdPowers(n - 1, e - 3);
      CongruentRefl(0, 7);
      CongruentShiftAdd(0, 0, Pow2(e - 3), 2, 3, 7);
      Pow2Add(e - 3, 3);
      XorZero(Pow2(e));
      XorZero(16);
      assert Shl(2, 3) == 16;
      FourthPower();
      CongruentTrans(Pow2(e), 16, 2, 7);
    }
  }

  lemma {:induction false} FourthPower()
    ensures Congruent(16, 2, 7)
  {
    assert Xor(1, 3) == 2 && Xor(1, 5) == 4;
    assert Xor(6, 12) == 10 && Xor(6, 20) == 18;
    assert Xor(16, 2) == 18;
    MultipleOfSeven(6, 12, 10, 20, 18);
  }

  lemma {:induction false} Five()
    ensures Congruent(5, 2, 7)
  {
    assert Xor(5, 2) == 7;
    DividesSelf(7);
  }

  lemma {:induction false} MultipleOfSeven(k: nat, twice: nat, sum: nat, shifted: nat, x: nat)
    requires twice == 2 * k && sum == Xor(k, twice) && shifted == 2 * sum && x == Xor(k, shifted)
    ensures Divides(7, x)
  {
    TimesOne(k);
    assert Times(k, 3) == Xor(k, 2 * Times(k, 1));
    assert x == Times(k, 7);
  }

  /** X^5 is X² modulo X² + X + 1. */
  lemma {:induction false} FifthPower()
    ensures Congruent(32, 4, 7)
  {
    ThirdPowers(1, 4);
    CongruentRefl(0, 7);
    CongruentShiftAdd(0, 0, Pow2(4), 2, 1, 7);
    assert Pow2(2) == 4 && Pow2(4) == 16 && Shl(16, 1) == 32 && Shl(2, 1) == 4;
    XorZero(32);
    XorZero(4);
  }

  /** The constant, X^10 + X^5 + X + 1, is X modulo X² + X + 1. */
  lemma {:induction false} ConstantIsX()
    ensures Congruent(0x423, 2, 7)
  {
    FifthPower();
    CongruentRefl(3, 7);
    SumOf(32, 4, 3, 3);
    ThirdPowers(3, 10);
    SumOf(Pow2(10), 2, Xor(32, 3), Xor(4, 3));
    ConstantTerms();
    Five();
    CongruentTrans(0x423, 5, 2, 7);
  }

  lemma {:induction false} ConstantTerms()
    ensures Xor(Pow2(10), Xor(32, 3)) == 0x423 && Xor(2, Xor(4, 3)) == 5
  {
    FiveAndTen();
    TermAbove(32, 5, 3);
    TermAbove(1024, 10, 35);
    assert Xor(4, 3) == 7 && Xor(2, 7) == 5;
  }

  lemma {:induction false} FiveAndTen()
    ensures Pow2(5) == 32 && Pow2(10) == 1024
  {
    assert Pow2(2) == 4;
    assert Pow2(5) == 8 * Pow2(2);
    assert Pow2(7) == 4 * Pow2(5);
    assert Pow2(10) == 8 * Pow2(7);
  }

  lemma {:induction false} TermAbove(p: nat, n: nat, x: nat)
    requires p == Pow2(n) && x < p
    ensures Xor(p, x) == p + x
  {
    LeadingTerm(x, n);
  }

  lemma {:induction false} SumOf(x: nat, y: nat, x': nat, y': nat)
    requires Congruent(x, y, 7) && Congruent(x', y', 7)
    ensures Congruent(Xor(x, x'), Xor(y, y'), 7)
  {
    CongruentShiftAdd(x, y, x', y', 0, 7);
  }

  /** The modulus for 32-byte blocks is divisible by X² + X + 1, so it makes no field. */
  lemma {:induction false} ModulusFactors()
    ensures Divides(7, SubkeyModulus(32))
  {
    ModulusFactor(85, 256, 32);
  }

  lemma {:induction false} ModulusFactor(n: nat, e: nat, length: nat)
    requires e == 3 * n + 1 == 8 * length && e >= 16 && Reduction(length) == 0x423
    ensures Divides(7, SubkeyModulus(length))
  {
    ThirdPowers(n, e);
    ConstantIsX();
    CongruentSymm(0x423, 2, 7);
    CongruentTrans(Pow2(e), 2, 0x423, 7);
    assert Pow2(16) == 0x10000 by {
      EightBits(0);
      EightBits(8);
    }
    Pow2Monotone(16, e);
    LeadingTerm(0x423, e);
  }

  /** A one in the top bit comes back as the constant. */
  lemma {:induction false} TopBitReturns(n: nat, constant: seq<byte>)
    requires Supported(n)
    requires constant == if n == 8 then [0, 0x1b] else if n == 16 then [0, 0x87] else [4, 0x23]
    ensures Subkey([0x80] + Zeros(n - 1)) == Zeros(n - 2) + constant
  {
    DoubledTop(n);
    assert ReductionBlock(n) == Zeros(n - 2) + constant;
    XorFromZeros(ReductionBlock(n));
  }

  lemma {:induction false} DoubledTop(n: nat)
    requires n >= 2 && n % 2 == 0
    ensures Lost([0x80] + Zeros(n - 1)) == 1 && Doubled([0x80] + Zeros(n - 1)) == Zeros(n)
  {
    EvenDoubled([0x80] + Zeros(n - 1));
    CarriedTop(n);
  }

  lemma {:induction false} CarriedTop(n: nat)
    requires n >= 1
    ensures Carried([0x80] + Zeros(n - 1), 0) == Zeros(n)
  {
    var top := [0x80] + Zeros(n - 1);
    if n > 1 {
      assert top[..n - 1] == [0x80] + Zeros(n - 2);
      CarriedTop(n - 1);
    } else {
      assert top[..0] == [];
    }
  }

  lemma {:induction false} SubkeyValue(k: seq<byte>)
    requires |k| >= 2 && Lost(k) == 1
    ensures Value(Subkey(k)) == Xor(Value(Doubled(k)), Reduction(|k|))
  {
    ReductionValue(|k|);
    ValueXor(Doubled(k), ReductionBlock(|k|));
  }

  lemma {:induction false} SubkeyNumbers(k: seq<byte>, n: nat) returns (v: nat, low: nat)
    requires |k| >= 2 && |k| % 2 == 0 && k[0] >= 128 && n == 8 * |k|
    ensures v == Value(Subkey(k)) && v == Xor(low, Reduction(|k|))
    ensures low + Pow2(n) == 2 * Value(k) && low < Pow2(n)
  {
    LostIsTop(k);
    SubkeyValue(k);
    DoubledValue(k, n);
    v, low := Value(Subkey(k)), Value(Doubled(k));
  }

  lemma {:induction false} SubkeyLostBit(k: seq<byte>)
    requires |k| >= 2 && |k| % 2 == 0 && k[0] >= 128
    ensures Value(Subkey(k)) == Xor(2 * Value(k), SubkeyModulus(|k|))
  {
    var n := 8 * |k|;
    var v, low := SubkeyNumbers(k, n);
    ReductionFits(|k|);
    LostBit(2 * Value(k), low, Reduction(|k|), n, SubkeyModulus(|k|));
  }

  lemma {:induction false} ValueFits(d: seq<byte>, n: nat)
    requires |d| == n
    ensures Value(d) < Pow2(8 * n)
  {
  }

  lemma {:induction false} LostIsTop(k: seq<byte>)
    requires |k| >= 2 && |k| % 2 == 0
    ensures Lost(k) == TopBit(k[0])
  {
  }

  lemma {:induction false} ReductionFits(length: nat)
    requires length >= 2
    ensures Reduction(length) < Pow2(8 * length)
  {
    assert Pow2(0) == 1;
    EightBits(0);
    EightBits(8);
    Pow2Monotone(16, 8 * length);
  }

  // ----- the one-shot definition

  /** How much of an n-byte message lies before its last block, complete or not. */
  function HeadLength(n: nat, size: nat): (h: nat)
    requires size > 0
    ensures h <= n && n - h <= size && WholeBlocks(h, size)
    ensures n > 0 ==> n > h
  {
    if n <= size then 0 else size + HeadLength(n - size, size)
  }

  lemma {:induction false} HeadLengthUnique(n: nat, h: nat, size: nat)
    requires size > 0 && WholeBlocks(h, size) && h < n <= h + size
    ensures HeadLength(n, size) == h
  {
    if h != 0 {
      HeadLengthUnique(n - size, h - size, size);
    }
  }

  /** A one bit and then zeros, up to a whole block. */
  function Pad(last: seq<byte>, size: nat): (p: seq<byte>)
    requires |last| < size
    ensures |p| == size
  {
    last + [0x80] + Zeros(size - |last| - 1)
  }

  function Key1(c: Cipher): (k: seq<byte>)
    requires c.Valid()
    ensures |k| == c.blockSize
  {
    Subkey(c.encrypt(Zeros(c.blockSize)))
  }

  /** No bit falls off a subkey, or there is a constant for it. */
  predicate Keyable(c: Cipher)
    requires c.Valid()
  {
    Supported(c.blockSize) || (Lost(c.encrypt(Zeros(c.blockSize))) == 0 && Lost(Key1(c)) == 0)
  }

  /** The last block carries the first subkey when it is complete, otherwise it is padded and
      carries the second: sections 2.3 and 2.4 of RFC 4493 for 16-byte blocks, section 6 of NIST
      SP 800-38B for these and 8-byte ones, and the same for any other. */
  function Mac(c: Cipher, message: seq<byte>): (mac: seq<byte>)
    requires c.Valid()
    ensures |mac| == c.blockSize
  {
    var s := c.blockSize;
    var h := HeadLength(|message|, s);
    var x := Chain(c, Zeros(s), message[..h]);
    if |message| - h == s then c.encrypt(XorInto(XorInto(x, 0, message[h..]), 0, Key1(c)))
    else c.encrypt(XorInto(XorInto(x, 0, Pad(message[h..], s)), 0, Subkey(Key1(c))))
  }

  // ----- which subkey goes where

  lemma {:induction false} DoubledTwice(v: nat, x: nat, y: nat, m: nat)
    requires Congruent(v, 2 * x, m) && Congruent(x, 2 * y, m)
    ensures Congruent(v, 4 * y, m)
  {
    CongruentRefl(0, m);
    CongruentShiftAdd(0, 0, x, 2 * y, 1, m);
    assert Shl(x, 1) == 2 * x && Shl(2 * y, 1) == 4 * y;
    XorZero(2 * x);
    XorZero(4 * y);
    CongruentTrans(v, 2 * x, 4 * y, m);
  }

  lemma {:induction false} MacOfParts(c: Cipher, head: seq<byte>, last: seq<byte>)
    requires c.Valid() && WholeBlocks(|head|, c.blockSize) && |last| <= c.blockSize && (|last| == 0 ==> |head| == 0)
    ensures var s, x := c.blockSize, Chain(c, Zeros(c.blockSize), head);
            Mac(c, head + last) ==
            c.encrypt(if |last| == s then XorInto(XorInto(x, 0, last), 0, Key1(c))
                      else XorInto(XorInto(x, 0, Pad(last, s)), 0, Subkey(Key1(c))))
  {
    if |last| != 0 { HeadLengthUnique(|head + last|, |head|, c.blockSize); }
    assert (head + last)[..|head|] == head && (head + last)[|head|..] == last;
  }

  /** What is xored into the last block: as a polynomial twice the enciphered zero block if the
      block is complete, otherwise four times. */
  lemma {:induction false} SealedUnder(c: Cipher, head: seq<byte>, last: seq<byte>) returns (k: seq<byte>)
    requires c.Valid() && c.blockSize >= 2 && c.blockSize % 2 == 0
    requires WholeBlocks(|head|, c.blockSize) && |last| <= c.blockSize && (|last| == 0 ==> |head| == 0)
    ensures |k| == c.blockSize
    ensures Congruent(Value(k), (if |last| == c.blockSize then 2 else 4) * Value(c.encrypt(Zeros(c.blockSize))),
                      SubkeyModulus(c.blockSize))
    ensures var s := c.blockSize;
            var block := if |last| == s then last else last + [0x80] + Zeros(s - |last| - 1);
            Mac(c, head + last) == c.encrypt(XorInto(XorInto(Chain(c, Zeros(s), head), 0, block), 0, k))
  {
    var zero := c.encrypt(Zeros(c.blockSize));
    MacOfParts(c, head, last);
    SubkeyIsDouble(zero);
    if |last| == c.blockSize {
      k := Key1(c);
    } else {
      k := Subkey(Key1(c));
      SubkeyIsDouble(Key1(c));
      DoubledTwice(Value(k), Value(Key1(c)), Value(zero), SubkeyModulus(c.blockSize));
    }
  }

  /** There is only one such block. */
  lemma {:induction false} OnlyBlock(k: seq<byte>, k': seq<byte>, x: nat)
    requires |k| == |k'| >= 2
    requires Congruent(Value(k), x, SubkeyModulus(|k|)) && Congruent(Value(k'), x, SubkeyModulus(|k|))
    ensures k == k'
  {
    var m := SubkeyModulus(|k|);
    CongruentSymm(Value(k'), x, m);
    CongruentTrans(Value(k), x, Value(k'), m);
    BitCountBound(Value(k), 8 * |k|);
    BitCountBound(Value(k'), 8 * |k|);
    if BitCount(m) <= 8 * |k| { Pow2Monotone(BitCount(m), 8 * |k|); }
    ResidueUnique(Value(k), Value(k'), m);
    ValueBytes(k);
    ValueBytes(k');
  }

  /** In particular for a message of one complete block. */
  lemma {:induction false} OneBlock(c: Cipher, m: seq<byte>) returns (k: seq<byte>)
    requires c.Valid() && c.blockSize >= 2 && c.blockSize % 2 == 0 && |m| == c.blockSize
    ensures |k| == c.blockSize && Mac(c, m) == c.encrypt(XorInto(m, 0, k))
    ensures Congruent(Value(k), 2 * Value(c.encrypt(Zeros(c.blockSize))), SubkeyModulus(c.blockSize))
  {
    k := SealedUnder(c, [], m);
    assert [] + m == m;
    XorFromZeros(m);
  }

  /** The register after absorbing a message whose first h bytes have been chained. */
  function Absorbed(c: Cipher, message: seq<byte>, h: nat): (reg: seq<byte>)
    requires c.Valid() && h <= |message| <= h + c.blockSize
    ensures |reg| == c.blockSize
  {
    XorInto(Chain(c, Zeros(c.blockSize), message[..h]), 0, message[h..])
  }

  /** The register and its counter after a message with its first h bytes, whole blocks, chained. */
  ghost predicate Holding(c: Cipher, reg: seq<byte>, counter: nat, message: seq<byte>, h: nat)
    requires c.Valid()
  {
    && WholeBlocks(h, c.blockSize) && h <= |message| <= h + c.blockSize
    && counter == |message| - h && reg == Absorbed(c, message, h)
  }

  /** More bytes of the block being filled. */
  lemma {:induction false} AbsorbPiece(c: Cipher, message: seq<byte>, h: nat, piece: seq<byte>)
    requires c.Valid() && h <= |message| && |message| + |piece| <= h + c.blockSize
    ensures XorInto(Absorbed(c, message, h), |message| - h, piece) == Absorbed(c, message + piece, h)
  {
    assert (message + piece)[..h] == message[..h];
    assert (message + piece)[h..] == message[h..] + piece;
    XorIntoConcat(Chain(c, Zeros(c.blockSize), message[..h]), 0, message[h..], piece);
  }

  lemma {:induction false} HoldsMore(c: Cipher, reg: seq<byte>, counter: nat, message: seq<byte>, h: nat,
                                     piece: seq<byte>, counter': nat, message': seq<byte>)
    requires c.Valid() && Holding(c, reg, counter, message, h)
    requires counter' == counter + |piece| <= c.blockSize && message' == message + piece
    ensures |reg| == c.blockSize && Holding(c, XorInto(reg, counter, piece), counter', message', h)
  {
    AbsorbPiece(c, message, h, piece);
  }

  /** The block is full and more is coming. */
  lemma {:induction false} AbsorbBlock(c: Cipher, message: seq<byte>, h: nat)
    requires c.Valid() && WholeBlocks(h, c.blockSize) && |message| == h + c.blockSize
    ensures c.encrypt(Absorbed(c, message, h)) == Absorbed(c, message, |message|)
    ensures WholeBlocks(|message|, c.blockSize)
  {
    var x := Chain(c, Zeros(c.blockSize), message[..h]);
    ChainConcat(c, Zeros(c.blockSize), message[..h], message[h..]);
    ChainBlock(c, x, message[h..]);
    WholeBlocksAdd(h, c.blockSize, c.blockSize);
    assert message[..h] + message[h..] == message;
    AbsorbedWhole(c, message);
  }

  lemma {:induction false} AbsorbedWhole(c: Cipher, message: seq<byte>)
    requires c.Valid()
    ensures Absorbed(c, message, |message|) == Chain(c, Zeros(c.blockSize), message)
  {
    assert message[..|message|] == message;
    XorNothing(Chain(c, Zeros(c.blockSize), message), message[|message|..]);
  }

  /** Whole blocks straight from the input. */
  lemma {:induction false} AbsorbBlocks(c: Cipher, message: seq<byte>, blocks: seq<byte>)
    requires c.Valid() && WholeBlocks(|message|, c.blockSize) && WholeBlocks(|blocks|, c.blockSize)
    ensures Chain(c, Absorbed(c, message, |message|), blocks) == Absorbed(c, message + blocks, |message + blocks|)
    ensures WholeBlocks(|message + blocks|, c.blockSize)
  {
    ChainConcat(c, Zeros(c.blockSize), message, blocks);
    WholeBlocksAdd(|message|, |blocks|, c.blockSize);
    AbsorbedWhole(c, message);
    AbsorbedWhole(c, message + blocks);
  }

  lemma {:induction false} HoldsBlocks(c: Cipher, reg: seq<byte>, message: seq<byte>, h: nat, blocks: seq<byte>,
                                       message': seq<byte>)
    requires c.Valid() && Holding(c, reg, 0, message, h) && WholeBlocks(|blocks|, c.blockSize)
    requires message' == message + blocks
    ensures |reg| == c.blockSize && Holding(c, Chain(c, reg, blocks), 0, message', |message'|)
  {
    AbsorbBlocks(c, message, blocks);
  }

  lemma {:induction false} InPieces(message: seq<byte>, input: seq<byte>, n: nat)
    requires n <= |input|
    ensures message + input[..n] + input[n..] == message + input
  {
  }

  lemma {:induction false} BeforeLast(rest: seq<byte>, n: nat)
    requires n < |rest|
    ensures rest[..|rest| - 1][..n] == rest[..n]
    ensures rest[..n] + rest[n..] == rest
  {
  }

  lemma {:induction false} XorNothing(x: seq<byte>, nothing: seq<byte>)
    requires |nothing| == 0
    ensures XorInto(x, 0, nothing) == x
  {
  }

  /** Setting one bit after the last byte is padding it. */
  lemma {:induction false} PadInPlace(x: seq<byte>, last: seq<byte>)
    requires |last| < |x|
    ensures XorInto(XorInto(x, 0, last), |last|, [0x80]) == XorInto(x, 0, Pad(last, |x|))
  {
    forall i | |last| < i < |x| ensures XorByte(x[i], 0) == x[i] {
      XorZero(x[i]);
    }
  }

  // ----- the streaming object

  /** Whole blocks are chained, but not the last byte's. */
  method ChainAllButLast(c: Cipher, reg: seq<byte>, rest: seq<byte>)
    returns (chained: seq<byte>, last: seq<byte>, ghost blocks: seq<byte>)
    requires c.Valid() && |reg| == c.blockSize && |rest| > 0
    ensures blocks + last == rest && WholeBlocks(|blocks|, c.blockSize) && 0 < |last| <= c.blockSize
    ensures chained == Chain(c, reg, blocks)
  {
    var leftOver: nat;
    chained, leftOver := AdvancedProcessBlocks(c, reg, rest[..|rest| - 1]);
    leftOver := leftOver + 1;
    BeforeLast(rest, |rest| - leftOver);
    blocks, last := rest[..|rest| - leftOver], rest[|rest| - leftOver..];
  }

  class CMAC_Base {
    var cipher: Cipher
    var reg: seq<byte>
    var key1: seq<byte>
    var key2: seq<byte>
    var counter: nat
    ghost var message: seq<byte>

    ghost predicate Keyed()
      reads this
    {
      && cipher.Valid()
      && key1 == Key1(cipher) && key2 == Subkey(key1)
    }

    /** Everything but the last block, complete or not, has been chained; the last block is
        waiting in the register. */
    ghost predicate Valid()
      reads this
    {
      && Keyed()
      && counter == |message| - HeadLength(|message|, cipher.blockSize)
      && reg == Absorbed(cipher, message, HeadLength(|message|, cipher.blockSize))
    }

    constructor () {
      reg, key1, key2, counter, message := [], [], [], 0, [];
    }

    method UncheckedSetKey(c: Cipher) returns (r: Result<(), Error>)
      requires c.Valid()
      modifies this
      ensures r.Ok? ==> Valid() && cipher == c && message == []
      ensures r == if Keyable(c) then Ok(()) else Err(UnsupportedBlockSize)
    {
      cipher, counter, message := c, 0, [];
      reg := Zeros(c.blockSize);
      key1 :- MulU(c.encrypt(reg));
      key2 :- MulU(key1);
      XorNothing(reg, message[0..]);
      r := Ok(());
    }

    /** The register holds the message with its first h bytes, whole blocks, chained. */
    ghost predicate Holds(h: nat)
      reads this
    {
      Keyed() && Holding(cipher, reg, counter, message, h)
    }

    /** More bytes for the waiting block. */
    method Absorb(piece: seq<byte>, ghost h: nat)
      requires Holds(h) && counter + |piece| <= cipher.blockSize
      modifies `reg, `message, `counter
      ensures Holds(h) && message == old(message) + piece && counter == old(counter) + |piece|
    {
      HoldsMore(cipher, reg, counter, message, h, piece, counter + |piece|, message + piece);
      reg := XorInto(reg, counter, piece);
      counter := counter + |piece|;
      message := message + piece;
    }

    /** The waiting block is full, and more is coming. */
    method ChainFull(ghost h: nat) returns (ghost h': nat)
      requires Holds(h) && counter == cipher.blockSize
      modifies `reg, `counter
      ensures Holds(h') && counter == 0
    {
      AbsorbBlock(cipher, message, h);
      h' := |message|;
      reg := cipher.encrypt(reg);
      counter := 0;
    }

    /** The first part of `Update`: fill the waiting block, and chain it once more is coming. */
    method FillBlock(input: seq<byte>) returns (rest: seq<byte>, ghost h: nat)
      requires Valid() && |input| > 0
      modifies `reg, `message, `counter
      ensures Holds(h) && message + rest == old(message) + input
      ensures counter > 0 <==> |rest| == 0
    {
      rest, h := input, HeadLength(|message|, cipher.blockSize);
      if counter > 0 {
        var len: nat := if cipher.blockSize - counter <= |input| then cipher.blockSize - counter else |input|;
        InPieces(message, input, len);
        Absorb(input[..len], h);
        rest := input[len..];
        if counter == cipher.blockSize && |rest| > 0 {
          h := ChainFull(h);
        }
      }
    }

    /** All whole blocks, as long as something is left for the last one. */
    method ChainWhole(rest: seq<byte>, ghost h: nat) returns (last: seq<byte>)
      requires Holds(h) && counter == 0 && |rest| > cipher.blockSize
      modifies `reg, `message
      ensures Holds(|message|) && message + last == old(message) + rest && 0 < |last| <= cipher.blockSize
    {
      var chained; ghost var blocks;
      chained, last, blocks := ChainAllButLast(cipher, reg, rest);
      HoldsBlocks(cipher, reg, message, h, blocks, message + blocks);
      Regrouped(message, blocks, last);
      reg := chained;
      message := message + blocks;
    }

    /** Then the whole blocks of what comes, if there are any. */
    method ChainBlocks(rest: seq<byte>, ghost h: nat) returns (last: seq<byte>, ghost h': nat)
      requires Holds(h) && (counter > 0 ==> |rest| == 0)
      modifies `reg, `message
      ensures Holds(h') && message + last == old(message) + rest
      ensures if counter > 0 then last == [] else |last| <= cipher.blockSize && (|rest| > 0 ==> |last| > 0)
    {
      last, h' := rest, h;
      if |rest| > cipher.blockSize {
        last := ChainWhole(rest, h);
        h' := |message|;
      }
    }

    /** And what is left waits in the register. */
    method KeepLast(last: seq<byte>, ghost h: nat)
      requires Holds(h) && counter + |last| <= cipher.blockSize && counter + |last| > 0
      modifies `reg, `message, `counter
      ensures Valid() && message == old(message) + last
    {
      Absorb(last, h);
      HeadLengthUnique(|message|, h, cipher.blockSize);
    }

    method Update(input: seq<byte>)
      requires Valid()
      modifies `reg, `message, `counter
      ensures Valid() && message == old(message) + input
    {
      if |input| == 0 {
        assert message + input == message;
        return;
      }
      var rest;
      ghost var h;
      rest, h := FillBlock(input);
      rest, h := ChainBlocks(rest, h);
      KeepLast(rest, h);
    }

    /** The last block, padded if it is not complete, with its subkey. */
    method ChainLast()
      requires Valid()
      modifies `reg
      ensures reg == Mac(cipher, message)
    {
      var blockSize := cipher.blockSize;
      var leftOver;
      if counter < blockSize {
        ghost var h := HeadLength(|message|, blockSize);
        PadInPlace(Chain(cipher, Zeros(blockSize), message[..h]), message[h..]);
        reg := XorInto(reg, counter, [0x80]);
        ChainBlock(cipher, reg, key2);
        reg, leftOver := AdvancedProcessBlocks(cipher, reg, key2);
      } else {
        ChainBlock(cipher, reg, key1);
        reg, leftOver := AdvancedProcessBlocks(cipher, reg, key1);
      }
    }

    /** The tag of everything since the last key or tag, and a fresh start. */
    method TruncatedFinal(size: nat) returns (mac: seq<byte>, invalidSize: bool)
      requires Valid()
      modifies `reg, `counter, `message
      ensures Valid() && (invalidSize <==> size > cipher.blockSize)
      ensures !invalidSize ==> mac == Mac(cipher, old(message))[..size]
      ensures message == if invalidSize then old(message) else []
      ensures !invalidSize ==> reg == Zeros(cipher.blockSize) && counter == 0
    {
      if size > cipher.blockSize { return [], true; }
      ChainLast();
      mac, invalidSize := reg[..size], false;
      message, counter, reg := [], 0, Zeros(cipher.blockSize);
      XorNothing(reg, message[0..]);
    }
  }

  method UpdateAll(m: CMAC_Base, pieces: seq<seq<byte>>)
    requires m.Valid() && m.message == []
    modifies m
    ensures m.Valid() && m.message == Concat(pieces) && m.cipher == old(m.cipher)
    decreases |pieces|
  {
    if |pieces| == 0 { return; }
    UpdateAll(m, pieces[..|pieces| - 1]);
    m.Update(pieces[|pieces| - 1]);
  }

  /** However the message is cut up, the tag is the tag of the message. */
  method MacOfPieces(c: Cipher, pieces: seq<seq<byte>>, size: nat) returns (r: Result<seq<byte>, Error>)
    requires c.Valid()
    ensures r == if !Keyable(c) then Err(UnsupportedBlockSize)
                 else if size > c.blockSize then Err(InvalidTruncatedSize)
                 else Ok(Mac(c, Concat(pieces))[..size])
  {
    var m := new CMAC_Base();
    var _ :- m.UncheckedSetKey(c);
    UpdateAll(m, pieces);
    var mac, invalidSize := m.TruncatedFinal(size);
    r := if invalidSize then Err(InvalidTruncatedSize) else Ok(mac);
  }
}
