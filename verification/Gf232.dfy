/** `GF2_32` (gf2_32.cpp): arithmetic of polynomials modulo X^32 + m, in 32-bit words. The
    leading term of the modulus is not stored: it is the bit that a left shift loses. */
module Gf232 {
  import opened Bits
  import opened Gf2Polynomials

  const TOP: nat := 0x8000_0000
  const WORD: nat := 0x1_0000_0000

  lemma {:induction false} TopBits()
    ensures Pow2(32) == WORD && Pow2(31) == TOP
  {
    assert Pow2(4) == 16;
    assert Pow2(8) == 16 * Pow2(4);
    assert Pow2(12) == 16 * Pow2(8);
    assert Pow2(16) == 16 * Pow2(12);
    assert Pow2(20) == 16 * Pow2(16);
    assert Pow2(24) == 16 * Pow2(20);
    assert Pow2(28) == 16 * Pow2(24);
    assert Pow2(32) == 16 * Pow2(28);
  }

  lemma {:induction false} WordLength(x: nat)
    ensures x < WORD <==> BitCount(x) <= 32
    ensures x < TOP <==> BitCount(x) <= 31
  {
    TopBits();
    BitCountBound(x, 32);
    BitCountBound(x, 31);
  }

  /** `x << 1` on a 32-bit word. */
  function ShiftLeft(x: nat): nat {
    2 * x % 0x1_0000_0000
  }

  /** The modulus with its leading term. */
  function Modulus(m: nat): nat {
    WORD + m
  }

  lemma {:induction false} ModulusLength(m: nat)
    requires m < WORD
    ensures BitCount(Modulus(m)) == 33
  {
    TopBits();
    BitCountBound(Modulus(m), 33);
    BitCountBound(Modulus(m), 32);
    assert Pow2(33) == 2 * Pow2(32);
  }

  /** A shift that loses the top bit, and adding m for it, is adding the whole modulus. */
  lemma {:induction false} LostBit(x: nat, m: nat)
    requires TOP <= x < WORD && m < WORD
    ensures Xor(m, ShiftLeft(x)) == Xor(Modulus(m), 2 * x)
  {
    TopBits();
    var y := ShiftLeft(x);
    assert 2 * x == WORD + y;
    LeadingTerm(m, 32);
    LeadingTerm(y, 32);
    XorSwap(WORD, m, WORD, y);
    XorSelf(WORD);
    XorZero(Xor(m, y));
  }

  lemma {:induction false} XorWord(x: nat, y: nat)
    requires x < WORD && y < WORD
    ensures Xor(x, y) < WORD
  {
    WordLength(x);
    WordLength(y);
    XorLength(x, y, 32);
    WordLength(Xor(x, y));
  }

  /** Adding the modulus stays in the residue class. */
  lemma {:induction false} AddModulus(y: nat, modulus: nat)
    ensures Congruent(Xor(modulus, y), y, modulus)
  {
    XorCancel(modulus, y);
    DividesSelf(modulus);
  }

  /** x doubled and reduced: the bit shifted out selects whether the modulus is added. */
  function DoubleReduced(x: nat, m: nat): (r: nat)
    requires x < WORD && m < WORD
    ensures r < WORD && Congruent(r, 2 * x, Modulus(m))
  {
    XorWord(m, ShiftLeft(x));
    if x >= TOP then
      LostBit(x, m);
      AddModulus(2 * x, Modulus(m));
      Xor(m, ShiftLeft(x))
    else
      CongruentRefl(2 * x, Modulus(m));
      ShiftLeft(x)
  }

  // ----- multiplication

  /** The table of `Multiply`, indexed by twice a bit of b plus the bit shifted out. */
  function Table(a: nat, m: nat): (t: seq<nat>)
    requires a < WORD && m < WORD
    ensures |t| == 4
  {
    if a >= TOP then [0, m, Xor(m, ShiftLeft(a)), ShiftLeft(a)]
    else [0, m, ShiftLeft(a), Xor(m, ShiftLeft(a))]
  }

  /** An entry adds twice a for the bit, and the modulus for the carry. */
  lemma {:induction false} TableEntry(a: nat, m: nat, bit: nat, carry: nat)
    requires a < WORD && m < WORD && bit < 2 && carry < 2
    ensures Table(a, m)[2 * bit + carry] ==
            Xor(if bit == 1 then DoubleReduced(a, m) else 0, if carry == 1 then m else 0)
  {
    XorZero(0);
    XorZero(m);
    XorZero(DoubleReduced(a, m));
    if bit == 1 && carry == 1 {
      XorComm(m, ShiftLeft(a));
      if a >= TOP {
        XorCancel(ShiftLeft(a), m);
      }
    }
  }

  /** One step of the loop: double, reduce, and add 2a if the bit is set. */
  lemma {:induction false} Step(a: nat, m: nat, result: nat, bit: nat)
    requires a < WORD && m < WORD && result < WORD && bit < 2
    ensures Xor(ShiftLeft(result), Table(a, m)[2 * bit + result / 0x8000_0000]) ==
            Xor(DoubleReduced(result, m), if bit == 1 then DoubleReduced(a, m) else 0)
  {
    var carry := result / 0x8000_0000;
    TableEntry(a, m, bit, carry);
    var add, mod := if bit == 1 then DoubleReduced(a, m) else 0, if carry == 1 then m else 0;
    XorComm(add, mod);
    XorAssoc(ShiftLeft(result), mod, add);
    XorComm(ShiftLeft(result), mod);
    XorZero(ShiftLeft(result));
  }

  /** The accumulator stands for twice a times the bits of b read so far. */
  ghost predicate Accumulates(a: nat, c: nat, m: nat, result: nat) {
    result < WORD && Congruent(result, 2 * Times(a, c), Modulus(m))
  }

  lemma {:induction false} AccumulateBit(a: nat, m: nat, c: nat, bit: nat, result: nat)
    requires a < WORD && m < WORD && bit < 2 && Accumulates(a, c, m, result)
    ensures Accumulates(a, 2 * c + bit, m,
                        Xor(DoubleReduced(result, m), if bit == 1 then DoubleReduced(a, m) else 0))
  {
    var M := Modulus(m);
    var add := if bit == 1 then DoubleReduced(a, m) else 0;
    var added := if bit == 1 then 2 * a else 0;
    XorWord(DoubleReduced(result, m), add);
    // 2·result is congruent to 4·a·c
    CongruentRefl(0, M);
    XorZero(0);
    CongruentShiftAdd(0, 0, result, 2 * Times(a, c), 1, M);
    XorZero(2 * result);
    XorZero(2 * (2 * Times(a, c)));
    CongruentTrans(DoubleReduced(result, m), 2 * result, 2 * (2 * Times(a, c)), M);
    CongruentShiftAdd(DoubleReduced(result, m), 2 * (2 * Times(a, c)), add, added, 0, M);
    // 2·(a·(2c + bit)) == 4·a·c + 2·a·bit
    assert Times(a, 2 * c + bit) == Xor(if bit == 1 then a else 0, 2 * Times(a, c)) by {
      assert (2 * c + bit) / 2 == c;
      TimesBit(a, c, bit);
    }
    XorDouble(if bit == 1 then a else 0, 2 * Times(a, c));
    XorComm(added, 2 * (2 * Times(a, c)));
  }

  lemma {:induction false} TimesBit(a: nat, c: nat, bit: nat)
    requires bit < 2
    ensures Times(a, 2 * c + bit) == Xor(if bit == 1 then a else 0, 2 * Times(a, c))
  {
    XorZero(0);
  }

  lemma {:induction false} TopBit(b: nat)
    requires b < WORD
    ensures Shr(b, 31) < 2
  {
    TopBits();
    Split(b, 31);
    Pow2IsShl(31);
    ShlAdd(1, 1, 31);
    ShlMonotone(2, Shr(b, 31), 31);
  }

  /** The first table lookup, for the top bit of b. */
  lemma {:induction false} FirstBit(a: nat, m: nat, bit: nat)
    requires a < WORD && m < WORD && bit < 2
    ensures Accumulates(a, bit, m, Table(a, m)[2 * bit])
  {
    TableEntry(a, m, bit, 0);
    CongruentRefl(0, Modulus(m));
    assert Accumulates(a, 0, m, 0);
    AccumulateBit(a, m, 0, bit, 0);
    XorZero(if bit == 1 then DoubleReduced(a, m) else 0);
  }

  /** The last bit of b adds a itself. */
  lemma {:induction false} LastBit(a: nat, m: nat, b: nat, result: nat)
    requires a < WORD && m < WORD && Accumulates(a, b / 2, m, result)
    ensures var r := if b % 2 == 1 then Xor(result, a) else result;
            r < WORD && Congruent(r, Times(a, b), Modulus(m))
  {
    var add := if b % 2 == 1 then a else 0;
    XorWord(result, add);
    XorZero(result);
    CongruentRefl(add, Modulus(m));
    CongruentShiftAdd(result, 2 * Times(a, b / 2), add, add, 0, Modulus(m));
    TimesBit(a, b / 2, b % 2);
    XorComm(add, 2 * Times(a, b / 2));
  }

  /** One round: the next bit of b from the top. */
  lemma {:induction false} NextBit(a: nat, m: nat, b: nat, i: nat, bit: nat, result: nat)
    requires a < WORD && m < WORD && bit == Shr(b, i + 1) % 2 && Accumulates(a, Shr(b, i + 2), m, result)
    ensures Accumulates(a, Shr(b, i + 1), m, Xor(ShiftLeft(result), Table(a, m)[2 * bit + result / 0x8000_0000]))
  {
    Step(a, m, result, bit);
    AccumulateBit(a, m, Shr(b, i + 2), bit, result);
    assert Shr(b, i + 1) == 2 * Shr(b, i + 2) + bit;
  }

  /** `Multiply` without rotations: the product of the polynomials, reduced. */
  method Multiply(a: nat, b: nat, m: nat) returns (r: nat)
    requires a < WORD && b < WORD && m < WORD
    ensures r < WORD && Congruent(r, Times(a, b), Modulus(m))
  {
    var table := Table(a, m);
    TopBit(b);
    FirstBit(a, m, Shr(b, 31));
    var result: nat := table[2 * (Shr(b, 30) / 2 % 2)];
    var i := 29;
    while i >= 0
      invariant -1 <= i <= 29 && Accumulates(a, Shr(b, i + 2), m, result)
    {
      var bit := Shr(b, i) / 2 % 2;
      NextBit(a, m, b, i, bit, result);
      result := Xor(ShiftLeft(result), table[2 * bit + result / 0x8000_0000]);
      i := i - 1;
    }
    assert Shr(b, 1) == Shr(b, 0) / 2;
    LastBit(a, m, b, result);
    r := if b % 2 == 1 then Xor(result, a) else result;
  }

  /** A 32-bit word rotated left by k; rotating right by 30 is rotating left by 2. */
  function RotateLeft(x: nat, k: nat): int
    requires k <= 32
  {
    Shl(Low(x, 32 - k), k) + Shr(x, 32 - k)
  }

  /** The top bit of the rotated word, and the rest. */
  lemma {:induction false} RotateSplit(b: nat, k: nat)
    requires k < 32
    ensures RotateLeft(b, k) == Shl(Shr(b, 31 - k) % 2, 31) + (Shl(Low(b, 31 - k), k) + Shr(b, 32 - k))
  {
    TopOfLow(b, k, 31 - k, 32 - k, 31);
  }

  lemma {:induction false} TopOfLow(b: nat, k: nat, n: nat, next: nat, top: nat)
    requires n + k == top && next == n + 1
    ensures Shl(Low(b, next), k) == Shl(Shr(b, n) % 2, top) + Shl(Low(b, n), k)
  {
    var high := if GetBit(b, n) then Pow2(n) else 0;
    ShlAdd(Low(b, n), high, k);
    Pow2IsShl(k);
    Pow2IsShl(top);
    Pow2Add(n, k);
  }

  lemma {:induction false} RotateAgain(b: nat, k: nat)
    requires b < WORD && k < 32
    ensures 0 <= RotateLeft(b, k) && RotateLeft(RotateLeft(b, k), 1) == RotateLeft(b, k + 1)
  {
    var bit, y := Shr(b, 31 - k) % 2, Shl(Low(b, 31 - k), k) + Shr(b, 32 - k);
    RotateSplit(b, k);
    RotationFits(b, k);
    Pow2IsShl(31);
    SplitUnique(RotateLeft(b, k), 31, bit, y);
    assert Shl(y, 1) == 2 * Shl(y, 0) == 2 * y;
    assert Shr(b, 32 - k) == Shr(b, 31 - k) / 2;
  }

  /** The part that stays below the top bit. */
  lemma {:induction false} RotationFits(b: nat, k: nat)
    requires b < WORD && k < 32
    ensures 0 <= Shl(Low(b, 31 - k), k) + Shr(b, 32 - k) < Pow2(31)
  {
    TopBits();
    var low := Low(b, 31 - k);
    Pow2IsShl(k);
    Pow2Add(31 - k, k);
    ShlMonotone(low + 1, Pow2(31 - k), k);
    ShlAdd(low, 1, k);
    ShlMonotone(0, low, k);
    HighPart(b, k);
  }

  lemma {:induction false} HighPart(b: nat, k: nat)
    requires b < WORD && k <= 32
    ensures Shr(b, 32 - k) < Pow2(k)
  {
    TopBits();
    Split(b, 32 - k);
    Pow2Add(k, 32 - k);
    ShlMonotone(Pow2(k), Shr(b, 32 - k), 32 - k);
  }

  /** The second lowest bit of the rotated word. */
  lemma {:induction false} RotatedBit(b: nat, k: nat)
    requires b < WORD && 2 <= k <= 32
    ensures RotateLeft(b, k) >= 0 && RotateLeft(b, k) / 2 % 2 == Shr(b, 33 - k) % 2
  {
    ShlNat(Low(b, 32 - k), k - 2);
    ShlTwice(Low(b, 32 - k), k - 2, k);
    SecondBit(RotateLeft(b, k), Shl(Low(b, 32 - k), k - 2), Shr(b, 32 - k));
    HalfAgain(b, 32 - k, 33 - k);
  }

  lemma {:induction false} ShlTwice(x: int, k: nat, next: nat)
    requires next == k + 2
    ensures Shl(x, next) == 4 * Shl(x, k)
  {
  }

  lemma {:induction false} SecondBit(v: int, x: int, low: nat)
    requires v == 4 * x + low
    ensures v / 2 % 2 == low / 2 % 2
  {
  }

  lemma {:induction false} HalfAgain(b: nat, n: nat, next: nat)
    requires next == n + 1
    ensures Shr(b, next) == Shr(b, n) / 2
  {
  }

  /** After a full turn the word is itself again. */
  lemma {:induction false} FullTurn(b: nat)
    ensures RotateLeft(b, 32) == b
  {
    Pow2IsShl(32);
  }

  /** The next bit of b comes into the second place. */
  method RotateOnce(ghost b: nat, ghost turned: nat, ghost next: nat, rotated: nat) returns (r: nat, bit: nat)
    requires b < WORD && 2 <= next == turned + 1 <= 32 && rotated == RotateLeft(b, turned)
    ensures r == RotateLeft(b, next) && bit == Shr(b, 33 - next) % 2
  {
    RotateAgain(b, turned);
    RotatedBit(b, next);
    r := RotateLeft(rotated, 1);
    bit := r / 2 % 2;
  }

  /** `Multiply` with rotations gives the same. */
  method MultiplyRotating(a: nat, b: nat, m: nat) returns (r: nat)
    requires a < WORD && b < WORD && m < WORD
    ensures r < WORD && Congruent(r, Times(a, b), Modulus(m))
  {
    var table := Table(a, m);
    RotatedBit(b, 2);
    var rotated: nat := RotateLeft(b, 2);
    TopBit(b);
    FirstBit(a, m, Shr(b, 31));
    var result: nat := table[2 * (rotated / 2 % 2)];
    var i := 29;
    while i >= 0
      invariant -1 <= i <= 29 && rotated == RotateLeft(b, 31 - i)
      invariant Accumulates(a, Shr(b, i + 2), m, result)
    {
      var bit;
      rotated, bit := RotateOnce(b, 31 - i, 32 - i, rotated);
      NextBit(a, m, b, i, bit, result);
      result := Xor(ShiftLeft(result), table[2 * bit + result / 0x8000_0000]);
      i := i - 1;
    }
    FullTurn(b);
    LastBit(a, m, b, result);
    r := if rotated % 2 == 1 then Xor(result, a) else result;
  }

  /** Reduced and congruent to the product: that is one value only, so both variants agree. */
  lemma {:induction false} ProductUnique(a: nat, b: nat, m: nat, r: nat, r': nat)
    requires m < WORD && r < WORD && r' < WORD
    requires Congruent(r, Times(a, b), Modulus(m)) && Congruent(r', Times(a, b), Modulus(m))
    ensures r == r'
  {
    CongruentSymm(r', Times(a, b), Modulus(m));
    CongruentTrans(r, Times(a, b), r', Modulus(m));
    WordLength(r);
    WordLength(r');
    ModulusLength(m);
    ResidueUnique(r, r', Modulus(m));
  }

  // ----- inversion

  /** v·a is congruent to g. */
  ghost predicate Row(a: nat, m: nat, g: nat, v: nat) {
    g < WORD && v < WORD && Congruent(Times(v, a), g, Modulus(m))
  }

  /** The invariant of the loop. The last two bounds are what keeps the shifts of v from losing
      bits. */
  ghost predicate Rows(a: nat, m: nat, g0: nat, v0: nat, g1: nat, v1: nat) {
    && Row(a, m, g0, v0) && Row(a, m, g1, v1) && g1 >= 2
    && (forall d: nat :: Divides(d, g0) && Divides(d, g1) ==> Divides(d, a) && Divides(d, Modulus(m)))
    && BitCount(v0) + BitCount(g1) <= 34
    && BitCount(v1) + BitCount(g0) <= 34
  }

  /** Coprimality keeps the remainder from becoming zero. */
  lemma {:induction false} RemainderNonZero(a: nat, m: nat, g0: nat, v0: nat, g1: nat, v1: nat)
    requires Coprime(a, Modulus(m)) && Rows(a, m, g0, v0, g1, v1)
    ensures g0 != 0
  {
    DividesSelf(g1);
  }

  /** The branch condition compares degrees. */
  lemma {:induction false} ComparesDegrees(g0: nat, g1: nat)
    requires g0 > 0 && g1 > 0
    ensures (g1 < g0 || (Xor(g0, g1) < g0 && Xor(g0, g1) < g1)) <==> BitCount(g1) <= BitCount(g0)
  {
    var x := Xor(g0, g1);
    BitCountOrder(g1, g0);
    if BitCount(g1) == BitCount(g0) {
      XorShorter(g0, g1);
      BitCountOrder(g0, x);
      BitCountOrder(g1, x);
    } else if BitCount(g1) > BitCount(g0) {
      XorLonger(g1, g0);
      XorComm(g1, g0);
      BitCountOrder(g0, x);
      BitCountOrder(g0, g1);
      BitCountOrder(x, g0);
    } else {
      BitCountOrder(g0, g1);
    }
  }

  /** The inner loop goes on exactly while g2 is the shorter one. */
  lemma {:induction false} StillShorter(g0: nat, g2: nat)
    requires g2 > 0 && BitCount(g2) <= BitCount(g0)
    ensures Xor(g0, g2) >= g2 <==> BitCount(g2) < BitCount(g0)
  {
    var x := Xor(g0, g2);
    if BitCount(g2) < BitCount(g0) {
      XorLonger(g0, g2);
      BitCountOrder(g2, x);
    } else {
      XorShorter(g0, g2);
      BitCountOrder(g2, x);
    }
  }

  lemma {:induction false} BitCountShlLe(v: nat, s: nat)
    ensures Shl(v, s) >= 0 && BitCount(Shl(v, s)) <= BitCount(v) + s
  {
    if v == 0 { Pow2IsShl(s); } else { BitCountShl(v, s); }
  }

  /** Adding a shifted row to another. */
  lemma {:induction false} AddRow(a: nat, m: nat, g0: nat, v0: nat, g1: nat, v1: nat, s: nat)
    requires Congruent(Times(v0, a), g0, Modulus(m)) && Congruent(Times(v1, a), g1, Modulus(m))
    ensures Shl(g1, s) >= 0 && Shl(v1, s) >= 0
    ensures Congruent(Times(Xor(v0, Shl(v1, s)), a), Xor(g0, Shl(g1, s)), Modulus(m))
  {
    CongruentShiftAdd(Times(v0, a), g0, Times(v1, a), g1, s, Modulus(m));
    TimesShl(v1, a, s);
    TimesAdd(v0, Shl(v1, s), a);
  }

  /** One round: the leading term of g0 is cancelled by g1 shifted by s. */
  lemma {:induction false} Eliminate(a: nat, m: nat, g0: nat, v0: nat, g1: nat, v1: nat, s: nat)
    requires Rows(a, m, g0, v0, g1, v1) && BitCount(g1) + s == BitCount(g0)
    ensures Shl(g1, s) >= 0 && Shl(v1, s) >= 0
    ensures Rows(a, m, Xor(g0, Shl(g1, s)), Xor(v0, Shl(v1, s)), g1, v1)
    ensures BitCount(Xor(g0, Shl(g1, s))) < BitCount(g0)
  {
    AddRow(a, m, g0, v0, g1, v1, s);
    BitCountShl(g1, s);
    BitCountShlLe(v1, s);
    var g, v := Xor(g0, Shl(g1, s)), Xor(v0, Shl(v1, s));
    XorShorter(g0, Shl(g1, s));
    XorLength(v0, Shl(v1, s), 34 - BitCount(g1));
    LengthTwo(g1);
    WordLength(g0);
    WordLength(g);
    WordLength(v);
    forall d: nat | Divides(d, g) && Divides(d, g1)
      ensures Divides(d, a) && Divides(d, Modulus(m))
    {
      DividesShiftAdd(d, g, g1, s);
      XorCancel(g0, Shl(g1, s));
      assert Divides(d, g0);
    }
  }

  lemma {:induction false} LengthTwo(g: nat)
    requires g >= 2
    ensures BitCount(g) >= 2
  {
    BitCountHalf(g);
    BitCountHalf(g / 2);
  }

  /** Shifting rows within a word loses nothing. */
  lemma {:induction false} ShiftKeeps(x: nat, s: nat)
    requires BitCount(x) + s + 1 <= 32
    ensures Shl(x, s) >= 0 && ShiftLeft(Shl(x, s)) == Shl(x, s + 1)
  {
    BitCountShlLe(x, s);
    ShiftLeftSmall(Shl(x, s));
  }

  lemma {:induction false} ShiftLeftSmall(x: nat)
    requires BitCount(x) <= 31
    ensures ShiftLeft(x) == 2 * x
  {
    WordLength(x);
  }

  /** The first two rows: after the modulus has been reduced by a shifted copy of a. */
  method Start(a: nat, m: nat) returns (g0: nat, v0: nat)
    requires 2 <= a < WORD && m < WORD
    ensures Rows(a, m, g0, v0, a, 1)
  {
    var g2: nat, v2: nat := a, 1;
    ghost var s := 0;
    LengthTwo(a);
    WordLength(a);
    while g2 < TOP
      invariant g2 == Shl(a, s) && v2 == Shl(1, s) && BitCount(a) + s == BitCount(g2) <= 32
      decreases 32 - s
    {
      WordLength(g2);
      ShiftKeeps(a, s);
      ShiftKeeps(1, s);
      BitCountShl(a, s + 1);
      g2, v2, s := ShiftLeft(g2), ShiftLeft(v2), s + 1;
    }
    WordLength(g2);
    LostBit(g2, m);
    ShiftKeeps(1, s);
    g2, v2 := ShiftLeft(g2), ShiftLeft(v2);
    g0 := Xor(m, g2);
    v0 := Xor(0, v2);
    XorZero(v2);
    XorWord(m, g2);
    StartRows(a, m, g0, v0, s + 1);
  }

  lemma {:induction false} StartRows(a: nat, m: nat, g0: nat, v0: nat, s: nat)
    requires 2 <= a < WORD && m < WORD && BitCount(a) + s == 33
    requires Shl(a, s) >= 0 && g0 == Xor(Modulus(m), Shl(a, s)) && v0 == Shl(1, s) && g0 < WORD
    ensures Rows(a, m, g0, v0, a, 1)
  {
    var M := Modulus(m);
    LengthTwo(a);
    TimesOne(a);
    TimesShl(1, a, s);
    AddModulus(Shl(a, s), M);
    CongruentSymm(g0, Shl(a, s), M);
    CongruentRefl(a, M);
    BitCountShl(1, s);
    WordLength(v0);
    WordLength(g0);
    forall d: nat | Divides(d, g0) && Divides(d, a)
      ensures Divides(d, M)
    {
      DividesShiftAdd(d, g0, a, s);
      XorCancel(M, Shl(a, s));
    }
  }

  /** `MultiplicativeInverse`: for every a coprime to the modulus the loop ends, and the result
      times a is one. */
  method MultiplicativeInverse(a: nat, m: nat) returns (r: nat)
    requires a < WORD && m < WORD && (a == 0 || Coprime(a, Modulus(m)))
    ensures r < WORD && (a == 0 ==> r == 0)
    ensures a != 0 ==> Congruent(Times(r, a), 1, Modulus(m))
  {
    if a <= 1 {
      TimesOne(1);
      CongruentRefl(1, Modulus(m));
      return a;
    }
    var g0, v0 := Start(a, m);
    var g1: nat, v1: nat := a, 1;
    while g0 != 1
      invariant Rows(a, m, g0, v0, g1, v1)
      decreases BitCount(g0) + BitCount(g1)
    {
      RemainderNonZero(a, m, g0, v0, g1, v1);
      ComparesDegrees(g0, g1);
      if !(g1 < g0 || (Xor(g0, g1) < g0 && Xor(g0, g1) < g1)) {
        g0, g1 := g1, g0;
        v0, v1 := v1, v0;
      }
      g0, v0 := ReduceOnce(a, m, g0, v0, g1, v1);
    }
    r := v0;
  }

  /** The inner loop: g1 and v1 shifted together until g1 is as long as g0. */
  method Align(g0: nat, g1: nat, v1: nat) returns (g2: nat, v2: nat, ghost s: nat)
    requires g0 < WORD && g1 >= 2 && BitCount(g1) <= BitCount(g0) && BitCount(v1) + BitCount(g0) <= 34
    ensures g2 == Shl(g1, s) && v2 == Shl(v1, s) && BitCount(g1) + s == BitCount(g0)
  {
    g2, v2, s := g1, v1, 0;
    LengthTwo(g1);
    WordLength(g0);
    while Xor(g0, g2) >= g2
      invariant g2 > 0 && g2 == Shl(g1, s) && v2 == Shl(v1, s)
      invariant BitCount(g1) + s == BitCount(g2) <= BitCount(g0)
      decreases BitCount(g0) - s
    {
      StillShorter(g0, g2);
      ShiftKeeps(g1, s);
      ShiftKeeps(v1, s);
      BitCountShl(g1, s + 1);
      g2, v2, s := ShiftLeft(g2), ShiftLeft(v2), s + 1;
    }
    StillShorter(g0, g2);
  }

  /** The shifts and the addition of one round. */
  method ReduceOnce(ghost a: nat, ghost m: nat, g0: nat, v0: nat, g1: nat, v1: nat) returns (g: nat, v: nat)
    requires Rows(a, m, g0, v0, g1, v1) && BitCount(g1) <= BitCount(g0)
    ensures Rows(a, m, g, v, g1, v1) && BitCount(g) < BitCount(g0)
  {
    var g2, v2; ghost var s;
    g2, v2, s := Align(g0, g1, v1);
    Eliminate(a, m, g0, v0, g1, v1, s);
    g, v := Xor(g0, g2), Xor(v0, v2);
  }
}
