/** `Integer::InverseMod` (integer.cpp): the almost inverse, which is off by a power of two, and
    the division by that power. Numbers stand for the word buffers; the lengths the code keeps
    of them are part of the model, and so are its own bounds on them. */
module ModularInverse {
  import opened Bits
  import opened Modular
  import opened Wrappers

  // ----- lengths, in words of 64 bits

  predicate Fits(x: nat, words: nat) {
    x < Pow2(64 * words)
  }

  /** The least even number of words, at most n, that holds x. */
  function EvenWordCount(x: nat, n: nat): (len: nat)
    requires Fits(x, n) && n % 2 == 0
    ensures len <= n && len % 2 == 0 && Fits(x, len) && (x > 0 ==> len >= 2)
    ensures len >= 2 ==> !Fits(x, len - 2)
  {
    if n >= 2 && Fits(x, n - 2) then EvenWordCount(x, n - 2)
    else
      assert n == 0 ==> x < Pow2(0) == 1;
      n
  }

  /** An even number of words that holds x. */
  function EvenWords(x: nat): (n: nat)
    ensures n % 2 == 0 && Fits(x, n)
  {
    var n := 2 * (BitCount(x) / 128 + 1);
    Pow2Monotone(BitCount(x), 64 * n);
    n
  }

  /** Two more words where a number has outgrown its length. */
  function Grown(x: nat, len: nat): nat {
    if Fits(x, len) then len else len + 2
  }

  /** What outgrows a length is not larger than the modulus, so the modulus is longer. */
  lemma {:induction false} GrownFits(x: nat, len: nat, m: nat, n: nat)
    requires len % 2 == 0 && n % 2 == 0 && len <= n && x <= m && Fits(m, n) && x < Pow2(64 * len + 64)
    ensures Fits(x, Grown(x, len)) && Grown(x, len) % 2 == 0 && len <= Grown(x, len) <= n
  {
    Pow2Monotone(64 * len + 64, 64 * (len + 2));
    if !Fits(x, len) {
      Shorter(len, n, x);
    }
  }

  lemma {:induction false} Shorter(len: nat, n: nat, x: nat)
    requires !Fits(x, len) && Fits(x, n)
    ensures len < n
  {
    if n <= len { Pow2Monotone(64 * n, 64 * len); }
  }

  lemma {:induction false} FitsMonotone(x: nat, y: nat, len: nat, len': nat)
    requires x <= y && Fits(y, len) && len <= len'
    ensures Fits(x, len')
  {
    Pow2Monotone(64 * len, 64 * len');
  }

  // ----- shifts

  lemma {:induction false} ShlIsProduct(x: int, i: nat)
    ensures Shl(x, i) == x * Pow2(i)
  {
    if i != 0 {
      ShlIsProduct(x, i - 1);
      assert 2 * (x * Pow2(i - 1)) == x * (2 * Pow2(i - 1));
    }
  }

  function TrailingZeros(t: nat): (i: nat)
    requires t > 0
    ensures Pow2(i) <= t
  {
    if t % 2 == 1 then 0 else 1 + TrailingZeros(t / 2)
  }

  lemma {:induction false} OddQuotient(t: nat)
    requires t > 0
    ensures Low(t, TrailingZeros(t)) == 0 && Shr(t, TrailingZeros(t)) % 2 == 1
  {
    if t % 2 == 0 {
      OddQuotient(t / 2);
      var i := TrailingZeros(t / 2);
      Split(t / 2, i);
      SplitUnique(t, i + 1, Shr(t / 2, i), 0);
    }
  }

  /** The trailing zeros of the lowest word, if it is not zero, are those of the number. */
  lemma {:induction false} LowWordZeros(f: nat, t: nat, i: nat)
    requires t == Low(f, 64) != 0 && i == TrailingZeros(t)
    ensures i < 64 && f == Shl(Shr(f, i), i) && Shr(f, i) % 2 == 1
    ensures Shr(f, i) == 1 <==> Shr(t, i) == 1 && Shr(f, 64) == 0
  {
    Pow2Order64(i, t);
    OddQuotient(t);
    Split(t, i);
    Split(f, 64);
    HighPart(f, Shr(f, 64), Shr(t, i), i);
  }

  lemma {:induction false} HighPart(f: nat, high: nat, low: nat, i: nat)
    requires i < 64 && f == Shl(high, 64) + Shl(low, i) && low % 2 == 1
    ensures f == Shl(Shr(f, i), i) && Shr(f, i) % 2 == 1
    ensures Shr(f, i) == 1 <==> low == 1 && high == 0
  {
    var q := OddSum(high, low, 64 - i);
    ShlShl(high, 64 - i, i);
    ShlAdd(Shl(high, 64 - i), low, i);
    SplitUnique(f, i, q, 0);
  }

  lemma {:induction false} OddSum(high: nat, low: nat, n: nat) returns (q: nat)
    requires n > 0 && low % 2 == 1
    ensures q == Shl(high, n) + low && q % 2 == 1 && (q == 1 <==> low == 1 && high == 0)
  {
    ShlNat(high, n - 1);
    ShlGrows(high, n - 1);
    Pow2IsShl(n);
    q := 2 * Shl(high, n - 1) + low;
  }

  lemma {:induction false} Pow2Order64(i: nat, t: nat)
    requires Pow2(i) <= t < Pow2(64)
    ensures i < 64
  {
    if i >= 64 { Pow2Monotone(64, i); }
  }

  // ----- what the loop keeps

  function Sign(x: int, negative: bool): int {
    if negative then -x else x
  }

  /** The four numbers of the algorithm, which of b and c is to be taken negative, and the
      exponent of two. */
  datatype Rows = Rows(f: nat, g: nat, b: nat, c: nat, negative: bool, k: nat)

  /** a·b and a·c are f·2^k and g·2^k up to opposite signs, and b·g + c·f is the modulus. */
  ghost predicate Inverting(a: nat, m: nat, r: Rows) {
    && m > 0 && m % 2 == 1 && r.g % 2 == 1
    && r.b >= 1 && (r.c >= 1 || (r.b == 1 && r.g == m))
    && r.b * r.g + r.c * r.f == m
    && Congruent(a * r.b, Sign(r.f * Pow2(r.k), r.negative), m)
    && Congruent(a * r.c, Sign(r.g * Pow2(r.k), !r.negative), m)
    && (r.f == 0 ==> r.g != 1 || m == 1)
  }

  lemma {:induction false} FirstRows(a: nat, m: nat)
    requires m % 2 == 1
    ensures Inverting(a, m, Rows(a, m, 1, 0, false, 0))
  {
    assert Pow2(0) == 1;
    CongruentRefl(a, m);
    FromWitness(0, 0 - 1 * m, 1, m);
  }

  /** b and c never exceed the modulus. */
  lemma {:induction false} RowsBounded(a: nat, m: nat, r: Rows)
    requires Inverting(a, m, r)
    ensures r.b <= m && (r.f > 0 ==> r.c <= m)
  {
    MulAtLeast(r.b, r.g, r.b, 1);
    MulAtLeast(r.c, r.f, 0, 0);
    if r.f > 0 {
      MulAtLeast(r.c, r.f, r.c, 1);
    }
  }

  /** f loses i zeros at the end, and c gains them. */
  lemma {:induction false} ShiftRows(a: nat, m: nat, r: Rows, f: nat, i: nat)
    requires Inverting(a, m, r) && r.f == Shl(f, i) > 0
    ensures Shl(r.c, i) >= 0 && Inverting(a, m, Rows(f, r.g, r.b, Shl(r.c, i), r.negative, r.k + i))
  {
    var h, P := Pow2(i), Pow2(r.k);
    ShlNat(r.c, i);
    ShlIsProduct(f, i);
    ShlIsProduct(r.c, i);
    ShlIsProduct(P, i);
    Pow2Add(r.k, i);
    ShiftedFactors(f, r.c, h, P);
    ShiftedCongruence(a, r.c, r.g, h, P, !r.negative, m);
    if r.c >= 1 { MulAtLeast(r.c, h, 1, 1); }
  }

  lemma {:induction false} ShiftedFactors(f: nat, c: nat, h: nat, P: nat)
    ensures (f * h) * P == f * (P * h) && c * (f * h) == (c * h) * f
  {
    assert (f * h) * P == f * (h * P);
    assert c * (f * h) == (c * f) * h == (c * h) * f;
  }

  lemma {:induction false} ShiftedCongruence(a: nat, c: nat, g: nat, h: nat, P: nat, negative: bool, m: nat)
    requires m > 0 && Congruent(a * c, Sign(g * P, negative), m)
    ensures Congruent(a * (c * h), Sign(g * (P * h), negative), m)
  {
    CongruentScale(a * c, Sign(g * P, negative), h, m);
    assert (a * c) * h == a * (c * h);
    assert (g * P) * h == g * (P * h) && (-(g * P)) * h == -(g * (P * h));
  }

  function Swapped(r: Rows): Rows {
    Rows(r.g, r.f, r.c, r.b, !r.negative, r.k)
  }

  /** The smaller of two odd numbers is taken from the larger one. */
  function Subtracted(r: Rows): Rows
    requires r.f >= r.g
  {
    Rows(r.f - r.g, r.g, r.b + r.c, r.c, r.negative, r.k)
  }

  lemma {:induction false} SubtractRows(a: nat, m: nat, r: Rows)
    requires Inverting(a, m, r) && r.f % 2 == 1 && r.f >= r.g && r.f != 1
    ensures Inverting(a, m, Subtracted(r))
  {
    SameModulus(r.b, r.c, r.f, r.g, m);
    SubtractCongruences(a, m, r.b, r.c, r.f, r.g, Pow2(r.k), r.negative);
  }

  lemma {:induction false} SwapSubtractRows(a: nat, m: nat, r: Rows)
    requires Inverting(a, m, r) && r.f % 2 == 1 && r.f < r.g
    ensures Inverting(a, m, Subtracted(Swapped(r)))
  {
    SameModulus(r.c, r.b, r.g, r.f, m);
    SubtractCongruences(a, m, r.c, r.b, r.g, r.f, Pow2(r.k), !r.negative);
  }

  lemma {:induction false} SameModulus(b: nat, c: nat, f: nat, g: nat, m: nat)
    requires b * g + c * f == m && f >= g
    ensures (b + c) * g + c * (f - g) == m
  {
    assert (b + c) * g == b * g + c * g;
    assert c * (f - g) == c * f - c * g;
  }

  lemma {:induction false} SubtractCongruences(a: nat, m: nat, b: nat, c: nat, f: nat, g: nat, P: nat, negative: bool)
    requires m > 0 && f >= g
    requires Congruent(a * b, Sign(f * P, negative), m) && Congruent(a * c, Sign(g * P, !negative), m)
    ensures Congruent(a * (b + c), Sign((f - g) * P, negative), m)
  {
    CongruentAdd(a * b, Sign(f * P, negative), a * c, Sign(g * P, !negative), m);
    assert a * (b + c) == a * b + a * c;
    assert (f - g) * P == f * P - g * P;
  }

  // ----- where it ends

  /** Two is invertible modulo an odd number, and so are its powers. */
  lemma {:induction false} OddCancels(x: int, P: nat, k: nat, m: nat)
    requires m % 2 == 1 && P == Pow2(k) && Congruent(x * P, 0, m)
    ensures Congruent(x, 0, m)
    decreases k
  {
    if k != 0 {
      var j := Witness(x * P, 0, m);
      var y := x * Pow2(k - 1);
      assert x * P == 2 * y;
      var half := HalfWitness(y, j, m);
      FromWitness(y, 0, half, m);
      OddCancels(x, Pow2(k - 1), k - 1, m);
    }
  }

  lemma {:induction false} HalfWitness(y: int, j: int, m: nat) returns (half: int)
    requires m % 2 == 1 && 2 * y == j * m
    ensures y == half * m
  {
    var n := m / 2;
    half := y - j * n;
    assert j * m == 2 * (j * n) + j by {
      assert j * (2 * n + 1) == 2 * (j * n) + j;
    }
    assert j * m == 2 * (half * m) by {
      assert j == 2 * half;
      assert (2 * half) * m == 2 * (half * m);
    }
  }

  /** A power of two is a unit modulo an odd number: what multiplies a to one of them shows that
      a is coprime to it. */
  lemma {:induction false} HitsPowerOfTwo(a: nat, r: nat, k: nat, m: nat)
    requires m % 2 == 1 && Congruent(r * a, Pow2(k), m)
    ensures Coprime(a, m)
  {
    var w := Witness(r * a, Pow2(k), m);
    forall d: nat | d > 0 && Divides(d, a) && Divides(d, m) ensures d == 1 {
      var i := Quotient(d, a);
      var j := Quotient(d, m);
      assert r * (i * d) - w * (j * d) == (r * i - w * j) * d;
      MultipleMod(r * i - w * j, d);
      OddDivisor(d, j, m);
      OddDividesPower(d, k);
    }
  }

  lemma {:induction false} OddDivisor(d: nat, j: int, m: nat)
    requires m % 2 == 1 && m == j * d
    ensures d % 2 == 1
  {
    EvenProduct(j, d / 2);
    assert d == 2 * (d / 2) + d % 2;
  }

  lemma {:induction false} EvenProduct(j: int, e: nat)
    ensures (j * (2 * e)) % 2 == 0
  {
    assert j * (2 * e) == 2 * (j * e);
  }

  lemma {:induction false} OddDividesPower(d: nat, k: nat)
    requires d % 2 == 1 && Divides(d, Pow2(k))
    ensures d == 1
  {
    assert 1 * Pow2(k) == Pow2(k);
    CongruentZero(Pow2(k), d);
    OddCancels(1, Pow2(k), k, d);
    DividesOne(d);
  }

  lemma {:induction false} CongruentZero(x: int, d: nat)
    requires d > 0
    ensures Divides(d, x) <==> Congruent(x, 0, d)
  {
  }

  /** When f has become one, b or its negative is the almost inverse. */
  lemma {:induction false} AtOne(a: nat, m: nat, r: Rows, result: nat)
    requires Inverting(a, m, r) && r.f == 1 && r.b <= m
    requires result == if r.negative then m - r.b else r.b
    ensures Congruent(result * a, Pow2(r.k), m) && Coprime(a, m)
    ensures m > 1 ==> 1 <= result < m
  {
    Below(r.b, r.c, r.g, m);
    Commuted(a, r.b);
    if r.negative {
      Negated(a, r.b, Pow2(r.k), m);
    }
    HitsPowerOfTwo(a, result, r.k, m);
  }

  lemma {:induction false} Commuted(a: int, b: int)
    ensures a * b == b * a
  {
  }

  lemma {:induction false} Negated(a: nat, b: nat, P: int, m: nat)
    requires m > 0 && b <= m && Congruent(a * b, -P, m)
    ensures Congruent((m - b) * a, P, m)
  {
    FromWitness(m * a, 0, a, m);
    CongruentAdd(m * a, 0, a * b, -P, m);
    assert (m - b) * a == m * a - a * b;
  }

  lemma {:induction false} Below(b: nat, c: nat, g: nat, m: nat)
    requires b * g + c * 1 == m && b >= 1 && g % 2 == 1 && (c >= 1 || (b == 1 && g == m))
    ensures m > 1 ==> b < m
  {
    MulAtLeast(b, g, b, 1);
  }

  /** When f has become zero there is no inverse. */
  lemma {:induction false} AtZero(a: nat, m: nat, r: Rows)
    requires Inverting(a, m, r) && r.f == 0 && m > 1
    ensures !Coprime(a, m)
  {
    assert r.b * r.g == m;
    if Coprime(a, m) {
      var i := CoprimeIsUnit(a, m);
      CongruentScale(a * r.b, 0, i, m);
      CongruentScale(a * i, 1, r.b, m);
      assert (a * r.b) * i == (a * i) * r.b;
      CongruentSymm((a * i) * r.b, r.b, m);
      CongruentTrans(r.b, (a * i) * r.b, 0, m);
      var j := Witness(r.b, 0, m);
      MulSign(j, m);
      assert r.b >= m;
      MulAtLeast(r.b, r.g, m, 2);
    }
  }

  // ----- the algorithm

  /** Zero words at the end of f. Nothing is left to shift when f is zero. */
  method ShiftWords(a: nat, m: nat, n: nat, r: Rows, len: nat) returns (r': Rows, len': nat)
    requires Inverting(a, m, r) && Fits(m, n) && n % 2 == 0
    requires len % 2 == 0 && 2 <= len <= n && Fits(r.b, len) && Fits(r.c, len)
    ensures Inverting(a, m, r') && r'.g == r.g && r'.b == r.b && r'.f <= r.f && r'.negative == r.negative
    ensures len' % 2 == 0 && len <= len' <= n && Fits(r'.b, len') && Fits(r'.c, len')
    ensures r'.f == 0 || Low(r'.f, 64) != 0
  {
    r', len' := r, len;
    while Low(r'.f, 64) == 0
      invariant Inverting(a, m, r') && r'.g == r.g && r'.b == r.b && r'.f <= r.f && r'.negative == r.negative
      invariant len' % 2 == 0 && len <= len' <= n && Fits(r'.c, len')
      decreases r'.f
    {
      if r'.f == 0 { break; }
      r', len' := ShiftWord(a, m, n, r', len');
    }
    FitsMonotone(r.b, r.b, len, len');
  }

  method ShiftWord(a: nat, m: nat, n: nat, r: Rows, len: nat) returns (r': Rows, len': nat)
    requires Inverting(a, m, r) && Fits(m, n) && n % 2 == 0 && r.f > 0 && Low(r.f, 64) == 0
    requires len % 2 == 0 && 2 <= len <= n && Fits(r.c, len)
    ensures Inverting(a, m, r') && r'.g == r.g && r'.b == r.b && r'.f < r.f && r'.negative == r.negative
    ensures len' % 2 == 0 && len <= len' <= n && Fits(r'.c, len')
  {
    var f := Shr(r.f, 64);
    Split(r.f, 64);
    ShiftRows(a, m, r, f, 64);
    Halved(r.f, f, 64);
    r' := Rows(f, r.g, r.b, Shl(r.c, 64), r.negative, r.k + 64);
    len' := if Fits(r.c, len - 1) then len else len + 2;
    RowsBounded(a, m, r');
    ShiftedFits(r.c, r'.c, len, m, n);
  }

  lemma {:induction false} ShiftedFits(c: nat, c': nat, len: nat, m: nat, n: nat)
    requires len % 2 == 0 && 2 <= len <= n && n % 2 == 0 && Fits(c, len) && c' == Shl(c, 64) && c' <= m && Fits(m, n)
    ensures var len' := if Fits(c, len - 1) then len else len + 2;
            len' % 2 == 0 && len <= len' <= n && Fits(c', len')
  {
    WordAdded(c, len);
    GrownFits(c', len, m, n);
  }

  lemma {:induction false} Halved(x: nat, y: nat, i: nat)
    requires x == Shl(y, i) && x > 0 && i > 0
    ensures 0 < y < x
  {
    if y == 0 { Pow2IsShl(i); }
    ShlNat(y, i - 1);
    ShlGrows(y, i - 1);
  }

  lemma {:induction false} ShlGrows(y: nat, i: nat)
    ensures Shl(y, i) >= y
  {
    if i != 0 { ShlGrows(y, i - 1); }
  }

  /** The test on the top word tells whether a number shifted by a word still fits. */
  lemma {:induction false} WordAdded(c: nat, len: nat)
    requires len >= 2 && Fits(c, len)
    ensures 0 <= Shl(c, 64) < Pow2(64 * len + 64) && (Fits(c, len - 1) <==> Fits(Shl(c, 64), len))
  {
    ShlNat(c, 64);
    ShiftedBelow(c, 64 * len, 64);
    ShiftedBelow(c, 64 * (len - 1), 64);
  }

  lemma {:induction false} ShiftedBelow(c: nat, n: nat, i: nat)
    ensures c < Pow2(n) <==> Shl(c, i) < Pow2(n + i)
  {
    Pow2Add(n, i);
    ShlMonotone(Pow2(n), c, i);
  }

  /** Both lengths hold what they are kept for. */
  ghost predicate LengthsHold(m: nat, n: nat, r: Rows, bcLen: nat, fgLen: nat) {
    && n % 2 == 0 && bcLen % 2 == 0 && fgLen % 2 == 0
    && 2 <= bcLen <= n && 2 <= fgLen <= n && Fits(m, n)
    && Fits(r.b, bcLen) && Fits(r.c, bcLen) && Fits(r.f, fgLen) && Fits(r.g, fgLen)
  }

  /** `TrailingZeros(t)` zeros more. */
  method ShiftBits(a: nat, m: nat, n: nat, r: Rows, bcLen: nat, fgLen: nat, i: nat) returns (r': Rows, len: nat)
    requires Inverting(a, m, r) && LengthsHold(m, n, r, bcLen, fgLen)
    requires r.f > 0 && r.f == Shl(Shr(r.f, i), i) && Shr(r.f, i) % 2 == 1 && i < 64
    ensures Inverting(a, m, r') && LengthsHold(m, n, r', len, fgLen)
    ensures r'.f == Shr(r.f, i) <= r.f && r'.g == r.g && r'.b == r.b && r'.negative == r.negative && r'.k == r.k + i
  {
    var f := Shr(r.f, i);
    ShiftRows(a, m, r, f, i);
    ShlGrows(f, i);
    r' := Rows(f, r.g, r.b, Shl(r.c, i), r.negative, r.k + i);
    len := Grown(r'.c, bcLen);
    RowsBounded(a, m, r');
    BitsAdded(r.c, i, bcLen);
    GrownFits(r'.c, bcLen, m, n);
    FitsMonotone(r.b, r.b, bcLen, len);
    FitsMonotone(r.b, r.b, bcLen, len);
    FitsMonotone(f, r.f, fgLen, fgLen);
  }

  lemma {:induction false} BitsAdded(c: nat, i: nat, len: nat)
    requires Fits(c, len) && i < 64
    ensures 0 <= Shl(c, i) < Pow2(64 * len + 64)
  {
    ShlNat(c, i);
    ShiftedBelow(c, 64 * len, i);
    Pow2Monotone(64 * len + i, 64 * len + 64);
  }

  /** The larger of f and g becomes f, and the smaller is subtracted from it. Where the larger
      one has two zero words on top, both do. */
  method SwapAndSubtract(a: nat, m: nat, n: nat, r: Rows, bcLen: nat, fgLen: nat)
    returns (r': Rows, bcLen': nat, fgLen': nat)
    requires Inverting(a, m, r) && LengthsHold(m, n, r, bcLen, fgLen) && r.f % 2 == 1 && r.f != 1
    ensures Inverting(a, m, r') && LengthsHold(m, n, r', bcLen', fgLen')
    ensures r'.f + r'.g < r.f + r.g
  {
    var larger := if r.f < r.g then Swapped(r) else r;
    fgLen' := Shortened(larger.f, fgLen);
    if r.f < r.g { SwapSubtractRows(a, m, r); } else { SubtractRows(a, m, r); }
    r' := Subtracted(larger);
    bcLen' := Grown(r'.b, bcLen);
    RowsBounded(a, m, r');
    SumFits(r'.b, bcLen);
    GrownFits(r'.b, bcLen, m, n);
    FitsMonotone(larger.c, larger.c, bcLen, bcLen');
  }

  /** Two words less where they are zero. */
  function Shortened(f: nat, len: nat): (len': nat)
    requires f > 0 && len >= 2 && len % 2 == 0 && Fits(f, len)
    ensures 2 <= len' <= len && len' % 2 == 0 && Fits(f, len')
  {
    assert Pow2(0) == 1;
    if Fits(f, len - 2) then len - 2 else len
  }

  lemma {:induction false} SumFits(sum: nat, len: nat)
    requires sum < 2 * Pow2(64 * len)
    ensures sum < Pow2(64 * len + 64)
  {
    Pow2Monotone(64 * len + 1, 64 * len + 64);
  }

  /** 2^k times the reduced inverse of a; zero if there is none. */
  ghost predicate IsAlmostInverse(result: nat, k: nat, a: nat, m: nat)
    requires m > 0
  {
    if Coprime(a, m) then Congruent(result * a, Pow2(k), m) && (m > 1 ==> 1 <= result < m) else result == k == 0
  }

  /** The loop of `AlmostInverse`: the inverse of a modulo an odd number, times 2^k; zero if there
      is none. */
  method ReduceRows(a: nat, m: nat, n: nat) returns (result: nat, k: nat)
    requires m % 2 == 1 && n % 2 == 0 && Fits(m, n) && Fits(a, EvenWordCount(m, n))
    ensures IsAlmostInverse(result, k, a, m)
  {
    var r, bcLen, fgLen := Rows(a, m, 1, 0, false, 0), 2, EvenWordCount(m, n);
    FirstRows(a, m);
    SmallFits();
    while true
      invariant Inverting(a, m, r) && LengthsHold(m, n, r, bcLen, fgLen)
      decreases r.f + r.g
    {
      ghost var before := r;
      r, bcLen := ShiftWords(a, m, n, r, bcLen);
      if r.f == 0 {
        result, k := 0, 0;
        Nothing(a, m, r, result, k);
        return;
      }
      var t := Low(r.f, 64);
      var i := TrailingZeros(t);
      LowWordZeros(r.f, t, i);
      if Shr(t, i) == 1 && Shr(r.f, 64) == 0 {
        RowsBounded(a, m, r);
        result, k := if r.negative then m - r.b else r.b, r.k + i;
        Found(a, m, r, i, result, k);
        return;
      }
      r, bcLen := ShiftBits(a, m, n, r, bcLen, fgLen, i);
      r, bcLen, fgLen := SwapAndSubtract(a, m, n, r, bcLen, fgLen);
    }
  }

  /** What `AlmostInverse` sees of a: as many words as the modulus has without leading zeros. */
  function Seen(a: nat, m: nat, n: nat): (f: nat)
    requires n % 2 == 0 && Fits(m, n)
    ensures Fits(f, EvenWordCount(m, n))
    ensures Fits(a, EvenWordCount(m, n)) ==> f == a
  {
    var P := Pow2(64 * EvenWordCount(m, n));
    if a < P then a else a % P
  }

  /** The inverse of what is seen of a, modulo an odd number and times 2^k; zero if there is none. */
  method AlmostInverse(a: nat, m: nat, n: nat) returns (result: nat, k: nat)
    requires m % 2 == 1 && n % 2 == 0 && Fits(m, n) && Fits(a, n)
    ensures IsAlmostInverse(result, k, Seen(a, m, n), m)
  {
    result, k := ReduceRows(Seen(a, m, n), m, n);
  }

  lemma {:induction false} SmallFits()
    ensures Fits(1, 2) && Fits(0, 2)
  {
    Pow2Monotone(1, 128);
  }

  lemma {:induction false} Found(a: nat, m: nat, r: Rows, i: nat, result: nat, k: nat)
    requires Inverting(a, m, r) && r.f == Shl(1, i) > 0 && r.b <= m && k == r.k + i
    requires result == if r.negative then m - r.b else r.b
    ensures IsAlmostInverse(result, k, a, m)
  {
    ShiftRows(a, m, r, 1, i);
    AtOne(a, m, Rows(1, r.g, r.b, Shl(r.c, i), r.negative, k), result);
  }

  /** Modulo one everything is congruent. */
  lemma {:induction false} Nothing(a: nat, m: nat, r: Rows, result: nat, k: nat)
    requires Inverting(a, m, r) && r.f == result == k == 0
    ensures IsAlmostInverse(result, k, a, m)
  {
    if m > 1 {
      AtZero(a, m, r);
    }
  }

  /** The power of two is divided out, by adding the odd modulus where the number is odd. */
  method DivideByPower2Mod(a: nat, k: nat, m: nat) returns (result: nat)
    requires m % 2 == 1
    ensures Congruent(result * Pow2(k), a, m)
    ensures a == 0 && k == 0 ==> result == 0
    ensures 1 <= a < m ==> 1 <= result < m
  {
    result := a;
    assert result * Pow2(0) == result;
    CongruentRefl(a, m);
    var i := 0;
    while i < k
      invariant 0 <= i <= k && Congruent(result * Pow2(i), a, m)
      invariant a == 0 && k == 0 ==> result == 0
      invariant 1 <= a < m ==> 1 <= result < m
    {
      var before := result;
      result := if result % 2 == 0 then result / 2 else (result + m) / 2;
      HalfModulo(before, result, Pow2(i), a, m);
      i := i + 1;
    }
  }

  lemma {:induction false} HalfModulo(x: nat, half: nat, P: nat, a: nat, m: nat)
    requires m > 0 && Congruent(x * P, a, m) && (2 * half == x || 2 * half == x + m)
    ensures Congruent(half * (2 * P), a, m)
  {
    assert half * (2 * P) == (2 * half) * P;
    if 2 * half != x {
      assert (x + m) * P == x * P + P * m;
      FromWitness((2 * half) * P, x * P, P, m);
      CongruentTrans((2 * half) * P, x * P, a, m);
    }
  }

  /** The reduced inverse of a, or zero if there is none; zero modulo zero. */
  ghost predicate IsInverse(u: int, a: int, m: nat) {
    if m > 0 && Coprime(a, m) then Congruent(u * a, 1, m) && (m > 1 ==> 1 <= u < m) else u == 0
  }

  /** A quotient of almost inverses is an inverse. */
  lemma {:induction false} InverseFromAlmost(a: nat, r: nat, k: nat, result: nat, m: nat)
    requires m % 2 == 1 && Congruent(r * a, Pow2(k), m) && Congruent(result * Pow2(k), r, m)
    ensures Congruent(result * a, 1, m)
  {
    var P := Pow2(k);
    CongruentScale(result * P, r, a, m);
    CongruentTrans((result * P) * a, r * a, P, m);
    assert (result * P) * a == (result * a) * P;
    CongruentRefl(P, m);
    CongruentAdd((result * a) * P, P, P, P, m);
    assert (result * a) * P - P == (result * a - 1) * P;
    OddCancels(result * a - 1, P, k, m);
  }

  method InverseModOdd(a: nat, m: nat, n: nat) returns (result: nat)
    requires m % 2 == 1 && n % 2 == 0 && Fits(m, n) && Fits(a, n)
    ensures IsInverse(result, Seen(a, m, n), m)
  {
    var r, k := AlmostInverse(a, m, n);
    result := DivideByPower2Mod(r, k, m);
    ghost var f := Seen(a, m, n);
    if Coprime(f, m) {
      InverseFromAlmost(f, r, k, result, m);
    }
  }

  // ----- even moduli

  lemma {:induction false} SameCommonDivisors(a: int, b: int, m: nat)
    requires m > 0 && Congruent(a, b, m)
    ensures Coprime(a, m) <==> Coprime(b, m)
  {
    if Coprime(b, m) { CoprimeOf(a, b, m); }
    if Coprime(a, m) {
      CongruentSymm(a, b, m);
      CoprimeOf(b, a, m);
    }
  }

  lemma {:induction false} CoprimeOf(a: int, b: int, m: int)
    requires m > 0 && Coprime(b, m) && Congruent(a, b, m)
    ensures Coprime(a, m)
  {
    var k := Witness(a, b, m);
    forall d: nat | d > 0 && Divides(d, a) && Divides(d, m) ensures d == 1 {
      DividesLinear(d, a, m, k);
      assert Divides(d, b);
    }
  }

  lemma {:induction false} CoprimeSymm(a: int, b: int)
    ensures Coprime(a, b) <==> Coprime(b, a)
  {
  }

  lemma {:induction false} BothEven(a: int, m: int)
    requires a % 2 == 0 && m % 2 == 0
    ensures !Coprime(a, m)
  {
    assert Divides(2, a) && Divides(2, m);
  }

  /** From the inverse u of m modulo a to that of a modulo m. */
  lemma {:induction false} Exchanged(a: nat, m: nat, u: nat, result: nat)
    requires a > 1 && m > 1 && 1 <= u < a && Congruent(u * m, 1, a) && result == (m * (a - u) + 1) / a
    ensures Congruent(result * a, 1, m) && 1 <= result < m
  {
    var j := Witness(u * m, 1, a);
    assert m * (a - u) + 1 == (m - j) * a by {
      assert m * (a - u) == m * a - u * m;
      assert (m - j) * a == m * a - j * a;
    }
    Exact(m - j, a);
    assert result == m - j;
    assert result * a == 1 + (a - u) * m by { assert m * (a - u) == (a - u) * m; }
    FromWitness(result * a, 1, a - u, m);
    MulAtLeast(m, a - u, m, 1);
    MulSign(m - j, a);
    MulAtLeast(u, m, 1, m);
    MulSign(j, a);
  }

  lemma {:induction false} Exact(q: int, a: int)
    requires a > 0
    ensures (q * a) / a == q
  {
    var r := (q * a) % a;
    MultipleMod(q, a);
    var k := (q * a) / a;
    assert k * a == q * a;
    MulSign(k - q, a);
    assert (k - q) * a == 0;
  }

  lemma {:induction false} ModuloFits(a: int, m: nat, n: nat)
    requires m > 0 && n % 2 == 0 && Fits(m, n)
    ensures Fits(a % m, EvenWordCount(m, n)) && Fits(a % m, n)
    ensures Congruent(a % m, a, m) && (Coprime(a % m, m) <==> Coprime(a, m))
  {
    ModCongruent(a, m);
    SameCommonDivisors(a % m, a, m);
  }

  lemma {:induction false} ForNegative(a: int, m: nat, inverse: nat)
    requires m > 0 && Congruent(inverse * (a % m), 1, m)
    ensures Congruent(inverse * a, 1, m)
  {
    ModCongruent(a, m);
    CongruentScale(a, a % m, inverse, m);
    CongruentTrans(inverse * a, inverse * (a % m), 1, m);
  }

  /** What the even case makes of the inverse u of m modulo a. */
  function Exchange(a: nat, m: nat, u: nat): nat
    requires 0 < a && u <= a
  {
    if u == 0 then 0
    else
      MulAtLeast(m, a - u, 0, 0);
      Exact(0, a);
      (m * (a - u) + 1) / a
  }

  /** The even case, from what the exchanged call returns. */
  lemma {:induction false} ForEven(a: nat, m: nat, u: nat, result: nat)
    requires a > 1 && m > 1 && u <= a && result == Exchange(a, m, u)
    requires IsInverse(u, m % a, a)
    ensures IsInverse(result, a, m)
  {
    ModCongruent(m, a);
    SameCommonDivisors(m % a, m, a);
    CoprimeSymm(a, m);
    if Coprime(a, m) {
      ForNegative(m, a, u);
      Exchanged(a, m, u, result);
    }
  }

  /** The inverse of a modulo m, or zero where there is none; of numbers longer than an odd
      modulus, counted in pairs of words, only the end is looked at. Negative numbers are reduced
      first, which modulo zero is a division by zero. `sizeOfA` and `n` are the words of the two
      buffers, and modulo an odd number a must fit into its buffer. */
  method InverseMod(a: int, sizeOfA: nat, m: nat, n: nat) returns (r: Option<nat>)
    requires n % 2 == 0 && Fits(m, n) && sizeOfA % 2 == 0 && (a >= 0 ==> Fits(a, sizeOfA))
    requires a >= 0 && m % 2 == 1 ==> Fits(a, n)
    ensures r.None? <==> a < 0 && m == 0
    ensures r.Some? ==> IsInverse(r.value, if a >= 0 && m % 2 == 1 then Seen(a, m, n) else a, m)
    decreases if a < 0 then 2 else if m % 2 == 0 then 1 else 0
  {
    if a < 0 {
      if m == 0 { return None; }
      ModuloFits(a, m, n);
      r := InverseMod(a % m, n, m, n);
      if Coprime(a, m) { ForNegative(a, m, r.value); }
    } else if m % 2 == 0 {
      r := InverseModEven(a, sizeOfA, m, n);
    } else {
      var result := InverseModOdd(a, m, n);
      r := Some(result);
    }
  }

  method InverseModEven(a: nat, sizeOfA: nat, m: nat, n: nat) returns (r: Option<nat>)
    requires n % 2 == 0 && Fits(m, n) && sizeOfA % 2 == 0 && Fits(a, sizeOfA) && m % 2 == 0
    ensures r.Some? && IsInverse(r.value, a, m)
    decreases 1, 0
  {
    if m == 0 { return Some(0); }
    if a % 2 == 0 {
      BothEven(a, m);
      return Some(0);
    }
    if a == 1 {
      OneIsCoprime(m);
      return Some(1);
    }
    ModuloFits(m, a, sizeOfA);
    var inner := InverseMod(m % a, sizeOfA, a, sizeOfA);
    var u := inner.value;
    r := Some(Exchange(a, m, u));
    ForEven(a, m, u, r.value);
  }

  lemma {:induction false} OneIsCoprime(m: nat)
    requires m > 0
    ensures Coprime(1, m) && Congruent(1, 1, m)
  {
    CongruentRefl(1, m);
    forall d: nat | d > 0 && Divides(d, 1) && Divides(d, m) ensures d == 1 {
      DividesOne(d);
    }
  }

  // ----- numbers longer than the modulus

  /** What is done for the end of a number is right for the number exactly if both are the same
      modulo m, or both without inverse. */
  lemma {:induction false} RightForLonger(result: nat, f: nat, a: nat, m: nat)
    requires m > 1 && IsInverse(result, f, m)
    ensures IsInverse(result, a, m) <==> Congruent(f, a, m) || (!Coprime(f, m) && !Coprime(a, m))
  {
    if Congruent(f, a, m) {
      SameCommonDivisors(f, a, m);
      CongruentScale(f, a, result, m);
      CongruentSymm(result * f, result * a, m);
      if Coprime(f, m) { CongruentTrans(result * a, result * f, 1, m); }
    } else if Coprime(f, m) && IsInverse(result, a, m) {
      SameInverse(result, f, a, m);
    }
  }

  /** What has the same inverse is the same. */
  lemma {:induction false} SameInverse(u: int, f: int, a: int, m: nat)
    requires m > 1 && Congruent(u * f, 1, m) && Congruent(u * a, 1, m)
    ensures Congruent(f, a, m)
  {
    CongruentScale(u * a, 1, f, m);
    CongruentScale(u * f, 1, a, m);
    assert (u * a) * f == (u * f) * a;
    CongruentSymm((u * a) * f, 1 * f, m);
    CongruentTrans(f, (u * f) * a, a, m);
  }

  /** Numbers for which it is not: for any even number of words, the largest modulus that they
      hold, with two words of leading zeros, and one more than it. That is congruent to one, and
      its inverse comes out as zero. */
  method LongerNumber(words: nat, P: nat) returns (r: Option<nat>)
    requires words >= 2 && words % 2 == 0 && P == Pow2(64 * words)
    ensures Congruent(P, 1, P - 1) && r == Some(0)
  {
    LongerFits(words, P);
    LeadingZeros(words, P);
    FromWitness(P, 1, 1, P - 1);
    r := InverseMod(P, words + 2, P - 1, words + 2);
    NoInverse(r.value, Seen(P, P - 1, words + 2), P - 1);
  }

  lemma {:induction false} LongerFits(words: nat, P: nat)
    requires words >= 2 && words % 2 == 0 && P == Pow2(64 * words)
    ensures P > 2 && (P - 1) % 2 == 1 && Fits(P, words + 2) && Fits(P - 1, words + 2)
  {
    Pow2Monotone(1, 64 * words - 1);
    Pow2Monotone(64 * words + 1, 64 * (words + 2));
  }

  lemma {:induction false} LeadingZeros(words: nat, P: nat)
    requires words >= 2 && words % 2 == 0 && P == Pow2(64 * words) && Fits(P - 1, words + 2)
    ensures Seen(P, P - 1, words + 2) == 0
  {
    assert EvenWordCount(P - 1, words + 2) == EvenWordCount(P - 1, words);
    assert !Fits(P - 1, words - 2) by { Pow2Monotone(64 * (words - 2), 64 * words - 1); }
    assert EvenWordCount(P - 1, words) == words;
    MultipleMod(1, P);
  }

  lemma {:induction false} NoInverse(u: nat, f: nat, m: nat)
    requires m > 1 && f == 0 && IsInverse(u, f, m)
    ensures u == 0
  {
    MultipleMod(0, m);
    MultipleMod(1, m);
    assert Divides(m, f) && Divides(m, m);
  }
}
