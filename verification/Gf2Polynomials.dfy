/** Polynomials over GF(2), as non-negative integers whose binary digits are the coefficients. */
module Gf2Polynomials {
  import opened Bits

  /** Addition: `^`. */
  function Xor(a: nat, b: nat): nat
    decreases a + b
  {
    if a == 0 && b == 0 then 0 else 2 * Xor(a / 2, b / 2) + (a % 2 + b % 2) % 2
  }

  /** Multiplication without carries. */
  function Times(a: nat, b: nat): nat {
    if b == 0 then 0 else Xor(if b % 2 == 1 then a else 0, 2 * Times(a, b / 2))
  }

  // ----- addition

  lemma {:induction false} XorBits(a: nat, b: nat)
    ensures Xor(a, b) / 2 == Xor(a / 2, b / 2) && Xor(a, b) % 2 == (a % 2 + b % 2) % 2
  {
  }

  lemma {:induction false} XorZero(a: nat)
    ensures Xor(a, 0) == a && Xor(0, a) == a
  {
    if a != 0 { XorZero(a / 2); }
  }

  lemma {:induction false} XorSelf(a: nat)
    ensures Xor(a, a) == 0
  {
    if a != 0 { XorSelf(a / 2); }
  }

  lemma {:induction false} XorComm(a: nat, b: nat)
    ensures Xor(a, b) == Xor(b, a)
    decreases a + b
  {
    if a != 0 || b != 0 { XorComm(a / 2, b / 2); }
  }

  /** One digit at a time. */
  lemma {:induction false} XorDigit(a: nat, b: nat, high: nat, high': nat, x: nat, y: nat)
    requires a == 2 * high + x && b == 2 * high' + y && x < 2 && y < 2
    ensures Xor(a, b) == 2 * Xor(high, high') + (x + y) % 2
  {
    assert a / 2 == high && b / 2 == high';
  }

  lemma {:induction false} ThreeDigitsLeft(a: nat, b: nat, c: nat)
    ensures Xor(Xor(a, b), c) == 2 * Xor(Xor(a / 2, b / 2), c / 2) + (a % 2 + b % 2 + c % 2) % 2
  {
    XorDigit(a, b, a / 2, b / 2, a % 2, b % 2);
    XorDigit(Xor(a, b), c, Xor(a / 2, b / 2), c / 2, (a % 2 + b % 2) % 2, c % 2);
  }

  lemma {:induction false} ThreeDigitsRight(a: nat, b: nat, c: nat)
    ensures Xor(a, Xor(b, c)) == 2 * Xor(a / 2, Xor(b / 2, c / 2)) + (a % 2 + b % 2 + c % 2) % 2
  {
    XorDigit(b, c, b / 2, c / 2, b % 2, c % 2);
    XorDigit(a, Xor(b, c), a / 2, Xor(b / 2, c / 2), a % 2, (b % 2 + c % 2) % 2);
  }

  lemma {:induction false} XorAssoc(a: nat, b: nat, c: nat)
    ensures Xor(Xor(a, b), c) == Xor(a, Xor(b, c))
    decreases a + b + c
  {
    if a != 0 || b != 0 || c != 0 {
      XorAssoc(a / 2, b / 2, c / 2);
      ThreeDigitsLeft(a, b, c);
      ThreeDigitsRight(a, b, c);
    }
  }

  lemma {:induction false} XorDouble(a: nat, b: nat)
    ensures Xor(2 * a, 2 * b) == 2 * Xor(a, b)
  {
  }

  /** (a + b) + (c + d) == (a + c) + (b + d) */
  lemma {:induction false} XorSwap(a: nat, b: nat, c: nat, d: nat)
    ensures Xor(Xor(a, b), Xor(c, d)) == Xor(Xor(a, c), Xor(b, d))
  {
    XorAssoc(a, b, Xor(c, d));
    XorAssoc(b, c, d);
    XorComm(b, c);
    XorAssoc(c, b, d);
    XorAssoc(a, c, Xor(b, d));
  }

  /** Adding the same thing twice changes nothing. */
  lemma {:induction false} XorCancel(a: nat, b: nat)
    ensures Xor(Xor(a, b), b) == a
  {
    XorAssoc(a, b, b);
    XorSelf(b);
    XorZero(a);
  }

  lemma {:induction false} XorShl(a: nat, b: nat, s: nat)
    ensures Shl(a, s) >= 0 && Shl(b, s) >= 0 && Xor(Shl(a, s), Shl(b, s)) == Shl(Xor(a, b), s)
  {
    if s != 0 {
      XorShl(a, b, s - 1);
      XorDouble(Shl(a, s - 1), Shl(b, s - 1));
    }
  }

  /** Splitting the leading term off. */
  lemma {:induction false} LeadingTerm(x: nat, n: nat)
    requires x < Pow2(n)
    ensures Pow2(n) + x == Xor(Pow2(n), x)
  {
    if n == 0 {
      assert Xor(1, 0) == 1;
    } else {
      LeadingTerm(x / 2, n - 1);
    }
  }

  /** Putting low parts below high parts. */
  lemma {:induction false} XorShlAdd(a: nat, b: nat, low: nat, low': nat, n: nat)
    requires low < Pow2(n) && low' < Pow2(n)
    ensures Shl(a, n) >= 0 && Shl(b, n) >= 0
    ensures Xor(Shl(a, n) + low, Shl(b, n) + low') == Shl(Xor(a, b), n) + Xor(low, low')
  {
    ShlNat(a, n);
    ShlNat(b, n);
    if n == 0 {
      XorZero(0);
    } else {
      ShlNat(a, n - 1);
      ShlNat(b, n - 1);
      XorShlAdd(a, b, low / 2, low' / 2, n - 1);
      JoinDigit(Shl(a, n), Shl(b, n), low, low', Shl(a, n - 1), Shl(b, n - 1), low / 2, low' / 2,
                Shl(Xor(a, b), n - 1));
    }
  }

  lemma {:induction false} JoinDigit(a: nat, b: nat, low: nat, low': nat, a': nat, b': nat, rest: nat, rest': nat,
                                     high: int)
    requires a == 2 * a' && b == 2 * b' && rest == low / 2 && rest' == low' / 2
    requires Xor(a' + rest, b' + rest') == high + Xor(rest, rest')
    ensures Xor(a + low, b + low') == 2 * high + Xor(low, low')
  {
    XorDigit(a + low, b + low', a' + rest, b' + rest', low % 2, low' % 2);
    XorDigit(low, low', rest, rest', low % 2, low' % 2);
  }

  // ----- degrees; BitCount is the degree plus one

  lemma {:induction false} BitCountHalf(a: nat)
    ensures BitCount(a) == if a == 0 then 0 else 1 + BitCount(a / 2)
  {
  }

  /** Terms of different length: the longer one decides. */
  lemma {:induction false} XorLonger(a: nat, b: nat)
    requires BitCount(a) > BitCount(b)
    ensures BitCount(Xor(a, b)) == BitCount(a)
    decreases a
  {
    XorBits(a, b);
    if b == 0 {
      XorZero(a);
    } else {
      XorLonger(a / 2, b / 2);
    }
  }

  lemma {:induction false} XorLength(a: nat, b: nat, n: nat)
    requires BitCount(a) <= n && BitCount(b) <= n
    ensures BitCount(Xor(a, b)) <= n
  {
    XorBits(a, b);
    if n == 0 || (a == 0 && b == 0) {
    } else {
      XorLength(a / 2, b / 2, n - 1);
    }
  }

  /** Equal leading terms cancel. */
  lemma {:induction false} XorShorter(a: nat, b: nat)
    requires BitCount(a) == BitCount(b) > 0
    ensures BitCount(Xor(a, b)) < BitCount(a)
    decreases a
  {
    XorBits(a, b);
    if a == 1 || b == 1 {
      assert a == 1 && b == 1 by {
        BitCountHalf(a / 2);
        BitCountHalf(b / 2);
      }
    } else {
      XorShorter(a / 2, b / 2);
    }
  }

  lemma {:induction false} BitCountShl(a: nat, s: nat)
    requires a > 0
    ensures Shl(a, s) > 0 && BitCount(Shl(a, s)) == BitCount(a) + s
  {
    if s != 0 { BitCountShl(a, s - 1); }
  }

  /** Numbers compare as their lengths do. */
  lemma {:induction false} BitCountOrder(a: nat, b: nat)
    ensures a <= b ==> BitCount(a) <= BitCount(b)
    ensures BitCount(a) < BitCount(b) ==> a < b
    decreases a + b
  {
    if a != 0 && b != 0 { BitCountOrder(a / 2, b / 2); }
  }

  lemma {:induction false} BitCountBound(a: nat, n: nat)
    ensures BitCount(a) <= n <==> a < Pow2(n)
  {
    if BitCount(a) <= n {
      Pow2Monotone(BitCount(a), n);
    } else {
      Pow2Monotone(n, BitCount(a) - 1);
    }
  }

  // ----- multiplication

  lemma {:induction false} TimesZero(b: nat)
    ensures Times(0, b) == 0
  {
    if b != 0 { TimesZero(b / 2); }
  }

  lemma {:induction false} TimesOne(b: nat)
    ensures Times(1, b) == b
    ensures Times(b, 1) == b
  {
    XorZero(b);
    assert Times(b, 0) == 0;
    if b != 0 {
      TimesOne(b / 2);
      if b % 2 == 1 { XorOne(b / 2); } else { XorZero(2 * (b / 2)); }
    }
  }

  lemma {:induction false} XorOne(a: nat)
    ensures Xor(1, 2 * a) == 2 * a + 1
  {
    XorZero(a);
  }

  lemma {:induction false} TimesDouble(a: nat, b: nat)
    ensures Times(2 * a, b) == 2 * Times(a, b)
    ensures Times(a, 2 * b) == 2 * Times(a, b)
  {
    XorZero(2 * Times(a, b));
    if b != 0 {
      TimesDouble(a, b / 2);
      XorDouble(if b % 2 == 1 then a else 0, 2 * Times(a, b / 2));
    }
  }

  lemma {:induction false} TimesShl(a: nat, b: nat, s: nat)
    ensures Shl(a, s) >= 0 && Shl(Times(a, b), s) >= 0 && Times(Shl(a, s), b) == Shl(Times(a, b), s)
  {
    if s != 0 {
      TimesShl(a, b, s - 1);
      TimesDouble(Shl(a, s - 1), b);
    }
  }

  lemma {:induction false} TimesAdd(a: nat, c: nat, b: nat)
    ensures Times(Xor(a, c), b) == Xor(Times(a, b), Times(c, b))
  {
    if b == 0 {
      XorZero(0);
    } else {
      TimesAdd(a, c, b / 2);
      XorZero(0);
      XorDouble(Times(a, b / 2), Times(c, b / 2));
      XorSwap(if b % 2 == 1 then a else 0, 2 * Times(a, b / 2), if b % 2 == 1 then c else 0, 2 * Times(c, b / 2));
    }
  }

  /** Degrees add. */
  lemma {:induction false} TimesLength(a: nat, b: nat)
    requires a > 0 && b > 0
    ensures Times(a, b) > 0 && BitCount(Times(a, b)) == BitCount(a) + BitCount(b) - 1
    decreases b
  {
    if b == 1 {
      TimesOne(a);
    } else {
      TimesLength(a, b / 2);
      var t := 2 * Times(a, b / 2);
      assert BitCount(t) == BitCount(a) + BitCount(b) - 1;
      BitCountHalf(b / 2);
      XorZero(t);
      XorLonger(t, if b % 2 == 1 then a else 0);
      XorComm(t, if b % 2 == 1 then a else 0);
      BitCountHalf(Xor(if b % 2 == 1 then a else 0, t));
    }
  }

  // ----- divisibility and congruence

  ghost predicate Divides(d: nat, x: nat) {
    exists k: nat :: x == Times(k, d)
  }

  ghost predicate Coprime(a: nat, m: nat) {
    forall d: nat :: Divides(d, a) && Divides(d, m) ==> d == 1
  }

  ghost predicate Congruent(x: nat, y: nat, m: nat) {
    Divides(m, Xor(x, y))
  }

  lemma {:induction false} DividesSelf(d: nat)
    ensures Divides(d, d) && Divides(d, 0)
  {
    TimesOne(d);
    TimesZero(d);
    assert d == Times(1, d) && 0 == Times(0, d);
  }

  /** What divides x and y divides x + y·X^s. */
  lemma {:induction false} DividesShiftAdd(d: nat, x: nat, y: nat, s: nat)
    requires Divides(d, x) && Divides(d, y)
    ensures Shl(y, s) >= 0 && Divides(d, Xor(x, Shl(y, s)))
  {
    var i: nat :| x == Times(i, d);
    var j: nat :| y == Times(j, d);
    TimesShl(j, d, s);
    TimesAdd(i, Shl(j, s), d);
    assert Xor(x, Shl(y, s)) == Times(Xor(i, Shl(j, s)), d);
  }

  lemma {:induction false} CongruentRefl(x: nat, m: nat)
    ensures Congruent(x, x, m)
  {
    XorSelf(x);
    DividesSelf(m);
  }

  lemma {:induction false} CongruentSymm(x: nat, y: nat, m: nat)
    requires Congruent(x, y, m)
    ensures Congruent(y, x, m)
  {
    XorComm(x, y);
  }

  /** Congruences may be shifted and added. */
  lemma {:induction false} CongruentShiftAdd(x: nat, y: nat, x': nat, y': nat, s: nat, m: nat)
    requires Congruent(x, y, m) && Congruent(x', y', m)
    ensures Shl(x', s) >= 0 && Shl(y', s) >= 0
    ensures Congruent(Xor(x, Shl(x', s)), Xor(y, Shl(y', s)), m)
  {
    DividesShiftAdd(m, Xor(x, y), Xor(x', y'), s);
    XorShl(x', y', s);
    XorSwap(x, Shl(x', s), y, Shl(y', s));
  }

  lemma {:induction false} CongruentTrans(x: nat, y: nat, z: nat, m: nat)
    requires Congruent(x, y, m) && Congruent(y, z, m)
    ensures Congruent(x, z, m)
  {
    DividesShiftAdd(m, Xor(x, y), Xor(y, z), 0);
    XorAssoc(Xor(x, y), y, z);
    XorCancel(x, y);
  }

  /** A residue is unique: a non-zero multiple of m is at least as long as m. */
  lemma {:induction false} ResidueUnique(x: nat, y: nat, m: nat)
    requires m > 0 && BitCount(x) < BitCount(m) && BitCount(y) < BitCount(m) && Congruent(x, y, m)
    ensures x == y
  {
    var k: nat :| Xor(x, y) == Times(k, m);
    XorLength(x, y, BitCount(m) - 1);
    if k != 0 {
      TimesLength(k, m);
      BitCountHalf(k);
    }
    TimesZero(m);
    XorCancel(x, y);
    XorZero(y);
  }
}
