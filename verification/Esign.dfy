/** ESIGN (esign.cpp, esign.h): signing inverts verification. */
module Esign {
  import opened Bits
  import opened Modular
  import opened ModularInverse
  import opened ModularPower
  import opened Wrappers

  datatype PublicKey = PublicKey(n: nat, e: nat)
  {
    /** The checks of `ESIGNFunction::Validate`. */
    predicate Valid() {
      n > 1 && n % 2 == 1 && 8 <= e < n
    }

    /** `GetK` */
    function K(): nat
      requires Valid()
    {
      Pow2Monotone(BitCount(n), if BitCount(n) <= 2 then 2 else BitCount(n));
      BitCount(n) / 3 - 1
    }
  }

  datatype PrivateKey = PrivateKey(pub: PublicKey, p: nat, q: nat)
  {
    /** The checks of `InvertibleESIGNFunction::Validate`, with the modulus p·p·q. */
    predicate Valid() {
      && pub.Valid()
      && p > 1 && p % 2 == 1 && p < pub.n
      && q > 1 && q % 2 == 1 && q < pub.n
      && BitCount(p) == BitCount(q)
      && p * p * q == pub.n
    }
  }

  /** What verification recovers from a signature. */
  function Recovered(key: PublicKey, s: nat): nat
    requires key.Valid()
  {
    var top := Shr(Pow(s, key.e) % key.n, 2 * key.K() + 2);
    if top < Pow2(key.K()) - 1 then top else Pow2(key.K()) - 1
  }

  method ApplyFunction(key: PublicKey, s: nat) returns (r: nat)
    requires key.Valid() && s < key.n
    ensures r == Recovered(key, s) && r < Pow2(key.K())
  {
    var power := PowerMod(s, key.e, key.n);
    var top := Shr(power, 2 * key.K() + 2);
    var maxImage := Pow2(key.K()) - 1;
    r := if top < maxImage then top else maxImage;
  }

  // ----- why signing works

  /** (r + h)^e is r^e + e·r^(e-1)·h wherever h² vanishes. */
  lemma {:induction false} Binomial(r: int, h: int, e: nat, n: int)
    requires n > 0 && e > 0 && Congruent(h * h, 0, n)
    ensures Congruent(Pow(r + h, e), Pow(r, e) + e * Pow(r, e - 1) * h, n)
  {
    if e == 1 {
      assert Pow(r, 1) == r * Pow(r, 0) && Pow(r + h, 1) == (r + h) * Pow(r + h, 0);
      CongruentRefl(r + h, n);
    } else {
      Binomial(r, h, e - 1, n);
      var p := Pow(r, e - 2);
      CongruentScale(Pow(r + h, e - 1), r * p + (e - 1) * p * h, r + h, n);
      Expand(r, h, e, p);
      CongruentScale(h * h, 0, (e - 1) * p, n);
      CongruentRefl(r * (r * p) + e * (r * p) * h, n);
      CongruentAdd(r * (r * p) + e * (r * p) * h, r * (r * p) + e * (r * p) * h,
                   (h * h) * ((e - 1) * p), 0 * ((e - 1) * p), n);
      CongruentTrans(Pow(r + h, e), (r + h) * (r * p + (e - 1) * p * h), r * (r * p) + e * (r * p) * h, n);
    }
  }

  lemma {:induction false} Expand(r: int, h: int, e: int, p: int)
    ensures (r + h) * (r * p + (e - 1) * p * h) ==
            r * (r * p) + e * (r * p) * h + (h * h) * ((e - 1) * p)
  {
    var rp := r * p;
    var c := (e - 1) * p;
    assert (r + h) * (rp + c * h) == r * rp + h * rp + r * (c * h) + h * (c * h);
    assert h * (c * h) == (h * h) * c;
    assert r * (c * h) == (e - 1) * rp * h by {
      assert r * (c * h) == (r * c) * h;
      assert r * c == (e - 1) * rp;
    }
    assert (e - 1) * rp * h == e * rp * h - rp * h;
  }

  /** The square of a multiple of p·q is a multiple of p·p·q. */
  lemma {:induction false} SquareVanishes(t: int, p: nat, q: nat)
    requires p > 0 && q > 0
    ensures p * p * q > 0 && Congruent((t * (p * q)) * (t * (p * q)), 0, p * p * q)
  {
    MulAtLeast(p, p, 1, 1);
    MulAtLeast(p * p, q, 1, 1);
    var pq := p * q;
    assert (t * pq) * (t * pq) == (t * t) * (pq * pq);
    assert pq * pq == q * (p * p * q);
    assert (t * t) * (q * (p * p * q)) == (t * t * q) * (p * p * q);
    FromWitness((t * pq) * (t * pq), 0, t * t * q, p * p * q);
  }

  /** A congruence modulo p, times p·q, is one modulo p·p·q. */
  lemma {:induction false} Lift(a: int, b: int, p: nat, q: nat)
    requires p > 0 && q > 0 && Congruent(a, b, p)
    ensures p * p * q > 0 && Congruent(a * (p * q), b * (p * q), p * p * q)
  {
    MulAtLeast(p, p, 1, 1);
    MulAtLeast(p * p, q, 1, 1);
    var k := Witness(a, b, p);
    assert (b + k * p) * (p * q) == b * (p * q) + (k * p) * (p * q);
    assert (k * p) * (p * q) == k * (p * p * q);
    FromWitness(a * (p * q), b * (p * q), k, p * p * q);
  }

  /** x/y modulo p really is a quotient, for y coprime to p. */
  lemma {:induction false} QuotientModP(x: int, y: int, inverse: int, t: int, p: nat)
    requires p > 0 && Congruent(inverse * y, 1, p) && t == (x * inverse) % p
    ensures Congruent(t * y, x, p)
  {
    ModCongruent(x * inverse, p);
    CongruentScale(t, x * inverse, y, p);
    assert x * inverse * y == (inverse * y) * x;
    CongruentScale(inverse * y, 1, x, p);
    CongruentTrans(t * y, (inverse * y) * x, x, p);
  }

  /** The divisor e·r^e is coprime to p when e and r are. */
  lemma {:induction false} DivisorCoprime(e: nat, r: nat, p: nat)
    requires p > 1 && Coprime(e, p) && Coprime(r, p)
    ensures Coprime(e * Pow(r, e), p)
  {
    var e' := CoprimeIsUnit(e, p);
    var r' := CoprimeIsUnit(r, p);
    CongruentPow(r * r', 1, e, p);
    OnePow(e);
    PowDistributes(r, r', e);
    CongruentMul(e * e', 1, Pow(r, e) * Pow(r', e), 1, p);
    Regroup(e, e', Pow(r, e), Pow(r', e));
    UnitIsCoprime(e * Pow(r, e), e' * Pow(r', e), p);
  }

  /** Cancelling r: from t·(e·r^e) = w·r to t·(e·r^(e-1)) = w. */
  lemma {:induction false} CancelR(t: int, e: nat, r: nat, w: int, p: nat)
    requires p > 1 && e > 0 && Coprime(r, p) && Congruent(t * (e * Pow(r, e)), w * r, p)
    ensures Congruent(t * (e * Pow(r, e - 1)), w, p)
  {
    var r' := CoprimeIsUnit(r, p);
    var f := t * (e * Pow(r, e - 1));
    assert t * (e * Pow(r, e)) == f * r by {
      assert e * (r * Pow(r, e - 1)) == (e * Pow(r, e - 1)) * r;
      assert t * ((e * Pow(r, e - 1)) * r) == f * r;
    }
    CongruentScale(f * r, w * r, r', p);
    CongruentScale(r * r', 1, f, p);
    CongruentScale(r * r', 1, w, p);
    assert f * (r * r') == (f * r) * r' && w * (r * r') == (w * r) * r';
    CongruentSymm(f * (r * r'), f * 1, p);
    CongruentTrans(f, (f * r) * r', (w * r) * r', p);
    CongruentTrans(f, (w * r) * r', w, p);
  }

  /** With t chosen so, adding t·pq to r adds w·pq to its e-th power. */
  lemma {:induction false} PowerShift(key: PrivateKey, r: nat, w: int, t: int)
    requires key.Valid() && Coprime(r, key.p)
    requires Congruent(t * (key.pub.e * Pow(r, key.pub.e)), w * r, key.p)
    ensures Congruent(Pow(r + t * (key.p * key.q), key.pub.e), Pow(r, key.pub.e) + w * (key.p * key.q), key.pub.n)
  {
    var p, q, e, n, pq := key.p, key.q, key.pub.e, key.pub.n, key.p * key.q;
    var slope := e * Pow(r, e - 1);
    SquareVanishes(t, p, q);
    Binomial(r, t * pq, e, n);
    CancelR(t, e, r, w, p);
    Lift(t * slope, w, p, q);
    Factored(slope, t, pq);
    CongruentRefl(Pow(r, e), n);
    CongruentAdd(Pow(r, e), Pow(r, e), slope * (t * pq), w * pq, n);
    CongruentTrans(Pow(r + t * pq, e), Pow(r, e) + slope * (t * pq), Pow(r, e) + w * pq, n);
  }

  lemma {:induction false} Factored(slope: int, t: int, pq: int)
    ensures slope * (t * pq) == (t * slope) * pq
  {
  }

  // ----- signing

  /** a = (z - r^e) mod n, with z the message shifted to the top. */
  function Residue(key: PrivateKey, x: nat, r: nat): nat
    requires key.Valid()
  {
    (Shl(x, 2 * key.pub.K() + 2) - Pow(r, key.pub.e) % key.pub.n) % key.pub.n
  }

  /** What a falls short of the next multiple of pq. */
  function Shortfall(a: nat, pq: nat): nat {
    if pq == 0 || a % pq == 0 then 0 else pq - a % pq
  }

  /** The exit condition of the loop. */
  predicate Accepted(key: PrivateKey, x: nat, r: nat)
    requires key.Valid()
  {
    var pq: nat := key.p * key.q;
    Shr(Shortfall(Residue(key, x, r), pq), 2 * key.pub.K() + 1) == 0
  }

  lemma {:induction false} KeySizes(key: PrivateKey)
    requires key.Valid()
    ensures key.p * key.q > 0 && key.p * (key.p * key.q) == key.pub.n && key.p * key.q < key.pub.n
    ensures Pow2(3 * key.pub.K() + 2) <= key.pub.n
  {
    FactorSizes(key.p, key.q, key.pub.n);
    Pow2Monotone(3 * key.pub.K() + 2, BitCount(key.pub.n) - 1);
  }

  lemma {:induction false} FactorSizes(p: nat, q: nat, n: nat)
    requires p > 1 && q > 1 && p * p * q == n
    ensures p * q > 0 && p * (p * q) == n && p * q < n
  {
    MulAtLeast(p, q, 1, 1);
    assert p * p * q == p * (p * q);
    MulAtLeast(p, p * q, 2, p * q);
  }

  /** Rounding a up to a multiple w0·pq. */
  lemma {:induction false} RoundedUp(a: nat, pq: nat)
    requires pq > 0
    ensures a + Shortfall(a, pq) == (if a % pq == 0 then a / pq else a / pq + 1) * pq
  {
    assert a == a / pq * pq + a % pq;
    assert (a / pq + 1) * pq == a / pq * pq + pq;
  }

  /** x in the top k bits and w in the bits below. */
  lemma {:induction false} TopAndBottom(x: nat, k: nat, w: nat, i: nat)
    requires x < Pow2(k) && Shr(w, i) == 0
    ensures 0 <= Shl(x, i + 1) + w < Pow2(k + i + 1) && Shr(Shl(x, i + 1) + w, i + 1) == x
  {
    Split(w, i);
    Pow2IsShl(i);
    ShlNat(x, i + 1);
    ShlAdd(x, 1, i + 1);
    Pow2IsShl(i + 1);
    Pow2Add(k, i + 1);
    ShlMonotone(x + 1, Pow2(k), i + 1);
    SplitUnique(Shl(x, i + 1) + w, i + 1, x, w);
  }

  /** A power congruent to z + w, with w short enough, is z + w: shifting it down gives x. */
  lemma {:induction false} TopBits(key: PublicKey, x: nat, w: nat, s: nat)
    requires key.Valid() && x < Pow2(key.K()) && Shr(w, 2 * key.K() + 1) == 0
    requires Pow2(3 * key.K() + 2) <= key.n
    requires Congruent(Pow(s, key.e), Shl(x, 2 * key.K() + 2) + w, key.n)
    ensures Recovered(key, s) == x
  {
    TopAndBottom(x, key.K(), w, 2 * key.K() + 1);
    ReducedUnique(Pow(s, key.e), Shl(x, 2 * key.K() + 2) + w, key.n);
  }

  /** r^e and the residue add up to the shifted message. */
  lemma {:induction false} ResidueCongruent(key: PrivateKey, x: nat, r: nat)
    requires key.Valid()
    ensures Congruent(Pow(r, key.pub.e) + Residue(key, x, r), Shl(x, 2 * key.pub.K() + 2), key.pub.n)
  {
    var n, power, z := key.pub.n, Pow(r, key.pub.e), Shl(x, 2 * key.pub.K() + 2);
    ModCongruent(power, n);
    ModCongruent(z - power % n, n);
    CongruentAdd(power, power % n, Residue(key, x, r), z - power % n, n);
  }

  /** ESIGN correctness: the signature computed from an accepted r, with e and r coprime to p,
      verifies. */
  lemma {:induction false} SignatureVerifies(key: PrivateKey, x: nat, r: nat, w0: nat, t: nat)
    requires key.Valid() && x < Pow2(key.pub.K()) && Accepted(key, x, r) && Coprime(r, key.p)
    requires key.p * key.q > 0
    requires Residue(key, x, r) + Shortfall(Residue(key, x, r), key.p * key.q) == w0 * (key.p * key.q)
    requires Congruent(t * (key.pub.e * Pow(r, key.pub.e)), w0 * r, key.p)
    ensures r + t * (key.p * key.q) >= 0 && Recovered(key.pub, r + t * (key.p * key.q)) == x
  {
    var n, power, pq := key.pub.n, Pow(r, key.pub.e), key.p * key.q;
    var z, a := Shl(x, 2 * key.pub.K() + 2), Residue(key, x, r);
    var w1 := Shortfall(a, pq);
    KeySizes(key);
    MulAtLeast(t, pq, 0, 0);
    var s: nat := r + t * pq;
    PowerShift(key, r, w0, t);
    ResidueCongruent(key, x, r);
    CongruentRefl(w1, n);
    CongruentAdd(power + a, z, w1, w1, n);
    CongruentTrans(Pow(s, key.pub.e), power + w0 * pq, z + w1, n);
    TopBits(key.pub, x, w1, s);
  }

  /** `modp.Divide(w0*r % p, e*re % p)`: the dividend times what `InverseMod` makes of the divisor. */
  method DivideModP(p: nat, n: nat, e: nat, w0: nat, r: nat, re: nat) returns (t: nat)
    requires p > 1 && n > 0 && Divides(p, n) && e > 0 && re == Pow(r, e) % n
    ensures t < p
    ensures Coprime(e, p) && Coprime(r, p) ==> Congruent(t * (e * Pow(r, e)), w0 * r, p)
    ensures r % p == 0 || e % p == 0 ==> t == 0
  {
    var divisor := e * re % p;
    var size := EvenWords(p);
    FitsMonotone(divisor, p, EvenWordCount(p, size), EvenWordCount(p, size));
    FitsMonotone(divisor, p, size, size);
    var inverse := InverseMod(divisor, size, p, size);
    var dividend := w0 * r % p;
    t := dividend * inverse.value % p;
    DivisorModP(p, n, e, Pow(r, e), re);
    if Coprime(e, p) && Coprime(r, p) {
      QuotientCorrect(p, e, w0, r, divisor, inverse.value, t);
    }
    if r % p == 0 || e % p == 0 {
      ZeroDivisor(p, e, r, divisor);
      MultipleMod(0, p);
    }
  }

  lemma {:induction false} DivisorModP(p: nat, n: nat, e: nat, power: int, re: int)
    requires p > 0 && n > 0 && Divides(p, n) && re == power % n
    ensures Congruent(e * re % p, e * power, p)
  {
    ModCongruent(power, n);
    var k := Witness(re, power, n);
    var m := Quotient(p, n);
    assert k * (m * p) == (k * m) * p;
    FromWitness(re, power, k * m, p);
    CongruentScale(re, power, e, p);
    ModCongruent(e * re, p);
    CongruentTrans(e * re % p, e * re, e * power, p);
  }

  lemma {:induction false} CoprimeCongruent(a: int, b: int, m: int)
    requires m > 0 && Coprime(b, m) && Congruent(a, b, m)
    ensures Coprime(a, m)
  {
    forall d: nat | d > 0 && Divides(d, a) && Divides(d, m) ensures d == 1 {
      var k := Witness(a, b, m);
      DividesLinear(d, a, m, k);
      assert Divides(d, b);
    }
  }

  lemma {:induction false} QuotientCorrect(p: nat, e: nat, w0: nat, r: nat, divisor: nat, inverse: int, t: nat)
    requires p > 1 && Coprime(e, p) && Coprime(r, p) && Congruent(divisor, e * Pow(r, e), p)
    requires Coprime(divisor, p) ==> Congruent(inverse * divisor, 1, p)
    requires t == ((w0 * r % p) * inverse) % p
    ensures Congruent(t * (e * Pow(r, e)), w0 * r, p)
  {
    var y := e * Pow(r, e);
    DivisorCoprime(e, r, p);
    CoprimeCongruent(divisor, y, p);
    QuotientModP(w0 * r % p, divisor, inverse, t, p);
    ModCongruent(w0 * r, p);
    CongruentTrans(t * divisor, w0 * r % p, w0 * r, p);
    CongruentScale(divisor, y, t, p);
    CongruentSymm(t * divisor, t * y, p);
    CongruentTrans(t * y, t * divisor, w0 * r, p);
  }

  lemma {:induction false} FactorDivides(p: nat, a: int, b: int)
    requires p > 0 && Divides(p, a)
    ensures Divides(p, a * b) && Divides(p, b * a)
  {
    var k := Quotient(p, a);
    assert (k * p) * b == (k * b) * p;
    MultipleMod(k * b, p);
  }

  /** When p divides e or r, the divisor is zero modulo p, and zero has no inverse. */
  lemma {:induction false} ZeroDivisor(p: nat, e: nat, r: nat, divisor: nat)
    requires p > 1 && e > 0 && (r % p == 0 || e % p == 0) && Congruent(divisor, e * Pow(r, e), p)
    ensures !Coprime(divisor, p)
  {
    if r % p == 0 {
      FactorDivides(p, r, Pow(r, e - 1));
      FactorDivides(p, Pow(r, e), e);
    } else {
      FactorDivides(p, e, Pow(r, e));
    }
    assert Divides(p, e * Pow(r, e));
    MultipleMod(1, p);
    if Coprime(divisor, p) {
      CongruentSymm(divisor, e * Pow(r, e), p);
      CoprimeCongruent(e * Pow(r, e), divisor, p);
    }
  }

  lemma {:induction false} SignatureInRange(p: nat, pq: nat, n: nat, r: nat, t: nat)
    requires p * pq == n && pq < n && r <= pq && t < p && (r == pq ==> t == 0)
    ensures 0 <= r + t * pq < n && (t == 0 ==> r + t * pq == r)
  {
    MulAtLeast(p - 1, pq, t, pq);
    assert (p - 1) * pq == p * pq - pq;
  }

  /** The retry loop, over the values the generator delivers: `Randomize` may return any r from
      0 to pq inclusive. The signature is always in range, and it verifies whenever r and e are
      coprime to p. Where p divides one of them, the code divides by zero modulo p and the
      signature is r itself; so for a prime p it verifies exactly when p divides neither, or r
      happens to do unshifted. */
  method CalculateRandomizedInverse(key: PrivateKey, x: nat, rs: seq<nat>) returns (s: Option<nat>, tries: nat)
    requires key.Valid() && x < Pow2(key.pub.K())
    requires forall i :: 0 <= i < |rs| ==> rs[i] <= key.p * key.q
    ensures tries <= |rs| && forall i :: 0 <= i < tries ==> !Accepted(key, x, rs[i])
    ensures s.None? <==> tries == |rs|
    ensures s.Some? ==> Accepted(key, x, rs[tries]) && s.value < key.pub.n
    ensures s.Some? && Coprime(key.pub.e, key.p) && Coprime(rs[tries], key.p) ==> Recovered(key.pub, s.value) == x
    ensures s.Some? && (rs[tries] % key.p == 0 || key.pub.e % key.p == 0) ==> s.value == rs[tries]
    ensures s.Some? && Prime(key.p) ==> (Recovered(key.pub, s.value) == x <==>
              (rs[tries] % key.p != 0 && key.pub.e % key.p != 0) || Unshifted(key, x, rs[tries]))
  {
    KeySizes(key);
    tries := 0;
    while tries < |rs|
      invariant tries <= |rs| && forall i :: 0 <= i < tries ==> !Accepted(key, x, rs[i])
    {
      var re, w0, accepted := Try(key, x, rs[tries], key.p * key.q);
      if accepted {
        var sig := Complete(key, x, rs[tries], re, w0, key.p * key.q);
        if Prime(key.p) { PrimeSignature(key, x, rs[tries], sig); }
        return Some(sig), tries;
      }
      tries := tries + 1;
    }
    s := None;
  }

  lemma {:induction false} PrimeSignature(key: PrivateKey, x: nat, r: nat, s: nat)
    requires key.Valid() && Prime(key.p) && x < Pow2(key.pub.K())
    requires Coprime(key.pub.e, key.p) && Coprime(r, key.p) ==> Recovered(key.pub, s) == x
    requires r % key.p == 0 || key.pub.e % key.p == 0 ==> s == r
    ensures Recovered(key.pub, s) == x <==>
            (r % key.p != 0 && key.pub.e % key.p != 0) || Unshifted(key, x, r)
  {
    if r % key.p != 0 && key.pub.e % key.p != 0 {
      PrimeCondition(key, r);
    } else {
      UnshiftedVerifies(key, x, r);
    }
  }

  /** The body of the loop. */
  method Try(key: PrivateKey, x: nat, r: nat, pq: nat) returns (re: nat, w0: nat, accepted: bool)
    requires key.Valid() && r <= pq < key.pub.n && pq > 0 && pq == key.p * key.q
    ensures re == Pow(r, key.pub.e) % key.pub.n
    ensures Residue(key, x, r) + Shortfall(Residue(key, x, r), pq) == w0 * pq
    ensures accepted == Accepted(key, x, r)
  {
    var z := Shl(x, 2 * key.pub.K() + 2);
    re := PowerMod(r, key.pub.e, key.pub.n);
    var a := (z - re) % key.pub.n;
    var w1;
    w0, w1 := NextMultiple(a, pq);
    accepted := Shr(w1, 2 * key.pub.K() + 1) == 0;
  }

  method NextMultiple(a: nat, pq: nat) returns (w0: nat, w1: nat)
    requires pq > 0
    ensures w1 == Shortfall(a, pq) && a + w1 == w0 * pq
  {
    w0, w1 := a / pq, a % pq;
    RoundedUp(a, pq);
    if w1 != 0 {
      w0 := w0 + 1;
      w1 := pq - w1;
    }
  }

  /** After the loop: t, and the signature r + t·pq. */
  method Complete(key: PrivateKey, x: nat, r: nat, re: nat, w0: nat, pq: nat) returns (s: nat)
    requires key.Valid() && x < Pow2(key.pub.K()) && Accepted(key, x, r)
    requires r <= pq < key.pub.n && pq > 0 && pq == key.p * key.q && key.p * pq == key.pub.n
    requires re == Pow(r, key.pub.e) % key.pub.n
    requires Residue(key, x, r) + Shortfall(Residue(key, x, r), pq) == w0 * pq
    ensures s < key.pub.n
    ensures Coprime(key.pub.e, key.p) && Coprime(r, key.p) ==> Recovered(key.pub, s) == x
    ensures r % key.p == 0 || key.pub.e % key.p == 0 ==> s == r
  {
    MultipleMod(pq, key.p);
    MultipleMod(key.q, key.p);
    var t := DivideModP(key.p, key.pub.n, key.pub.e, w0, r, re);
    SignatureInRange(key.p, pq, key.pub.n, r, t);
    s := r + t * pq;
    if Coprime(key.pub.e, key.p) && Coprime(r, key.p) {
      SignatureVerifies(key, x, r, w0, t);
    }
  }

  /** For a prime p the conditions are those of the code's own division: p divides neither. */
  lemma {:induction false} PrimeCondition(key: PrivateKey, r: nat)
    requires key.Valid() && Prime(key.p) && r % key.p != 0 && key.pub.e % key.p != 0
    ensures Coprime(key.pub.e, key.p) && Coprime(r, key.p)
  {
    PrimeCoprime(key.p, r);
    PrimeCoprime(key.p, key.pub.e);
  }

  /** Shifting down is comparing with multiples. */
  lemma {:induction false} ShrBelow(v: nat, i: nat, x: nat)
    ensures Shr(v, i) < x <==> v < Shl(x, i)
  {
    Split(v, i);
    ShlAdd(Shr(v, i), 1, i);
    Pow2IsShl(i);
    ShlMonotone(Shr(v, i) + 1, x, i);
    ShlMonotone(x, Shr(v, i), i);
  }

  /** A signature that is r itself, judged by the residue a alone: r^e is the shifted message
      or, from above, close enough to it. */
  predicate Unshifted(key: PrivateKey, x: nat, r: nat)
    requires key.Valid()
  {
    var a := Residue(key, x, r);
    a == 0 || (a > Shl(x, 2 * key.pub.K() + 2) &&
               (x == Pow2(key.pub.K()) - 1 || key.pub.n - a < Pow2(2 * key.pub.K() + 2)))
  }

  lemma {:induction false} UnshiftedVerifies(key: PrivateKey, x: nat, r: nat)
    requires key.Valid() && x < Pow2(key.pub.K())
    ensures Recovered(key.pub, r) == x <==> Unshifted(key, x, r)
  {
    var n, K := key.pub.n, key.pub.K();
    var i, v := 2 * K + 2, Pow(r, key.pub.e) % key.pub.n;
    var z := Shl(x, i);
    KeySizes(key);
    ShlMonotone(x + 1, Pow2(K), i);
    Pow2Add(K, i);
    ShlNat(x, i);
    ShlAdd(x, 1, i);
    Pow2IsShl(i);
    ShrBelow(v, i, x);
    ShrBelow(v, i, x + 1);
    ResidueAround(z, v, n);
    UnshiftedNumbers(Shr(v, i), v, z, Pow2(i), n, x, Pow2(K), Residue(key, x, r));
  }

  /** The same over plain numbers: `top` is what stands above the lowest bits of v. */
  lemma {:induction false} UnshiftedNumbers(top: nat, v: nat, z: nat, w: nat, n: nat, x: nat, images: nat, a: nat)
    requires v < n && w > 0 && z + w <= n && x < images && a == if v <= z then z - v else z - v + n
    requires (top < x <==> v < z) && (top < x + 1 <==> v < z + w)
    ensures (if top < images - 1 then top else images - 1) == x <==>
            a == 0 || (a > z && (x == images - 1 || n - a < w))
  {
  }

  lemma {:induction false} ResidueAround(z: nat, v: nat, n: nat)
    requires z < n && v < n
    ensures (z - v) % n == if v <= z then z - v else z - v + n
  {
  }

  lemma {:induction false} ZeroPow(e: nat)
    requires e > 0
    ensures Pow(0, e) == 0
  {
  }

  lemma {:induction false} ZeroShr(i: nat)
    ensures Shr(0, i) == 0
  {
    if i != 0 { ZeroShr(i - 1); }
  }

  /** The condition is needed. For r = 0, which `Randomize` may return, the signature is 0: it
      recovers 0, so it verifies exactly for the message 0. */
  lemma {:induction false} ZeroSignsOnlyZero(key: PrivateKey, x: nat)
    requires key.Valid() && x < Pow2(key.pub.K())
    ensures Recovered(key.pub, 0) == x <==> x == 0
  {
    ZeroPow(key.pub.e);
    ZeroShr(2 * key.pub.K() + 2);
  }

  /** And r = 0 does get accepted for other messages: an example, and the signature does not verify. */
  lemma {:induction false} ZeroIsAccepted()
    ensures SmallKey().Valid() && 2 < Pow2(SmallKey().pub.K()) && Accepted(SmallKey(), 2, 0)
    ensures Recovered(SmallKey().pub, 0) != 2
  {
    SmallKeyValid();
    ZeroSignsOnlyZero(SmallKey(), 2);
    SmallResidue();
    ShrZero(15, 5) by { assert Pow2(3) == 8; }
  }

  lemma {:induction false} SmallResidue()
    requires SmallKey().Valid() && SmallKey().pub.K() == 2
    ensures Residue(SmallKey(), 2, 0) == 128 && Shortfall(128, 143) == 15
  {
    ZeroPow(9);
    assert Shl(2, 3) == 16;
  }

  function SmallKey(): PrivateKey {
    PrivateKey(PublicKey(1573, 9), 11, 13)
  }

  lemma {:induction false} SmallKeyValid()
    ensures SmallKey().Valid() && SmallKey().pub.K() == 2
  {
    SmallLengths();
  }

  lemma {:induction false} SmallLengths()
    ensures BitCount(11) == BitCount(13) == 4 && BitCount(1573) == 11
  {
    OneBitMore(1, 0, 0);
    OneBitMore(2, 1, 1);
    OneBitMore(5, 2, 2);
    OneBitMore(11, 5, 3);
    OneBitMore(3, 1, 1);
    OneBitMore(6, 3, 2);
    OneBitMore(13, 6, 3);
    OneBitMore(12, 6, 3);
    OneBitMore(24, 12, 4);
    OneBitMore(49, 24, 5);
    OneBitMore(98, 49, 6);
    OneBitMore(196, 98, 7);
    OneBitMore(393, 196, 8);
    OneBitMore(786, 393, 9);
    OneBitMore(1573, 786, 10);
  }

  lemma {:induction false} OneBitMore(x: nat, half: nat, n: nat)
    requires x > 0 && half == x / 2 && BitCount(half) == n
    ensures BitCount(x) == n + 1
  {
  }

  /** And a signature of the message 2 that does verify. */
  lemma {:induction false} SmallSignature()
    ensures SmallKey().Valid() && Recovered(SmallKey().pub, 24) == 2
  {
    SmallKeyValid();
    assert Pow(24, 3) == 13824;
    PowAdd(24, 3, 3);
    PowAdd(24, 6, 3);
    assert Pow(24, 9) == 2641807540224 && 2641807540224 % 1573 == 138;
    assert Shr(138, 2) == 34 && Shr(138, 4) == 8 && Shr(138, 6) == 2;
    assert Pow2(2) == 4;
  }
}
