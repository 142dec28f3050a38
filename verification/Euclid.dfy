/** `AbstractEuclideanDomain::Gcd` and `QuotientRing::MultiplicativeInverse` (algebra.cpp),
    over the integers. */
module Euclid {
  import opened Modular

  /** The same common divisors. */
  ghost predicate SameDivisors(a: int, b: int, c: int, d: int) {
    forall k: nat :: k > 0 ==> (Divides(k, a) && Divides(k, b) <==> Divides(k, c) && Divides(k, d))
  }

  /** Replacing x by its remainder modulo y keeps the common divisors. */
  lemma {:induction false} RemainderSameDivisors(x: int, y: int, q: int, r: int)
    requires x == r + q * y
    ensures SameDivisors(x, y, y, r)
  {
    forall k: nat | k > 0
      ensures Divides(k, x) && Divides(k, y) <==> Divides(k, y) && Divides(k, r)
    {
      if Divides(k, y) {
        if Divides(k, x) { DividesLinear(k, x, y, q); }
        if Divides(k, r) { DividesLinear(k, r, y, q); }
      }
    }
  }

  function Abs(x: int): nat {
    if x < 0 then -x else x
  }

  /** The two rows the extended algorithm keeps: v·a is congruent to g in each, and the common
      divisors of the g's are those of m and a. */
  ghost predicate Rows(m: nat, a: int, g0: int, v0: int, g1: int, v1: int) {
    && m > 1 && g0 != 0 && Abs(g1) < m
    && SameDivisors(m, a, g0, g1)
    && Congruent(v0 * a, g0, m) && Congruent(v1 * a, g1, m)
  }

  lemma {:induction false} FirstRows(m: nat, a: int)
    requires m > 1 && Abs(a) < m
    ensures Rows(m, a, m, 0, a, 1)
  {
    FromWitness(0 * a, m, 0 - 1, m);
    CongruentRefl(1 * a, m);
  }

  /** One more row. */
  lemma {:induction false} NextRow(m: nat, a: int, g0: int, v0: int, g1: int, v1: int, q: int, r: nat)
    requires Rows(m, a, g0, v0, g1, v1) && g1 != 0 && g0 == r + q * g1 && r < Abs(g1)
    ensures Rows(m, a, g1, v1, r, v0 - v1 * q)
  {
    RemainderSameDivisors(g0, g1, q, r);
    CongruentScale(v1 * a, g1, q, m);
    CongruentAdd(v0 * a, g0, q * (v1 * a), q * g1, m);
    assert v0 * a - q * (v1 * a) == (v0 - v1 * q) * a;
  }

  lemma {:induction false} DivMod(x: int, y: int)
    requires y != 0
    ensures x == x % y + (x / y) * y && 0 <= x % y < Abs(y)
  {
  }

  /** Below m in absolute value, zero alone is zero modulo m. */
  lemma {:induction false} SmallMod(y: int, m: nat)
    requires Abs(y) < m
    ensures y % m == 0 <==> y == 0
  {
    if y % m == 0 {
      var k := Quotient(m, y);
      MulSign(k, m);
    }
  }

  /** The common divisors of a and b are the divisors of the result. */
  method Gcd(a: int, b: int) returns (result: int)
    ensures forall d: nat :: d > 0 ==> (Divides(d, a) && Divides(d, b) <==> Divides(d, result))
    ensures result == 0 <==> a == 0 && b == 0
  {
    var g := [b, a, 0];
    var i0, i1, i2 := 0, 1, 2;
    ghost var x, y := b, a;
    while g[i1] != 0
      invariant {i0, i1, i2} == {0, 1, 2} && |g| == 3 && i0 != i1 && i1 != i2 && i0 != i2
      invariant g[i0] == x && g[i1] == y && (x == 0 && y == 0 <==> a == 0 && b == 0)
      invariant SameDivisors(b, a, x, y)
      decreases Abs(y)
    {
      DivMod(x, y);
      RemainderSameDivisors(x, y, x / y, x % y);
      g := g[i2 := g[i0] % g[i1]];
      x, y := y, x % y;
      i0, i1, i2 := i1, i2, i0;
    }
    result := g[i0];
    assert forall d: nat :: d > 0 ==> Divides(d, 0);
  }

  /** What the loop keeps: the rows; or, for an a that is not below the modulus in absolute value,
      the first two remainders as they are. */
  ghost predicate Inverting(m: nat, a: int, x: int, v0: int, y: int, v1: int) {
    if Abs(a) < m then Rows(m, a, x, v0, y, v1) else (x == m && y == a) || (x == a && y == m)
  }

  lemma {:induction false} StartInverting(m: nat, a: int)
    requires m > 1
    ensures Inverting(m, a, m, 0, a, 1)
  {
    if Abs(a) < m { FirstRows(m, a); }
  }

  lemma {:induction false} KeepInverting(m: nat, a: int, x: int, v0: int, y: int, v1: int)
    requires m > 1 && Inverting(m, a, x, v0, y, v1) && y % m != 0
    ensures y != 0 && Abs(x % y) < Abs(y) && Inverting(m, a, y, v1, x % y, v0 - v1 * (x / y))
  {
    MultipleMod(0, m);
    DivMod(x, y);
    if Abs(a) < m {
      NextRow(m, a, x, v0, y, v1, x / y, x % y);
    } else {
      MultipleMod(1, m);
      Larger(m, a);
    }
  }

  /** A modulus divided by something larger is the remainder. */
  lemma {:induction false} Larger(m: nat, a: int)
    requires m > 1 && Abs(a) >= m && a % m != 0
    ensures m % a == m
  {
    MultipleMod(1, m);
    MultipleMod(-1, m);
    assert Abs(a) > m;
    DivMod(m, a);
    var q := m / a;
    if q != 0 {
      assert q * a == (if a < 0 then -q else q) * Abs(a);
      MulSign(if a < 0 then -q else q, Abs(a));
    }
  }

  /** Where the loop ends: with one or its negative exactly if a is below the modulus in absolute
      value and coprime to it. */
  lemma {:induction false} EndInverting(m: nat, a: int, x: int, v0: int, y: int, v1: int)
    requires m > 1 && Inverting(m, a, x, v0, y, v1) && y % m == 0
    ensures Abs(x) == 1 <==> Abs(a) < m && Coprime(a, m)
    ensures Abs(x) == 1 ==> Congruent((if x == 1 then v0 else -v0) * a, 1, m)
  {
    if Abs(a) < m {
      SmallMod(y, m);
      LastDivisor(m, a, x);
      CongruentScale(v0 * a, x, -1, m);
      assert (v0 * a) * -1 == (-v0) * a;
    }
  }

  /** An inverse of a modulo m if there is one and a is below m in absolute value. Everything else
      gets zero, also what is coprime to m but not reduced. */
  method MultiplicativeInverse(m: nat, a: int) returns (result: int)
    requires m > 1
    ensures Abs(a) < m && Coprime(a, m) ==> Congruent(result * a, 1, m)
    ensures !(Abs(a) < m && Coprime(a, m)) ==> result == 0
  {
    var g: seq<int>, v: seq<int> := [m, a, 0], [0, 1, 0];
    var i0, i1, i2 := 0, 1, 2;
    StartInverting(m, a);
    // `Equal` compares modulo m
    while g[i1] % m != 0
      invariant {i0, i1, i2} == {0, 1, 2} && |g| == |v| == 3
      invariant Inverting(m, a, g[i0], v[i0], g[i1], v[i1])
      decreases Abs(g[i1])
    {
      KeepInverting(m, a, g[i0], v[i0], g[i1], v[i1]);
      var q, r := g[i0] / g[i1], g[i0] % g[i1];
      g := g[i2 := r];
      v := v[i2 := v[i0] - v[i1] * q];
      i0, i1, i2 := i1, i2, i0;
    }
    EndInverting(m, a, g[i0], v[i0], g[i1], v[i1]);
    if g[i0] == 1 || g[i0] == -1 {
      ByUnit(v[i0]);
      result := v[i0] / g[i0];
    } else {
      result := 0;
    }
  }

  lemma {:induction false} ByUnit(v: int)
    ensures v / 1 == v && v / -1 == -v
  {
  }

  /** So the code meets the promise exactly for these a: for a modulus of 7, 10 is inverse to 5,
      and the result is zero. */
  method UnreducedElement() returns (result: int)
    ensures result == 0 && Congruent(5 * 10, 1, 7)
  {
    result := MultiplicativeInverse(7, 10);
  }

  /** When the remainder is zero, what is left is one exactly if a and m are coprime. */
  lemma {:induction false} LastDivisor(m: nat, a: int, x: int)
    requires x != 0 && SameDivisors(m, a, x, 0)
    ensures Coprime(a, m) <==> Abs(x) == 1
  {
    var d := Abs(x);
    MultipleMod(1, d);
    MultipleMod(-1, d);
    assert Divides(d, x) && Divides(d, 0);
    if d == 1 {
      forall k: nat | k > 0 && Divides(k, a) && Divides(k, m) ensures k == 1 {
        assert Divides(k, x);
        if x == -1 { Opposite(k); }
        DividesOne(k);
      }
    }
  }

  lemma {:induction false} Opposite(k: nat)
    requires k > 0 && Divides(k, -1)
    ensures Divides(k, 1)
  {
    var q := Quotient(k, -1);
    MultipleMod(-q, k);
  }
}
