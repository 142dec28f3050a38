/** Divisibility, congruences, powers and units of the integers. */
module Modular {
  import opened Groups

  predicate Divides(d: int, x: int)
    requires d > 0
  {
    x % d == 0
  }

  predicate Congruent(a: int, b: int, m: int)
    requires m > 0
  {
    Divides(m, a - b)
  }

  lemma {:induction false} MultipleMod(k: int, m: int)
    requires m > 0
    ensures (k * m) % m == 0
  {
    var r, q := (k * m) % m, (k * m) / m;
    assert (k - q) * m == r;
    MulSign(k - q, m);
  }

  lemma {:induction false} MulSign(k: int, d: int)
    requires d > 0
    ensures k >= 1 ==> k * d >= d
    ensures k <= -1 ==> k * d <= -d
  {
  }

  lemma {:induction false} MulAtLeast(a: nat, b: nat, x: nat, y: nat)
    requires a >= x && b >= y
    ensures a * b >= x * y
  {
    assert a * b >= x * b >= x * y;
  }

  lemma {:induction false} Quotient(d: int, x: int) returns (k: int)
    requires d > 0 && Divides(d, x)
    ensures x == k * d
  {
    k := x / d;
  }

  lemma {:induction false} FromWitness(a: int, b: int, k: int, m: int)
    requires m > 0 && a == b + k * m
    ensures Congruent(a, b, m)
  {
    MultipleMod(k, m);
  }

  lemma {:induction false} Witness(a: int, b: int, m: int) returns (k: int)
    requires m > 0 && Congruent(a, b, m)
    ensures a == b + k * m
  {
    k := Quotient(m, a - b);
  }

  lemma {:induction false} CongruentRefl(a: int, m: int)
    requires m > 0
    ensures Congruent(a, a, m)
  {
    FromWitness(a, a, 0, m);
  }

  lemma {:induction false} CongruentSymm(a: int, b: int, m: int)
    requires m > 0 && Congruent(a, b, m)
    ensures Congruent(b, a, m)
  {
    var k := Witness(a, b, m);
    FromWitness(b, a, -k, m);
  }

  lemma {:induction false} CongruentTrans(a: int, b: int, c: int, m: int)
    requires m > 0 && Congruent(a, b, m) && Congruent(b, c, m)
    ensures Congruent(a, c, m)
  {
    var j := Witness(a, b, m);
    var k := Witness(b, c, m);
    assert (j + k) * m == j * m + k * m;
    FromWitness(a, c, j + k, m);
  }

  lemma {:induction false} CongruentAdd(a: int, b: int, c: int, d: int, m: int)
    requires m > 0 && Congruent(a, b, m) && Congruent(c, d, m)
    ensures Congruent(a + c, b + d, m) && Congruent(a - c, b - d, m)
  {
    var j := Witness(a, b, m);
    var k := Witness(c, d, m);
    assert (j + k) * m == j * m + k * m;
    assert (j - k) * m == j * m - k * m;
    FromWitness(a + c, b + d, j + k, m);
    FromWitness(a - c, b - d, j - k, m);
  }

  lemma {:induction false} CongruentScale(a: int, b: int, c: int, m: int)
    requires m > 0 && Congruent(a, b, m)
    ensures Congruent(a * c, b * c, m) && Congruent(c * a, c * b, m)
  {
    var k := Witness(a, b, m);
    assert (b + k * m) * c == b * c + (k * c) * m;
    FromWitness(a * c, b * c, k * c, m);
  }

  lemma {:induction false} CongruentMul(a: int, b: int, c: int, d: int, m: int)
    requires m > 0 && Congruent(a, b, m) && Congruent(c, d, m)
    ensures Congruent(a * c, b * d, m)
  {
    CongruentScale(a, b, c, m);
    CongruentScale(c, d, b, m);
    CongruentTrans(a * c, b * c, b * d, m);
  }

  lemma {:induction false} ModCongruent(a: int, m: int)
    requires m > 0
    ensures Congruent(a % m, a, m) && Congruent(a, a % m, m)
  {
    assert a == a % m + (a / m) * m;
    FromWitness(a, a % m, a / m, m);
    CongruentSymm(a, a % m, m);
  }

  /** A reduced number congruent to a is a % m. */
  lemma {:induction false} ReducedUnique(a: int, r: int, m: int)
    requires m > 0 && 0 <= r < m && Congruent(a, r, m)
    ensures a % m == r
  {
    var k := Witness(a, r, m);
    var q := a / m;
    assert (k - q) * m == a % m - r;
    MulSign(k - q, m);
  }

  lemma {:induction false} CongruentMod(a: int, b: int, m: int)
    requires m > 0
    ensures Congruent(a, b, m) <==> a % m == b % m
  {
    ModCongruent(a, m);
    ModCongruent(b, m);
    if Congruent(a, b, m) {
      CongruentTrans(a, b, b % m, m);
      ReducedUnique(a, b % m, m);
    } else if a % m == b % m {
      CongruentTrans(a, a % m, b, m);
    }
  }

  function Pow(b: int, e: nat): int {
    if e == 0 then 1 else b * Pow(b, e - 1)
  }

  lemma {:induction false} CongruentPow(a: int, b: int, e: nat, m: int)
    requires m > 0 && Congruent(a, b, m)
    ensures Congruent(Pow(a, e), Pow(b, e), m)
  {
    if e == 0 {
      CongruentRefl(1, m);
    } else {
      CongruentPow(a, b, e - 1, m);
      CongruentMul(a, b, Pow(a, e - 1), Pow(b, e - 1), m);
    }
  }

  lemma {:induction false} PowAdd(b: int, i: nat, j: nat)
    ensures Pow(b, i + j) == Pow(b, i) * Pow(b, j)
  {
    if i != 0 {
      PowAdd(b, i - 1, j);
      assert b * (Pow(b, i - 1) * Pow(b, j)) == b * Pow(b, i - 1) * Pow(b, j);
    }
  }

  lemma {:induction false} PowMul(b: int, i: nat, j: nat)
    ensures i * j >= 0 && Pow(b, i * j) == Pow(Pow(b, i), j)
  {
    if j != 0 {
      PowMul(b, i, j - 1);
      assert i * j == i + i * (j - 1);
      PowAdd(b, i, i * (j - 1));
    }
  }

  lemma {:induction false} PowDistributes(a: int, b: int, e: nat)
    ensures Pow(a * b, e) == Pow(a, e) * Pow(b, e)
  {
    if e != 0 {
      PowDistributes(a, b, e - 1);
      Regroup(a, b, Pow(a, e - 1), Pow(b, e - 1));
    }
  }

  lemma {:induction false} OnePow(e: nat)
    ensures Pow(1, e) == 1
  {
    if e != 0 { OnePow(e - 1); }
  }

  lemma {:induction false} Regroup(a: int, b: int, c: int, d: int)
    ensures (a * b) * (c * d) == (a * c) * (b * d)
  {
    assert (a * b) * (c * d) == a * (b * c) * d;
    assert (a * c) * (b * d) == a * (c * b) * d;
  }

  // ----- units

  /** No common divisor but one. */
  ghost predicate Coprime(a: int, m: int) {
    forall d: nat :: d > 0 && Divides(d, a) && Divides(d, m) ==> d == 1
  }

  ghost predicate Prime(p: nat) {
    p > 1 && forall d: nat :: 1 < d < p ==> !Divides(d, p)
  }

  lemma {:induction false} DividesLinear(d: int, x: int, y: int, k: int)
    requires d > 0 && Divides(d, x) && Divides(d, y)
    ensures Divides(d, x + k * y) && Divides(d, x - k * y)
  {
    var i := Quotient(d, x);
    var j := Quotient(d, y);
    assert i * d + k * (j * d) == (i + k * j) * d;
    assert i * d - k * (j * d) == (i - k * j) * d;
    MultipleMod(i + k * j, d);
    MultipleMod(i - k * j, d);
  }

  lemma {:induction false} DividesOne(d: nat)
    requires d > 0 && Divides(d, 1)
    ensures d == 1
  {
    var k := Quotient(d, 1);
    MulSign(k, d);
  }

  /** What has an inverse is coprime to the modulus. */
  lemma {:induction false} UnitIsCoprime(a: int, b: int, m: int)
    requires m > 0 && Congruent(a * b, 1, m)
    ensures Coprime(a, m)
  {
    var k := Witness(a * b, 1, m);
    forall d: nat | d > 0 && Divides(d, a) && Divides(d, m) ensures d == 1 {
      var i := Quotient(d, a);
      var j := Quotient(d, m);
      assert (i * d) * b - k * (j * d) == (i * b - k * j) * d;
      MultipleMod(i * b - k * j, d);
      DividesOne(d);
    }
  }

  /** x·a + y·b is the greatest common divisor. */
  lemma {:induction false} Bezout(a: nat, b: nat) returns (g: nat, x: int, y: int)
    requires a > 0 || b > 0
    ensures g > 0 && g == x * a + y * b && Divides(g, a) && Divides(g, b)
    decreases b
  {
    if b == 0 {
      g, x, y := a, 1, 0;
      MultipleMod(1, a);
    } else {
      var q, r := a / b, a % b;
      var g', x', y' := Bezout(b, r);
      g, x, y := g', y', x' - q * y';
      assert a == r + q * b;
      assert x' * b + y' * (a - q * b) == y' * a + (x' - q * y') * b;
      DividesLinear(g, r, b, q);
    }
  }

  /** What is coprime to the modulus has an inverse. */
  lemma {:induction false} CoprimeIsUnit(a: nat, m: nat) returns (b: int)
    requires m > 0 && Coprime(a, m)
    ensures Congruent(a * b, 1, m)
  {
    var g, x, y := Bezout(a, m);
    b := x;
    assert a * x == 1 + (-y) * m;
    FromWitness(a * x, 1, -y, m);
  }

  lemma {:induction false} DivisorAtMost(d: nat, x: nat)
    requires d > 0 && x > 0 && Divides(d, x)
    ensures d <= x
  {
    var k := Quotient(d, x);
    MulSign(k, d);
  }

  lemma {:induction false} PrimeCoprime(p: nat, r: int)
    requires Prime(p) && r % p != 0
    ensures Coprime(r, p)
  {
    forall d: nat | d > 0 && Divides(d, r) && Divides(d, p) ensures d == 1 {
      DivisorAtMost(d, p);
    }
  }

  // ----- the integers modulo n under multiplication

  /** `MultiplicativeGroup` of the residues modulo n, as exponentiation uses it. */
  function ModularGroup(n: nat): Group<int>
    requires n > 1
  {
    Group((x: int) => 0 <= x < n, 1, (x: int, y: int) => (x * y) % n, (x: int) => x, false)
  }

  lemma {:induction false} MulModAssoc(x: int, y: int, z: int, n: int)
    requires n > 0
    ensures (((x * y) % n) * z) % n == (x * ((y * z) % n)) % n
  {
    ModCongruent(x * y, n);
    CongruentScale((x * y) % n, x * y, z, n);
    ModCongruent(y * z, n);
    CongruentScale((y * z) % n, y * z, x, n);
    assert (x * y) * z == x * (y * z);
    CongruentMod(((x * y) % n) * z, (x * y) * z, n);
    CongruentMod(x * ((y * z) % n), x * (y * z), n);
  }

  lemma {:induction false} ModularGroupLawful(n: nat)
    requires n > 1
    ensures Lawful(ModularGroup(n))
  {
    var g := ModularGroup(n);
    forall x, y, z ensures Associates(g, x, y, z) {
      MulModAssoc(x, y, z, n);
    }
    forall x ensures HasUnit(g, x) {
      if g.mem(x) {
        CongruentRefl(x, n);
        ReducedUnique(x, x, n);
      }
    }
  }

  /** Repeated multiplication modulo n is the power modulo n. */
  lemma {:induction false} MulIsPow(n: nat, e: nat, x: nat)
    requires n > 1 && x < n
    ensures Mul(ModularGroup(n), e, x) == Pow(x, e) % n
  {
    if e == 0 {
      CongruentRefl(1, n);
      ReducedUnique(1, 1, n);
    } else {
      MulIsPow(n, e - 1, x);
      ModCongruent(Pow(x, e - 1), n);
      CongruentScale(Pow(x, e - 1) % n, Pow(x, e - 1), x, n);
      CongruentMod((Pow(x, e - 1) % n) * x, Pow(x, e), n);
    }
  }
}
