/** The abelian groups of `AbstractGroup<T>`, with plain scalar multiplication as
    the reference that every fast algorithm is proved against. */
module Groups {
  import opened Bits

  /** `mem` is the carrier: the laws are demanded of members only, so that for
      instance the points of one elliptic curve form a `Group<Point>`. */
  datatype Group<!T> = Group(
    mem: T -> bool,
    id: T,
    add: (T, T) -> T,
    inv: T -> T,
    inversionIsFast: bool)

  // Each law is a predicate of its own, so that a proof names the instance it uses.

  ghost predicate Closed<T>(g: Group<T>, x: T, y: T) {
    g.mem(x) && g.mem(y) ==> g.mem(g.add(x, y))
  }

  ghost predicate Associates<T>(g: Group<T>, x: T, y: T, z: T) {
    g.mem(x) && g.mem(y) && g.mem(z) ==> g.add(g.add(x, y), z) == g.add(x, g.add(y, z))
  }

  ghost predicate Commutes<T>(g: Group<T>, x: T, y: T) {
    g.mem(x) && g.mem(y) ==> g.add(x, y) == g.add(y, x)
  }

  ghost predicate HasUnit<T>(g: Group<T>, x: T) {
    g.mem(x) ==> g.add(g.id, x) == x
  }

  ghost predicate HasInverse<T>(g: Group<T>, x: T) {
    g.mem(x) ==> g.mem(g.inv(x)) && g.add(x, g.inv(x)) == g.id
  }

  /** The abelian group laws. `Inverse` is only ever called where `InversionIsFast`,
      so without it a commutative monoid is enough. */
  ghost predicate Lawful<T(!new)>(g: Group<T>) {
    && g.mem(g.id)
    && (forall x, y :: Closed(g, x, y))
    && (forall x, y, z :: Associates(g, x, y, z))
    && (forall x, y :: Commutes(g, x, y))
    && (forall x :: HasUnit(g, x))
    && (g.inversionIsFast ==> forall x :: HasInverse(g, x))
  }

  /** n·x by repeated addition. */
  function Mul<T>(g: Group<T>, n: nat, x: T): T {
    if n == 0 then g.id else g.add(Mul(g, n - 1, x), x)
  }

  lemma {:induction false} UnitRight<T(!new)>(g: Group<T>, x: T)
    requires Lawful(g) && g.mem(x)
    ensures g.add(x, g.id) == x && g.add(g.id, x) == x
  {
    assert Commutes(g, x, g.id) && HasUnit(g, x);
  }

  lemma {:induction false} AddMember<T(!new)>(g: Group<T>, x: T, y: T)
    requires Lawful(g) && g.mem(x) && g.mem(y)
    ensures g.mem(g.add(x, y)) && g.add(x, y) == g.add(y, x)
  {
    assert Closed(g, x, y) && Commutes(g, x, y);
  }

  lemma {:induction false} Assoc<T(!new)>(g: Group<T>, x: T, y: T, z: T)
    requires Lawful(g) && g.mem(x) && g.mem(y) && g.mem(z)
    ensures g.add(g.add(x, y), z) == g.add(x, g.add(y, z))
  {
    assert Associates(g, x, y, z);
  }

  /** (x + y) + z == (x + z) + y */
  lemma {:induction false} SwapLast<T(!new)>(g: Group<T>, x: T, y: T, z: T)
    requires Lawful(g) && g.mem(x) && g.mem(y) && g.mem(z)
    ensures g.add(g.add(x, y), z) == g.add(g.add(x, z), y)
  {
    Assoc(g, x, y, z);
    Assoc(g, x, z, y);
    AddMember(g, y, z);
  }

  /** (a + b) + (c + d) == (a + c) + (b + d) */
  lemma {:induction false} SwapMiddle<T(!new)>(g: Group<T>, a: T, b: T, c: T, d: T)
    requires Lawful(g) && g.mem(a) && g.mem(b) && g.mem(c) && g.mem(d)
    ensures g.add(g.add(a, b), g.add(c, d)) == g.add(g.add(a, c), g.add(b, d))
  {
    AddMember(g, a, b);
    AddMember(g, a, c);
    Assoc(g, g.add(a, b), c, d);
    SwapLast(g, a, b, c);
    Assoc(g, g.add(a, c), b, d);
  }

  lemma {:induction false} MulMember<T(!new)>(g: Group<T>, n: nat, x: T)
    requires Lawful(g) && g.mem(x)
    ensures g.mem(Mul(g, n, x))
  {
    if n != 0 {
      MulMember(g, n - 1, x);
      AddMember(g, Mul(g, n - 1, x), x);
    }
  }

  lemma {:induction false} MulOne<T(!new)>(g: Group<T>, x: T)
    requires Lawful(g) && g.mem(x)
    ensures Mul(g, 1, x) == x
  {
    UnitRight(g, x);
    assert Mul(g, 1, x) == g.add(Mul(g, 0, x), x);
  }

  lemma {:induction false} MulAdd<T(!new)>(g: Group<T>, m: nat, n: nat, x: T)
    requires Lawful(g) && g.mem(x)
    ensures Mul(g, m + n, x) == g.add(Mul(g, m, x), Mul(g, n, x))
  {
    MulMember(g, m, x);
    if n == 0 {
      UnitRight(g, Mul(g, m, x));
    } else {
      MulAdd(g, m, n - 1, x);
      MulMember(g, n - 1, x);
      Assoc(g, Mul(g, m, x), Mul(g, n - 1, x), x);
    }
  }

  lemma {:induction false} MulMul<T(!new)>(g: Group<T>, m: nat, n: nat, x: T)
    requires Lawful(g) && g.mem(x)
    ensures m * n >= 0 && Mul(g, m * n, x) == Mul(g, m, Mul(g, n, x))
  {
    if m != 0 {
      MulMul(g, m - 1, n, x);
      assert m * n == (m - 1) * n + n;
      MulAdd(g, (m - 1) * n, n, x);
    }
  }

  lemma {:induction false} MulDistributes<T(!new)>(g: Group<T>, n: nat, x: T, y: T)
    requires Lawful(g) && g.mem(x) && g.mem(y)
    ensures Mul(g, n, g.add(x, y)) == g.add(Mul(g, n, x), Mul(g, n, y))
  {
    if n == 0 {
      UnitRight(g, g.id);
    } else {
      MulDistributes(g, n - 1, x, y);
      MulMember(g, n - 1, x);
      MulMember(g, n - 1, y);
      SwapMiddle(g, Mul(g, n - 1, x), Mul(g, n - 1, y), x, y);
    }
  }

  lemma {:induction false} MulUnit<T(!new)>(g: Group<T>, n: nat)
    requires Lawful(g)
    ensures Mul(g, n, g.id) == g.id
  {
    if n != 0 {
      MulUnit(g, n - 1);
      UnitRight(g, g.id);
    }
  }

  lemma {:induction false} MulDouble<T(!new)>(g: Group<T>, n: nat, x: T)
    requires Lawful(g) && g.mem(x)
    ensures g.add(Mul(g, n, x), Mul(g, n, x)) == Mul(g, 2 * n, x)
  {
    MulAdd(g, n, n, x);
  }

  lemma {:induction false} InverseMember<T(!new)>(g: Group<T>, x: T)
    requires Lawful(g) && g.mem(x) && g.inversionIsFast
    ensures g.mem(g.inv(x)) && g.add(x, g.inv(x)) == g.id
  {
    assert HasInverse(g, x);
  }

  /** (w << i)·x == w·(2^i·x) */
  lemma {:induction false} MulShl<T(!new)>(g: Group<T>, w: nat, i: nat, x: T)
    requires Lawful(g) && g.mem(x)
    ensures Shl(w, i) >= 0 && g.mem(Mul(g, Pow2(i), x))
    ensures Mul(g, Shl(w, i), x) == Mul(g, w, Mul(g, Pow2(i), x))
  {
    ShlNat(w, i);
    MulMember(g, Pow2(i), x);
    if i == 0 {
      MulOne(g, x);
    } else {
      MulShl(g, w, i - 1, x);
      var y := Mul(g, Pow2(i - 1), x);
      MulDouble(g, Shl(w, i - 1), x);
      MulDouble(g, Pow2(i - 1), x);
      MulDistributes(g, w, y, y);
    }
  }

  /** Adding w copies of -y to p·x + w·y leaves p·x, where y is 2^i·x. */
  lemma {:induction false} MulCancel<T(!new)>(g: Group<T>, p: nat, w: nat, i: nat, x: T)
    requires Lawful(g) && g.mem(x) && g.inversionIsFast
    ensures g.mem(Mul(g, Pow2(i), x)) && g.mem(g.inv(Mul(g, Pow2(i), x))) && Shl(w, i) >= 0
    ensures g.add(Mul(g, p + Shl(w, i), x), Mul(g, w, g.inv(Mul(g, Pow2(i), x)))) == Mul(g, p, x)
  {
    MulShl(g, w, i, x);
    var y := Mul(g, Pow2(i), x);
    InverseMember(g, y);
    MulAdd(g, p, Shl(w, i), x);
    var ny := g.inv(y);
    MulMember(g, p, x);
    MulMember(g, w, y);
    MulMember(g, w, ny);
    Assoc(g, Mul(g, p, x), Mul(g, w, y), Mul(g, w, ny));
    MulDistributes(g, w, y, ny);
    MulUnit(g, w);
    UnitRight(g, Mul(g, p, x));
  }
}
