/** Fields of odd characteristic, as `ModularArithmetic` over an odd prime provides them. */
module Fields {
  import opened Groups

  datatype Field<!F> = Field(
    zero: F,
    one: F,
    add: (F, F) -> F,
    neg: F -> F,
    mul: (F, F) -> F,
    inv: F -> F,
    half: F -> F)
  {
    function Sub(x: F, y: F): F { add(x, neg(y)) }
    function Div(x: F, y: F): F { mul(x, inv(y)) }
    function Double(x: F): F { add(x, x) }
    function Square(x: F): F { mul(x, x) }
    function Cube(x: F): F { mul(mul(x, x), x) }
  }

  /** The additive and the multiplicative structure, each as a group in the sense of `Groups`. */
  ghost function Additive<F>(f: Field<F>): Group<F> {
    Group(_ => true, f.zero, f.add, f.neg, true)
  }

  ghost function Multiplicative<F>(f: Field<F>): Group<F> {
    Group(_ => true, f.one, f.mul, f.inv, false)
  }

  ghost predicate Distributes<F>(f: Field<F>, x: F, y: F, z: F) {
    f.mul(f.add(x, y), z) == f.add(f.mul(x, z), f.mul(y, z))
  }

  ghost predicate Inverts<F>(f: Field<F>, x: F) {
    if x == f.zero then f.inv(x) == f.zero else f.mul(x, f.inv(x)) == f.one
  }

  ghost predicate Halves<F>(f: Field<F>, x: F) {
    f.add(f.half(x), f.half(x)) == x
  }

  /** The field laws. As `InverseMod` does, `inv` answers zero for zero; that every element
      has a half makes the characteristic odd. */
  ghost predicate LawfulField<F(!new)>(f: Field<F>) {
    && Lawful(Additive(f))
    && Lawful(Multiplicative(f))
    && (forall x, y, z :: Distributes(f, x, y, z))
    && (forall x :: Inverts(f, x))
    && (forall x :: Halves(f, x))
    && f.zero != f.one
  }

  lemma {:induction false} AddComm<F(!new)>(f: Field<F>, x: F, y: F)
    requires LawfulField(f)
    ensures f.add(x, y) == f.add(y, x)
  {
    AddMember(Additive(f), x, y);
  }

  lemma {:induction false} AddAssoc<F(!new)>(f: Field<F>, x: F, y: F, z: F)
    requires LawfulField(f)
    ensures f.add(f.add(x, y), z) == f.add(x, f.add(y, z))
  {
    Assoc(Additive(f), x, y, z);
  }

  lemma {:induction false} AddZero<F(!new)>(f: Field<F>, x: F)
    requires LawfulField(f)
    ensures f.add(x, f.zero) == x && f.add(f.zero, x) == x
    ensures f.add(x, f.neg(x)) == f.zero
  {
    UnitRight(Additive(f), x);
    InverseMember(Additive(f), x);
  }

  lemma {:induction false} MulComm<F(!new)>(f: Field<F>, x: F, y: F)
    requires LawfulField(f)
    ensures f.mul(x, y) == f.mul(y, x)
  {
    AddMember(Multiplicative(f), x, y);
  }

  lemma {:induction false} MulAssoc<F(!new)>(f: Field<F>, x: F, y: F, z: F)
    requires LawfulField(f)
    ensures f.mul(f.mul(x, y), z) == f.mul(x, f.mul(y, z))
  {
    Assoc(Multiplicative(f), x, y, z);
  }

  /** (a·b)·(c·d) == (a·c)·(b·d) */
  lemma {:induction false} MulSwapMiddle<F(!new)>(f: Field<F>, a: F, b: F, c: F, d: F)
    requires LawfulField(f)
    ensures f.mul(f.mul(a, b), f.mul(c, d)) == f.mul(f.mul(a, c), f.mul(b, d))
  {
    SwapMiddle(Multiplicative(f), a, b, c, d);
  }

  lemma {:induction false} MulOneUnit<F(!new)>(f: Field<F>, x: F)
    requires LawfulField(f)
    ensures f.mul(x, f.one) == x && f.mul(f.one, x) == x
  {
    UnitRight(Multiplicative(f), x);
  }

  lemma {:induction false} Distrib<F(!new)>(f: Field<F>, x: F, y: F, z: F)
    requires LawfulField(f)
    ensures f.mul(f.add(x, y), z) == f.add(f.mul(x, z), f.mul(y, z))
    ensures f.mul(z, f.add(x, y)) == f.add(f.mul(z, x), f.mul(z, y))
  {
    assert Distributes(f, x, y, z);
    MulComm(f, f.add(x, y), z);
    MulComm(f, x, z);
    MulComm(f, y, z);
  }

  /** x + z == y + z only if x == y */
  lemma {:induction false} AddCancel<F(!new)>(f: Field<F>, x: F, y: F, z: F)
    requires LawfulField(f) && f.add(x, z) == f.add(y, z)
    ensures x == y
  {
    AddAssoc(f, x, z, f.neg(z));
    AddAssoc(f, y, z, f.neg(z));
    AddZero(f, z);
    AddZero(f, x);
    AddZero(f, y);
  }

  lemma {:induction false} MulZero<F(!new)>(f: Field<F>, x: F)
    requires LawfulField(f)
    ensures f.mul(x, f.zero) == f.zero && f.mul(f.zero, x) == f.zero
  {
    AddZero(f, f.zero);
    Distrib(f, f.zero, f.zero, x);
    AddZero(f, f.mul(f.zero, x));
    AddCancel(f, f.mul(f.zero, x), f.zero, f.mul(f.zero, x));
    MulComm(f, x, f.zero);
  }

  lemma {:induction false} NegMul<F(!new)>(f: Field<F>, x: F, z: F)
    requires LawfulField(f)
    ensures f.mul(f.neg(x), z) == f.neg(f.mul(x, z))
  {
    Distrib(f, x, f.neg(x), z);
    AddZero(f, x);
    MulZero(f, z);
    AddZero(f, f.mul(x, z));
    AddComm(f, f.mul(f.neg(x), z), f.mul(x, z));
    AddComm(f, f.neg(f.mul(x, z)), f.mul(x, z));
    AddCancel(f, f.mul(f.neg(x), z), f.neg(f.mul(x, z)), f.mul(x, z));
  }

  lemma {:induction false} SubMul<F(!new)>(f: Field<F>, x: F, y: F, z: F)
    requires LawfulField(f)
    ensures f.mul(f.Sub(x, y), z) == f.Sub(f.mul(x, z), f.mul(y, z))
  {
    Distrib(f, x, f.neg(y), z);
    NegMul(f, y, z);
  }

  lemma {:induction false} InvRight<F(!new)>(f: Field<F>, x: F)
    requires LawfulField(f)
    ensures x != f.zero ==> f.mul(x, f.inv(x)) == f.one && f.inv(x) != f.zero
    ensures x == f.zero ==> f.inv(x) == f.zero
  {
    assert Inverts(f, x);
    MulZero(f, x);
  }

  /** A product is zero only if a factor is. */
  lemma {:induction false} ProductZero<F(!new)>(f: Field<F>, x: F, y: F)
    requires LawfulField(f)
    ensures f.mul(x, y) == f.zero <==> x == f.zero || y == f.zero
  {
    MulZero(f, x);
    MulZero(f, y);
    InvRight(f, x);
    if x != f.zero && f.mul(x, y) == f.zero {
      MulComm(f, x, f.inv(x));
      MulAssoc(f, f.inv(x), x, y);
      MulOneUnit(f, y);
      MulZero(f, f.inv(x));
    }
  }

  /** x·z == y·z with z non-zero only if x == y */
  lemma {:induction false} MulCancelRight<F(!new)>(f: Field<F>, x: F, y: F, z: F)
    requires LawfulField(f) && z != f.zero && f.mul(x, z) == f.mul(y, z)
    ensures x == y
  {
    InvRight(f, z);
    MulAssoc(f, x, z, f.inv(z));
    MulAssoc(f, y, z, f.inv(z));
    MulOneUnit(f, x);
    MulOneUnit(f, y);
  }

  /** The inverse is the only element that gives one. */
  lemma {:induction false} InverseUnique<F(!new)>(f: Field<F>, x: F, y: F)
    requires LawfulField(f) && f.mul(x, y) == f.one
    ensures x != f.zero && y == f.inv(x)
  {
    MulZero(f, y);
    InvRight(f, x);
    MulComm(f, x, y);
    MulComm(f, x, f.inv(x));
    MulCancelRight(f, y, f.inv(x), x);
  }

  /** Doubling loses nothing: 2x is zero only for x = 0. */
  lemma {:induction false} DoubleZero<F(!new)>(f: Field<F>, x: F)
    requires LawfulField(f)
    ensures f.Double(x) == f.zero <==> x == f.zero
  {
    AddZero(f, f.zero);
    if f.Double(x) == f.zero {
      var h := f.half(f.one);
      assert Halves(f, f.one);
      Distrib(f, h, h, x);
      Distrib(f, x, x, h);
      MulOneUnit(f, x);
      MulZero(f, h);
    }
  }

  /** x + x == y + y only if x == y; so half of x + x is x. */
  lemma {:induction false} HalfDouble<F(!new)>(f: Field<F>, x: F)
    requires LawfulField(f)
    ensures f.half(f.Double(x)) == x
  {
    var h := f.half(f.Double(x));
    assert Halves(f, f.Double(x));
    var d := f.Sub(h, x);
    AddZero(f, x);
    AddZero(f, f.zero);
    SwapMiddle(Additive(f), h, f.neg(x), h, f.neg(x));
    SwapMiddle(Additive(f), x, f.neg(x), x, f.neg(x));
    assert f.Double(d) == f.zero;
    DoubleZero(f, d);
    AddCancel(f, h, x, f.neg(x));
  }
}
