/** Points of a short Weierstrass curve, affine as `ECP::Add` and `ECP::Double` compute them,
    and the running Jacobian doubling of `ProjectiveDoubling` (ecp.cpp). */
module ProjectiveDoublings {
  import opened Fields

  datatype Point<F> = Infinity | Affine(x: F, y: F)

  datatype Curve<!F(==)> = Curve(field: Field<F>, a: F, b: F)
  {
    /** ((x·x + a)·x + b) - y·y is zero. */
    predicate On(p: Point<F>) {
      p.Affine? ==>
        field.Sub(field.add(field.mul(field.add(field.mul(p.x, p.x), a), p.x), b), field.mul(p.y, p.y)) == field.zero
    }

    function Inverse(p: Point<F>): Point<F> {
      if p.Infinity? then p else Affine(p.x, field.neg(p.y))
    }
  }

  /** The slope of the tangent at p. */
  function Tangent<F(==)>(c: Curve<F>, p: Point<F>): F
    requires p.Affine?
  {
    var x2 := c.field.Square(p.x);
    c.field.Div(c.field.add(c.field.add(c.field.Double(x2), x2), c.a), c.field.Double(p.y))
  }

  function DoublePoint<F(==)>(c: Curve<F>, p: Point<F>): Point<F> {
    if p.Infinity? || p.y == c.field.zero then Infinity
    else
      var t := Tangent(c, p);
      var x := c.field.Sub(c.field.Sub(c.field.Square(t), p.x), p.x);
      Affine(x, c.field.Sub(c.field.mul(t, c.field.Sub(p.x, x)), p.y))
  }

  function AddPoints<F(==)>(c: Curve<F>, p: Point<F>, q: Point<F>): Point<F> {
    if p.Infinity? then q
    else if q.Infinity? then p
    else if p.x == q.x then
      if p.y == q.y then DoublePoint(c, p) else Infinity
    else
      var t := c.field.Div(c.field.Sub(q.y, p.y), c.field.Sub(q.x, p.x));
      var x := c.field.Sub(c.field.Sub(c.field.Square(t), p.x), q.x);
      Affine(x, c.field.Sub(c.field.mul(t, c.field.Sub(p.x, x)), p.y))
  }

  datatype ProjectivePoint<F> = ProjectivePoint(x: F, y: F, z: F)

  /** (X : Y : Z) stands for (X/Z², Y/Z³), and for the identity exactly when Z is zero. */
  ghost predicate Represents<F>(f: Field<F>, p: ProjectivePoint<F>, q: Point<F>) {
    match q
    case Infinity => p.z == f.zero
    case Affine(x, y) => p.z != f.zero && p.x == f.mul(x, f.Square(p.z)) && p.y == f.mul(y, f.Cube(p.z))
  }

  // ----- powers

  lemma {:induction false} FourthPower<F(!new)>(f: Field<F>, z: F)
    requires LawfulField(f)
    ensures f.mul(z, f.Cube(z)) == f.Square(f.Square(z)) && f.mul(f.Cube(z), z) == f.Square(f.Square(z))
    ensures f.mul(z, f.Square(z)) == f.Cube(z)
  {
    MulAssoc(f, f.Square(z), z, z);
    MulComm(f, z, f.Cube(z));
    MulComm(f, z, f.Square(z));
  }

  lemma {:induction false} SquareMul<F(!new)>(f: Field<F>, y: F, z: F)
    requires LawfulField(f)
    ensures f.Square(f.mul(y, z)) == f.mul(f.Square(y), f.Square(z))
  {
    MulSwapMiddle(f, y, z, y, z);
  }

  lemma {:induction false} CubeMul<F(!new)>(f: Field<F>, y: F, z: F)
    requires LawfulField(f)
    ensures f.Cube(f.mul(y, z)) == f.mul(f.Cube(y), f.Cube(z))
  {
    SquareMul(f, y, z);
    MulSwapMiddle(f, f.Square(y), f.Square(z), y, z);
  }

  // ----- one doubling, with Z' = Z·2Y

  /** The numerator of the slope, scaled: 3X² + aZ⁴ is (3x² + a)·Z⁴. */
  lemma {:induction false} SlopeNumerator<F(!new)>(f: Field<F>, x: F, a: F, z2: F)
    requires LawfulField(f)
    ensures var xx, z4 := f.Square(f.mul(x, z2)), f.Square(z2);
            f.add(f.add(f.Double(xx), xx), f.mul(a, z4)) ==
            f.mul(f.add(f.add(f.Double(f.Square(x)), f.Square(x)), a), z4)
  {
    var z4, x2 := f.Square(z2), f.Square(x);
    SquareMul(f, x, z2);
    Distrib(f, x2, x2, z4);
    Distrib(f, f.Double(x2), x2, z4);
    Distrib(f, f.add(f.Double(x2), x2), a, z4);
  }

  /** M = t·Z': with v = 2y and u = v·Z³. */
  lemma {:induction false} SlopeScaled<F(!new)>(f: Field<F>, m: F, v: F, z: F)
    requires LawfulField(f) && v != f.zero
    ensures f.mul(m, f.Square(f.Square(z))) == f.mul(f.Div(m, v), f.mul(z, f.mul(v, f.Cube(z))))
  {
    var t, z4 := f.Div(m, v), f.Square(f.Square(z));
    InvRight(f, v);
    MulComm(f, v, f.inv(v));
    MulAssoc(f, m, f.inv(v), v);
    MulOneUnit(f, m);
    assert f.mul(t, v) == m;
    MulAssoc(f, t, v, z4);
    FourthPower(f, z);
    MulAssoc(f, v, f.Cube(z), z);
    MulComm(f, z, f.mul(v, f.Cube(z)));
  }

  /** S = x·Z'² */
  lemma {:induction false} SScaled<F(!new)>(f: Field<F>, x: F, z: F, u: F)
    requires LawfulField(f)
    ensures f.mul(f.Square(u), f.mul(x, f.Square(z))) == f.mul(x, f.Square(f.mul(z, u)))
  {
    SquareMul(f, z, u);
    MulComm(f, f.Square(u), f.mul(x, f.Square(z)));
    MulAssoc(f, x, f.Square(z), f.Square(u));
  }

  /** X' = x'·Z'² */
  lemma {:induction false} XScaled<F(!new)>(f: Field<F>, t: F, x: F, z': F)
    requires LawfulField(f)
    ensures var s := f.mul(x, f.Square(z'));
            f.Sub(f.Sub(f.Square(f.mul(t, z')), s), s) ==
            f.mul(f.Sub(f.Sub(f.Square(t), x), x), f.Square(z'))
  {
    SquareMul(f, t, z');
    SubMul(f, f.Square(t), x, f.Square(z'));
    SubMul(f, f.Sub(f.Square(t), x), x, f.Square(z'));
  }

  /** half(16·Y⁴) = y·Z'³ */
  lemma {:induction false} HalfScaled<F(!new)>(f: Field<F>, y: F, z: F)
    requires LawfulField(f)
    ensures var yy := f.mul(y, f.Cube(z));
            var u := f.Double(yy);
            f.half(f.Square(f.Square(u))) == f.mul(y, f.Cube(f.mul(z, u)))
  {
    var yy := f.mul(y, f.Cube(z));
    var u := f.Double(yy);
    FourthPower(f, u);
    Distrib(f, yy, yy, f.Cube(u));
    HalfDouble(f, f.mul(yy, f.Cube(u)));
    MulAssoc(f, y, f.Cube(z), f.Cube(u));
    CubeMul(f, z, u);
  }

  /** Y' = y'·Z'³ */
  lemma {:induction false} YScaled<F(!new)>(f: Field<F>, t: F, x: F, x': F, y: F, z': F)
    requires LawfulField(f)
    ensures f.Sub(f.mul(f.mul(t, z'), f.Sub(f.mul(x, f.Square(z')), f.mul(x', f.Square(z')))), f.mul(y, f.Cube(z')))
         == f.mul(f.Sub(f.mul(t, f.Sub(x, x')), y), f.Cube(z'))
  {
    SubMul(f, x, x', f.Square(z'));
    MulSwapMiddle(f, t, z', f.Sub(x, x'), f.Square(z'));
    FourthPower(f, z');
    SubMul(f, f.mul(t, f.Sub(x, x')), y, f.Cube(z'));
  }

  /** a·Z⁴ · (2Y)⁴ = a·Z'⁴ */
  lemma {:induction false} NextAZ4<F(!new)>(f: Field<F>, a: F, z: F, u: F)
    requires LawfulField(f)
    ensures f.mul(f.mul(a, f.Square(f.Square(z))), f.Square(f.Square(u)))
         == f.mul(a, f.Square(f.Square(f.mul(z, u))))
  {
    SquareMul(f, z, u);
    SquareMul(f, f.Square(z), f.Square(u));
    MulAssoc(f, a, f.Square(f.Square(z)), f.Square(f.Square(u)));
  }

  lemma {:induction false} CubeNonZero<F(!new)>(f: Field<F>, z: F)
    requires LawfulField(f)
    ensures f.Cube(z) == f.zero <==> z == f.zero
  {
    ProductZero(f, z, z);
    ProductZero(f, f.Square(z), z);
  }

  /** The formulas of `Double`, in order. */
  function DoubleProjective<F>(f: Field<F>, p: ProjectivePoint<F>, aZ4: F): ProjectivePoint<F> {
    var twoY := f.Double(p.y);
    var fourY2 := f.Square(twoY);
    var s := f.mul(fourY2, p.x);
    var m := f.add(f.add(f.Double(f.Square(p.x)), f.Square(p.x)), aZ4);
    var x := f.Sub(f.Sub(f.Square(m), s), s);
    ProjectivePoint(x, f.Sub(f.mul(m, f.Sub(s, x)), f.half(f.Square(fourY2))), f.mul(p.z, twoY))
  }

  /** The new Z is zero exactly when the affine result is the identity. */
  lemma {:induction false} DoubledZ<F(!new)>(c: Curve<F>, p: ProjectivePoint<F>, q: Point<F>)
    requires LawfulField(c.field) && Represents(c.field, p, q)
    ensures c.field.mul(p.z, c.field.Double(p.y)) == c.field.zero <==> DoublePoint(c, q).Infinity?
  {
    var f := c.field;
    ProductZero(f, p.z, f.Double(p.y));
    DoubleZero(f, p.y);
    CubeNonZero(f, p.z);
    if q.Affine? {
      ProductZero(f, q.y, f.Cube(p.z));
    }
  }

  /** One projective doubling is one affine doubling. */
  lemma {:induction false} DoubleProjectiveIsDouble<F(!new)>(c: Curve<F>, p: ProjectivePoint<F>, q: Point<F>)
    requires LawfulField(c.field) && Represents(c.field, p, q)
    ensures Represents(c.field, DoubleProjective(c.field, p, c.field.mul(c.a, c.field.Square(c.field.Square(p.z)))),
                       DoublePoint(c, q))
  {
    var f := c.field;
    DoubledZ(c, p, q);
    if !DoublePoint(c, q).Infinity? {
      var x, y, z, v := q.x, q.y, p.z, f.Double(q.y);
      var u := f.Double(p.y);
      var z' := f.mul(z, u);
      var t := Tangent(c, q);
      Distrib(f, y, y, f.Cube(z));
      assert u == f.mul(v, f.Cube(z));
      DoubleZero(f, y);
      SlopeNumerator(f, x, c.a, f.Square(z));
      SlopeScaled(f, f.add(f.add(f.Double(f.Square(x)), f.Square(x)), c.a), v, z);
      SScaled(f, x, z, u);
      XScaled(f, t, x, z');
      HalfScaled(f, y, z);
      YScaled(f, t, x, DoublePoint(c, q).x, y, z');
    }
  }

  class ProjectiveDoubling<F(!new, ==)> {
    const curve: Curve<F>
    var P: ProjectivePoint<F>
    var sixteenY4: F
    var aZ4: F

    /** P stands for q, and a·Z⁴ is at hand as a product of two cached values. */
    ghost predicate Tracks(q: Point<F>)
      reads this
    {
      && Represents(curve.field, P, q)
      && curve.field.mul(aZ4, sixteenY4) == curve.field.mul(curve.a, curve.field.Square(curve.field.Square(P.z)))
    }

    constructor (curve: Curve<F>, q: Point<F>)
      requires LawfulField(curve.field)
      ensures this.curve == curve && Tracks(q)
    {
      this.curve := curve;
      var f := curve.field;
      if q.Infinity? {
        sixteenY4, aZ4 := f.one, f.zero;
        P := ProjectivePoint(f.one, f.one, f.zero);
      } else {
        sixteenY4, aZ4 := f.one, curve.a;
        P := ProjectivePoint(q.x, q.y, f.one);
      }
      MulZero(f, f.zero);
      MulZero(f, f.one);
      MulZero(f, curve.a);
      MulOneUnit(f, f.one);
      MulOneUnit(f, curve.a);
      if q.Affine? {
        MulOneUnit(f, q.x);
        MulOneUnit(f, q.y);
      }
    }

    /** The point doubles, in projective and in affine form alike. */
    method Double(ghost q: Point<F>)
      requires LawfulField(curve.field) && Tracks(q)
      modifies this
      ensures Tracks(DoublePoint(curve, q))
    {
      var f := curve.field;
      DoubleProjectiveIsDouble(curve, P, q);
      NextAZ4(f, curve.a, P.z, f.Double(P.y));
      ghost var expected := DoubleProjective(f, P, f.mul(aZ4, sixteenY4));
      var twoY := f.Double(P.y);
      P := P.(z := f.mul(P.z, twoY));
      var fourY2 := f.Square(twoY);
      var S := f.mul(fourY2, P.x);
      aZ4 := f.mul(aZ4, sixteenY4);
      var M := f.Square(P.x);
      M := f.add(f.add(f.Double(M), M), aZ4);
      P := P.(x := f.Square(M));
      P := P.(x := f.Sub(P.x, S));
      P := P.(x := f.Sub(P.x, S));
      S := f.Sub(S, P.x);
      P := P.(y := f.mul(M, S));
      sixteenY4 := f.Square(fourY2);
      P := P.(y := f.Sub(P.y, f.half(sixteenY4)));
      assert P == expected;
    }
  }

  function DoubledPoint<F(==)>(c: Curve<F>, q: Point<F>, n: nat): Point<F> {
    if n == 0 then q else DoublePoint(c, DoubledPoint(c, q, n - 1))
  }

  /** After any number of doublings the projective point stands for the affine one, and its
      coordinate z is zero exactly when that is the identity. */
  method DoubleRepeatedly<F(!new, ==)>(c: Curve<F>, q: Point<F>, n: nat) returns (p: ProjectivePoint<F>)
    requires LawfulField(c.field)
    ensures Represents(c.field, p, DoubledPoint(c, q, n))
  {
    var rd := new ProjectiveDoubling(c, q);
    for i := 0 to n
      invariant rd.curve == c && rd.Tracks(DoubledPoint(c, q, i))
    {
      rd.Double(DoubledPoint(c, q, i));
    }
    p := rd.P;
  }
}
