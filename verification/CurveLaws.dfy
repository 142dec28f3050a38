/** What `ECP::Add` and `ECP::Double` compute (ecp.cpp): the third point of the curve on the line
    through two, or on the tangent at one, turned over. So the points are closed under addition,
    which commutes and has a unit and inverses. */
module CurveLaws {
  import opened Groups
  import opened Fields
  import opened ProjectiveDoublings

  // ----- sums and differences

  lemma {:induction false} NegAdd<F(!new)>(f: Field<F>, x: F, y: F)
    requires LawfulField(f)
    ensures f.neg(f.add(x, y)) == f.add(f.neg(x), f.neg(y))
  {
    var n := f.add(f.neg(x), f.neg(y));
    SwapMiddle(Additive(f), x, y, f.neg(x), f.neg(y));
    AddZero(f, x);
    AddZero(f, y);
    AddZero(f, f.zero);
    OnlyNegative(f, f.add(x, y), n);
  }

  /** The negative is the only element that gives zero. */
  lemma {:induction false} OnlyNegative<F(!new)>(f: Field<F>, x: F, n: F)
    requires LawfulField(f) && f.add(x, n) == f.zero
    ensures n == f.neg(x)
  {
    AddZero(f, x);
    AddComm(f, x, n);
    AddComm(f, x, f.neg(x));
    AddCancel(f, n, f.neg(x), x);
  }

  lemma {:induction false} NegNeg<F(!new)>(f: Field<F>, x: F)
    requires LawfulField(f)
    ensures f.neg(f.neg(x)) == x
  {
    AddZero(f, x);
    AddComm(f, x, f.neg(x));
    OnlyNegative(f, f.neg(x), x);
  }

  lemma {:induction false} NegSub<F(!new)>(f: Field<F>, x: F, y: F)
    requires LawfulField(f)
    ensures f.neg(f.Sub(x, y)) == f.Sub(y, x)
  {
    NegAdd(f, x, f.neg(y));
    NegNeg(f, y);
    AddComm(f, f.neg(x), y);
  }

  /** (a + b) - (c + d) == (a - c) + (b - d) */
  lemma {:induction false} SubAdd<F(!new)>(f: Field<F>, a: F, b: F, c: F, d: F)
    requires LawfulField(f)
    ensures f.Sub(f.add(a, b), f.add(c, d)) == f.add(f.Sub(a, c), f.Sub(b, d))
  {
    NegAdd(f, c, d);
    SwapMiddle(Additive(f), a, b, f.neg(c), f.neg(d));
  }

  /** (a - b) - (c - d) == (a - c) - (b - d) */
  lemma {:induction false} SubSub<F(!new)>(f: Field<F>, a: F, b: F, c: F, d: F)
    requires LawfulField(f)
    ensures f.Sub(f.Sub(a, b), f.Sub(c, d)) == f.Sub(f.Sub(a, c), f.Sub(b, d))
  {
    SubAdd(f, a, f.neg(b), c, f.neg(d));
    NegAdd(f, b, f.neg(d));
  }

  lemma {:induction false} SubZero<F(!new)>(f: Field<F>, x: F, y: F)
    requires LawfulField(f)
    ensures f.Sub(x, y) == f.zero <==> x == y
    ensures f.Sub(x, f.zero) == x
  {
    AddZero(f, y);
    AddZero(f, f.zero);
    OnlyNegative(f, f.zero, f.zero);
    AddZero(f, x);
    if f.Sub(x, y) == f.zero { AddCancel(f, x, y, f.neg(y)); }
  }

  /** (a - b) + b == a */
  lemma {:induction false} SubBack<F(!new)>(f: Field<F>, a: F, b: F)
    requires LawfulField(f)
    ensures f.add(f.Sub(a, b), b) == a
  {
    AddAssoc(f, a, f.neg(b), b);
    AddComm(f, f.neg(b), b);
    AddZero(f, b);
    AddZero(f, a);
  }

  /** (a + c) - (b + c) == a - b */
  lemma {:induction false} SubSame<F(!new)>(f: Field<F>, a: F, b: F, c: F)
    requires LawfulField(f)
    ensures f.Sub(f.add(a, c), f.add(b, c)) == f.Sub(a, b)
    ensures f.Sub(f.add(c, a), f.add(c, b)) == f.Sub(a, b)
  {
    SubAdd(f, a, c, b, c);
    SubAdd(f, c, a, c, b);
    SubZero(f, c, c);
    AddZero(f, f.Sub(a, b));
  }

  lemma {:induction false} MulSub<F(!new)>(f: Field<F>, z: F, x: F, y: F)
    requires LawfulField(f)
    ensures f.mul(z, f.Sub(x, y)) == f.Sub(f.mul(z, x), f.mul(z, y))
  {
    SubMul(f, x, y, z);
    MulComm(f, z, f.Sub(x, y));
    MulComm(f, z, x);
    MulComm(f, z, y);
  }

  /** x² - y² == (x - y)·(x + y) */
  lemma {:induction false} SquareDifference<F(!new)>(f: Field<F>, x: F, y: F)
    requires LawfulField(f)
    ensures f.Sub(f.Square(x), f.Square(y)) == f.mul(f.Sub(x, y), f.add(x, y))
  {
    SubMul(f, x, y, f.add(x, y));
    Distrib(f, x, y, x);
    Distrib(f, x, y, y);
    MulComm(f, x, y);
    AddComm(f, f.mul(y, x), f.Square(y));
    SubSame(f, f.Square(x), f.Square(y), f.mul(x, y));
  }

  // ----- the cubic and a line

  /** x³ + a·x + b */
  function Cubic<F(==)>(c: Curve<F>, x: F): F {
    c.field.add(c.field.mul(c.field.add(c.field.mul(x, x), c.a), x), c.b)
  }

  lemma {:induction false} OnMeans<F(!new)>(c: Curve<F>, p: Point<F>)
    requires LawfulField(c.field) && p.Affine?
    ensures c.On(p) <==> Cubic(c, p.x) == c.field.Square(p.y)
  {
    SubZero(c.field, Cubic(c, p.x), c.field.Square(p.y));
  }

  /** The line with slope t through (x1, y1), at x. */
  function Line<F>(f: Field<F>, t: F, x1: F, y1: F, x: F): F {
    f.add(y1, f.mul(t, f.Sub(x, x1)))
  }

  /** What is left of cubic less squared line at x, divided by x - x1. */
  function Quotient<F(==)>(c: Curve<F>, t: F, x1: F, y1: F, x: F): F {
    var f := c.field;
    f.Sub(f.add(f.add(f.Square(x), c.a), f.mul(x1, f.add(x, x1))), f.mul(t, f.add(Line(f, t, x1, y1, x), y1)))
  }

  /** x³ + a·x + b less the same at x1, divided by x - x1. */
  lemma {:induction false} CubicDifference<F(!new)>(c: Curve<F>, x: F, x1: F)
    requires LawfulField(c.field)
    ensures var f := c.field;
            f.Sub(Cubic(c, x), Cubic(c, x1)) ==
            f.mul(f.Sub(x, x1), f.add(f.add(f.Square(x), c.a), f.mul(x1, f.add(x, x1))))
  {
    var f := c.field;
    var u, v, d := f.add(f.Square(x), c.a), f.add(f.Square(x1), c.a), f.Sub(x, x1);
    SubSame(f, f.mul(u, x), f.mul(v, x1), c.b);
    ProductDifference(f, u, x, v, x1);
    SubSame(f, f.Square(x), f.Square(x1), c.a);
    SquareDifference(f, x, x1);
    MulAssoc(f, d, f.add(x, x1), x1);
    MulComm(f, f.add(x, x1), x1);
    MulComm(f, u, d);
    Distrib(f, u, f.mul(x1, f.add(x, x1)), d);
  }

  /** u·x - v·y == u·(x - y) + (u - v)·y */
  lemma {:induction false} ProductDifference<F(!new)>(f: Field<F>, u: F, x: F, v: F, y: F)
    requires LawfulField(f)
    ensures f.Sub(f.mul(u, x), f.mul(v, y)) == f.add(f.mul(u, f.Sub(x, y)), f.mul(f.Sub(u, v), y))
  {
    var ux, uy, vy := f.mul(u, x), f.mul(u, y), f.mul(v, y);
    MulSub(f, u, x, y);
    SubMul(f, u, v, y);
    AddAssoc(f, f.Sub(ux, uy), uy, f.neg(vy));
    SubBack(f, ux, uy);
  }

  lemma {:induction false} LineDifference<F(!new)>(f: Field<F>, t: F, x1: F, y1: F, x: F, z: F)
    requires LawfulField(f)
    ensures f.Sub(Line(f, t, x1, y1, x), Line(f, t, x1, y1, z)) == f.mul(t, f.Sub(x, z))
    ensures Line(f, t, x1, y1, x1) == y1
  {
    SubSame(f, f.mul(t, f.Sub(x, x1)), f.mul(t, f.Sub(z, x1)), y1);
    MulSub(f, t, f.Sub(x, x1), f.Sub(z, x1));
    SubSame(f, x, z, f.neg(x1));
    SubZero(f, x1, x1);
    MulZero(f, t);
    AddZero(f, y1);
  }

  /** x1 is a root of cubic less squared line. */
  lemma {:induction false} FirstRoot<F(!new)>(c: Curve<F>, t: F, x1: F, y1: F, x: F)
    requires LawfulField(c.field) && Cubic(c, x1) == c.field.Square(y1)
    ensures var f := c.field;
            f.Sub(Cubic(c, x), f.Square(Line(f, t, x1, y1, x))) == f.mul(f.Sub(x, x1), Quotient(c, t, x1, y1, x))
  {
    var f := c.field;
    var d, l := f.Sub(x, x1), Line(f, t, x1, y1, x);
    var w := f.add(f.add(f.Square(x), c.a), f.mul(x1, f.add(x, x1)));
    CubicDifference(c, x, x1);
    LineDifference(f, t, x1, y1, x, x1);
    SquareDifference(f, l, y1);
    MulComm(f, t, d);
    MulAssoc(f, d, t, f.add(l, y1));
    MulSub(f, d, w, f.mul(t, f.add(l, y1)));
    SubSub(f, Cubic(c, x), Cubic(c, x1), f.Square(l), f.Square(y1));
    SubZero(f, f.Square(y1), f.Square(y1));
    SubZero(f, f.Sub(Cubic(c, x), f.Square(l)), f.zero);
  }

  /** The quotient changes by (x - x2)·(x - x3), where the three roots add up to t². */
  lemma {:induction false} QuotientDifference<F(!new)>(c: Curve<F>, t: F, x1: F, y1: F, x2: F, x: F)
    requires LawfulField(c.field)
    ensures var f := c.field;
            f.Sub(Quotient(c, t, x1, y1, x), Quotient(c, t, x1, y1, x2)) ==
            f.mul(f.Sub(x, x2), f.Sub(x, f.Sub(f.Sub(f.Square(t), x1), x2)))
  {
    var f := c.field;
    var d := f.Sub(x, x2);
    var u, v := f.add(f.Square(x), c.a), f.add(f.Square(x2), c.a);
    var u', v' := f.mul(x1, f.add(x, x1)), f.mul(x1, f.add(x2, x1));
    var l, l2 := f.add(Line(f, t, x1, y1, x), y1), f.add(Line(f, t, x1, y1, x2), y1);
    SubSub(f, f.add(u, u'), f.mul(t, l), f.add(v, v'), f.mul(t, l2));
    SubAdd(f, u, u', v, v');
    SubSame(f, f.Square(x), f.Square(x2), c.a);
    SquareDifference(f, x, x2);
    MulSub(f, x1, f.add(x, x1), f.add(x2, x1));
    SubSame(f, x, x2, x1);
    MulComm(f, x1, d);
    MulSub(f, t, l, l2);
    SubSame(f, Line(f, t, x1, y1, x), Line(f, t, x1, y1, x2), y1);
    LineDifference(f, t, x1, y1, x, x2);
    MulAssoc(f, t, t, d);
    MulComm(f, f.Square(t), d);
    Distrib(f, f.add(x, x2), x1, d);
    MulSub(f, d, f.add(f.add(x, x2), x1), f.Square(t));
    ThirdRoot(f, x, x1, x2, f.Square(t));
  }

  lemma {:induction false} ThirdRoot<F(!new)>(f: Field<F>, x: F, x1: F, x2: F, s: F)
    requires LawfulField(f)
    ensures f.Sub(f.add(f.add(x, x2), x1), s) == f.Sub(x, f.Sub(f.Sub(s, x1), x2))
  {
    NegSub(f, f.Sub(s, x1), x2);
    NegSub(f, s, x1);
    AddAssoc(f, x, x2, x1);
    AddAssoc(f, x, f.add(x2, x1), f.neg(s));
    AddAssoc(f, x2, x1, f.neg(s));
    NegNeg(f, x2);
    NegAdd(f, f.Sub(s, x1), f.neg(x2));
    AddComm(f, x2, f.Sub(x1, s));
  }

  // ----- the sum of two points

  /** Cubic less squared line is (x - p.x)·(x - q.x)·(x - r.x): these are all the roots there are,
      each as often as it says. */
  ghost predicate MeetsAt<F>(c: Curve<F>, t: F, p: Point<F>, q: Point<F>, r: Point<F>, x: F)
    requires p.Affine? && q.Affine? && r.Affine?
  {
    var f := c.field;
    f.Sub(Cubic(c, x), f.Square(Line(f, t, p.x, p.y, x))) ==
    f.mul(f.Sub(x, p.x), f.mul(f.Sub(x, q.x), f.Sub(x, r.x)))
  }

  /** The line with slope t through p goes through q and through the inverse of r, and meets the
      curve nowhere else. */
  ghost predicate OnOneLine<F(!new)>(c: Curve<F>, t: F, p: Point<F>, q: Point<F>, r: Point<F>)
    requires p.Affine? && q.Affine? && r.Affine?
  {
    && q.y == Line(c.field, t, p.x, p.y, q.x)
    && c.Inverse(r).y == Line(c.field, t, p.x, p.y, r.x)
    && forall x :: MeetsAt(c, t, p, q, r, x)
  }

  /** The slope that `Add` and `Double` use. */
  function Slope<F(==)>(c: Curve<F>, p: Point<F>, q: Point<F>): F
    requires p.Affine? && q.Affine?
  {
    if p.x == q.x then Tangent(c, p) else c.field.Div(c.field.Sub(q.y, p.y), c.field.Sub(q.x, p.x))
  }

  lemma {:induction false} DivTimes<F(!new)>(f: Field<F>, u: F, v: F)
    requires LawfulField(f) && v != f.zero
    ensures f.mul(f.Div(u, v), v) == u
  {
    InvRight(f, v);
    MulAssoc(f, u, f.inv(v), v);
    MulComm(f, v, f.inv(v));
    MulOneUnit(f, u);
  }

  /** Through two points the quotient vanishes at the second. */
  lemma {:induction false} ChordQuotient<F(!new)>(c: Curve<F>, p: Point<F>, q: Point<F>)
    requires LawfulField(c.field) && p.Affine? && q.Affine? && c.On(p) && c.On(q) && p.x != q.x
    ensures Line(c.field, Slope(c, p, q), p.x, p.y, q.x) == q.y
    ensures Quotient(c, Slope(c, p, q), p.x, p.y, q.x) == c.field.zero
  {
    var f, t, d := c.field, Slope(c, p, q), c.field.Sub(q.x, p.x);
    SubZero(f, q.x, p.x);
    DivTimes(f, f.Sub(q.y, p.y), d);
    SubBack(f, q.y, p.y);
    AddComm(f, p.y, f.Sub(q.y, p.y));
    OnMeans(c, p);
    OnMeans(c, q);
    FirstRoot(c, t, p.x, p.y, q.x);
    SubZero(f, f.Square(q.y), f.Square(q.y));
    ProductZero(f, d, Quotient(c, t, p.x, p.y, q.x));
  }

  /** Along the tangent it vanishes at the point itself. */
  lemma {:induction false} TangentQuotient<F(!new)>(c: Curve<F>, p: Point<F>)
    requires LawfulField(c.field) && p.Affine? && p.y != c.field.zero
    ensures Line(c.field, Tangent(c, p), p.x, p.y, p.x) == p.y
    ensures Quotient(c, Tangent(c, p), p.x, p.y, p.x) == c.field.zero
  {
    var f, t, x2 := c.field, Tangent(c, p), c.field.Square(p.x);
    var numerator := f.add(f.add(f.Double(x2), x2), c.a);
    DoubleZero(f, p.y);
    DivTimes(f, numerator, f.Double(p.y));
    LineDifference(f, t, p.x, p.y, p.x, p.x);
    Distrib(f, p.x, p.x, p.x);
    AddComm(f, f.Double(x2), x2);
    AddAssoc(f, x2, f.Double(x2), c.a);
    AddComm(f, f.Double(x2), c.a);
    AddAssoc(f, x2, c.a, f.Double(x2));
    SubZero(f, numerator, numerator);
  }

  /** The sum of two points is the third point on their line, turned over; a point added to itself
      takes the tangent, on which it counts twice. */
  lemma {:induction false} SumIsThirdPoint<F(!new)>(c: Curve<F>, p: Point<F>, q: Point<F>)
    requires LawfulField(c.field) && p.Affine? && q.Affine? && c.On(p) && c.On(q) && AddPoints(c, p, q).Affine?
    ensures OnOneLine(c, Slope(c, p, q), p, q, AddPoints(c, p, q))
  {
    var f, t, r := c.field, Slope(c, p, q), AddPoints(c, p, q);
    OnMeans(c, p);
    if p.x == q.x { TangentQuotient(c, p); } else { ChordQuotient(c, p, q); }
    forall x ensures MeetsAt(c, t, p, q, r, x) {
      FirstRoot(c, t, p.x, p.y, x);
      QuotientDifference(c, t, p.x, p.y, q.x, x);
      SubZero(f, Quotient(c, t, p.x, p.y, x), f.zero);
    }
    TurnedOver(f, t, p.x, p.y, r.x);
  }

  lemma {:induction false} TurnedOver<F(!new)>(f: Field<F>, t: F, x1: F, y1: F, x: F)
    requires LawfulField(f)
    ensures f.neg(f.Sub(f.mul(t, f.Sub(x1, x)), y1)) == Line(f, t, x1, y1, x)
  {
    NegSub(f, f.mul(t, f.Sub(x1, x)), y1);
    NegSub(f, x1, x);
    MulComm(f, t, f.Sub(x1, x));
    MulComm(f, t, f.Sub(x, x1));
    NegMul(f, f.Sub(x1, x), t);
  }

  /** The chord in one equation: p, q and the sum turned over are in line. */
  lemma {:induction false} Chord<F(!new)>(c: Curve<F>, p: Point<F>, q: Point<F>)
    requires LawfulField(c.field) && p.Affine? && q.Affine? && p.x != q.x
    ensures var f, s := c.field, AddPoints(c, p, q);
            s.Affine? && f.mul(f.Sub(q.y, p.y), f.Sub(p.x, s.x)) == f.mul(f.add(s.y, p.y), f.Sub(q.x, p.x))
  {
    var f, t, s := c.field, Slope(c, p, q), AddPoints(c, p, q);
    var d, e := f.Sub(q.x, p.x), f.Sub(p.x, s.x);
    SubZero(f, q.x, p.x);
    DivTimes(f, f.Sub(q.y, p.y), d);
    SubBack(f, f.mul(t, e), p.y);
    MulAssoc(f, t, d, e);
    MulComm(f, d, e);
    MulAssoc(f, t, e, d);
  }

  // ----- the group laws, but for associativity

  /** The group of points, with the addition and doubling of `ECP`. */
  function CurveGroup<F(==)>(c: Curve<F>): Group<Point<F>> {
    Group((p: Point<F>) => c.On(p), Infinity, (p, q) => AddPoints(c, p, q), p => c.Inverse(p), true)
  }

  lemma {:induction false} NegSquare<F(!new)>(f: Field<F>, y: F)
    requires LawfulField(f)
    ensures f.Square(f.neg(y)) == f.Square(y)
  {
    NegMul(f, y, f.neg(y));
    MulComm(f, y, f.neg(y));
    NegMul(f, y, y);
    NegNeg(f, f.Square(y));
  }

  /** Sums lie on the curve. */
  lemma {:induction false} SumOnCurve<F(!new)>(c: Curve<F>, p: Point<F>, q: Point<F>)
    requires LawfulField(c.field) && c.On(p) && c.On(q)
    ensures c.On(AddPoints(c, p, q))
  {
    var f, r := c.field, AddPoints(c, p, q);
    if p.Affine? && q.Affine? && r.Affine? {
      var t := Slope(c, p, q);
      SumIsThirdPoint(c, p, q);
      assert MeetsAt(c, t, p, q, r, r.x);
      SubZero(f, r.x, r.x);
      MulZero(f, f.Sub(r.x, q.x));
      MulZero(f, f.Sub(r.x, p.x));
      SubZero(f, Cubic(c, r.x), f.Square(Line(f, t, p.x, p.y, r.x)));
      NegSquare(f, r.y);
      OnMeans(c, r);
    }
  }

  lemma {:induction false} DoubleIsSum<F(!new)>(c: Curve<F>, p: Point<F>)
    requires LawfulField(c.field) && c.On(p)
    ensures DoublePoint(c, p) == AddPoints(c, p, p) && c.On(DoublePoint(c, p))
  {
    SumOnCurve(c, p, p);
  }

  lemma {:induction false} SameSlope<F(!new)>(c: Curve<F>, p: Point<F>, q: Point<F>)
    requires LawfulField(c.field) && p.Affine? && q.Affine? && p.x != q.x
    ensures Slope(c, p, q) == Slope(c, q, p)
  {
    var f, t, s := c.field, Slope(c, p, q), Slope(c, q, p);
    var d, e := f.Sub(q.x, p.x), f.Sub(p.x, q.x);
    SubZero(f, q.x, p.x);
    SubZero(f, p.x, q.x);
    DivTimes(f, f.Sub(q.y, p.y), d);
    DivTimes(f, f.Sub(p.y, q.y), e);
    NegSub(f, q.y, p.y);
    NegSub(f, q.x, p.x);
    MulComm(f, t, d);
    MulComm(f, t, e);
    NegMul(f, d, t);
    MulCancelRight(f, t, s, e);
  }

  /** t·(x1 - x) - y1 is the same from either point of the line. */
  lemma {:induction false} SameHeight<F(!new)>(f: Field<F>, t: F, x1: F, y1: F, x2: F, y2: F, x: F)
    requires LawfulField(f) && f.mul(t, f.Sub(x2, x1)) == f.Sub(y2, y1)
    ensures f.Sub(f.mul(t, f.Sub(x1, x)), y1) == f.Sub(f.mul(t, f.Sub(x2, x)), y2)
  {
    var u, v := f.mul(t, f.Sub(x2, x)), f.mul(t, f.Sub(x1, x));
    SubSub(f, u, y2, v, y1);
    MulSub(f, t, f.Sub(x2, x), f.Sub(x1, x));
    SubSame(f, x2, x1, f.neg(x));
    SubZero(f, f.Sub(y2, y1), f.Sub(y2, y1));
    SubZero(f, f.Sub(u, y2), f.Sub(v, y1));
  }

  lemma {:induction false} SumCommutes<F(!new)>(c: Curve<F>, p: Point<F>, q: Point<F>)
    requires LawfulField(c.field)
    ensures AddPoints(c, p, q) == AddPoints(c, q, p)
  {
    if p.Affine? && q.Affine? && p.x != q.x {
      var f, t := c.field, Slope(c, p, q);
      SameSlope(c, p, q);
      AddAssoc(f, f.Square(t), f.neg(p.x), f.neg(q.x));
      AddAssoc(f, f.Square(t), f.neg(q.x), f.neg(p.x));
      AddComm(f, f.neg(p.x), f.neg(q.x));
      SubZero(f, q.x, p.x);
      DivTimes(f, f.Sub(q.y, p.y), f.Sub(q.x, p.x));
      SameHeight(f, t, p.x, p.y, q.x, q.y, AddPoints(c, p, q).x);
    }
  }

  /** Two points add up to the identity exactly if one is the inverse of the other. */
  lemma {:induction false} OppositePoints<F(!new)>(c: Curve<F>, p: Point<F>, q: Point<F>)
    requires LawfulField(c.field) && c.On(p) && c.On(q)
    ensures c.On(c.Inverse(p))
    ensures AddPoints(c, p, q) == Infinity <==> q == c.Inverse(p)
  {
    var f := c.field;
    if p.Affine? {
      NegSquare(f, p.y);
      OnMeans(c, p);
      OnMeans(c, c.Inverse(p));
      if q.Affine? && q.x == p.x {
        OnMeans(c, q);
        SubZero(f, f.Square(p.y), f.Square(q.y));
        SquareDifference(f, p.y, q.y);
        ProductZero(f, f.Sub(p.y, q.y), f.add(p.y, q.y));
        SubZero(f, p.y, q.y);
        AddZero(f, p.y);
        if f.add(p.y, q.y) == f.zero { OnlyNegative(f, p.y, q.y); }
        DoubleZero(f, p.y);
      }
    }
  }

  /** What is left to be assumed. */
  ghost predicate Associative<F(!new)>(c: Curve<F>) {
    forall p, q, r :: Associates(CurveGroup(c), p, q, r)
  }

  /** The points of a curve whose addition is associative are an abelian group. */
  lemma {:induction false} PointsFormGroup<F(!new)>(c: Curve<F>)
    requires LawfulField(c.field) && Associative(c)
    ensures Lawful(CurveGroup(c))
  {
    var g := CurveGroup(c);
    forall p, q ensures Closed(g, p, q) {
      if c.On(p) && c.On(q) { SumOnCurve(c, p, q); }
    }
    forall p, q ensures Commutes(g, p, q) {
      SumCommutes(c, p, q);
    }
    forall p ensures HasInverse(g, p) {
      if c.On(p) {
        OppositePoints(c, p, p);
        OppositePoints(c, p, c.Inverse(p));
      }
    }
  }
}
