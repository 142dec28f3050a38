/** `ECP::SimultaneousMultiply` and `ECP::ScalarMultiply` (ecp.cpp): sliding windows over a
    running Jacobian doubling, one shared batch inversion, and a cascade per exponent. */
module EcpMultiplication {
  import opened Bits
  import opened Wrappers
  import opened Groups
  import opened Fields
  import opened CurveLaws
  import opened WindowSliders
  import opened GeneralCascade
  import opened ProjectiveDoublings
  import opened ParallelInversion
  import Simultaneous = SimultaneousMultiplication

  /** Field and curve satisfy their laws; P lies on the curve. */
  ghost predicate Setting<F(!new)>(c: Curve<F>, P: Point<F>) {
    LawfulField(c.field) && Lawful(CurveGroup(c)) && c.On(P)
  }

  const WINDOW: nat := 5

  /** One window of an exponent: its value, the base it multiplies, and whether negated. */
  datatype Piece = Piece(window: nat, index: nat, negate: bool)

  function PieceEntry<F(==)>(c: Curve<F>, piece: Piece, point: Point<F>): BaseAndExponent<Point<F>> {
    BaseAndExponent(if piece.negate then c.Inverse(point) else point, piece.window)
  }

  /** The stored projective bases stand for these points of the curve. */
  ghost predicate BasesStandFor<F>(c: Curve<F>, bases: seq<ProjectivePoint<F>>, points: seq<Point<F>>) {
    |bases| == |points| && forall k :: 0 <= k < |bases| ==> Represents(c.field, bases[k], points[k]) && c.On(points[k])
  }

  /** The pieces of one exponent name the terms of its cascade. */
  ghost predicate Named<F>(c: Curve<F>, pieces: seq<Piece>, cascade: seq<BaseAndExponent<Point<F>>>,
                           points: seq<Point<F>>)
  {
    && |pieces| == |cascade|
    && forall j :: 0 <= j < |pieces| ==>
         pieces[j].index < |points| && cascade[j] == PieceEntry(c, pieces[j], points[pieces[j].index])
  }

  /** Cascade and pending part add up to e·P, and all windows fit in five bits. */
  ghost predicate Adds<F>(c: Curve<F>, cascade: seq<BaseAndExponent<Point<F>>>, pending: int, e: nat, P: Point<F>) {
    var g := CurveGroup(c);
    && pending >= 0
    && Bases(g, cascade) && ExponentsWithin(cascade, 31)
    && g.add(WeightedSum(g, cascade), Mul(g, pending, P)) == Mul(g, e, P)
  }

  /** What matters of a slider to the account of its exponent. */
  datatype View = View(finished: bool, begin: nat, pending: int, rest: int)

  ghost predicate Ready(s: WindowSlider, v: View)
    reads s
  {
    && s.Valid() && !s.firstTime && s.fastNegate && s.windowSize == WINDOW
    && v == View(s.finished, s.windowBegin, s.Pending(), s.Rest())
  }

  ghost predicate Accounts<F>(c: Curve<F>, v: View, pieces: seq<Piece>, cascade: seq<BaseAndExponent<Point<F>>>,
                              points: seq<Point<F>>, e: nat, P: Point<F>, position: nat, bound: nat)
  {
    && Bounded(v, position, bound)
    && Named(c, pieces, cascade, points)
    && Adds(c, cascade, v.pending, e, P)
    && (v.finished ==> |pieces| >= 1)
  }

  /** A window moves from the exponent to the cascade. */
  lemma {:induction false} AddPiece<F(!new)>(c: Curve<F>, cascade: seq<BaseAndExponent<Point<F>>>, pending: int,
                                             rest: nat, piece: Piece, begin: nat, power: Point<F>, e: nat,
                                             P: Point<F>)
    requires Setting(c, P) && piece.window <= 31 && power == Mul(CurveGroup(c), Pow2(begin), P)
    requires pending == rest + Shl(Signed(piece.window, piece.negate), begin) && Adds(c, cascade, pending, e, P)
    ensures Adds(c, cascade + [PieceEntry(c, piece, power)], rest, e, P)
  {
    var g := CurveGroup(c);
    Simultaneous.WindowMultiple(g, rest, piece.window, piece.negate, begin, P);
    MulMember(g, rest, P);
    AppendTerm(g, cascade, PieceEntry(c, piece, power), Mul(g, rest, P), Mul(g, pending, P), Mul(g, e, P));
  }

  method StartSlider<F(!new, ==)>(c: Curve<F>, e: nat, ghost P: Point<F>, ghost bound: nat)
    returns (s: WindowSlider, ghost v: View)
    requires Setting(c, P) && 1 <= e <= Pow2(bound)
    ensures fresh(s) && Ready(s, v) && Accounts(c, v, [], [], [], e, P, 0, bound)
  {
    s := new WindowSlider(e, CurveGroup(c).inversionIsFast, WINDOW);
    s.FindNextWindow(bound);
    v := View(s.finished, s.windowBegin, s.Pending(), s.Rest());
    MulMember(CurveGroup(c), e, P);
    UnitRight(CurveGroup(c), Mul(CurveGroup(c), e, P));
  }

  lemma {:induction false} NamedMonotone<F>(c: Curve<F>, pieces: seq<Piece>,
                                            cascade: seq<BaseAndExponent<Point<F>>>, points: seq<Point<F>>,
                                            points': seq<Point<F>>)
    requires Named(c, pieces, cascade, points) && points <= points'
    ensures Named(c, pieces, cascade, points')
  {
    forall j | 0 <= j < |pieces|
      ensures pieces[j].index < |points'| && cascade[j] == PieceEntry(c, pieces[j], points'[pieces[j].index])
    {
      assert points'[pieces[j].index] == points[pieces[j].index];
    }
  }

  /** The current doubling is stored once, however many exponents have a window here. */
  function Stored<T>(list: seq<T>, baseAdded: bool, current: T): seq<T> {
    if baseAdded then list else list + [current]
  }

  lemma {:induction false} StoredBase<F(!new)>(c: Curve<F>, current: ProjectivePoint<F>, baseAdded: bool,
                                               bases: seq<ProjectivePoint<F>>, points: seq<Point<F>>, power: Point<F>)
    requires BasesStandFor(c, bases, points) && Represents(c.field, current, power) && c.On(power)
    requires baseAdded ==> |points| >= 1 && points[|points| - 1] == power
    ensures var points' := Stored(points, baseAdded, power);
            && BasesStandFor(c, Stored(bases, baseAdded, current), points') && points <= points'
            && |points'| >= 1 && points'[|points'| - 1] == power
  {
  }

  lemma {:induction false} WindowFits()
    ensures Pow2(WINDOW) == 32
  {
    assert Pow2(2) == 4;
    assert Pow2(4) == 16;
  }

  /** The slider's bounds. */
  predicate Bounded(v: View, position: nat, bound: nat) {
    !v.finished ==> position <= v.begin <= bound && 0 <= v.rest <= Pow2(bound)
  }

  /** The window of this slider, if it starts here; the slider then looks for the next one. */
  method NextPiece(s: WindowSlider, last: nat, position: nat, ghost v: View, ghost bound: nat)
    returns (piece: Option<Piece>, ghost v': View)
    requires Ready(s, v) && Bounded(v, position, bound)
    modifies s
    ensures Ready(s, v') && Bounded(v', position + 1, bound) && (piece.Some? ==> v'.pending >= 0)
    ensures piece.None? ==> v' == v
    ensures piece.Some? ==> piece.value.index == last && piece.value.window <= 31
    ensures piece.Some? ==>
              v.pending == v'.pending + Shl(Signed(piece.value.window, piece.value.negate), position)
  {
    if !s.finished && position == s.windowBegin {
      WindowFits();
      piece := Some(Piece(s.expWindow, last, s.negateNext));
      s.FindNextWindow(bound);
      v' := View(s.finished, s.windowBegin, s.Pending(), s.Rest());
    } else {
      piece, v' := None, v;
    }
  }

  // ----- from projective to affine coordinates

  /** What `bases[i]` holds after the conversion. */
  ghost predicate IsAffine<F>(f: Field<F>, base: ProjectivePoint<F>, point: Point<F>) {
    match point
    case Infinity => base.z == f.zero
    case Affine(x, y) => base.z != f.zero && base.x == x && base.y == y
  }

  lemma {:induction false} ScaleBack<F(!new)>(f: Field<F>, x: F, y: F, z: F)
    requires LawfulField(f) && z != f.zero
    ensures var i := f.inv(z);
            && f.mul(f.mul(x, f.Square(z)), f.Square(i)) == x
            && f.mul(f.mul(f.mul(y, f.Cube(z)), i), f.Square(i)) == y
            && f.Square(i) != f.zero
  {
    var i := f.inv(z);
    InvRight(f, z);
    MulOneUnit(f, f.one);
    SquareMul(f, z, i);
    CubeMul(f, z, i);
    FourthPower(f, i);
    ProductZero(f, i, i);
    MulAssoc(f, x, f.Square(z), f.Square(i));
    MulAssoc(f, f.mul(y, f.Cube(z)), i, f.Square(i));
    MulAssoc(f, y, f.Cube(z), f.Cube(i));
    MulOneUnit(f, x);
    MulOneUnit(f, y);
  }

  /** One batch inversion serves all stored bases. */
  method ConvertToAffine<F(!new, ==)>(c: Curve<F>, bases: seq<ProjectivePoint<F>>, ghost points: seq<Point<F>>)
    returns (bases': seq<ProjectivePoint<F>>)
    requires LawfulField(c.field) && BasesStandFor(c, bases, points)
    ensures |bases'| == |points|
    ensures forall k :: 0 <= k < |points| ==> IsAffine(c.field, bases'[k], points[k])
  {
    var f := c.field;
    var zs := new F[|bases|](i requires 0 <= i < |bases| => bases[i].z);
    ghost var before := zs[..];
    ParallelInvert(f, zs);
    ghost var inverses := zs[..];
    assert forall k :: 0 <= k < |bases| ==> inverses[k] == f.inv(before[k]) && before[k] == bases[k].z;
    bases' := [];
    for i := 0 to |bases|
      invariant |bases'| == i && zs[..] == inverses
      invariant forall k :: 0 <= k < i ==> IsAffine(f, bases'[k], points[k])
    {
      assert zs[i] == inverses[i];
      var base := bases[i].(z := zs[i]);
      InvRight(f, bases[i].z);
      if base.z != f.zero {
        if points[i].Affine? {
          ScaleBack(f, points[i].x, points[i].y, bases[i].z);
        }
        base := base.(y := f.mul(base.y, base.z));
        base := base.(z := f.Square(base.z));
        base := base.(x := f.mul(base.x, base.z));
        base := base.(y := f.mul(base.y, base.z));
      }
      bases' := bases' + [base];
    }
  }

  /** The final cascade of one exponent. */
  method FinalCascade<F(!new, ==)>(c: Curve<F>, bases: seq<ProjectivePoint<F>>, pieces: seq<Piece>,
                                   ghost cascade: seq<BaseAndExponent<Point<F>>>, ghost points: seq<Point<F>>)
    returns (eb: seq<BaseAndExponent<Point<F>>>)
    requires |bases| == |points| && Named(c, pieces, cascade, points)
    requires forall k :: 0 <= k < |points| ==> IsAffine(c.field, bases[k], points[k])
    ensures eb == cascade
  {
    eb := [];
    for j := 0 to |pieces|
      invariant |eb| == j && forall k :: 0 <= k < j ==> eb[k] == cascade[k]
    {
      var base := bases[pieces[j].index];
      var point := Infinity;
      if base.z != c.field.zero {
        point := Affine(base.x, if pieces[j].negate then c.field.neg(base.y) else base.y);
      }
      assert IsAffine(c.field, base, points[pieces[j].index]);
      eb := eb + [BaseAndExponent(point, pieces[j].window)];
    }
  }

  // ----- the whole

  /** What the stored values stand for: the terms of each cascade, the stored points, and the
      sliders as they are. */
  datatype Shadow<F> = Shadow(cascades: seq<seq<BaseAndExponent<Point<F>>>>, points: seq<Point<F>>, views: seq<View>)

  /** The values the main loop builds up. */
  datatype Work<F> = Work(pieces: seq<seq<Piece>>, bases: seq<ProjectivePoint<F>>, baseAdded: bool, notDone: bool)

  ghost predicate AllReady(sliders: seq<WindowSlider>, views: seq<View>)
    reads sliders
  {
    && (forall i, j :: 0 <= i < j < |sliders| ==> sliders[i] != sliders[j])
    && |sliders| == |views| && forall k :: 0 <= k < |sliders| ==> Ready(sliders[k], views[k])
  }

  /** The bases are right, and the last one is the current doubling if it was stored this round. */
  ghost predicate BasesRight<F>(c: Curve<F>, work: Work<F>, points: seq<Point<F>>, P: Point<F>, position: nat) {
    && BasesStandFor(c, work.bases, points)
    && (work.baseAdded ==> |points| >= 1 && points[|points| - 1] == Mul(CurveGroup(c), Pow2(position), P))
  }

  /** In the middle of a round: the first n exponents are past this position. */
  ghost predicate Partway<F>(c: Curve<F>, work: Work<F>, shadow: Shadow<F>, exps: seq<nat>, P: Point<F>,
                             position: nat, bound: nat, n: nat)
  {
    && |work.pieces| == |shadow.cascades| == |shadow.views| == |exps| && n <= |exps|
    && (work.notDone ==> position + 1 <= bound)
    && (!work.notDone ==> forall k :: 0 <= k < n ==> shadow.views[k].finished)
    && forall k :: 0 <= k < |exps| ==>
         Accounts(c, shadow.views[k], work.pieces[k], shadow.cascades[k], shadow.points, exps[k], P,
                  if k < n then position + 1 else position, bound)
  }

  lemma {:induction false} AccountsMonotone<F>(c: Curve<F>, v: View, pieces: seq<Piece>,
                                               cascade: seq<BaseAndExponent<Point<F>>>, points: seq<Point<F>>,
                                               points': seq<Point<F>>, e: nat, P: Point<F>, position: nat,
                                               bound: nat)
    requires Accounts(c, v, pieces, cascade, points, e, P, position, bound) && points <= points'
    ensures Accounts(c, v, pieces, cascade, points', e, P, position, bound)
  {
    NamedMonotone(c, pieces, cascade, points, points');
  }

  /** Exponent i moves past the position; more points may have been stored. */
  lemma {:induction false} PartwayStep<F>(c: Curve<F>, work: Work<F>, shadow: Shadow<F>, work': Work<F>,
                                          shadow': Shadow<F>, exps: seq<nat>, P: Point<F>, position: nat,
                                          bound: nat, i: nat)
    requires i < |exps| && Partway(c, work, shadow, exps, P, position, bound, i)
    requires shadow.points <= shadow'.points
    requires |work'.pieces| == |exps| && work'.pieces == work.pieces[i := work'.pieces[i]]
    requires |shadow'.cascades| == |shadow'.views| == |exps|
    requires shadow'.cascades == shadow.cascades[i := shadow'.cascades[i]]
    requires shadow'.views == shadow.views[i := shadow'.views[i]]
    requires Accounts(c, shadow'.views[i], work'.pieces[i], shadow'.cascades[i], shadow'.points, exps[i], P,
                      position + 1, bound)
    requires work'.notDone == (work.notDone || !shadow'.views[i].finished)
    ensures Partway(c, work', shadow', exps, P, position, bound, i + 1)
  {
    forall k | 0 <= k < |exps|
      ensures Accounts(c, shadow'.views[k], work'.pieces[k], shadow'.cascades[k], shadow'.points, exps[k], P,
                       if k < i + 1 then position + 1 else position, bound)
    {
      if k != i {
        AccountsMonotone(c, shadow.views[k], work.pieces[k], shadow.cascades[k], shadow.points, shadow'.points,
                         exps[k], P, if k < i then position + 1 else position, bound);
      }
    }
  }

  /** Storing the base leaves the account as it was. */
  lemma {:induction false} BaseReady<F(!new)>(c: Curve<F>, v: View, pieces: seq<Piece>,
                                              bases: seq<ProjectivePoint<F>>, baseAdded: bool,
                                              current: ProjectivePoint<F>, position: nat,
                                              cascade: seq<BaseAndExponent<Point<F>>>, points: seq<Point<F>>,
                                              power: Point<F>, e: nat, P: Point<F>, bound: nat)
    requires Setting(c, P) && power == Mul(CurveGroup(c), Pow2(position), P)
    requires Accounts(c, v, pieces, cascade, points, e, P, position, bound)
    requires BasesStandFor(c, bases, points) && Represents(c.field, current, power)
    requires baseAdded ==> |points| >= 1 && points[|points| - 1] == power
    ensures var points' := Stored(points, baseAdded, power);
            && Accounts(c, v, pieces, cascade, points', e, P, position, bound)
            && BasesStandFor(c, Stored(bases, baseAdded, current), points') && points <= points'
            && |points'| >= 1 && points'[|points'| - 1] == power
  {
    MulMember(CurveGroup(c), Pow2(position), P);
    StoredBase(c, current, baseAdded, bases, points, power);
    AccountsMonotone(c, v, pieces, cascade, points, Stored(points, baseAdded, power), e, P, position, bound);
  }

  lemma {:induction false} NamedMore<F>(c: Curve<F>, pieces: seq<Piece>, cascade: seq<BaseAndExponent<Point<F>>>,
                                        points: seq<Point<F>>, piece: Piece)
    requires Named(c, pieces, cascade, points) && piece.index < |points|
    ensures Named(c, pieces + [piece], cascade + [PieceEntry(c, piece, points[piece.index])], points)
  {
  }

  /** A window of this exponent is here: its base is stored, unless another exponent stored
      it already, and the window goes to the list. */
  lemma {:induction false} PieceTaken<F(!new)>(c: Curve<F>, v: View, v': View, pieces: seq<Piece>,
                                               bases: seq<ProjectivePoint<F>>, baseAdded: bool,
                                               current: ProjectivePoint<F>, position: nat,
                                               cascade: seq<BaseAndExponent<Point<F>>>, points: seq<Point<F>>,
                                               power: Point<F>, piece: Piece, e: nat, P: Point<F>, bound: nat)
    requires Setting(c, P) && power == Mul(CurveGroup(c), Pow2(position), P)
    requires Accounts(c, v, pieces, cascade, points, e, P, position, bound) && Bounded(v', position + 1, bound)
    requires BasesStandFor(c, bases, points) && Represents(c.field, current, power)
    requires baseAdded ==> |points| >= 1 && points[|points| - 1] == power
    requires piece.index == |Stored(bases, baseAdded, current)| - 1 && piece.window <= 31 && v'.pending >= 0
    requires v.pending == v'.pending + Shl(Signed(piece.window, piece.negate), position)
    ensures var points' := Stored(points, baseAdded, power);
            && Accounts(c, v', pieces + [piece], cascade + [PieceEntry(c, piece, power)], points', e, P,
                        position + 1, bound)
            && BasesStandFor(c, Stored(bases, baseAdded, current), points') && points <= points'
            && |points'| >= 1 && points'[|points'| - 1] == power
  {
    BaseReady(c, v, pieces, bases, baseAdded, current, position, cascade, points, power, e, P, bound);
    AccountsMore(c, v, v', pieces, position, cascade, Stored(points, baseAdded, power), power, piece, e, P, bound);
  }

  lemma {:induction false} AccountsMore<F(!new)>(c: Curve<F>, v: View, v': View, pieces: seq<Piece>, position: nat,
                                                 cascade: seq<BaseAndExponent<Point<F>>>, points: seq<Point<F>>,
                                                 power: Point<F>, piece: Piece, e: nat, P: Point<F>, bound: nat)
    requires Setting(c, P) && power == Mul(CurveGroup(c), Pow2(position), P)
    requires Accounts(c, v, pieces, cascade, points, e, P, position, bound) && Bounded(v', position + 1, bound)
    requires piece.index < |points| && points[piece.index] == power && piece.window <= 31 && v'.pending >= 0
    requires v.pending == v'.pending + Shl(Signed(piece.window, piece.negate), position)
    ensures Accounts(c, v', pieces + [piece], cascade + [PieceEntry(c, piece, power)], points, e, P, position + 1,
                     bound)
  {
    AddPiece(c, cascade, v.pending, v'.pending, piece, position, power, e, P);
    NamedMore(c, pieces, cascade, points, piece);
  }

  lemma {:induction false} NoWindowHere<F>(c: Curve<F>, v: View, pieces: seq<Piece>,
                                           cascade: seq<BaseAndExponent<Point<F>>>, points: seq<Point<F>>, e: nat,
                                           P: Point<F>, position: nat, bound: nat)
    requires Accounts(c, v, pieces, cascade, points, e, P, position, bound) && Bounded(v, position + 1, bound)
    ensures Accounts(c, v, pieces, cascade, points, e, P, position + 1, bound)
  {
  }

  /** Exponent i at this position, whether or not a window of it is here. */
  method TakeOne<F(!new, ==)>(c: Curve<F>, sliders: seq<WindowSlider>, work: Work<F>, i: nat,
                              current: ProjectivePoint<F>, position: nat, ghost shadow: Shadow<F>,
                              ghost exps: seq<nat>, ghost P: Point<F>, ghost bound: nat)
    returns (work': Work<F>, ghost shadow': Shadow<F>)
    requires Setting(c, P) && i < |sliders| && AllReady(sliders, shadow.views) && |exps| == |sliders|
    requires BasesRight(c, work, shadow.points, P, position)
    requires Partway(c, work, shadow, exps, P, position, bound, i)
    requires Represents(c.field, current, Mul(CurveGroup(c), Pow2(position), P))
    modifies sliders[i]
    ensures AllReady(sliders, shadow'.views)
    ensures BasesRight(c, work', shadow'.points, P, position)
    ensures Partway(c, work', shadow', exps, P, position, bound, i + 1)
  {
    assert Accounts(c, shadow.views[i], work.pieces[i], shadow.cascades[i], shadow.points, exps[i], P, position, bound);
    var bases := Stored(work.bases, work.baseAdded, current);
    var piece; ghost var v;
    piece, v := NextPiece(sliders[i], |bases| - 1, position, shadow.views[i], bound);
    work', shadow' := work.(notDone := work.notDone || !sliders[i].finished), shadow.(views := shadow.views[i := v]);
    if piece.Some? {
      ghost var power := Mul(CurveGroup(c), Pow2(position), P);
      work' := Work(work.pieces[i := work.pieces[i] + [piece.value]], bases, true, work'.notDone);
      shadow' := Shadow(shadow.cascades[i := shadow.cascades[i] + [PieceEntry(c, piece.value, power)]],
                        Stored(shadow.points, work.baseAdded, power), shadow'.views);
      WithPiece(c, work, work', current, piece.value, v, shadow, shadow', exps, P, power, position, bound, i);
    } else {
      NoWindowHere(c, v, work.pieces[i], shadow.cascades[i], shadow.points, exps[i], P, position, bound);
      PartwayStep(c, work, shadow, work', shadow', exps, P, position, bound, i);
    }
  }

  lemma {:induction false} WithPiece<F(!new)>(c: Curve<F>, work: Work<F>, work': Work<F>, current: ProjectivePoint<F>,
                                              piece: Piece, v: View, shadow: Shadow<F>, shadow': Shadow<F>,
                                              exps: seq<nat>, P: Point<F>, power: Point<F>, position: nat, bound: nat,
                                              i: nat)
    requires Setting(c, P) && i < |exps| && BasesRight(c, work, shadow.points, P, position)
    requires Partway(c, work, shadow, exps, P, position, bound, i)
    requires power == Mul(CurveGroup(c), Pow2(position), P) && Represents(c.field, current, power)
    requires Bounded(v, position + 1, bound) && v.pending >= 0
    requires piece.window <= 31 && piece.index == |Stored(work.bases, work.baseAdded, current)| - 1
    requires shadow.views[i].pending == v.pending + Shl(Signed(piece.window, piece.negate), position)
    requires work' == Work(work.pieces[i := work.pieces[i] + [piece]], Stored(work.bases, work.baseAdded, current),
                           true, work.notDone || !v.finished)
    requires shadow' == Shadow(shadow.cascades[i := shadow.cascades[i] + [PieceEntry(c, piece, power)]],
                               Stored(shadow.points, work.baseAdded, power), shadow.views[i := v])
    ensures BasesRight(c, work', shadow'.points, P, position)
    ensures Partway(c, work', shadow', exps, P, position, bound, i + 1)
  {
    PieceTaken(c, shadow.views[i], v, work.pieces[i], work.bases, work.baseAdded, current, position,
               shadow.cascades[i], shadow.points, power, piece, exps[i], P, bound);
    PartwayStep(c, work, shadow, work', shadow', exps, P, position, bound, i);
  }

  /** One round of the main loop: all exponents at one bit position. */
  method TakeRound<F(!new, ==)>(c: Curve<F>, sliders: seq<WindowSlider>, work: Work<F>, current: ProjectivePoint<F>,
                                position: nat, ghost shadow: Shadow<F>, ghost exps: seq<nat>, ghost P: Point<F>,
                                ghost bound: nat)
    returns (work': Work<F>, ghost shadow': Shadow<F>)
    requires Setting(c, P) && AllReady(sliders, shadow.views) && |exps| == |sliders|
    requires BasesStandFor(c, work.bases, shadow.points)
    requires Partway(c, work.(notDone := false), shadow, exps, P, position, bound, 0)
    requires Represents(c.field, current, Mul(CurveGroup(c), Pow2(position), P))
    modifies sliders
    ensures AllReady(sliders, shadow'.views)
    ensures BasesStandFor(c, work'.bases, shadow'.points)
    ensures Partway(c, work', shadow', exps, P, position, bound, |sliders|)
  {
    work', shadow' := work.(notDone := false, baseAdded := false), shadow;
    for i := 0 to |sliders|
      invariant AllReady(sliders, shadow'.views)
      invariant BasesRight(c, work', shadow'.points, P, position)
      invariant Partway(c, work', shadow', exps, P, position, bound, i)
    {
      work', shadow' := TakeOne(c, sliders, work', i, current, position, shadow', exps, P, bound);
    }
  }

  method StartSliders<F(!new, ==)>(c: Curve<F>, exps: seq<nat>, ghost P: Point<F>, ghost bound: nat)
    returns (sliders: seq<WindowSlider>, work: Work<F>, ghost shadow: Shadow<F>)
    requires Setting(c, P) && forall i :: 0 <= i < |exps| ==> 1 <= exps[i] <= Pow2(bound)
    ensures |sliders| == |exps| && fresh(set s | s in sliders) && AllReady(sliders, shadow.views)
    ensures work.bases == [] && !work.notDone && shadow.points == []
    ensures Partway(c, work, shadow, exps, P, 0, bound, 0)
  {
    sliders, work, shadow := [], Work([], [], false, false), Shadow([], [], []);
    for i := 0 to |exps|
      invariant |sliders| == i && fresh(set s | s in sliders) && AllReady(sliders, shadow.views)
      invariant work.bases == [] && !work.notDone && shadow.points == []
      invariant Partway(c, work, shadow, exps[..i], P, 0, bound, 0)
    {
      var s; ghost var v;
      s, v := StartSlider(c, exps[i], P, bound);
      sliders := sliders + [s];
      work := work.(pieces := work.pieces + [[]]);
      shadow := shadow.(cascades := shadow.cascades + [[]], views := shadow.views + [v]);
      assert exps[..i + 1] == exps[..i] + [exps[i]];
    }
    assert exps[..|exps|] == exps;
  }

  /** After the last round, position by position, nothing is pending. */
  ghost predicate AllNamed<F>(c: Curve<F>, work: Work<F>, shadow: Shadow<F>, exps: seq<nat>, P: Point<F>) {
    && |work.pieces| == |shadow.cascades| == |exps|
    && forall k :: 0 <= k < |exps| ==>
         && |work.pieces[k]| >= 1
         && Named(c, work.pieces[k], shadow.cascades[k], shadow.points)
         && Adds(c, shadow.cascades[k], 0, exps[k], P)
  }

  lemma {:induction false} RoundDone<F>(c: Curve<F>, sliders: seq<WindowSlider>, work: Work<F>, shadow: Shadow<F>,
                                        exps: seq<nat>, P: Point<F>, position: nat, bound: nat)
    requires AllReady(sliders, shadow.views) && |sliders| == |exps|
    requires Partway(c, work, shadow, exps, P, position, bound, |exps|)
    ensures if work.notDone then position + 1 <= bound else AllNamed(c, work, shadow, exps, P)
    ensures Partway(c, work.(notDone := false), shadow, exps, P, position + 1, bound, 0)
  {
    forall k | 0 <= k < |exps|
      ensures Accounts(c, shadow.views[k], work.pieces[k], shadow.cascades[k], shadow.points, exps[k], P,
                       position + 1, bound)
      ensures Ready(sliders[k], shadow.views[k])
    {
    }
  }

  lemma {:induction false} DoubleIsAdd<F(!new)>(c: Curve<F>, n: nat, P: Point<F>)
    requires Setting(c, P)
    ensures DoublePoint(c, Mul(CurveGroup(c), n, P)) == Mul(CurveGroup(c), 2 * n, P)
  {
    MulDouble(CurveGroup(c), n, P);
  }

  /** Between two rounds at this position: everything is in step with the running doubling. */
  ghost predicate InStep<F(!new)>(c: Curve<F>, rd: ProjectiveDoubling<F>, sliders: seq<WindowSlider>, work: Work<F>,
                                  shadow: Shadow<F>, exps: seq<nat>, P: Point<F>, position: nat, bound: nat)
    reads rd, sliders
  {
    && |sliders| == |exps| && AllReady(sliders, shadow.views)
    && BasesStandFor(c, work.bases, shadow.points)
    && rd.curve == c && rd.Tracks(Mul(CurveGroup(c), Pow2(position), P)) && position <= bound
    && Partway(c, work.(notDone := false), shadow, exps, P, position, bound, 0)
  }

  /** One turn of the main loop: a round and, if anything is left, a doubling. */
  method TakeAndDouble<F(!new, ==)>(c: Curve<F>, rd: ProjectiveDoubling<F>, sliders: seq<WindowSlider>,
                                    work: Work<F>, position: nat, ghost shadow: Shadow<F>, ghost exps: seq<nat>,
                                    ghost P: Point<F>, ghost bound: nat)
    returns (work': Work<F>, ghost shadow': Shadow<F>)
    requires Setting(c, P) && InStep(c, rd, sliders, work, shadow, exps, P, position, bound)
    modifies sliders, rd
    ensures BasesStandFor(c, work'.bases, shadow'.points)
    ensures if work'.notDone then position + 1 <= bound
              && InStep(c, rd, sliders, work', shadow', exps, P, position + 1, bound)
            else AllNamed(c, work', shadow', exps, P)
  {
    work', shadow' := TakeRound(c, sliders, work, rd.P, position, shadow, exps, P, bound);
    RoundDone(c, sliders, work', shadow', exps, P, position, bound);
    if work'.notDone {
      DoubleIsAdd(c, Pow2(position), P);
      rd.Double(Mul(CurveGroup(c), Pow2(position), P));
    }
  }

  /** The main loop: doublings, and the windows of all exponents on the way. */
  method DoubleAndTake<F(!new, ==)>(c: Curve<F>, rd: ProjectiveDoubling<F>, sliders: seq<WindowSlider>,
                                    start: Work<F>, ghost before: Shadow<F>, ghost exps: seq<nat>,
                                    ghost P: Point<F>, ghost bound: nat)
    returns (work: Work<F>, ghost shadow: Shadow<F>)
    requires Setting(c, P) && InStep(c, rd, sliders, start, before, exps, P, 0, bound)
    modifies sliders, rd
    ensures BasesStandFor(c, work.bases, shadow.points) && AllNamed(c, work, shadow, exps, P)
  {
    var position, notDone := 0, true;
    work, shadow := start, before;
    while notDone
      invariant notDone ==> position <= bound && InStep(c, rd, sliders, work, shadow, exps, P, position, bound)
      invariant !notDone ==> BasesStandFor(c, work.bases, shadow.points) && AllNamed(c, work, shadow, exps, P)
      decreases if notDone then bound - position + 1 else 0
    {
      work, shadow := TakeAndDouble(c, rd, sliders, work, position, shadow, exps, P, bound);
      notDone, position := work.notDone, position + 1;
    }
  }

  /** The cascade of every exponent, evaluated. */
  method EvaluateCascades<F(!new, ==)>(c: Curve<F>, bases: seq<ProjectivePoint<F>>, work: Work<F>,
                                       ghost shadow: Shadow<F>, ghost exps: seq<nat>, ghost P: Point<F>)
    returns (results: seq<Point<F>>)
    requires Setting(c, P) && AllNamed(c, work, shadow, exps, P) && |bases| == |shadow.points|
    requires forall k :: 0 <= k < |bases| ==> IsAffine(c.field, bases[k], shadow.points[k])
    ensures |results| == |exps|
    ensures forall i :: 0 <= i < |exps| ==> results[i] == Mul(CurveGroup(c), exps[i], P)
  {
    results := [];
    for i := 0 to |work.pieces|
      invariant |results| == i
      invariant forall k :: 0 <= k < i ==> results[k] == Mul(CurveGroup(c), exps[k], P)
    {
      var cascade := FinalCascade(c, bases, work.pieces[i], shadow.cascades[i], shadow.points);
      var r := GeneralCascadeMultiplication(CurveGroup(c), cascade, 31);
      UnitRight(CurveGroup(c), r);
      results := results + [r];
    }
  }

  /** For every curve, point and list of positive exponents the results are the plain
      multiples of the point. */
  method SimultaneousMultiply<F(!new, ==)>(c: Curve<F>, P: Point<F>, exps: seq<nat>) returns (results: seq<Point<F>>)
    requires LawfulField(c.field) && Associative(c) && c.On(P) && forall i :: 0 <= i < |exps| ==> exps[i] >= 1
    ensures |results| == |exps|
    ensures forall i :: 0 <= i < |exps| ==> results[i] == Mul(CurveGroup(c), exps[i], P)
  {
    PointsFormGroup(c);
    ghost var bound := Simultaneous.Sum(exps);
    Simultaneous.SumBounds(exps);
    Pow2Exceeds(bound);
    var rd := new ProjectiveDoubling(c, P);
    var sliders, work; ghost var shadow;
    sliders, work, shadow := StartSliders(c, exps, P, bound);
    MulOne(CurveGroup(c), P);
    work, shadow := DoubleAndTake(c, rd, sliders, work, shadow, exps, P, bound);
    var bases := ConvertToAffine(c, work.bases, shadow.points);
    results := EvaluateCascades(c, bases, work, shadow, exps, P);
  }

  /** k·P for every k: short exponents, zero among them, go to the generic algorithm. */
  method ScalarMultiply<F(!new, ==)>(c: Curve<F>, P: Point<F>, k: nat) returns (result: Point<F>)
    requires LawfulField(c.field) && Associative(c) && c.On(P)
    ensures result == Mul(CurveGroup(c), k, P)
  {
    PointsFormGroup(c);
    if BitCount(k) <= 5 {
      result := Simultaneous.ScalarMultiply(CurveGroup(c), P, k);
    } else {
      var results := SimultaneousMultiply(c, P, [k]);
      result := results[0];
    }
  }

  /** The exponents inside a cascade never exceed 31, so `ECP::ScalarMultiply` sends them to
      the generic algorithm and the mutual recursion ends there. */
  lemma {:induction false} CascadeStaysGeneric(k: nat)
    ensures k <= 31 <==> BitCount(k) <= 5
  {
    WindowFits();
    if k <= 31 && BitCount(k) > 5 {
      Pow2Monotone(5, BitCount(k) - 1);
    }
    if BitCount(k) <= 5 {
      Pow2Monotone(BitCount(k), 5);
    }
  }
}
