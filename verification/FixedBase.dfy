/** `DL_FixedBasePrecomputationImpl` (eprecomp.cpp): powers of a fixed base, and
    multiplication by cutting the exponent into one digit per stored power. */
module FixedBase {
  import opened Bits
  import opened Groups
  import opened GeneralCascade

  /** `DL_GroupPrecomputation`: the group computed in, and the conversions to and from it. */
  datatype GroupPrecomputation<!T> = GroupPrecomputation(
    group: Group<T>,
    needConversions: bool,
    convertIn: T -> T,
    convertOut: T -> T)
  {
    /** How a base is represented inside. */
    function Stored(base: T): T {
      if needConversions then convertIn(base) else base
    }
  }

  /** `ConvertOut` maps the inner group to the outer one, and undoes `ConvertIn`. */
  ghost predicate Converts<T(!new)>(gp: GroupPrecomputation<T>, outer: Group<T>) {
    && gp.convertOut(gp.group.id) == outer.id
    && (forall x, y :: OutAdds(gp, outer, x, y))
    && (forall b :: gp.convertOut(gp.Stored(b)) == b)
  }

  ghost predicate OutAdds<T>(gp: GroupPrecomputation<T>, outer: Group<T>, x: T, y: T) {
    gp.group.mem(x) && gp.group.mem(y) ==>
      gp.convertOut(gp.group.add(x, y)) == outer.add(gp.convertOut(x), gp.convertOut(y))
  }

  /** A multiple computed inside comes out as the multiple of the original base. */
  lemma {:induction false} ConvertedMultiple<T(!new)>(gp: GroupPrecomputation<T>, outer: Group<T>, n: nat, base: T)
    requires Lawful(gp.group) && Converts(gp, outer) && gp.group.mem(gp.Stored(base))
    ensures gp.convertOut(Mul(gp.group, n, gp.Stored(base))) == Mul(outer, n, base)
  {
    if n != 0 {
      ConvertedMultiple(gp, outer, n - 1, base);
      MulMember(gp.group, n - 1, gp.Stored(base));
      assert OutAdds(gp, outer, Mul(gp.group, n - 1, gp.Stored(base)), gp.Stored(base));
    }
  }

  /** Each stored base is 2^w times the one before. */
  ghost predicate Powers<T>(g: Group<T>, bases: seq<T>, w: nat) {
    && (forall i :: 0 <= i < |bases| ==> g.mem(bases[i]))
    && (forall i :: 1 <= i < |bases| ==> bases[i] == Mul(g, Pow2(w), bases[i - 1]))
  }

  /** Base i is 2^(w·i) times the first. */
  lemma {:induction false} PowersClosedForm<T(!new)>(g: Group<T>, bases: seq<T>, w: nat, i: nat)
    requires Lawful(g) && Powers(g, bases, w) && i < |bases|
    ensures w * i >= 0 && bases[i] == Mul(g, Pow2(w * i), bases[0])
  {
    if i == 0 {
      MulOne(g, bases[0]);
    } else {
      PowersClosedForm(g, bases, w, i - 1);
      var a := w * (i - 1);
      assert w * i == w + a;
      MulShl(g, Pow2(w), a, bases[0]);
      Pow2Add(w, a);
    }
  }

  // ----- one digit of the exponent

  /** `e = q` and a plain digit r for base b, whose 2^w-fold is b'. */
  lemma {:induction false} PlainDigit<T(!new)>(g: Group<T>, b: T, w: nat, e: nat, q: nat, r: nat)
    requires Lawful(g) && g.mem(b) && e == Shl(q, w) + r
    ensures g.mem(Mul(g, Pow2(w), b))
    ensures g.add(Mul(g, r, b), Mul(g, q, Mul(g, Pow2(w), b))) == Mul(g, e, b)
  {
    MulShl(g, q, w, b);
    MulAdd(g, r, Shl(q, w), b);
  }

  /** A digit 2^w - r for the inverse of b, with one carried to the rest. */
  lemma {:induction false} NegatedDigit<T(!new)>(g: Group<T>, b: T, w: nat, e: nat, q: nat, r: nat)
    requires Lawful(g) && g.mem(b) && g.inversionIsFast && e == Shl(q, w) + r && r <= Pow2(w)
    ensures g.mem(Mul(g, Pow2(w), b)) && g.mem(g.inv(b))
    ensures g.add(Mul(g, Pow2(w) - r, g.inv(b)), Mul(g, q + 1, Mul(g, Pow2(w), b))) == Mul(g, e, b)
  {
    var k := Pow2(w) - r;
    MulOne(g, b);
    InverseMember(g, b);
    MulCancel(g, e, k, 0, b);
    ShlAdd(q, 1, w);
    Pow2IsShl(w);
    MulShl(g, q + 1, w, b);
    MulMember(g, k, g.inv(b));
    MulMember(g, q + 1, Mul(g, Pow2(w), b));
    AddMember(g, Mul(g, k, g.inv(b)), Mul(g, q + 1, Mul(g, Pow2(w), b)));
  }

  /** The digits `PrepareCascade` may produce before the last one. */
  ghost predicate Digit(exponent: nat, w: nat, fastNegate: bool) {
    if fastNegate then w >= 1 && exponent <= Pow2(w - 1) else exponent < Pow2(w)
  }

  lemma {:induction false} HalfDigit(r: nat, w: nat)
    requires w >= 1 && r < Pow2(w)
    ensures if GetBit(r, w - 1) then Pow2(w) - r <= Pow2(w - 1) else r <= Pow2(w - 1)
  {
    ShrZero(r, w);
  }

  class FixedBasePrecomputation<T(!new, ==)> {
    var base: T
    var windowSize: nat
    var exponentBase: nat
    var bases: seq<T>

    ghost predicate Valid(g: Group<T>)
      reads this
    {
      && Powers(g, bases, windowSize)
      && (|bases| > 1 ==> windowSize >= 1 && exponentBase == Pow2(windowSize))
    }

    constructor (blank: T)
      ensures forall g: Group<T> :: Valid(g)
      ensures bases == []
    {
      base := blank;
      windowSize := 0;
      exponentBase := 0;
      bases := [];
    }

    /** The table is kept if it is for this base already. */
    method SetBase(gp: GroupPrecomputation<T>, newBase: T)
      requires Valid(gp.group) && gp.group.mem(gp.Stored(newBase))
      modifies this
      ensures Valid(gp.group) && base == newBase
      ensures |bases| >= 1 && bases[0] == gp.Stored(newBase)
      ensures old(|bases|) >= 1 && old(bases)[0] == gp.Stored(newBase) ==> bases == old(bases)
      ensures old(|bases|) == 0 || old(bases)[0] != gp.Stored(newBase) ==> |bases| == 1
      ensures windowSize == old(windowSize) && exponentBase == old(exponentBase)
    {
      base := if gp.needConversions then gp.convertIn(newBase) else newBase;
      if |bases| == 0 || base != bases[0] {
        bases := [base];
      }
      if gp.needConversions {
        base := newBase;
      }
    }

    /** `storage` bases are stored; the first one stays. */
    method Precompute(gp: GroupPrecomputation<T>, maxExpBits: nat, storage: nat)
      requires Lawful(gp.group) && Valid(gp.group)
      requires |bases| >= 1 && storage <= maxExpBits
      modifies this
      ensures Valid(gp.group) && |bases| == storage && base == old(base)
      ensures storage >= 1 ==> bases[0] == old(bases)[0]
      ensures storage > 1 ==> windowSize == (maxExpBits + storage - 1) / storage
    {
      if storage > 1 {
        windowSize := (maxExpBits + storage - 1) / storage;
        WindowPositive(maxExpBits, storage);
        exponentBase := Pow2(windowSize);
      }
      var i, table := 1, if storage == 0 then [] else [bases[0]];
      while i < storage
        invariant 1 <= i && |table| == if storage == 0 then 0 else i
        invariant storage >= 1 ==> i <= storage && table[0] == bases[0]
        invariant Powers(gp.group, table, windowSize)
        modifies {}
      {
        var next := ScalarMultiplyWithin(gp.group, table[i - 1], exponentBase, exponentBase);
        table := table + [next];
        i := i + 1;
      }
      bases := table;
    }

    /** The exponent is cut into one digit for each stored base: the pieces add up to
        exponent·base, and every digit but the last is short. */
    method PrepareCascade(gp: GroupPrecomputation<T>, eb: seq<BaseAndExponent<T>>, exponent: nat)
      returns (eb': seq<BaseAndExponent<T>>)
      requires Lawful(gp.group) && Valid(gp.group) && |bases| >= 1
      ensures |eb'| == |eb| + |bases| && eb'[..|eb|] == eb
      ensures Bases(gp.group, eb'[|eb|..])
      ensures WeightedSum(gp.group, eb'[|eb|..]) == Mul(gp.group, exponent, bases[0])
      ensures forall i :: |eb| <= i < |eb'| - 1 ==>
                Digit(eb'[i].exponent, windowSize, gp.group.inversionIsFast && windowSize > 1)
    {
      var g, e, fastNegate := gp.group, exponent, gp.group.inversionIsFast && windowSize > 1;
      var segments: seq<BaseAndExponent<T>> := [];
      ghost var total := Mul(g, exponent, bases[0]);
      MulMember(g, exponent, bases[0]);
      UnitRight(g, total);
      var i := 0;
      while i + 1 < |bases|
        invariant 0 <= i < |bases| && |segments| == i && Bases(g, segments)
        invariant g.add(WeightedSum(g, segments), Mul(g, e, bases[i])) == total
        invariant forall k :: 0 <= k < i ==> Digit(segments[k].exponent, windowSize, fastNegate)
      {
        var digit;
        ghost var before := e;
        digit, e := CutDigit(gp, i, e, fastNegate);
        MulMember(g, e, bases[i + 1]);
        AppendTerm(g, segments, digit, Mul(g, e, bases[i + 1]), Mul(g, before, bases[i]), total);
        segments := segments + [digit];
        i := i + 1;
      }
      WeightedSumConcat(g, segments, [BaseAndExponent(bases[i], e)]);
      WeightedSumOne(g, BaseAndExponent(bases[i], e));
      segments := segments + [BaseAndExponent(bases[i], e)];
      eb' := eb + segments;
      assert eb'[|eb|..] == segments;
    }

    method CutDigit(gp: GroupPrecomputation<T>, i: nat, exponent: nat, fastNegate: bool)
      returns (digit: BaseAndExponent<T>, e: nat)
      requires Lawful(gp.group) && Valid(gp.group) && i + 1 < |bases|
      requires fastNegate ==> gp.group.inversionIsFast
      ensures gp.group.mem(digit.base) && Digit(digit.exponent, windowSize, fastNegate)
      ensures gp.group.add(Term(gp.group, digit), Mul(gp.group, e, bases[i + 1])) == Mul(gp.group, exponent, bases[i])
    {
      var q, r := Shr(exponent, windowSize), Low(exponent, windowSize);
      Split(exponent, windowSize);
      HalfDigit(r, windowSize);
      e := q;
      if fastNegate && GetBit(r, windowSize - 1) {
        NegatedDigit(gp.group, bases[i], windowSize, exponent, q, r);
        e := e + 1;
        digit := BaseAndExponent(gp.group.inv(bases[i]), exponentBase - r);
      } else {
        PlainDigit(gp.group, bases[i], windowSize, exponent, q, r);
        digit := BaseAndExponent(bases[i], r);
      }
    }

    /** exponent·base, for every table and every exponent. */
    method Exponentiate(gp: GroupPrecomputation<T>, exponent: nat) returns (result: T)
      requires Lawful(gp.group) && Valid(gp.group) && |bases| >= 1
      ensures result == gp.convertOut(Mul(gp.group, exponent, bases[0]))
    {
      var eb := PrepareCascade(gp, [], exponent);
      assert eb[0..] == eb;
      var r := GeneralCascadeMultiplication(gp.group, eb, MaxExponent(eb));
      result := gp.convertOut(r);
    }

    /** exponent·base + exponent2·base2, from the two tables together. */
    method CascadeExponentiate(gp: GroupPrecomputation<T>, exponent: nat,
                               pc2: FixedBasePrecomputation<T>, exponent2: nat)
      returns (result: T)
      requires Lawful(gp.group) && Valid(gp.group) && |bases| >= 1
      requires pc2.Valid(gp.group) && |pc2.bases| >= 1
      ensures result == gp.convertOut(gp.group.add(Mul(gp.group, exponent, bases[0]),
                                                   Mul(gp.group, exponent2, pc2.bases[0])))
    {
      var eb := PrepareCascade(gp, [], exponent);
      assert eb[0..] == eb;
      var both := pc2.PrepareCascade(gp, eb, exponent2);
      assert both == eb + both[|eb|..];
      WeightedSumConcat(gp.group, eb, both[|eb|..]);
      var r := GeneralCascadeMultiplication(gp.group, both, MaxExponent(both));
      result := gp.convertOut(r);
    }
  }

  lemma {:induction false} WindowPositive(maxExpBits: nat, storage: nat)
    requires 1 <= storage <= maxExpBits
    ensures (maxExpBits + storage - 1) / storage >= 1
  {
  }

  ghost function MaxExponent<T>(eb: seq<BaseAndExponent<T>>): (m: nat)
    ensures ExponentsWithin(eb, m)
  {
    if |eb| == 0 then 0
    else
      var m := MaxExponent(eb[1..]);
      assert forall i :: 1 <= i < |eb| ==> eb[i] == eb[1..][i - 1];
      if m < eb[0].exponent then eb[0].exponent else m
  }
}
