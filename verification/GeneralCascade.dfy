/** `GeneralCascadeMultiplication` (algebra.cpp): a sum of multiples, by repeatedly dividing
    the greatest exponent by the next greatest one. */
module GeneralCascade {
  import opened Groups
  import opened SimultaneousMultiplication
  import opened CascadeMultiplication

  datatype BaseAndExponent<T> = BaseAndExponent(base: T, exponent: nat)

  ghost predicate Bases<T>(g: Group<T>, eb: seq<BaseAndExponent<T>>) {
    forall i :: 0 <= i < |eb| ==> g.mem(eb[i].base)
  }

  ghost predicate ExponentsWithin<T>(eb: seq<BaseAndExponent<T>>, limit: nat) {
    forall i :: 0 <= i < |eb| ==> eb[i].exponent <= limit
  }

  function Term<T>(g: Group<T>, t: BaseAndExponent<T>): T {
    Mul(g, t.exponent, t.base)
  }

  /** The sum of exponent·base over the list. */
  function WeightedSum<T>(g: Group<T>, eb: seq<BaseAndExponent<T>>): T {
    if |eb| == 0 then g.id else g.add(Term(g, eb[0]), WeightedSum(g, eb[1..]))
  }

  lemma {:induction false} WeightedSumMember<T(!new)>(g: Group<T>, eb: seq<BaseAndExponent<T>>)
    requires Lawful(g) && Bases(g, eb)
    ensures g.mem(WeightedSum(g, eb))
  {
    if |eb| != 0 {
      WeightedSumMember(g, eb[1..]);
      MulMember(g, eb[0].exponent, eb[0].base);
      AddMember(g, Term(g, eb[0]), WeightedSum(g, eb[1..]));
    }
  }

  lemma {:induction false} WeightedSumConcat<T(!new)>(g: Group<T>, a: seq<BaseAndExponent<T>>,
                                                      b: seq<BaseAndExponent<T>>)
    requires Lawful(g) && Bases(g, a) && Bases(g, b)
    ensures WeightedSum(g, a + b) == g.add(WeightedSum(g, a), WeightedSum(g, b))
  {
    WeightedSumMember(g, b);
    if |a| == 0 {
      assert a + b == b;
      UnitRight(g, WeightedSum(g, b));
    } else {
      assert (a + b)[1..] == a[1..] + b;
      WeightedSumConcat(g, a[1..], b);
      WeightedSumMember(g, a[1..]);
      MulMember(g, a[0].exponent, a[0].base);
      Assoc(g, Term(g, a[0]), WeightedSum(g, a[1..]), WeightedSum(g, b));
    }
  }

  lemma {:induction false} WeightedSumOne<T(!new)>(g: Group<T>, t: BaseAndExponent<T>)
    requires Lawful(g) && g.mem(t.base)
    ensures WeightedSum(g, [t]) == Term(g, t)
  {
    MulMember(g, t.exponent, t.base);
    UnitRight(g, Term(g, t));
    assert [t][1..] == [];
  }

  /** Appending a term to the list takes it out of the rest. */
  lemma {:induction false} AppendTerm<T(!new)>(g: Group<T>, segments: seq<BaseAndExponent<T>>,
                                               term: BaseAndExponent<T>, rest: T, before: T, total: T)
    requires Lawful(g) && Bases(g, segments) && g.mem(term.base) && g.mem(rest)
    requires g.add(Term(g, term), rest) == before
    requires g.add(WeightedSum(g, segments), before) == total
    ensures Bases(g, segments + [term])
    ensures g.add(WeightedSum(g, segments + [term]), rest) == total
  {
    WeightedSumConcat(g, segments, [term]);
    WeightedSumOne(g, term);
    WeightedSumMember(g, segments);
    MulMember(g, term.exponent, term.base);
    Assoc(g, WeightedSum(g, segments), Term(g, term), rest);
  }

  /** Taking entry i out of the list. */
  lemma {:induction false} WeightedSumRemove<T(!new)>(g: Group<T>, eb: seq<BaseAndExponent<T>>, i: nat)
    requires Lawful(g) && Bases(g, eb) && i < |eb|
    ensures WeightedSum(g, eb) == g.add(Term(g, eb[i]), WeightedSum(g, eb[..i] + eb[i + 1..]))
  {
    var a, t, c := eb[..i], [eb[i]], eb[i + 1..];
    assert eb == a + (t + c);
    WeightedSumConcat(g, a, t + c);
    WeightedSumConcat(g, t, c);
    WeightedSumConcat(g, a, c);
    WeightedSumOne(g, eb[i]);
    WeightedSumMember(g, a);
    WeightedSumMember(g, t);
    WeightedSumMember(g, c);
    Assoc(g, WeightedSum(g, a), WeightedSum(g, t), WeightedSum(g, c));
    AddMember(g, WeightedSum(g, a), WeightedSum(g, t));
    Assoc(g, WeightedSum(g, t), WeightedSum(g, a), WeightedSum(g, c));
  }

  lemma {:induction false} RemoveOccurrence<X>(a: seq<X>, b: seq<X>, i: nat)
    requires |a| > 0 && i < |b| && b[i] == a[0] && multiset(a) == multiset(b)
    ensures multiset(a[1..]) == multiset(b[..i] + b[i + 1..])
  {
    assert a == [a[0]] + a[1..];
    assert b == b[..i] + [b[i]] + b[i + 1..];
    assert multiset(a[1..]) == multiset(a) - multiset{a[0]};
    assert multiset(b[..i] + b[i + 1..]) == multiset(b) - multiset{b[i]};
  }

  /** The sum does not depend on the order of the list: what the heap operations do to it
      is irrelevant. */
  lemma {:induction false} WeightedSumPermuted<T(!new)>(g: Group<T>, a: seq<BaseAndExponent<T>>,
                                                        b: seq<BaseAndExponent<T>>)
    requires Lawful(g) && Bases(g, a) && multiset(a) == multiset(b)
    ensures Bases(g, b) && WeightedSum(g, a) == WeightedSum(g, b)
  {
    assert Bases(g, b) by {
      forall i | 0 <= i < |b| ensures g.mem(b[i].base) {
        assert b[i] in multiset(a);
      }
    }
    if |a| == 0 {
      assert |multiset(b)| == 0;
    } else {
      assert a[0] in multiset(b);
      var i :| 0 <= i < |b| && b[i] == a[0];
      var b' := b[..i] + b[i + 1..];
      RemoveOccurrence(a, b, i);
      WeightedSumPermuted(g, a[1..], b');
      WeightedSumRemove(g, b, i);
    }
  }

  lemma {:induction false} WeightedSumZero<T(!new)>(g: Group<T>, eb: seq<BaseAndExponent<T>>)
    requires Lawful(g) && Bases(g, eb) && ExponentsWithin(eb, 0)
    ensures WeightedSum(g, eb) == g.id
  {
    if |eb| != 0 {
      WeightedSumZero(g, eb[1..]);
      UnitRight(g, g.id);
    }
  }

  ghost function ExponentTotal<T>(eb: seq<BaseAndExponent<T>>): nat {
    if |eb| == 0 then 0 else eb[0].exponent + ExponentTotal(eb[1..])
  }

  lemma {:induction false} ExponentTotalConcat<T>(a: seq<BaseAndExponent<T>>, b: seq<BaseAndExponent<T>>)
    ensures ExponentTotal(a + b) == ExponentTotal(a) + ExponentTotal(b)
  {
    if |a| == 0 {
      assert a + b == b;
    } else {
      assert (a + b)[1..] == a[1..] + b;
      ExponentTotalConcat(a[1..], b);
    }
  }

  lemma {:induction false} ExponentTotalPermuted<T>(a: seq<BaseAndExponent<T>>, b: seq<BaseAndExponent<T>>)
    requires multiset(a) == multiset(b)
    ensures ExponentTotal(a) == ExponentTotal(b)
  {
    if |a| == 0 {
      assert |multiset(b)| == 0;
    } else {
      assert a[0] in multiset(b);
      var i :| 0 <= i < |b| && b[i] == a[0];
      RemoveOccurrence(a, b, i);
      assert b == b[..i] + ([b[i]] + b[i + 1..]);
      ExponentTotalPermuted(a[1..], b[..i] + b[i + 1..]);
      ExponentTotalConcat(b[..i], [b[i]] + b[i + 1..]);
      ExponentTotalConcat([b[i]], b[i + 1..]);
      ExponentTotalConcat(b[..i], b[i + 1..]);
    }
  }

  /** Greatest exponent last, and first the greatest of the others. */
  ghost predicate GreatestLast<T>(eb: seq<BaseAndExponent<T>>) {
    && |eb| >= 2
    && (forall i :: 0 <= i < |eb| ==> eb[i].exponent <= eb[|eb| - 1].exponent)
    && (forall i :: 0 <= i < |eb| - 1 ==> eb[i].exponent <= eb[0].exponent)
  }

  method GreatestIndex<T>(eb: seq<BaseAndExponent<T>>, n: nat) returns (m: nat)
    requires 1 <= n <= |eb|
    ensures m < n && forall i :: 0 <= i < n ==> eb[i].exponent <= eb[m].exponent
  {
    m := 0;
    for k := 1 to n
      invariant m < n && forall i :: 0 <= i < k ==> eb[i].exponent <= eb[m].exponent
    {
      if eb[m].exponent < eb[k].exponent {
        m := k;
      }
    }
  }

  function Swap<X>(s: seq<X>, i: nat, j: nat): (r: seq<X>)
    requires i < |s| && j < |s|
    ensures multiset(r) == multiset(s) && |r| == |s| && r[i] == s[j] && r[j] == s[i]
    ensures forall k :: 0 <= k < |s| && k != i && k != j ==> r[k] == s[k]
  {
    s[i := s[j]][j := s[i]]
  }

  /** `make_heap` or `push_heap`, followed by `pop_heap`: of these only what the C++ standard
      promises is used, which is the contract below. */
  method HeapPop<T>(eb: seq<BaseAndExponent<T>>) returns (eb': seq<BaseAndExponent<T>>)
    requires |eb| >= 2
    ensures multiset(eb') == multiset(eb) && |eb'| == |eb| && GreatestLast(eb')
  {
    var last := |eb| - 1;
    var m := GreatestIndex(eb, |eb|);
    eb' := Swap(eb, m, last);
    assert forall i :: 0 <= i < |eb| ==> eb'[i].exponent <= eb'[last].exponent;
    var f := GreatestIndex(eb', last);
    eb' := Swap(eb', 0, f);
  }

  /** `ScalarMultiply` as a cascade uses it: never beyond the greatest exponent of the list. */
  method ScalarMultiplyWithin<T(!new)>(g: Group<T>, base: T, exponent: nat, ghost limit: nat) returns (result: T)
    requires Lawful(g) && g.mem(base) && exponent <= limit
    ensures result == Mul(g, exponent, base) && g.mem(result)
  {
    result := ScalarMultiply(g, base, exponent);
  }

  /** b·(x + q·y) + r·y == b·x + t·y where t = q·b + r */
  lemma {:induction false} MoveQuotient<T(!new)>(g: Group<T>, x: T, b: nat, y: T, t: nat, q: nat, r: nat)
    requires Lawful(g) && g.mem(x) && g.mem(y) && t == b * q + r
    ensures g.mem(Mul(g, q, y)) && g.mem(g.add(x, Mul(g, q, y)))
    ensures g.add(Mul(g, b, g.add(x, Mul(g, q, y))), Mul(g, r, y)) == g.add(Mul(g, b, x), Mul(g, t, y))
  {
    MulMember(g, q, y);
    AddMember(g, x, Mul(g, q, y));
    MulDistributes(g, b, x, Mul(g, q, y));
    MulMul(g, b, q, y);
    MulAdd(g, b * q, r, y);
    MulMember(g, b, x);
    MulMember(g, b, Mul(g, q, y));
    MulMember(g, r, y);
    Assoc(g, Mul(g, b, x), Mul(g, b * q, y), Mul(g, r, y));
  }

  /** Changing the first and last entries without changing what they add up to. */
  lemma {:induction false} ReplaceEnds<T(!new)>(g: Group<T>, eb: seq<BaseAndExponent<T>>, first: BaseAndExponent<T>,
                                                last: BaseAndExponent<T>)
    requires Lawful(g) && Bases(g, eb) && |eb| >= 2 && g.mem(first.base) && g.mem(last.base)
    requires g.add(Term(g, first), Term(g, last)) == g.add(Term(g, eb[0]), Term(g, eb[|eb| - 1]))
    ensures WeightedSum(g, eb[0 := first][|eb| - 1 := last]) == WeightedSum(g, eb)
  {
    EndsFirst(g, eb);
    EndsFirst(g, eb[0 := first][|eb| - 1 := last]);
    assert eb[0 := first][|eb| - 1 := last][1..|eb| - 1] == eb[1..|eb| - 1];
  }

  lemma {:induction false} EndsFirst<T(!new)>(g: Group<T>, eb: seq<BaseAndExponent<T>>)
    requires Lawful(g) && Bases(g, eb) && |eb| >= 2
    ensures WeightedSum(g, eb)
         == g.add(g.add(Term(g, eb[0]), Term(g, eb[|eb| - 1])), WeightedSum(g, eb[1..|eb| - 1]))
  {
    var n := |eb| - 1;
    var middle := eb[1..n];
    WeightedSumRemove(g, eb, n);
    assert eb[..n] + eb[n + 1..] == [eb[0]] + middle;
    WeightedSumConcat(g, [eb[0]], middle);
    WeightedSumOne(g, eb[0]);
    WeightedSumMember(g, middle);
    MulMember(g, eb[0].exponent, eb[0].base);
    MulMember(g, eb[n].exponent, eb[n].base);
    Assoc(g, Term(g, eb[n]), Term(g, eb[0]), WeightedSum(g, middle));
    AddMember(g, Term(g, eb[0]), Term(g, eb[n]));
  }

  lemma {:induction false} ExponentTotalEnds<T>(eb: seq<BaseAndExponent<T>>)
    requires |eb| >= 2
    ensures ExponentTotal(eb) == eb[0].exponent + ExponentTotal(eb[1..|eb| - 1]) + eb[|eb| - 1].exponent
  {
    var n := |eb| - 1;
    assert eb == [eb[0]] + (eb[1..n] + [eb[n]]);
    ExponentTotalConcat([eb[0]], eb[1..n] + [eb[n]]);
    ExponentTotalConcat(eb[1..n], [eb[n]]);
    assert [eb[n]][1..] == [] && [eb[0]][1..] == [];
  }

  /** One round of the loop, up to the heap operations. */
  method DivideGreatest<T(!new)>(g: Group<T>, eb: seq<BaseAndExponent<T>>, ghost limit: nat)
    returns (eb': seq<BaseAndExponent<T>>)
    requires Lawful(g) && Bases(g, eb) && ExponentsWithin(eb, limit)
    requires GreatestLast(eb) && eb[0].exponent != 0
    ensures |eb'| == |eb| && Bases(g, eb') && ExponentsWithin(eb', limit)
    ensures WeightedSum(g, eb') == WeightedSum(g, eb)
    ensures ExponentTotal(eb') < ExponentTotal(eb)
  {
    var begin, last := eb[0], eb[|eb| - 1];
    var t := last.exponent;
    var q, r := t / begin.exponent, t % begin.exponent;
    DivisionStep(t, begin.exponent);
    MoveQuotient(g, begin.base, begin.exponent, last.base, t, q, r);
    var begin', last' := begin, last.(exponent := r);
    if q == 1 {
      MulOne(g, last.base);
      begin' := begin'.(base := g.add(begin.base, last.base));
    } else {
      var m := ScalarMultiplyWithin(g, last.base, q, limit);
      begin' := begin'.(base := g.add(begin.base, m));
    }
    eb' := eb[0 := begin'][|eb| - 1 := last'];
    ReplaceEnds(g, eb, begin', last');
    ExponentTotalEnds(eb);
    ExponentTotalEnds(eb');
    assert eb'[1..|eb| - 1] == eb[1..|eb| - 1];
  }

  lemma {:induction false} DivisionStep(t: nat, b: nat)
    requires 1 <= b <= t
    ensures t == b * (t / b) + t % b && t / b <= t && t % b < b
  {
  }

  /** For every non-empty list the result is the sum of exponent·base. */
  method GeneralCascadeMultiplication<T(!new)>(g: Group<T>, eb: seq<BaseAndExponent<T>>, ghost limit: nat)
    returns (result: T)
    requires Lawful(g) && |eb| >= 1 && Bases(g, eb) && ExponentsWithin(eb, limit)
    ensures result == WeightedSum(g, eb) && g.mem(result)
  {
    WeightedSumMember(g, eb);
    if |eb| == 1 {
      WeightedSumOne(g, eb[0]);
      assert eb == [eb[0]];
      result := ScalarMultiplyWithin(g, eb[0].base, eb[0].exponent, limit);
    } else if |eb| == 2 {
      assert eb == [eb[0]] + [eb[1]];
      WeightedSumConcat(g, [eb[0]], [eb[1]]);
      WeightedSumOne(g, eb[0]);
      WeightedSumOne(g, eb[1]);
      result := CascadeScalarMultiply(g, eb[0].base, eb[0].exponent, eb[1].base, eb[1].exponent);
    } else {
      result := HeapCascade(g, eb, limit);
    }
  }

  method HeapCascade<T(!new)>(g: Group<T>, eb: seq<BaseAndExponent<T>>, ghost limit: nat) returns (result: T)
    requires Lawful(g) && |eb| >= 2 && Bases(g, eb) && ExponentsWithin(eb, limit)
    ensures result == WeightedSum(g, eb)
  {
    var s := HeapPop(eb);
    Reordered(g, eb, s, limit);
    while s[0].exponent != 0
      invariant |s| == |eb| && GreatestLast(s) && Bases(g, s) && ExponentsWithin(s, limit)
      invariant WeightedSum(g, s) == WeightedSum(g, eb)
      decreases ExponentTotal(s)
    {
      var divided := DivideGreatest(g, s, limit);
      s := HeapPop(divided);
      Reordered(g, divided, s, limit);
    }
    var n := |s| - 1;
    WeightedSumRemove(g, s, n);
    assert s[..n] + s[n + 1..] == s[..n];
    WeightedSumZero(g, s[..n]);
    result := ScalarMultiplyWithin(g, s[n].base, s[n].exponent, limit);
    UnitRight(g, result);
  }

  lemma {:induction false} Reordered<T(!new)>(g: Group<T>, a: seq<BaseAndExponent<T>>, b: seq<BaseAndExponent<T>>,
                                              limit: nat)
    requires Lawful(g) && Bases(g, a) && ExponentsWithin(a, limit) && multiset(a) == multiset(b)
    ensures Bases(g, b) && ExponentsWithin(b, limit)
    ensures WeightedSum(g, a) == WeightedSum(g, b) && ExponentTotal(a) == ExponentTotal(b)
  {
    WeightedSumPermuted(g, a, b);
    ExponentTotalPermuted(a, b);
    forall i | 0 <= i < |b| ensures b[i].exponent <= limit {
      assert b[i] in multiset(a);
    }
  }
}
