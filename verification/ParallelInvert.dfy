/** `ParallelInvert` (ecp.cpp): all the inverses of a list for the price of few, by inverting
    products of neighbours, recursively. */
module ParallelInversion {
  import opened Fields

  /** From the inverse of x·y to the inverses of x and of y. */
  lemma {:induction false} PairInverse<F(!new)>(f: Field<F>, x: F, y: F)
    requires LawfulField(f)
    ensures f.inv(f.mul(x, y)) != f.zero ==>
              && f.mul(y, f.inv(f.mul(x, y))) == f.inv(x)
              && f.mul(x, f.inv(f.mul(x, y))) == f.inv(y)
  {
    var v := f.inv(f.mul(x, y));
    InvRight(f, f.mul(x, y));
    if v != f.zero {
      MulAssoc(f, x, y, v);
      InverseUnique(f, x, f.mul(y, v));
      MulComm(f, x, y);
      MulAssoc(f, y, x, v);
      InverseUnique(f, y, f.mul(x, v));
    }
  }

  ghost predicate AllInverted<F>(f: Field<F>, before: seq<F>, after: seq<F>) {
    |before| == |after| && forall i :: 0 <= i < |after| ==> after[i] == f.inv(before[i])
  }

  /** The first pass: products of neighbours, and the odd one out. */
  method MultiplyPairs<F(!new)>(f: Field<F>, a: array<F>) returns (vec: array<F>)
    requires a.Length > 1
    ensures fresh(vec) && vec.Length == (a.Length + 1) / 2
    ensures forall k :: 0 <= k < a.Length / 2 ==> vec[k] == f.mul(a[2 * k], a[2 * k + 1])
    ensures a.Length % 2 == 1 ==> vec[a.Length / 2] == a[a.Length - 1]
  {
    var n := a.Length;
    vec := new F[(n + 1) / 2](_ => f.zero);
    for i := 0 to n / 2
      invariant forall k :: 0 <= k < i ==> vec[k] == f.mul(a[2 * k], a[2 * k + 1])
    {
      vec[i] := f.mul(a[2 * i], a[2 * i + 1]);
    }
    if n % 2 == 1 {
      vec[n / 2] := a[n - 1];
    }
  }

  /** One pair of the second pass. Where the product was zero each is inverted alone. */
  method InvertPair<F(!new, ==)>(f: Field<F>, a: array<F>, i: nat, v: F)
    requires LawfulField(f) && 2 * i + 1 < a.Length && v == f.inv(f.mul(a[2 * i], a[2 * i + 1]))
    modifies a
    ensures a[2 * i] == f.inv(old(a[2 * i])) && a[2 * i + 1] == f.inv(old(a[2 * i + 1]))
    ensures forall k :: 0 <= k < a.Length && k != 2 * i && k != 2 * i + 1 ==> a[k] == old(a[k])
  {
    PairInverse(f, a[2 * i], a[2 * i + 1]);
    if v == f.zero {
      a[2 * i] := f.inv(a[2 * i]);
      a[2 * i + 1] := f.inv(a[2 * i + 1]);
    } else {
      a[2 * i], a[2 * i + 1] := a[2 * i + 1], a[2 * i];
      a[2 * i] := f.mul(a[2 * i], v);
      a[2 * i + 1] := f.mul(a[2 * i + 1], v);
    }
  }

  /** Every element is replaced by its inverse, and zero by zero, for every length. */
  method ParallelInvert<F(!new, ==)>(f: Field<F>, a: array<F>)
    requires LawfulField(f)
    modifies a
    ensures AllInverted(f, old(a[..]), a[..])
    decreases a.Length
  {
    var n := a.Length;
    if n == 1 {
      a[0] := f.inv(a[0]);
    } else if n > 1 {
      var vec := MultiplyPairs(f, a);
      ghost var products := vec[..];
      ParallelInvert(f, vec);
      assert forall k :: 0 <= k < vec.Length ==> vec[k] == vec[..][k] == f.inv(products[k]);
      for i := 0 to n / 2
        invariant forall k :: 0 <= k < 2 * i ==> a[k] == f.inv(old(a[k]))
        invariant forall k :: 2 * i <= k < n ==> a[k] == old(a[k])
        invariant forall k :: 0 <= k < vec.Length ==> vec[k] == f.inv(products[k])
      {
        InvertPair(f, a, i, vec[i]);
      }
      if n % 2 == 1 {
        a[n - 1] := vec[n / 2];
      }
    }
  }
}
