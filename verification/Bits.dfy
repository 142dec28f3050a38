/** Shifts and bits of non-negative integers, as `Integer::GetBit`, `Integer::BitCount`
    and the shift operators see them. Shifts are defined by doubling and halving, which
    keeps every proof below linear. */
module Bits {

  function Pow2(n: nat): (r: nat)
    ensures r >= 1
  {
    if n == 0 then 1 else 2 * Pow2(n - 1)
  }

  /** a << i, also for negative a */
  function Shl(a: int, i: nat): int {
    if i == 0 then a else 2 * Shl(a, i - 1)
  }

  /** x >> i */
  function Shr(x: nat, i: nat): nat {
    if i == 0 then x else Shr(x, i - 1) / 2
  }

  predicate GetBit(x: nat, i: nat) {
    Shr(x, i) % 2 == 1
  }

  /** x % (1 << i) */
  function Low(x: nat, i: nat): (r: nat)
    ensures r < Pow2(i)
  {
    if i == 0 then 0
    else Low(x, i - 1) + if GetBit(x, i - 1) then Pow2(i - 1) else 0
  }

  function BitCount(x: nat): (n: nat)
    ensures x < Pow2(n)
    ensures n > 0 ==> Pow2(n - 1) <= x
  {
    if x == 0 then 0 else 1 + BitCount(x / 2)
  }

  lemma {:induction false} Pow2IsShl(i: nat)
    ensures Shl(1, i) == Pow2(i) && Shl(0, i) == 0
  {
    if i != 0 { Pow2IsShl(i - 1); }
  }

  lemma {:induction false} ShlAdd(a: int, b: int, i: nat)
    ensures Shl(a + b, i) == Shl(a, i) + Shl(b, i)
  {
    if i != 0 { ShlAdd(a, b, i - 1); }
  }

  lemma {:induction false} ShlShl(a: int, i: nat, j: nat)
    ensures Shl(Shl(a, i), j) == Shl(a, i + j)
  {
    if j != 0 { ShlShl(a, i, j - 1); }
  }

  lemma {:induction false} Pow2Add(i: nat, j: nat)
    ensures Shl(Pow2(i), j) == Pow2(i + j)
  {
    Pow2IsShl(i);
    Pow2IsShl(i + j);
    ShlShl(1, i, j);
  }

  lemma {:induction false} ShlMonotone(a: int, b: int, i: nat)
    ensures a <= b <==> Shl(a, i) <= Shl(b, i)
  {
    if i != 0 { ShlMonotone(a, b, i - 1); }
  }

  lemma {:induction false} ShlNat(w: nat, i: nat)
    ensures Shl(w, i) >= 0
  {
    ShlMonotone(0, w, i);
    Pow2IsShl(i);
  }

  lemma {:induction false} Pow2Monotone(a: nat, b: nat)
    requires a <= b
    ensures Pow2(a) <= Pow2(b)
  {
    if a < b { Pow2Monotone(a, b - 1); }
  }

  lemma {:induction false} Pow2Order(a: nat, b: nat)
    requires Pow2(a) <= Pow2(b)
    ensures a <= b
  {
    if b < a { Pow2Monotone(b + 1, a); }
  }

  lemma {:induction false} Pow2Exceeds(n: nat)
    ensures n < Pow2(n)
  {
    if n != 0 { Pow2Exceeds(n - 1); }
  }

  /** x == (x >> i << i) + x % (1 << i) */
  lemma {:induction false} Split(x: nat, i: nat)
    ensures x == Shl(Shr(x, i), i) + Low(x, i)
  {
    if i != 0 {
      Split(x, i - 1);
      var h, b := Shr(x, i), Shr(x, i - 1) % 2;
      assert Shr(x, i - 1) == 2 * h + b;
      ShlAdd(2 * h, b, i - 1);
      ShlAdd(h, h, i - 1);
      Pow2IsShl(i - 1);
    }
  }

  lemma {:induction false} SplitUnique(x: nat, i: nat, high: int, low: nat)
    requires x == Shl(high, i) + low && low < Pow2(i)
    ensures Shr(x, i) == high && Low(x, i) == low
  {
    Split(x, i);
    ShlAdd(Shr(x, i), 1, i);
    ShlAdd(high, 1, i);
    Pow2IsShl(i);
    ShlMonotone(Shr(x, i) + 1, high, i);
    ShlMonotone(high + 1, Shr(x, i), i);
  }

  lemma {:induction false} ShrZero(x: nat, n: nat)
    requires x < Pow2(n)
    ensures Shr(x, n) == 0 && Low(x, n) == x
  {
    Pow2IsShl(n);
    SplitUnique(x, n, 0, x);
  }
}
