/** Strings of bits, most significant first, and what shifts and `|` do to the numbers they
    stand for. */
module BitStrings {
  import opened Bits
  import opened Bytes

  type bit = x: int | 0 <= x < 2

  function Number(s: seq<bit>): (v: nat)
    ensures v < Pow2(|s|)
  {
    if |s| == 0 then 0 else 2 * Number(s[..|s| - 1]) + s[|s| - 1]
  }

  function NoBits(n: nat): (z: seq<bit>)
    ensures |z| == n
  {
    if n == 0 then [] else NoBits(n - 1) + [0]
  }

  /** The last n bits of v. */
  function BitString(v: nat, n: nat): (s: seq<bit>)
    ensures |s| == n
  {
    if n == 0 then [] else BitString(v / 2, n - 1) + [v % 2]
  }

  lemma {:induction false} NumberOfBits(v: nat, n: nat)
    requires v < Pow2(n)
    ensures Number(BitString(v, n)) == v
  {
    if n == 0 {
      assert Pow2(0) == 1;
    } else {
      NumberOfBits(v / 2, n - 1);
    }
  }

  lemma {:induction false} BitsOfNumber(s: seq<bit>)
    ensures BitString(Number(s), |s|) == s
  {
    if |s| != 0 {
      BitsOfNumber(s[..|s| - 1]);
    }
  }

  lemma {:induction false} NumberConcat(a: seq<bit>, b: seq<bit>)
    ensures Number(a + b) == Shl(Number(a), |b|) + Number(b)
  {
    if |b| == 0 {
      assert a + b == a;
    } else {
      NumberConcat(a, b[..|b| - 1]);
      assert (a + b)[..|a| + |b| - 1] == a + b[..|b| - 1];
    }
  }

  lemma {:induction false} NumberOfNone(n: nat)
    ensures Number(NoBits(n)) == 0
  {
    if n != 0 { NumberOfNone(n - 1); }
  }

  /** x << n */
  lemma {:induction false} ShlBits(s: seq<bit>, n: nat)
    ensures Number(s + NoBits(n)) == Shl(Number(s), n)
  {
    NumberConcat(s, NoBits(n));
    NumberOfNone(n);
  }

  /** x >> n */
  lemma {:induction false} ShrBits(a: seq<bit>, b: seq<bit>)
    ensures Shr(Number(a + b), |b|) == Number(a)
  {
    NumberConcat(a, b);
    SplitUnique(Number(a + b), |b|, Number(a), Number(b));
  }

  /** The low byte of a longer string. */
  lemma {:induction false} LowByte(a: seq<bit>, b: seq<bit>)
    requires |b| == 8
    ensures Number(a + b) % 256 == Number(b)
  {
    NumberConcat(a, b);
    ShiftByte(Number(a));
    ByteNumber(b);
    LowDigit(Number(a + b), Number(a), Number(b));
  }

  lemma {:induction false} LowDigit(x: int, high: int, low: nat)
    requires x == 256 * high + low && low < 256
    ensures x % 256 == low
  {
  }

  lemma {:induction false} ByteNumber(b: seq<bit>)
    requires |b| <= 8
    ensures Number(b) < 256
  {
    Pow2Monotone(|b|, 8);
    EightBits(0);
    assert Pow2(0) == 1;
  }

  /** The `|` of two numbers. */
  function Or(a: nat, b: nat): nat
    decreases a + b
  {
    if a == 0 && b == 0 then 0 else 2 * Or(a / 2, b / 2) + if a % 2 == 1 || b % 2 == 1 then 1 else 0
  }

  lemma {:induction false} OrBit(u: nat, v: nat, a: nat, b: nat, x: bit, y: bit)
    requires u == 2 * a + x && v == 2 * b + y
    ensures Or(u, v) == 2 * Or(a, b) + if x == 1 || y == 1 then 1 else 0
  {
    assert u / 2 == a && v / 2 == b;
  }

  lemma {:induction false} OrZero(a: nat)
    ensures Or(a, 0) == a && Or(0, a) == a
  {
    if a != 0 { OrZero(a / 2); }
  }

  /** Bits put where there were none. */
  lemma {:induction false} OrAppends(a: seq<bit>, b: seq<bit>, free: nat)
    requires free == |b|
    ensures Or(Number(a + NoBits(free)), Number(b)) == Number(a + b)
  {
    if |b| == 0 {
      assert a + NoBits(0) == a && a + b == a;
      OrZero(Number(a));
    } else {
      var n := free - 1;
      OrAppends(a, b[..n], n);
      Regrouped(a, NoBits(n), [0]);
      NumberPush(a + NoBits(n), 0, a + NoBits(free));
      LastApart(a, b);
      NumberPush(b[..n], b[n], b);
      NumberPush(a + b[..n], b[n], a + b);
      OrBit(Number(a + NoBits(free)), Number(b), Number(a + NoBits(n)), Number(b[..n]), 0, b[n]);
    }
  }

  lemma {:induction false} NumberPush(s: seq<bit>, b: bit, t: seq<bit>)
    requires t == s + [b]
    ensures Number(t) == 2 * Number(s) + b
  {
    assert t[..|s|] == s;
  }

  // ----- strings cut into groups

  function Flatten(groups: seq<seq<bit>>): (s: seq<bit>) {
    if |groups| == 0 then [] else Flatten(groups[..|groups| - 1]) + groups[|groups| - 1]
  }

  lemma {:induction false} FlattenConcat(a: seq<seq<bit>>, b: seq<seq<bit>>)
    ensures Flatten(a + b) == Flatten(a) + Flatten(b)
  {
    if |b| == 0 {
      assert a + b == a;
    } else {
      FlattenConcat(a, b[..|b| - 1]);
      assert (a + b)[..|a + b| - 1] == a + b[..|b| - 1];
    }
  }

  /** Groups of n bits and what is left. */
  predicate Grouped(groups: seq<seq<bit>>, n: nat) {
    forall i :: 0 <= i < |groups| ==> |groups[i]| == n
  }

  /** As many whole groups as there are. */
  function Whole(s: seq<bit>, n: nat): (g: seq<seq<bit>>)
    requires n > 0
    ensures Grouped(g, n)
    decreases |s|
  {
    if |s| < n then [] else [s[..n]] + Whole(s[n..], n)
  }

  lemma {:induction false} WholeUnique(groups: seq<seq<bit>>, part: seq<bit>, n: nat)
    requires n > 0 && Grouped(groups, n) && |part| < n
    ensures Whole(Flatten(groups) + part, n) == groups
    decreases |groups|
  {
    if |groups| == 0 {
      assert Flatten(groups) + part == part;
    } else {
      assert groups == [groups[0]] + groups[1..];
      FlattenConcat([groups[0]], groups[1..]);
      FlattenOne(groups[0]);
      var s := Flatten(groups) + part;
      assert s == groups[0] + (Flatten(groups[1..]) + part);
      WholeUnique(groups[1..], part, n);
    }
  }

  lemma {:induction false} FlattenOne(g: seq<bit>)
    ensures Flatten([g]) == g
  {
    assert [g][..0] == [];
    assert Flatten([]) + g == g;
  }
}
