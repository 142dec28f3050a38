/** Bytes, and numbers as strings of bytes, most significant first. */
module Bytes {
  import opened Bits

  const WORD32: nat := 0x1_0000_0000
  const WORD64: nat := 0x1_0000_0000_0000_0000

  type byte = x: int | 0 <= x < 256

  /** What a 64-bit counter shows. */
  function Wrap(n: nat): (r: nat)
    ensures r <= n && r < WORD64 && (n < WORD64 ==> r == n)
  {
    n % 0x1_0000_0000_0000_0000
  }

  function Zeros(n: nat): (z: seq<byte>)
    ensures |z| == n
    ensures forall i :: 0 <= i < n ==> z[i] == 0
  {
    seq(n, _ => 0)
  }

  /** Big-endian value. */
  function Value(k: seq<byte>): (v: nat)
    ensures v < Pow2(8 * |k|)
  {
    if |k| == 0 then 0
    else
      var high := Value(k[..|k| - 1]);
      assert Pow2(8 * |k|) == 256 * Pow2(8 * (|k| - 1)) by {
        EightBits(8 * (|k| - 1));
      }
      256 * high + k[|k| - 1]
  }

  lemma {:induction false} EightBits(n: nat)
    ensures Pow2(n + 8) == 256 * Pow2(n)
  {
    assert Pow2(n + 4) == 16 * Pow2(n) by {
      assert Pow2(n + 2) == 4 * Pow2(n);
    }
    assert Pow2(n + 8) == 16 * Pow2(n + 4) by {
      assert Pow2(n + 6) == 4 * Pow2(n + 4);
    }
  }

  lemma {:induction false} ValuePair(k: seq<byte>, b: byte)
    ensures Value(k + [b]) == 256 * Value(k) + b
  {
    assert (k + [b])[..|k|] == k;
  }

  /** `PutWord`: the last n bytes of v, most significant first. */
  function BigEndian(v: nat, n: nat): (b: seq<byte>)
    ensures |b| == n
  {
    if n == 0 then [] else BigEndian(v / 256, n - 1) + [v % 256]
  }

  /** A shorter field holds the low bytes. */
  lemma {:induction false} BigEndianLow(v: nat, n: nat, m: nat)
    requires m <= n
    ensures BigEndian(v, n)[n - m..] == BigEndian(v, m)
  {
    if m != 0 {
      BigEndianLow(v / 256, n - 1, m - 1);
    }
  }

  lemma {:induction false} BigEndianValue(v: nat, n: nat)
    requires v < Pow2(8 * n)
    ensures Value(BigEndian(v, n)) == v
  {
    if n == 0 {
      assert Pow2(0) == 1;
    } else {
      EightBits(8 * (n - 1));
      BigEndianValue(v / 256, n - 1);
      assert BigEndian(v, n)[..n - 1] == BigEndian(v / 256, n - 1);
    }
  }

  lemma {:induction false} ValueBytes(b: seq<byte>)
    ensures BigEndian(Value(b), |b|) == b
  {
    if |b| != 0 {
      ValueBytes(b[..|b| - 1]);
    }
  }

  lemma {:induction false} BigEndianZero(n: nat)
    ensures BigEndian(0, n) == Zeros(n)
  {
    if n != 0 { BigEndianZero(n - 1); }
  }

  lemma {:induction false} ShiftByte(x: int)
    ensures Shl(x, 8) == 256 * x
  {
    ShlShl(x, 4, 4);
    ShiftNibble(x);
    ShiftNibble(16 * x);
  }

  lemma {:induction false} ShiftNibble(x: int)
    ensures Shl(x, 4) == 16 * x
  {
    assert Shl(x, 1) == 2 * x;
    assert Shl(x, 2) == 4 * x;
  }

  lemma {:induction false} Regrouped<T>(a: seq<T>, b: seq<T>, c: seq<T>)
    ensures a + (b + c) == a + b + c
  {
  }

  /** A string starts with one string only of each length. */
  lemma {:induction false} SameFront(a: seq<byte>, b: seq<byte>, r: seq<byte>, s: seq<byte>)
    requires |a| == |b| && a + r == b + s
    ensures a == b && r == s
  {
    assert (a + r)[..|a|] == a && (b + s)[..|b|] == b;
    assert (a + r)[|a|..] == r && (b + s)[|b|..] == s;
  }

  lemma {:induction false} LastApart<T>(a: seq<T>, b: seq<T>)
    requires |b| > 0
    ensures b == b[..|b| - 1] + [b[|b| - 1]]
    ensures a + b == a + b[..|b| - 1] + [b[|b| - 1]]
  {
  }
}
