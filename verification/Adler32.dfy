/** The Adler-32 checksum (adler32.cpp) with its delayed reductions. */
module Adler32Checksum {
  import opened Bytes

  const BASE: nat := 65521

  /** The two sums of section 8.2 of RFC 1950. */
  datatype Sums = Sums(s1: nat, s2: nat)
  {
    predicate Reduced() {
      s1 < BASE && s2 < BASE
    }
  }

  function Reduce(s: nat): (r: nat)
    ensures r < BASE
  {
    s % 65521
  }

  /** The definition: one byte, both sums reduced at once. */
  function AddByte(r: Sums, b: byte): Sums {
    var s1 := Reduce(r.s1 + b);
    Sums(s1, Reduce(r.s2 + s1))
  }

  function AddBytes(r: Sums, input: seq<byte>): Sums {
    if |input| == 0 then r else AddByte(AddBytes(r, input[..|input| - 1]), input[|input| - 1])
  }

  lemma {:induction false} AddBytesReduced(r: Sums, input: seq<byte>)
    requires r.Reduced()
    ensures AddBytes(r, input).Reduced()
  {
  }

  /** The checksum does not depend on how the input is cut up. */
  lemma {:induction false} AddBytesConcat(r: Sums, a: seq<byte>, b: seq<byte>)
    ensures AddBytes(r, a + b) == AddBytes(AddBytes(r, a), b)
  {
    if |b| == 0 {
      assert a + b == a;
    } else {
      AddBytesConcat(r, a, b[..|b| - 1]);
      assert (a + b)[..|a + b| - 1] == a + b[..|b| - 1];
    }
  }

  function Total(input: seq<byte>): nat {
    if |input| == 0 then 0 else (input[0] as int) + Total(input[1..])
  }

  /** Each byte as often as it counts: the first |input| times, the last once. */
  function Weighted(input: seq<byte>): nat {
    if |input| == 0 then 0 else |input| * (input[0] as int) + Weighted(input[1..])
  }

  lemma {:induction false} OneByteMore(input: seq<byte>, b: byte)
    ensures Total(input + [b]) == Total(input) + b
    ensures Weighted(input + [b]) == Weighted(input) + Total(input) + b
  {
    if |input| == 0 {
      assert (input + [b])[1..] == [];
    } else {
      assert (input + [b])[1..] == input[1..] + [b];
      OneByteMore(input[1..], b);
      assert (|input| + 1) * (input[0] as int) == |input| * (input[0] as int) + input[0];
    }
  }

  /** Section 8.2 of RFC 1950: s1 is one more than the sum of the bytes, s2 the sum of all values of
      s1 on the way, both modulo 65521. */
  lemma {:induction false} SumsOf(input: seq<byte>)
    ensures AddBytes(Sums(1, 0), input) == Sums(Reduce(1 + Total(input)), Reduce(|input| + Weighted(input)))
  {
    if |input| != 0 {
      var init, b := input[..|input| - 1], input[|input| - 1];
      SumsOf(init);
      assert input == init + [b];
      OneByteMore(init, b);
      ReduceAdd(1 + Total(init), b);
      ReduceAdd(|init| + Weighted(init), 1 + Total(input));
      ReduceAdd(1 + Total(input), Reduce(|init| + Weighted(init)));
    }
  }

  lemma {:induction false} NextByte(r: Sums, input: seq<byte>, k: nat)
    requires k < |input|
    ensures AddBytes(r, input[..k + 1]) == AddByte(AddBytes(r, input[..k]), input[k])
  {
    assert input[..k + 1][..k] == input[..k];
  }

  /** Sums that have not been reduced yet. */
  ghost predicate Matches(s1: nat, s2: nat, r: Sums) {
    Reduce(s1) == r.s1 && Reduce(s2) == r.s2
  }

  lemma {:induction false} ReducedMatch(s1: nat, s2: nat, r: Sums)
    requires Matches(s1, s2, r) && s1 < BASE && s2 < BASE
    ensures Sums(s1, s2) == r && r.Reduced()
  {
  }

  lemma {:induction false} MatchesNext(s1: nat, s2: nat, r: Sums, b: byte)
    requires Matches(s1, s2, r)
    ensures Matches(s1 + b, s2 + (s1 + b), AddByte(r, b))
  {
    ReduceAdd(s1, b);
    ReduceAdd(s2, s1 + b);
    ReduceAdd(s1 + b, r.s2);
  }

  /** Reducing a summand first makes no difference. */
  lemma {:induction false} ReduceAdd(a: nat, b: nat)
    ensures Reduce(Reduce(a) + b) == Reduce(a + b) == Reduce(b + a)
  {
  }

  /** One conditional subtraction reduces s1 after up to eight bytes. */
  lemma {:induction false} SubtractOnce(s1: nat, s2: nat, r: Sums)
    requires Matches(s1, s2, r) && s1 < 2 * BASE
    ensures Matches(if s1 >= BASE then s1 - BASE else s1, s2, r)
    ensures Matches(s1, Reduce(s2), r)
  {
  }

  /** The most s2 can be when `left` bytes are left: what was added since the last reduction. */
  function Ceiling(left: nat): nat {
    if left % 0x8000 == 0 then BASE - 1 else BASE - 1 + 67560 * (0x8000 - left % 0x8000)
  }

  lemma {:induction false} CeilingFits(left: nat)
    requires left >= 8 && left % 8 == 0
    ensures Ceiling(left) + 8 * 67560 < WORD32
    ensures (left - 8) % 0x8000 != 0 ==> Ceiling(left) + 8 * 67560 <= Ceiling(left - 8)
  {
  }

  class Adler32 {
    var s1: nat
    var s2: nat

    ghost predicate Valid()
      reads this
    {
      Value().Reduced()
    }

    ghost function Value(): Sums
      reads this
    {
      Sums(s1, s2)
    }

    constructor ()
      ensures Valid() && Value() == Sums(1, 0)
    {
      s1, s2 := 1, 0;
    }

    /** The sums grow by the input; nothing overflows 32 bits on the way. */
    method Update(input: seq<byte>)
      requires Valid()
      modifies this
      ensures Valid() && Value() == AddBytes(old(Value()), input)
    {
      ghost var r := Value();
      var a, b := s1, s2;
      var k := 0;
      assert input[..0] == [];
      if |input| % 8 != 0 {
        a, b, k := AddHead(a, b, input);
      }
      a, b := AddBlocks(a, b, input, k, r);
      ReducedMatch(a, b, AddBytes(r, input));
      s1, s2 := a, b;
    }

    method TruncatedFinal(size: nat) returns (hash: seq<byte>, invalidSize: bool)
      requires Valid()
      modifies this
      ensures Valid() && (invalidSize <==> size > 4)
      ensures Value() == if invalidSize then old(Value()) else Sums(1, 0)
      ensures !invalidSize ==> |hash| == size && hash == Digest(old(Value()))[..size]
    {
      if size > 4 { return [], true; }
      hash, invalidSize := Digest(Sums(s1, s2))[..size], false;
      s1, s2 := 1, 0;
    }
  }

  function Digest(r: Sums): (d: seq<byte>)
    requires r.Reduced()
    ensures |d| == 4
    ensures (d[0] as int) * 0x1000000 + (d[1] as int) * 0x10000 + (d[2] as int) * 0x100 + d[3] == r.s2 * 0x10000 + r.s1
  {
    [r.s2 / 256, r.s2 % 256, r.s1 / 256, r.s1 % 256]
  }

  lemma {:induction false} EightsAndRest(q: nat, d: nat)
    requires d < 8
    ensures (8 * q + d) % 8 == d
  {
  }

  /** Bytes one at a time until a multiple of eight is left. */
  method AddHead(s1: nat, s2: nat, input: seq<byte>) returns (a: nat, b: nat, k: nat)
    requires s1 < BASE && s2 < BASE && |input| % 8 != 0
    ensures k <= |input| && (|input| - k) % 8 == 0
    ensures a < BASE && b < BASE && Matches(a, b, AddBytes(Sums(s1, s2), input[..k]))
  {
    a, b, k := s1, s2, 0;
    ghost var head, rest := |input| % 8, |input| / 8;
    assert input[..0] == [];
    EightsAndRest(rest, head);
    while (|input| - k) % 8 != 0
      invariant k <= head && |input| - k == 8 * rest + (head - k) && (|input| - k) % 8 == head - k
      invariant a <= 65520 + 255 * k && b <= 65520 + 67306 * k
      invariant Matches(a, b, AddBytes(Sums(s1, s2), input[..k]))
      decreases |input| - k
    {
      NextByte(Sums(s1, s2), input, k);
      MatchesNext(a, b, AddBytes(Sums(s1, s2), input[..k]), input[k]);
      a := a + input[k];
      b := b + a;
      assert b < WORD32;
      k := k + 1;
      EightsAndRest(rest, head - k);
    }
    SubtractOnce(a, b, AddBytes(Sums(s1, s2), input[..k]));
    if a >= BASE {
      a := a - BASE;
    }
    SubtractOnce(a, b, AddBytes(Sums(s1, s2), input[..k]));
    b := Reduce(b);
  }

  /** Eight bytes at a time; s2 is reduced only every 0x8000 bytes. */
  method AddBlocks(s1: nat, s2: nat, input: seq<byte>, from: nat, ghost r: Sums) returns (a: nat, b: nat)
    requires from <= |input| && (|input| - from) % 8 == 0
    requires s1 < BASE && s2 < BASE && Matches(s1, s2, AddBytes(r, input[..from]))
    ensures a < BASE && b < BASE && Matches(a, b, AddBytes(r, input))
  {
    a, b := s1, s2;
    var k := from;
    while k < |input|
      invariant from <= k <= |input| && (|input| - k) % 8 == 0
      invariant a < BASE && b <= Ceiling(|input| - k)
      invariant Matches(a, b, AddBytes(r, input[..k]))
    {
      ghost var left := |input| - k;
      CeilingFits(left);
      EightLess(left);
      a, b := AddEight(a, b, input, k, r);
      k := k + 8;
      a, b := ReduceSums(a, b, |input| - k, left - 8, AddBytes(r, input[..k]));
    }
    assert input[..|input|] == input;
  }

  lemma {:induction false} EightLess(left: nat)
    requires left > 0 && left % 8 == 0
    ensures left >= 8 && (left - 8) % 8 == 0
  {
  }

  /** s1 is reduced after every eight bytes, s2 at the multiples of 0x8000. */
  method ReduceSums(s1: nat, s2: nat, left: nat, ghost rest: nat, ghost r: Sums) returns (a: nat, b: nat)
    requires left == rest && Matches(s1, s2, r) && s1 < 2 * BASE && (left % 0x8000 != 0 ==> s2 <= Ceiling(rest))
    ensures a < BASE && b <= Ceiling(left) && Matches(a, b, r)
  {
    SubtractOnce(s1, s2, r);
    a, b := if s1 >= BASE then s1 - BASE else s1, s2;
    if left % 0x8000 == 0 {
      SubtractOnce(a, b, r);
      b := Reduce(b);
    }
  }

  method AddEight(s1: nat, s2: nat, input: seq<byte>, k: nat, ghost r: Sums) returns (a: nat, b: nat)
    requires k + 8 <= |input| && s1 < BASE && s2 + 8 * 67560 < WORD32
    requires Matches(s1, s2, AddBytes(r, input[..k]))
    ensures a <= s1 + 8 * 255 && b <= s2 + 8 * 67560
    ensures Matches(a, b, AddBytes(r, input[..k + 8]))
  {
    a, b := s1, s2;
    for i := 0 to 8
      invariant a <= s1 + i * 255 && b <= s2 + i * 67560
      invariant Matches(a, b, AddBytes(r, input[..k + i]))
    {
      NextByte(r, input, k + i);
      MatchesNext(a, b, AddBytes(r, input[..k + i]), input[k + i]);
      a := a + input[k + i];
      b := b + a;
      assert b < WORD32;
    }
  }
}
