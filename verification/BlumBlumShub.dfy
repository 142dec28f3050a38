/** The Blum-Blum-Shub generator (blumshub.cpp): sequential generation and random access. */
module BlumBlumShubGenerator {
  import opened Bits
  import opened Modular
  import opened ModularPower
  import Gf2Polynomials

  /** The generator's parameters: the start value x0 and the modulus. */
  datatype Stream = Stream(x0: nat, n: nat)
  {
    predicate Valid() {
      n >= 2 && x0 < n
    }

    /** How many bits are taken from each square: the binary logarithm of the modulus' length. */
    function MaxBits(): (b: nat)
      requires Valid()
      ensures b >= 1
      ensures Pow2(b) <= BitCount(n) < Pow2(b + 1)
    {
      assert BitCount(n) >= 2 by {
        Pow2Monotone(BitCount(n), if BitCount(n) <= 1 then 1 else BitCount(n));
      }
      BitCount(BitCount(n)) - 1
    }

    /** x0 squared k times. */
    function Square(k: nat): nat
      requires Valid()
    {
      Pow(x0, Pow2(k)) % n
    }

    /** Bit `position` of the stream: squares 1, 2, ... one after the other, each from its bit
        MaxBits - 1 down. */
    function Bit(position: nat): nat
      requires Valid()
    {
      if GetBit(Square(position / MaxBits() + 1), MaxBits() - 1 - position % MaxBits()) then 1 else 0
    }

    /** The byte whose first bit is bit `position`. */
    function Byte(position: nat): nat
      requires Valid()
    {
      BitsFrom(position, 8)
    }

    function BitsFrom(position: nat, count: nat): nat
      requires Valid()
    {
      if count == 0 then 0 else 2 * BitsFrom(position, count - 1) + Bit(position + count - 1)
    }

    function Bytes(position: nat, count: nat): (s: seq<nat>)
      requires Valid()
      ensures |s| == count
      ensures forall i :: 0 <= i < count ==> s[i] == Byte(position + 8 * i)
    {
      if count == 0 then [] else Bytes(position, count - 1) + [Byte(position + 8 * (count - 1))]
    }
  }

  lemma {:induction false} ShrFirst(x: nat, i: nat)
    ensures Shr(x, i + 1) == Shr(x / 2, i)
  {
    if i != 0 { ShrFirst(x, i - 1); }
  }

  /** One more of the low bits. */
  lemma {:induction false} LowHalf(x: nat, i: nat)
    ensures Low(x, i + 1) == 2 * Low(x / 2, i) + x % 2
  {
    if i != 0 {
      LowHalf(x, i - 1);
      ShrFirst(x, i - 1);
    } else {
      assert Pow2(0) == 1 && Shr(x, 0) == x;
    }
  }

  lemma {:induction false} TopOfBlock(s: Stream, k: nat, at: nat, count: nat)
    requires s.Valid() && at == k * s.MaxBits() && count <= s.MaxBits()
    ensures s.BitsFrom(at, count) == Low(Shr(s.Square(k + 1), s.MaxBits() - count), count)
  {
    if count != 0 {
      TopOfBlock(s, k, at, count - 1);
      PositionParts(k, count - 1, s.MaxBits());
      LowHalf(Shr(s.Square(k + 1), s.MaxBits() - count), count - 1);
    }
  }

  /** Each block of the stream is the end of a square. */
  lemma {:induction false} BlockIsEndOfSquare(s: Stream, k: nat, at: nat)
    requires s.Valid() && at == k * s.MaxBits()
    ensures s.BitsFrom(at, s.MaxBits()) == Low(s.Square(k + 1), s.MaxBits())
  {
    TopOfBlock(s, k, at, s.MaxBits());
    assert Shr(s.Square(k + 1), 0) == s.Square(k + 1);
  }

  /** The squares start from x0. */
  lemma {:induction false} StartOfSquares(s: Stream)
    requires s.Valid()
    ensures s.Square(0) == s.x0
  {
    assert Pow2(0) == 1 && Pow(s.x0, 1) == s.x0 * Pow(s.x0, 0) == s.x0;
    CongruentRefl(s.x0, s.n);
    ReducedUnique(s.x0, s.x0, s.n);
  }

  /** A square from the one before. */
  lemma {:induction false} NextSquare(s: Stream, k: nat)
    requires s.Valid()
    ensures s.Square(k) * s.Square(k) % s.n == s.Square(k + 1)
  {
    var y := Pow(s.x0, Pow2(k));
    PowAdd(s.x0, Pow2(k), Pow2(k));
    ModCongruent(y, s.n);
    CongruentMul(y % s.n, y, y % s.n, y, s.n);
    CongruentMod((y % s.n) * (y % s.n), y * y, s.n);
  }

  /** Exponents may be reduced modulo an order. */
  lemma {:induction false} ReduceExponent(x: int, e: nat, order: nat, n: nat)
    requires n > 0 && order > 0 && Congruent(Pow(x, order), 1, n)
    ensures Pow(x, e % order) % n == Pow(x, e) % n
  {
    var q, r := e / order, e % order;
    assert e == order * q + r;
    PowMul(x, order, q);
    PowAdd(x, order * q, r);
    CongruentPow(Pow(x, order), 1, q, n);
    OnePow(q);
    CongruentScale(Pow(Pow(x, order), q), 1, Pow(x, r), n);
    CongruentMod(Pow(x, e), Pow(x, r), n);
  }

  /** A position inside a square. */
  lemma {:induction false} PositionParts(block: nat, used: nat, size: nat)
    requires used < size
    ensures block * size + used >= 0
    ensures (block * size + used) / size == block && (block * size + used) % size == used
  {
    var x := block * size + used;
    FromWitness(x, used, block, size);
    ReducedUnique(x, used, size);
    assert x == x / size * size + x % size;
    assert (x / size - block) * size == 0;
    MulSign(x / size - block, size);
  }

  class BlumBlumShub {
    const p: nat
    const q: nat
    const stream: Stream
    const maxBits: nat
    var current: nat
    var bitsLeft: nat
    ghost var position: nat
    ghost var block: nat

    /** `current` is the square of this block, and `bitsLeft` of its bits are still unused. An
        exhausted square is replaced only when the next bit is asked for. */
    ghost predicate Valid()
      reads this
    {
      && stream.Valid() && maxBits == stream.MaxBits() && p > 2 && q > 2
      && bitsLeft <= maxBits
      && current == stream.Square(block + 1)
      && position == block * maxBits + (maxBits - bitsLeft)
    }

    /** What Euler's theorem says of the start value. */
    ghost predicate EulerHolds() {
      p > 2 && q > 2 && stream.n > 0 && Congruent(Pow(stream.x0, Order(p, q)), 1, stream.n)
    }

    constructor (p: nat, q: nat, seed: nat)
      requires p > 2 && q > 2 && p * q > 2
      ensures Valid() && position == 0
      ensures this.p == p && this.q == q && stream == Stream(seed * seed % (p * q), p * q)
    {
      this.p := p;
      this.q := q;
      var n := p * q;
      var x0 := seed * seed % n;
      stream := Stream(x0, n);
      maxBits := Stream(x0, n).MaxBits();
      bitsLeft := Stream(x0, n).MaxBits();
      current := x0 * x0 % n;
      position := 0;
      block := 0;
      FirstSquare(Stream(x0, n));
    }

    method GenerateBit() returns (bit: nat)
      requires Valid()
      modifies this
      ensures Valid() && position == old(position) + 1
      ensures bit == stream.Bit(old(position))
    {
      if bitsLeft == 0 {
        NextSquare(stream, block + 1);
        NextBlock(block, maxBits);
        current := current * current % stream.n;
        bitsLeft := maxBits;
        block := block + 1;
      }
      bitsLeft := bitsLeft - 1;
      PositionParts(block, maxBits - 1 - bitsLeft, maxBits);
      bit := if GetBit(current, bitsLeft) then 1 else 0;
      position := position + 1;
    }

    method GenerateByte() returns (b: nat)
      requires Valid()
      modifies this
      ensures Valid() && position == old(position) + 8
      ensures b == stream.Byte(old(position))
    {
      b := 0;
      for i := 0 to 8
        invariant Valid() && position == old(position) + i
        invariant b == stream.BitsFrom(old(position), i)
      {
        var bit := GenerateBit();
        b := 2 * b + bit;
      }
    }

    method GenerateBlock(size: nat) returns (output: seq<nat>)
      requires Valid()
      modifies this
      ensures Valid() && position == old(position) + 8 * size
      ensures output == stream.Bytes(old(position), size)
    {
      output := [];
      for i := 0 to size
        invariant Valid() && position == old(position) + 8 * i
        invariant output == stream.Bytes(old(position), i)
      {
        var b := GenerateByte();
        output := output + [b];
      }
    }

    /** The input added to the stream, byte by byte. */
    method ProcessData(input: seq<nat>) returns (output: seq<nat>)
      requires Valid()
      modifies this
      ensures Valid() && position == old(position) + 8 * |input|
      ensures output == Masked(input, stream.Bytes(old(position), |input|))
    {
      output := [];
      for i := 0 to |input|
        invariant Valid() && position == old(position) + 8 * i && |output| == i
        invariant forall k :: 0 <= k < i ==>
                    output[k] == Gf2Polynomials.Xor(input[k], stream.Bytes(old(position), |input|)[k])
      {
        var b := GenerateByte();
        output := output + [Gf2Polynomials.Xor(input[i], b)];
      }
    }

    /** The generator stands at byte `index`, as if it had generated all the bytes before. */
    method Seek(index: nat)
      requires Valid() && EulerHolds()
      modifies this
      ensures Valid() && position == 8 * index
    {
      var i := index * 8;
      var e := PowerMod(2, i / maxBits + 1, Order(p, q));
      SeekSquare(stream, Order(p, q), i / maxBits + 1);
      SeekPosition(i, maxBits);
      current := PowerMod(stream.x0, e, stream.n);
      bitsLeft := maxBits - i % maxBits;
      block := i / maxBits;
      position := i;
    }
  }

  lemma {:induction false} SeekPosition(i: nat, size: nat)
    requires size > 0
    ensures i == i / size * size + i % size
  {
  }

  /** With the exponent reduced modulo the order the square is the same. */
  lemma {:induction false} SeekSquare(s: Stream, order: nat, k: nat)
    requires s.Valid() && order > 2 && Congruent(Pow(s.x0, order), 1, s.n)
    ensures Pow(2, k) >= 0 && Pow(s.x0, Pow(2, k) % order) % s.n == s.Square(k)
  {
    PowOfTwo(k);
    ReduceExponent(s.x0, Pow2(k), order, s.n);
  }

  lemma {:induction false} FirstSquare(s: Stream)
    requires s.Valid()
    ensures s.x0 * s.x0 % s.n == s.Square(1)
  {
    assert Pow2(1) == 2;
    assert Pow(s.x0, 2) == s.x0 * Pow(s.x0, 1) == s.x0 * s.x0;
  }

  lemma {:induction false} NextBlock(block: nat, size: nat)
    ensures (block + 1) * size == block * size + size
  {
  }

  /** The order of the group of units, for two primes. */
  function Order(p: nat, q: nat): (r: nat)
    requires p > 2 && q > 2
    ensures r > 2
  {
    MulAtLeast(p - 1, q - 1, 2, 2);
    (p - 1) * (q - 1)
  }

  lemma {:induction false} PowOfTwo(e: nat)
    ensures Pow(2, e) == Pow2(e)
  {
    if e != 0 { PowOfTwo(e - 1); }
  }

  function Masked(a: seq<nat>, b: seq<nat>): (c: seq<nat>)
    requires |a| == |b|
    ensures |c| == |a|
  {
    seq(|a|, i requires 0 <= i < |a| => Gf2Polynomials.Xor(a[i], b[i]))
  }

  /** Random access: what is generated from byte k on is that part of what is generated from the
      start. */
  lemma {:induction false} SliceOfStream(s: Stream, k: nat, m: nat, n: nat)
    requires s.Valid() && k + m <= n
    ensures s.Bytes(0, n)[k..k + m] == s.Bytes(8 * k, m)
  {
    var whole, part := s.Bytes(0, n), s.Bytes(8 * k, m);
    forall i | 0 <= i < m
      ensures whole[k..k + m][i] == part[i]
    {
      assert part[i] == s.Byte(8 * k + 8 * i);
      assert whole[k + i] == s.Byte(0 + 8 * (k + i));
    }
  }

  lemma {:induction false} MaskedTwice(a: seq<nat>, b: seq<nat>)
    requires |a| == |b|
    ensures Masked(Masked(a, b), b) == a
  {
    forall i | 0 <= i < |a|
      ensures Masked(Masked(a, b), b)[i] == a[i]
    {
      Gf2Polynomials.XorCancel(a[i], b[i]);
    }
  }

  lemma {:induction false} MaskedSlice(a: seq<nat>, b: seq<nat>, i: nat, j: nat)
    requires |a| == |b| && i <= j <= |a|
    ensures Masked(a, b)[i..j] == Masked(a[i..j], b[i..j])
  {
  }

  /** Processing is its own inverse, and any slice of the output can be decrypted on its own after
      seeking to it. */
  lemma {:induction false} DecryptSlice(s: Stream, input: seq<nat>, k: nat, m: nat)
    requires s.Valid() && k + m <= |input|
    ensures Masked(Masked(input, s.Bytes(0, |input|))[k..k + m], s.Bytes(8 * k, m)) == input[k..k + m]
  {
    var whole := s.Bytes(0, |input|);
    SliceOfStream(s, k, m, |input|);
    MaskedSlice(input, whole, k, k + m);
    MaskedTwice(input[k..k + m], whole[k..k + m]);
  }
}
