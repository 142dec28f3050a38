/** Buffers of bytes and the chaining loop that MACs are built on:
    `BlockTransformation::AdvancedProcessBlocks` (cryptlib.cpp) with an arbitrary block cipher. */
module BlockChain {
  import opened Bits
  import opened Bytes
  import opened Gf2Polynomials

  lemma {:induction false} XorByteFits(a: byte, b: byte)
    ensures Xor(a, b) < 256
  {
    assert Pow2(4) == 16;
    assert Pow2(8) == 16 * Pow2(4);
    BitCountBound(a, 8);
    BitCountBound(b, 8);
    XorLength(a, b, 8);
    BitCountBound(Xor(a, b), 8);
  }

  function XorByte(a: byte, b: byte): byte {
    XorByteFits(a, b);
    Xor(a, b)
  }

  /** `xorbuf(reg + k, input, |input|)` */
  function XorInto(reg: seq<byte>, k: nat, input: seq<byte>): (r: seq<byte>)
    requires k + |input| <= |reg|
    ensures |r| == |reg|
    ensures forall i :: 0 <= i < |reg| ==>
              r[i] == if k <= i < k + |input| then XorByte(reg[i], input[i - k]) else reg[i]
  {
    seq(|reg|, i requires 0 <= i < |reg| =>
      if k <= i < k + |input| then XorByte(reg[i], input[i - k]) else reg[i])
  }

  /** Xoring two pieces one after the other is xoring them together. */
  lemma {:induction false} XorIntoConcat(reg: seq<byte>, k: nat, a: seq<byte>, b: seq<byte>)
    requires k + |a| + |b| <= |reg|
    ensures XorInto(XorInto(reg, k, a), k + |a|, b) == XorInto(reg, k, a + b)
  {
  }

  lemma {:induction false} XorFromZeros(b: seq<byte>)
    ensures XorInto(Zeros(|b|), 0, b) == b
  {
    forall i | 0 <= i < |b| ensures XorByte(0, b[i]) == b[i] {
      XorZero(b[i]);
    }
  }

  /** Any function from blocks to blocks of one size. */
  datatype Cipher = Cipher(blockSize: nat, encrypt: seq<byte> -> seq<byte>)
  {
    ghost predicate Valid() {
      blockSize >= 1 && forall b :: |b| == blockSize ==> |encrypt(b)| == blockSize
    }
  }

  /** n is a whole number of blocks. */
  predicate WholeBlocks(n: nat, size: nat) {
    n == 0 || (size > 0 && n >= size && WholeBlocks(n - size, size))
  }

  /** The chaining value after the whole blocks of `data`. */
  function Chain(c: Cipher, x: seq<byte>, data: seq<byte>): (r: seq<byte>)
    requires c.Valid() && |x| == c.blockSize
    ensures |r| == c.blockSize
    decreases |data|
  {
    if |data| < c.blockSize then x
    else Chain(c, c.encrypt(XorInto(x, 0, data[..c.blockSize])), data[c.blockSize..])
  }

  /** Whole blocks first, the rest later. */
  lemma {:induction false} ChainConcat(c: Cipher, x: seq<byte>, a: seq<byte>, b: seq<byte>)
    requires c.Valid() && |x| == c.blockSize && WholeBlocks(|a|, c.blockSize)
    ensures Chain(c, x, a + b) == Chain(c, Chain(c, x, a), b)
    decreases |a|
  {
    if |a| == 0 {
      assert a + b == b;
    } else {
      var s := c.blockSize;
      assert (a + b)[..s] == a[..s];
      assert (a + b)[s..] == a[s..] + b;
      ChainConcat(c, c.encrypt(XorInto(x, 0, a[..s])), a[s..], b);
    }
  }

  lemma {:induction false} ChainBlock(c: Cipher, x: seq<byte>, block: seq<byte>)
    requires c.Valid() && |x| == c.blockSize == |block|
    ensures Chain(c, x, block) == c.encrypt(XorInto(x, 0, block))
  {
    assert block[..c.blockSize] == block;
  }

  lemma {:induction false} WholeBlocksAdd(m: nat, n: nat, size: nat)
    requires size > 0 && WholeBlocks(m, size) && WholeBlocks(n, size)
    ensures WholeBlocks(m + n, size)
  {
    if m != 0 {
      WholeBlocksAdd(m - size, n, size);
    }
  }

  /** `AdvancedProcessBlocks` with the input xored in and the output kept in place: the chaining
      value moves over all whole blocks, and what is left is shorter than a block. */
  method AdvancedProcessBlocks(c: Cipher, reg: seq<byte>, input: seq<byte>) returns (r: seq<byte>, leftOver: nat)
    requires c.Valid() && |reg| == c.blockSize
    ensures leftOver <= |input| && leftOver < c.blockSize && WholeBlocks(|input| - leftOver, c.blockSize)
    ensures r == Chain(c, reg, input) == Chain(c, reg, input[..|input| - leftOver]) && |r| == c.blockSize
  {
    r, leftOver := reg, |input|;
    ghost var done: seq<byte> := [];
    while leftOver >= c.blockSize
      invariant leftOver <= |input| && done == input[..|input| - leftOver] && |r| == c.blockSize
      invariant WholeBlocks(|done|, c.blockSize) && r == Chain(c, reg, done)
    {
      var at := |input| - leftOver;
      var block := input[at..at + c.blockSize];
      ChainConcat(c, reg, done, block);
      ChainBlock(c, r, block);
      WholeBlocksAdd(|done|, c.blockSize, c.blockSize);
      assert done + block == input[..at + c.blockSize];
      r := c.encrypt(XorInto(r, 0, block));
      done := done + block;
      leftOver := leftOver - c.blockSize;
    }
    ChainConcat(c, reg, done, input[|input| - leftOver..]);
    assert input == done + input[|input| - leftOver..];
  }

  /** A string handed over in pieces. */
  function Concat(pieces: seq<seq<byte>>): seq<byte> {
    if |pieces| == 0 then [] else Concat(pieces[..|pieces| - 1]) + pieces[|pieces| - 1]
  }
}
