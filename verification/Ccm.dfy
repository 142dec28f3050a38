/** CCM over an arbitrary 16-byte block cipher: the one-shot definition in sections 2.2 to 2.4 of
    RFC 3610, and how it comes together from pieces. */
module Ccm {
  import opened Bits
  import opened Bytes
  import opened BlockChain
  import opened CounterMode
  import opened Gf2Polynomials
  import opened Wrappers

  const SIZE: nat := 16

  datatype Error = BadState | InvalidArgument

  type Outcome<T> = Result<T, Error>

  predicate Fails<T>(r: Outcome<T>, e: Error) {
    r.Err? && if e.BadState? then r.error.BadState? else r.error.InvalidArgument?
  }

  // ----- counter mode

  predicate IsNonce(nonce: seq<byte>) {
    7 <= |nonce| <= 13
  }

  /** A_0 of section 2.3: flags, nonce, a counter of L = 15 - |nonce| bytes. */
  function CounterBlock(nonce: seq<byte>, counter: nat): (a: seq<byte>)
    requires IsNonce(nonce)
    ensures |a| == SIZE
  {
    [14 - |nonce|] + nonce + BigEndian(counter, 15 - |nonce|)
  }

  lemma {:induction false} AddDigits(high: nat, k: nat)
    ensures (256 * high + k) / 256 == high + k / 256 && (256 * high + k) % 256 == k % 256
  {
  }

  lemma {:induction false} ZeroDigit(prefix: seq<byte>, n: nat)
    ensures Value(prefix + Zeros(n + 1)) == 256 * Value(prefix + Zeros(n))
  {
    assert prefix + Zeros(n + 1) == prefix + Zeros(n) + [0];
    ValuePair(prefix + Zeros(n), 0);
  }

  lemma {:induction false} AddToLow(prefix: seq<byte>, n: nat, k: nat, sum: nat, size: nat)
    requires k < Pow2(8 * n) && sum == Value(prefix + Zeros(n)) + k && size == |prefix| + n
    ensures BigEndian(sum, size) == BigEndian(Value(prefix), |prefix|) + BigEndian(k, n)
  {
    if n == 0 {
      assert Pow2(0) == 1;
      assert prefix + Zeros(0) == prefix;
    } else {
      EightBits(8 * (n - 1));
      var high := Value(prefix + Zeros(n - 1));
      ZeroDigit(prefix, n - 1);
      AddDigits(high, k);
      assert sum / 256 == high + k / 256 && sum % 256 == k % 256;
      AddToLow(prefix, n - 1, k / 256, sum / 256, size - 1);
      Regrouped(BigEndian(Value(prefix), |prefix|), BigEndian(k / 256, n - 1), [k % 256]);
    }
  }

  /** While the counter fits its field the key stream is made of E(A_0), E(A_1), …: the
      carry never reaches the nonce. */
  lemma {:induction false} KeyStreamBlocks(c: Cipher, nonce: seq<byte>, k: nat, i: nat, p: nat)
    requires c.Valid() && c.blockSize == SIZE && IsNonce(nonce) && k < Pow2(8 * (15 - |nonce|))
    requires i < SIZE && p == 16 * k + i
    ensures KeyStream(c, CounterBlock(nonce, 0))(p) == c.encrypt(CounterBlock(nonce, k))[i]
  {
    CounterBlockAdds(nonce, k);
    Position(p, k, i);
    KeyStreamAt(c, CounterBlock(nonce, 0), CounterBlock(nonce, k), p, p / 16, p % 16);
  }

  lemma {:induction false} Position(p: nat, k: nat, i: nat)
    requires p == 16 * k + i && i < 16
    ensures p / 16 == k && p % 16 == i
  {
  }

  lemma {:induction false} KeyStreamAt(c: Cipher, iv: seq<byte>, block: seq<byte>, p: nat, k: nat, i: nat)
    requires c.Valid() && c.blockSize == SIZE == |iv| && BigEndian(Value(iv) + k, |iv|) == block
    requires k == p / 16 && i == p % 16
    ensures KeyStream(c, iv)(p) == c.encrypt(block)[i]
  {
    assert p / c.blockSize == k && p % c.blockSize == i;
  }

  lemma {:induction false} CounterBlockAdds(nonce: seq<byte>, k: nat)
    requires IsNonce(nonce) && k < Pow2(8 * (15 - |nonce|))
    ensures BigEndian(Value(CounterBlock(nonce, 0)) + k, |CounterBlock(nonce, 0)|) == CounterBlock(nonce, k)
  {
    CounterAdds([14 - |nonce|] + nonce, 15 - |nonce|, k, CounterBlock(nonce, 0));
  }

  lemma {:induction false} CounterAdds(prefix: seq<byte>, L: nat, k: nat, iv: seq<byte>)
    requires k < Pow2(8 * L) && iv == prefix + BigEndian(0, L)
    ensures BigEndian(Value(iv) + k, |iv|) == prefix + BigEndian(k, L)
  {
    BigEndianZero(L);
    AddToLow(prefix, L, k, Value(iv) + k, |iv|);
    ValueBytes(prefix);
  }

  // ----- the one-shot definition

  /** B_0 of section 2.2. */
  function FirstBlock(digestSize: nat, nonce: seq<byte>, headerLength: nat, messageLength: nat): (b: seq<byte>)
    requires IsNonce(nonce) && 4 <= digestSize <= 16
    ensures |b| == SIZE
  {
    var L := 15 - |nonce|;
    [(if headerLength > 0 then 64 else 0) + 8 * ((digestSize - 2) / 2) + (L - 1)] + nonce + BigEndian(messageLength, L)
  }

  /** The length in front of the header. */
  function EncodedLength(n: nat): (e: seq<byte>)
    ensures |e| <= 10
  {
    if n == 0 then []
    else if n < 0xff00 then BigEndian(n, 2)
    else if n < 0x1_0000_0000 then [0xff, 0xfe] + BigEndian(n, 4)
    else [0xff, 0xff] + BigEndian(n, 8)
  }

  /** Zeros up to a whole number of blocks. */
  function Padded(data: seq<byte>): (p: seq<byte>)
    ensures WholeBlocks(|p|, SIZE)
    decreases |data|
  {
    if |data| == 0 then []
    else if |data| < SIZE then data + Zeros(SIZE - |data|)
    else data[..SIZE] + Padded(data[SIZE..])
  }

  function MacInput(digestSize: nat, nonce: seq<byte>, headerLength: nat, messageLength: nat,
                    header: seq<byte>, message: seq<byte>): seq<byte>
    requires IsNonce(nonce) && 4 <= digestSize <= 16
  {
    FirstBlock(digestSize, nonce, headerLength, messageLength) +
    Padded(EncodedLength(headerLength) + header) + Padded(message)
  }

  /** The CBC-MAC value, enciphered with the first block of the key stream. */
  function Tag(c: Cipher, digestSize: nat, nonce: seq<byte>, headerLength: nat, messageLength: nat,
               header: seq<byte>, message: seq<byte>): (t: seq<byte>)
    requires c.Valid() && c.blockSize == SIZE && IsNonce(nonce) && 4 <= digestSize <= 16
    ensures |t| == SIZE
  {
    Transform(KeyStream(c, CounterBlock(nonce, 0)), 0,
              Chain(c, Zeros(SIZE), MacInput(digestSize, nonce, headerLength, messageLength, header, message)))
  }

  // ----- in terms of the counter blocks

  /** The largest message whose length fits the field. */
  function MaxMessageLength(L: nat): nat {
    if L < 8 then Pow2(8 * L) - 1 else WORD64 - 1
  }

  /** Section 2.3: byte j of the message under byte j mod 16 of S_i, where i is 1 + j / 16. */
  function Ciphertext(c: Cipher, nonce: seq<byte>, data: seq<byte>): (r: seq<byte>)
    requires c.Valid() && c.blockSize == SIZE && IsNonce(nonce)
    ensures |r| == |data|
  {
    seq(|data|, j requires 0 <= j < |data| =>
      XorByte(data[j], c.encrypt(CounterBlock(nonce, 1 + j / 16))[j % 16]))
  }

  /** Section 2.3: the CBC-MAC value under S_0. */
  function AuthenticationTag(c: Cipher, digestSize: nat, nonce: seq<byte>, header: seq<byte>, message: seq<byte>)
    : (t: seq<byte>)
    requires c.Valid() && c.blockSize == SIZE && IsNonce(nonce) && 4 <= digestSize <= 16
    ensures |t| == SIZE
  {
    var mac := Chain(c, Zeros(SIZE), MacInput(digestSize, nonce, |header|, |message|, header, message));
    XorInto(mac, 0, c.encrypt(CounterBlock(nonce, 0)))
  }

  lemma {:induction false} CounterFits(L: nat, length: nat, j: nat)
    requires 2 <= L <= 8 && j < length <= MaxMessageLength(L)
    ensures 1 + j / 16 < Pow2(8 * L)
  {
    if L == 8 {
      WordOfBytes();
    }
    Below16(j, Pow2(8 * L));
  }

  lemma {:induction false} Below16(j: nat, n: nat)
    requires j + 1 < n
    ensures 1 + j / 16 < n
  {
  }

  lemma {:induction false} WordOfBytes()
    ensures Pow2(64) == WORD64
  {
    EightBits(0);
    EightBits(8);
    EightBits(16);
    EightBits(24);
    EightBits(32);
    EightBits(40);
    EightBits(48);
    EightBits(56);
  }

  /** Key stream over the message, from the second block on. */
  function Crypt(c: Cipher, iv: seq<byte>, data: seq<byte>): (r: seq<byte>)
    requires c.Valid() && c.blockSize == SIZE && IsNonce(iv)
    ensures |r| == |data|
  {
    Transform(KeyStream(c, CounterBlock(iv, 0)), SIZE, data)
  }

  lemma {:induction false} CryptTwice(c: Cipher, iv: seq<byte>, data: seq<byte>)
    requires c.Valid() && c.blockSize == SIZE && IsNonce(iv)
    ensures Crypt(c, iv, Crypt(c, iv, data)) == data
  {
    TransformTwice(KeyStream(c, CounterBlock(iv, 0)), SIZE, data);
  }

  /** The counter stays in its field for every message the code accepts. */
  lemma {:induction false} CryptIsCiphertext(c: Cipher, nonce: seq<byte>, data: seq<byte>)
    requires c.Valid() && c.blockSize == SIZE && IsNonce(nonce) && |data| <= MaxMessageLength(15 - |nonce|)
    ensures Crypt(c, nonce, data) == Ciphertext(c, nonce, data)
  {
    forall j | 0 <= j < |data| ensures Crypt(c, nonce, data)[j] == Ciphertext(c, nonce, data)[j] {
      CryptAt(c, nonce, data, j, 1 + j / 16, j % 16);
    }
  }

  lemma {:induction false} CryptAt(c: Cipher, nonce: seq<byte>, data: seq<byte>, j: nat, k: nat, i: nat)
    requires c.Valid() && c.blockSize == SIZE && IsNonce(nonce)
    requires j < |data| <= MaxMessageLength(15 - |nonce|) && k == 1 + j / 16 && i == j % 16
    ensures Crypt(c, nonce, data)[j] == XorByte(data[j], c.encrypt(CounterBlock(nonce, k))[i])
  {
    CounterFits(15 - |nonce|, |data|, j);
    KeyStreamBlocks(c, nonce, k, i, 16 * k + i);
    TransformAtKey(KeyStream(c, CounterBlock(nonce, 0)), data, j, 16 * k + i);
  }

  lemma {:induction false} TransformAtKey(stream: nat -> byte, data: seq<byte>, j: nat, p: nat)
    requires j < |data| && p == SIZE + j
    ensures Transform(stream, SIZE, data)[j] == XorByte(data[j], stream(p))
  {
    TransformAt(stream, SIZE, data, j);
  }

  lemma {:induction false} TagIsAuthenticationTag(c: Cipher, digestSize: nat, nonce: seq<byte>, header: seq<byte>,
                                                  message: seq<byte>)
    requires c.Valid() && c.blockSize == SIZE && IsNonce(nonce) && 4 <= digestSize <= 16
    ensures Tag(c, digestSize, nonce, |header|, |message|, header, message) ==
            AuthenticationTag(c, digestSize, nonce, header, message)
  {
    var mac := Chain(c, Zeros(SIZE), MacInput(digestSize, nonce, |header|, |message|, header, message));
    FirstKeyBlock(c, CounterBlock(nonce, 0), mac);
  }

  lemma {:induction false} StreamStart(c: Cipher, iv: seq<byte>, j: nat)
    requires c.Valid() && c.blockSize == SIZE == |iv| && j < SIZE
    ensures KeyStream(c, iv)(j) == c.encrypt(iv)[j]
  {
    ValueBytes(iv);
  }

  lemma {:induction false} FirstKeyBlock(c: Cipher, iv: seq<byte>, x: seq<byte>)
    requires c.Valid() && c.blockSize == SIZE == |x| == |iv|
    ensures Transform(KeyStream(c, iv), 0, x) == XorInto(x, 0, c.encrypt(iv))
  {
    forall j: nat | j < SIZE ensures KeyStream(c, iv)(j) == c.encrypt(iv)[j] {
      StreamStart(c, iv, j);
    }
    TransformBlock(KeyStream(c, iv), x, c.encrypt(iv));
  }

  lemma {:induction false} TransformBlock(stream: nat -> byte, x: seq<byte>, block: seq<byte>)
    requires |x| == |block| && forall j: nat :: j < |x| ==> stream(j) == block[j]
    ensures Transform(stream, 0, x) == XorInto(x, 0, block)
  {
    forall j | 0 <= j < |x| ensures Transform(stream, 0, x)[j] == XorByte(x[j], block[j]) {
      TransformAt(stream, 0, x, j);
    }
  }

  // ----- chaining by pieces

  /** What is left over after the whole blocks. */
  function Tail(data: seq<byte>): (t: seq<byte>)
    ensures |t| < SIZE
    decreases |data|
  {
    if |data| < SIZE then data else Tail(data[SIZE..])
  }

  lemma {:induction false} ChainTail(c: Cipher, x: seq<byte>, data: seq<byte>, more: seq<byte>)
    requires c.Valid() && c.blockSize == SIZE == |x|
    ensures Chain(c, x, data + more) == Chain(c, Chain(c, x, data), Tail(data) + more)
    ensures Tail(data + more) == Tail(Tail(data) + more)
    decreases |data|
  {
    if |data| >= SIZE {
      assert (data + more)[..SIZE] == data[..SIZE];
      assert (data + more)[SIZE..] == data[SIZE..] + more;
      ChainTail(c, c.encrypt(XorInto(x, 0, data[..SIZE])), data[SIZE..], more);
    }
  }

  lemma {:induction false} TailOfWhole(data: seq<byte>, n: nat)
    requires n <= |data| && WholeBlocks(n, SIZE) && |data| < n + SIZE
    ensures Tail(data) == data[n..]
    decreases |data|
  {
    if n != 0 {
      TailOfWhole(data[SIZE..], n - SIZE);
    }
  }

  /** A last, short block goes in as if padded with zeros. */
  function Flush(c: Cipher, x: seq<byte>, tail: seq<byte>): (r: seq<byte>)
    requires c.Valid() && c.blockSize == SIZE == |x| && |tail| < SIZE
    ensures |r| == SIZE
  {
    if |tail| == 0 then x else c.encrypt(XorInto(x, 0, tail))
  }

  lemma {:induction false} XorPadded(x: seq<byte>, tail: seq<byte>)
    requires |tail| < |x|
    ensures XorInto(x, 0, tail + Zeros(|x| - |tail|)) == XorInto(x, 0, tail)
  {
    forall i | |tail| <= i < |x| ensures XorByte(x[i], 0) == x[i] {
      XorZero(x[i]);
    }
  }

  lemma {:induction false} ChainPadded(c: Cipher, x: seq<byte>, data: seq<byte>)
    requires c.Valid() && c.blockSize == SIZE == |x|
    ensures Chain(c, x, Padded(data)) == Flush(c, Chain(c, x, data), Tail(data))
    decreases |data|
  {
    if |data| == 0 {
    } else if |data| < SIZE {
      XorPadded(x, data);
      ChainBlock(c, x, Padded(data));
    } else {
      assert Padded(data)[..SIZE] == data[..SIZE];
      assert Padded(data)[SIZE..] == Padded(data[SIZE..]);
      ChainPadded(c, c.encrypt(XorInto(x, 0, data[..SIZE])), data[SIZE..]);
    }
  }

  /** The chaining value once the header is complete. */
  function HeaderChain(c: Cipher, first: seq<byte>, headerData: seq<byte>): (x: seq<byte>)
    requires c.Valid() && c.blockSize == SIZE == |first|
    ensures |x| == SIZE
  {
    Flush(c, Chain(c, c.encrypt(first), headerData), Tail(headerData))
  }

  /** Block by block or all at once. */
  lemma {:induction false} ChainSections(c: Cipher, first: seq<byte>, headerData: seq<byte>, message: seq<byte>)
    requires c.Valid() && c.blockSize == SIZE == |first|
    ensures Chain(c, Zeros(SIZE), first + Padded(headerData) + Padded(message)) ==
            Flush(c, Chain(c, HeaderChain(c, first, headerData), message), Tail(message))
  {
    var zeros := Zeros(SIZE);
    assert first + Padded(headerData) + Padded(message) == first + (Padded(headerData) + Padded(message));
    XorFromZeros(first);
    ChainBlock(c, zeros, first);
    ChainConcat(c, zeros, first, Padded(headerData) + Padded(message));
    ChainConcat(c, c.encrypt(first), Padded(headerData), Padded(message));
    ChainPadded(c, c.encrypt(first), headerData);
    ChainPadded(c, HeaderChain(c, first, headerData), message);
  }
}
