/** The blocks that CCM enciphers tell everything apart: the input of the CBC-MAC can be read in one
    way only, and no counter block is used twice or as a first block (sections 2.2 and 2.3 of
    RFC 3610). */
module CcmFormat {
  import opened Bits
  import opened Bytes
  import opened BlockChain
  import opened Ccm

  lemma {:induction false} SameNumber(v: nat, w: nat, n: nat)
    requires v < Pow2(8 * n) && w < Pow2(8 * n) && BigEndian(v, n) == BigEndian(w, n)
    ensures v == w
  {
    BigEndianValue(v, n);
    BigEndianValue(w, n);
  }

  /** The lengths the code accepts are those that fit the field of L bytes. */
  lemma {:induction false} LengthFits(length: nat, L: nat)
    requires 2 <= L <= 8
    ensures length <= MaxMessageLength(L) <==> length < Pow2(8 * L)
  {
    WordOfBytes();
  }

  // ----- the first block

  /** Size of the tag, size of the nonce and whether there is a header all show in the first byte. */
  lemma {:induction false} FlagsReadOnce(header: nat, digestSize: nat, L: nat, header': nat, digestSize': nat,
                                         L': nat)
    requires header <= 1 && header' <= 1 && 2 <= L <= 8 && 2 <= L' <= 8
    requires 4 <= digestSize <= 16 && 4 <= digestSize' <= 16 && digestSize % 2 == 0 && digestSize' % 2 == 0
    requires 64 * header + 8 * ((digestSize - 2) / 2) + (L - 1) == 64 * header' + 8 * ((digestSize' - 2) / 2) + (L' - 1)
    ensures header == header' && digestSize == digestSize' && L == L'
  {
  }

  lemma {:induction false} FirstBlockReadOnce(digestSize: nat, nonce: seq<byte>, headerLength: nat,
                                              messageLength: nat, digestSize': nat, nonce': seq<byte>,
                                              headerLength': nat, messageLength': nat)
    requires 4 <= digestSize <= 16 && digestSize % 2 == 0 && IsNonce(nonce)
    requires 4 <= digestSize' <= 16 && digestSize' % 2 == 0 && IsNonce(nonce')
    requires messageLength <= MaxMessageLength(15 - |nonce|) && messageLength' <= MaxMessageLength(15 - |nonce'|)
    requires FirstBlock(digestSize, nonce, headerLength, messageLength) ==
             FirstBlock(digestSize', nonce', headerLength', messageLength')
    ensures digestSize == digestSize' && nonce == nonce' && messageLength == messageLength'
    ensures headerLength == 0 <==> headerLength' == 0
  {
    var L, L' := 15 - |nonce|, 15 - |nonce'|;
    var flags := FirstBlock(digestSize, nonce, headerLength, messageLength)[0];
    var header, header' := if headerLength > 0 then 1 else 0, if headerLength' > 0 then 1 else 0;
    FlagsReadOnce(header, digestSize, L, header', digestSize', L');
    var length, length' := BigEndian(messageLength, L), BigEndian(messageLength', L);
    assert [flags] + nonce + length == [flags] + (nonce + length);
    assert [flags] + nonce' + length' == [flags] + (nonce' + length');
    SameFront([flags], [flags], nonce + length, nonce' + length');
    SameFront(nonce, nonce', length, length');
    LengthFits(messageLength, L);
    LengthFits(messageLength', L);
    SameNumber(messageLength, messageLength', L);
  }

  // ----- the header

  lemma {:induction false} FieldSizes()
    ensures 0xff00 < Pow2(8 * 2) && Pow2(8 * 4) == 0x1_0000_0000 && Pow2(8 * 8) == WORD64
  {
    WordOfBytes();
    EightBits(0);
    EightBits(8);
    EightBits(16);
    EightBits(24);
  }

  /** The two bytes of a short length never look like the start of a longer form. */
  lemma {:induction false} ShortStart(n: nat)
    requires n < 0xff00
    ensures BigEndian(n, 2) == [n / 256, n % 256] && n / 256 < 0xff
  {
    assert BigEndian(n, 2) == BigEndian(n / 256, 1) + [n % 256];
    assert BigEndian(n / 256, 1) == BigEndian(n / 256 / 256, 0) + [n / 256];
  }

  /** Whatever follows it, the encoded length tells how long it is. */
  lemma {:induction false} LengthFormReadOnce(n: nat, n': nat, a: seq<byte>, b: seq<byte>)
    requires 0 < n < WORD64 && 0 < n' < WORD64 && EncodedLength(n) + a == EncodedLength(n') + b
    ensures |EncodedLength(n)| == |EncodedLength(n')|
  {
    if n < 0xff00 { ShortStart(n); }
    if n' < 0xff00 { ShortStart(n'); }
    var s, s' := EncodedLength(n) + a, EncodedLength(n') + b;
    assert s[0] == EncodedLength(n)[0] && s[1] == EncodedLength(n)[1];
    assert s'[0] == EncodedLength(n')[0] && s'[1] == EncodedLength(n')[1];
  }

  lemma {:induction false} HeaderLengthReadOnce(n: nat, n': nat, a: seq<byte>, b: seq<byte>)
    requires 0 < n < WORD64 && 0 < n' < WORD64 && EncodedLength(n) + a == EncodedLength(n') + b
    ensures n == n' && a == b
  {
    LengthFormReadOnce(n, n', a, b);
    SameFront(EncodedLength(n), EncodedLength(n'), a, b);
    FieldSizes();
    if n < 0xff00 {
      SameNumber(n, n', 2);
    } else if n < 0x1_0000_0000 {
      SameFront([0xff, 0xfe], [0xff, 0xfe], BigEndian(n, 4), BigEndian(n', 4));
      SameNumber(n, n', 4);
    } else {
      SameFront([0xff, 0xff], [0xff, 0xff], BigEndian(n, 8), BigEndian(n', 8));
      SameNumber(n, n', 8);
    }
  }

  /** The table in section 2.2: where each form ends and the next begins. */
  lemma {:induction false} LengthForms()
    ensures EncodedLength(0) == [] && EncodedLength(1) == [0, 1] && EncodedLength(0xfeff) == [0xfe, 0xff]
    ensures EncodedLength(0xff00) == [0xff, 0xfe, 0, 0, 0xff, 0]
    ensures EncodedLength(0xffff_ffff) == [0xff, 0xfe, 0xff, 0xff, 0xff, 0xff]
    ensures EncodedLength(0x1_0000_0000) == [0xff, 0xff, 0, 0, 0, 1, 0, 0, 0, 0]
  {
    ShortStart(1);
    ShortStart(0xfeff);
    FourDigits(0, 0, 0xff, 0, 0xff00);
    FourDigits(0xff, 0xff, 0xff, 0xff, 0xffff_ffff);
    EightDigits(1, 0x1_0000_0000);
  }

  lemma {:induction false} FourDigits(a: byte, b: byte, c: byte, d: byte, n: nat)
    requires n == 0x100_0000 * (a as int) + 0x1_0000 * (b as int) + 0x100 * (c as int) + d
    ensures BigEndian(n, 4) == [a, b, c, d]
  {
    FourBytes([], a, b, c, d);
    ValueBytes([a, b, c, d]);
  }

  lemma {:induction false} EightDigits(d: byte, n: nat)
    requires n == 0x1_0000_0000 * (d as int)
    ensures BigEndian(n, 8) == [0, 0, 0, d, 0, 0, 0, 0]
  {
    var high := [0, 0, 0, d];
    FourBytes([], 0, 0, 0, d);
    FourBytes(high, 0, 0, 0, 0);
    ValueBytes(high + [0, 0, 0, 0]);
    assert high + [0, 0, 0, 0] == [0, 0, 0, d, 0, 0, 0, 0];
  }

  lemma {:induction false} FourBytes(front: seq<byte>, a: byte, b: byte, c: byte, d: byte)
    ensures Value(front + [a, b, c, d]) == 0x1_0000_0000 * Value(front) + 0x100_0000 * (a as int) +
                                           0x1_0000 * (b as int) + 0x100 * (c as int) + d
    ensures front == [] ==> front + [a, b, c, d] == [a, b, c, d] && Value(front) == 0
  {
    ValuePair(front, a);
    ValuePair(front + [a], b);
    ValuePair(front + [a] + [b], c);
    ValuePair(front + [a] + [b] + [c], d);
    assert front + [a, b, c, d] == front + [a] + [b] + [c] + [d];
  }

  // ----- the whole input

  lemma {:induction false} PaddedStarts(data: seq<byte>) returns (padding: seq<byte>)
    ensures Padded(data) == data + padding
    decreases |data|
  {
    if |data| == 0 {
      padding := [];
    } else if |data| < SIZE {
      padding := Zeros(SIZE - |data|);
    } else {
      padding := PaddedStarts(data[SIZE..]);
      assert data == data[..SIZE] + data[SIZE..];
    }
  }

  lemma {:induction false} PaddedLength(data: seq<byte>, data': seq<byte>)
    requires |data| == |data'|
    ensures |Padded(data)| == |Padded(data')|
    decreases |data|
  {
    if |data| >= SIZE { PaddedLength(data[SIZE..], data'[SIZE..]); }
  }

  /** Of strings of one length the padding is no obstacle. */
  lemma {:induction false} PaddedReadOnce(data: seq<byte>, data': seq<byte>, r: seq<byte>, s: seq<byte>)
    requires |data| == |data'| && Padded(data) + r == Padded(data') + s
    ensures data == data' && r == s
  {
    PaddedLength(data, data');
    SameFront(Padded(data), Padded(data'), r, s);
    var padding := PaddedStarts(data);
    var padding' := PaddedStarts(data');
    SameFront(data, data', padding, padding');
  }

  /** Equally long or not, encoded headers are told apart. */
  lemma {:induction false} HeaderReadOnce(header: seq<byte>, header': seq<byte>, r: seq<byte>, s: seq<byte>)
    requires |header| < WORD64 && |header'| < WORD64 && (|header| == 0 <==> |header'| == 0)
    requires Padded(EncodedLength(|header|) + header) + r == Padded(EncodedLength(|header'|) + header') + s
    ensures header == header' && r == s
  {
    var e, e' := EncodedLength(|header|), EncodedLength(|header'|);
    if |header| != 0 {
      var padding := PaddedStarts(e + header);
      var padding' := PaddedStarts(e' + header');
      assert e + header + padding + r == e + (header + padding + r);
      assert e' + header' + padding' + s == e' + (header' + padding' + s);
      HeaderLengthReadOnce(|header|, |header'|, header + padding + r, header' + padding' + s);
    }
    PaddedReadOnce(e + header, e' + header', r, s);
    SameFront(e, e', header, header');
  }

  /** No input of the CBC-MAC is the start of another: tag size, nonce, header and message can be
      read off it. */
  lemma {:induction false} MacInputReadOnce(digestSize: nat, nonce: seq<byte>, header: seq<byte>, message: seq<byte>,
                                            digestSize': nat, nonce': seq<byte>, header': seq<byte>,
                                            message': seq<byte>)
    requires 4 <= digestSize <= 16 && digestSize % 2 == 0 && IsNonce(nonce)
    requires 4 <= digestSize' <= 16 && digestSize' % 2 == 0 && IsNonce(nonce')
    requires |header| < WORD64 && |message| <= MaxMessageLength(15 - |nonce|)
    requires |header'| < WORD64 && |message'| <= MaxMessageLength(15 - |nonce'|)
    requires MacInput(digestSize, nonce, |header|, |message|, header, message) <=
             MacInput(digestSize', nonce', |header'|, |message'|, header', message')
    ensures digestSize == digestSize' && nonce == nonce' && header == header' && message == message'
  {
    var first := FirstBlock(digestSize, nonce, |header|, |message|);
    var first' := FirstBlock(digestSize', nonce', |header'|, |message'|);
    var h, h' := Padded(EncodedLength(|header|) + header), Padded(EncodedLength(|header'|) + header');
    var m, m' := Padded(message), Padded(message');
    var more := BehindFirst(first, h, m, first', h', m');
    FirstBlockReadOnce(digestSize, nonce, |header|, |message|, digestSize', nonce', |header'|, |message'|);
    HeaderReadOnce(header, header', m + more, m');
    PaddedReadOnce(message, message', more, []) by {
      assert m' == m' + [];
    }
  }

  lemma {:induction false} BehindFirst(first: seq<byte>, h: seq<byte>, m: seq<byte>, first': seq<byte>, h': seq<byte>,
                                       m': seq<byte>)
    returns (more: seq<byte>)
    requires |first| == |first'| && first + h + m <= first' + h' + m'
    ensures first == first' && h + (m + more) == h' + m'
  {
    more := (first' + h' + m')[|first + h + m|..];
    assert first' + h' + m' == first + h + m + more;
    assert first' + h' + m' == first' + (h' + m') && first + h + m + more == first + (h + (m + more));
    SameFront(first, first', h + (m + more), h' + m');
  }

  // ----- the counter blocks

  /** Within its field no counter block comes back, not under another nonce either. */
  lemma {:induction false} CounterBlockReadOnce(nonce: seq<byte>, i: nat, nonce': seq<byte>, j: nat)
    requires IsNonce(nonce) && IsNonce(nonce') && CounterBlock(nonce, i) == CounterBlock(nonce', j)
    requires i < Pow2(8 * (15 - |nonce|)) && j < Pow2(8 * (15 - |nonce'|))
    ensures nonce == nonce' && i == j
  {
    var flags, L := 14 - |nonce|, 15 - |nonce|;
    assert CounterBlock(nonce, i)[0] == 14 - |nonce| && CounterBlock(nonce', j)[0] == 14 - |nonce'|;
    assert [flags] + nonce + BigEndian(i, L) == [flags] + (nonce + BigEndian(i, L));
    assert [flags] + nonce' + BigEndian(j, L) == [flags] + (nonce' + BigEndian(j, L));
    SameFront([flags], [flags], nonce + BigEndian(i, L), nonce' + BigEndian(j, L));
    SameFront(nonce, nonce', BigEndian(i, L), BigEndian(j, L));
    SameNumber(i, j, L);
  }

  /** The tag size is never zero, so a first block is no counter block. */
  lemma {:induction false} FirstBlockIsNoCounter(digestSize: nat, nonce: seq<byte>, headerLength: nat,
                                                 messageLength: nat, nonce': seq<byte>, i: nat)
    requires 4 <= digestSize <= 16 && IsNonce(nonce) && IsNonce(nonce')
    ensures FirstBlock(digestSize, nonce, headerLength, messageLength) != CounterBlock(nonce', i)
  {
    assert FirstBlock(digestSize, nonce, headerLength, messageLength)[0] >= 8;
    assert CounterBlock(nonce', i)[0] < 8;
  }

  /** The blocks of the first packet vectors in section 8 of RFC 3610: 8 bytes of header, 23 of
      message, 8 of tag. */
  lemma {:induction false} PacketVector(nonce: seq<byte>, header: seq<byte>, message: seq<byte>)
    requires |nonce| == 13 && |header| == 8 && |message| == 23
    ensures MacInput(8, nonce, 8, 23, header, message) ==
            [0x59] + nonce + [0, 23] + ([0, 8] + header + Zeros(6)) + (message + Zeros(9))
    ensures CounterBlock(nonce, 0) == [1] + nonce + [0, 0] && CounterBlock(nonce, 2) == [1] + nonce + [0, 2]
  {
    ShortStart(23);
    ShortStart(8);
    ShortStart(0);
    ShortStart(2);
    assert Padded(message[16..]) == message[16..] + Zeros(9);
    assert Padded(message) == message[..16] + (message[16..] + Zeros(9));
    assert message == message[..16] + message[16..];
    assert Padded([0, 8] + header) == [0, 8] + header + Zeros(6);
  }
}
