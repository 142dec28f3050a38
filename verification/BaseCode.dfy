/** Base-2^n text (basecode.cpp): block sizes, and the streaming encoder. */
module BaseCode {
  import opened Bits
  import opened Bytes
  import opened BitStrings
  import opened BlockChain

  // ----- block sizes

  predicate IsWidth(k: int) {
    1 <= k <= 7
  }

  /** Characters in the shortest run of characters that is a whole number of bytes. */
  function BlockChars(k: int): (n: nat)
    requires IsWidth(k)
    ensures n >= 1
  {
    if k == 4 then 2 else if k == 2 || k == 6 then 4 else 8
  }

  /** Bytes in the same run. */
  function BlockBytes(k: int): (n: nat)
    requires IsWidth(k)
    ensures n >= 1
  {
    if k == 4 || k == 2 then 1 else if k == 6 then 3 else k
  }

  /** The run is as short as can be. */
  lemma {:induction false} BlockLeast(k: int, chars: nat, bytes: nat)
    requires IsWidth(k)
    ensures k * BlockChars(k) == 8 * BlockBytes(k)
    ensures 0 < bytes && k * chars == 8 * bytes ==> BlockChars(k) <= chars && BlockBytes(k) <= bytes
  {
    match k {
      case 1 =>
      case 2 =>
      case 3 =>
      case 4 =>
      case 5 =>
      case 6 =>
      case 7 =>
    }
  }

  /** The size loop of the encoder's `IsolatedInitialize`. */
  method EncoderBlockSize(k: int) returns (n: nat)
    requires IsWidth(k)
    ensures n == BlockChars(k)
  {
    var i := 8;
    while i % k != 0
      invariant 8 <= i <= 8 * BlockBytes(k) && i % 8 == 0
      decreases 8 * BlockBytes(k) - i
    {
      match k {
        case 1 =>
        case 2 =>
        case 3 =>
        case 4 =>
        case 5 =>
        case 6 =>
        case 7 =>
      }
      i := i + 8;
    }
    match k {
      case 1 =>
      case 2 =>
      case 3 =>
      case 4 =>
      case 5 =>
      case 6 =>
      case 7 =>
    }
    n := i / k;
  }

  /** The size loop of the decoder's `IsolatedInitialize`. */
  method DecoderBlockSize(k: int) returns (n: nat)
    requires IsWidth(k)
    ensures n == BlockBytes(k)
  {
    var i := k;
    ghost var j := 1;
    while i % 8 != 0
      invariant 1 <= j <= BlockChars(k) && i == k * j
      decreases BlockChars(k) - j
    {
      i := i + k;
      j := j + 1;
    }
    n := i / 8;
  }

  // ----- cells being filled with bits

  /** Whole groups in the first cells, the bits of the next one from the top, zeros after. */
  ghost predicate Cells(buf: seq<byte>, groups: seq<seq<bit>>, part: seq<bit>, w: nat) {
    && Grouped(groups, w) && |part| < w && |groups| <= |buf|
    && (forall i :: 0 <= i < |groups| ==> buf[i] == Number(groups[i]))
    && (forall i :: |groups| < i < |buf| ==> buf[i] == 0)
    && (|groups| < |buf| ==> buf[|groups|] == Number(part + NoBits(w - |part|)))
  }

  lemma {:induction false} EmptyCells(buf: seq<byte>, w: nat)
    requires w > 0 && forall i :: 0 <= i < |buf| ==> buf[i] == 0
    ensures Cells(buf, [], [], w)
  {
    NoneYet(w);
  }

  /** `buf[n] |= x`, where x has the next bits in the place left for them. */
  function OrInto(buf: seq<byte>, n: nat, x: nat): (r: seq<byte>)
    requires n < |buf|
    ensures |r| == |buf|
  {
    buf[n := Or(buf[n], x) % 256]
  }

  lemma {:induction false} OrCell(v: nat, part: seq<bit>, x: seq<bit>, free: nat)
    requires v == Number(part + NoBits(|x| + free)) && |part| + |x| + free <= 8
    ensures Or(v, Number(x + NoBits(free))) % 256 == Number(part + x + NoBits(free)) < 256
  {
    Regrouped(part, x, NoBits(free));
    OrAppends(part, x + NoBits(free), |x| + free);
    ByteNumber(part + x + NoBits(free));
  }

  /** The next bits of a cell. */
  lemma {:induction false} CellGetsBits(buf: seq<byte>, groups: seq<seq<bit>>, part: seq<bit>, w: nat, x: seq<bit>,
                                        free: nat)
    requires Cells(buf, groups, part, w) && w <= 8 && |groups| < |buf| && |part| + |x| + free == w && free > 0
    ensures Cells(OrInto(buf, |groups|, Number(x + NoBits(free))), groups, part + x, w)
  {
    OrCell(buf[|groups|], part, x, free);
  }

  lemma {:induction false} CellIsFull(buf: seq<byte>, groups: seq<seq<bit>>, part: seq<bit>, w: nat, x: seq<bit>)
    requires Cells(buf, groups, part, w) && w <= 8 && |groups| < |buf| && |part| + |x| == w
    ensures Cells(OrInto(buf, |groups|, Number(x)), groups + [part + x], [], w)
  {
    OrWhole(buf[|groups|], part, x);
    NoneYet(w);
  }

  lemma {:induction false} OrWhole(v: nat, part: seq<bit>, x: seq<bit>)
    requires v == Number(part + NoBits(|x|)) && |part| + |x| <= 8
    ensures Or(v, Number(x)) % 256 == Number(part + x) < 256
  {
    OrCell(v, part, x, 0);
    assert x + NoBits(0) == x && part + x + NoBits(0) == part + x;
  }

  lemma {:induction false} NoneYet(w: nat)
    ensures Number([] + NoBits(w)) == 0
  {
    NumberOfNone(w);
    assert [] + NoBits(w) == NoBits(w);
  }

  lemma {:induction false} FlattenPush(groups: seq<seq<bit>>, part: seq<bit>, x: seq<bit>)
    ensures Flatten(groups + [part + x]) == Flatten(groups) + part + x
  {
    assert (groups + [part + x])[..|groups|] == groups;
    Regrouped(Flatten(groups), part, x);
  }

  lemma {:induction false} FlattenLength(groups: seq<seq<bit>>, w: nat)
    requires Grouped(groups, w)
    ensures |Flatten(groups)| == w * |groups|
  {
    if |groups| != 0 {
      FlattenLength(groups[..|groups| - 1], w);
    }
  }

  /** With bits still to come in a block, its last cell is not behind us. */
  lemma {:induction false} CellLeft(groups: seq<seq<bit>>, w: nat, cells: nat, total: nat)
    requires Grouped(groups, w) && w > 0 && |Flatten(groups)| < total && total <= w * cells
    ensures |groups| < cells
  {
    FlattenLength(groups, w);
    TimesMonotone(w, cells, |groups|);
  }

  lemma {:induction false} TimesMonotone(w: nat, a: nat, b: nat)
    ensures a <= b ==> w * a <= w * b
  {
  }

  function ByteBits(s: seq<byte>): (b: seq<bit>) {
    if |s| == 0 then [] else ByteBits(s[..|s| - 1]) + BitString(s[|s| - 1], 8)
  }

  // ----- one byte into cells of k bits

  /** What is left of a source byte sits at its top. */
  predicate SourceByte(b: nat, rest: seq<bit>) {
    |rest| <= 8 && b == Number(rest + NoBits(8 - |rest|))
  }

  /** `b >> (8 - t)` with at least t bits left takes the next t. */
  lemma {:induction false} TakesBits(b: nat, rest: seq<bit>, t: nat)
    requires SourceByte(b, rest) && t <= |rest|
    ensures Shr(b, 8 - t) == Number(rest[..t])
  {
    var low := rest[t..] + NoBits(8 - |rest|);
    assert rest + NoBits(8 - |rest|) == rest[..t] + low;
    ShrBits(rest[..t], low);
  }

  /** With fewer, it takes them all and leaves room. */
  lemma {:induction false} TakesAll(b: nat, rest: seq<bit>, t: nat)
    requires SourceByte(b, rest) && |rest| <= t <= 8
    ensures Shr(b, 8 - t) == Number(rest + NoBits(t - |rest|))
  {
    NoBitsConcat(t - |rest|, 8 - t, 8 - |rest|);
    Regrouped(rest, NoBits(t - |rest|), NoBits(8 - t));
    ShrBits(rest + NoBits(t - |rest|), NoBits(8 - t));
  }

  lemma {:induction false} NoBitsConcat(a: nat, b: nat, sum: nat)
    requires sum == a + b
    ensures NoBits(a) + NoBits(b) == NoBits(sum)
  {
    if b != 0 {
      NoBitsConcat(a, b - 1, sum - 1);
      Regrouped(NoBits(a), NoBits(b - 1), [0]);
    } else {
      AndNothing(NoBits(a));
    }
  }

  /** `b <<= t; b &= 0xff` */
  lemma {:induction false} DropsBits(b: nat, rest: seq<bit>, t: nat)
    requires SourceByte(b, rest) && t <= |rest|
    ensures Shl(b, t) >= 0 && SourceByte(Shl(b, t) % 256, rest[t..])
  {
    var z := NoBits(8 - |rest|);
    ShlBits(rest + z, t);
    NoBitsConcat(8 - |rest|, t, 8 - |rest| + t);
    MovesUp(rest, t, z, NoBits(t));
    LowByte(rest[..t], rest[t..] + NoBits(8 - |rest| + t));
  }

  lemma {:induction false} MovesUp(rest: seq<bit>, t: nat, z: seq<bit>, zt: seq<bit>)
    requires t <= |rest|
    ensures rest + z + zt == rest[..t] + (rest[t..] + (z + zt))
  {
  }

  // ----- the encoded text

  datatype Padding = NoPadding | PadWith(b: byte)

  /** The character of each group. */
  function Text(alphabet: seq<byte>, groups: seq<seq<bit>>): (t: seq<byte>)
    requires forall i :: 0 <= i < |groups| ==> Number(groups[i]) < |alphabet|
    ensures |t| == |groups|
  {
    if |groups| == 0 then []
    else
      var n := |groups| - 1;
      Text(alphabet, groups[..n]) + [alphabet[Number(groups[n])]]
  }

  /** Groups of k bits, the last one filled up with zeros. */
  function Groups(bits: seq<bit>, k: nat): (g: seq<seq<bit>>)
    requires k > 0
    ensures Grouped(g, k)
    decreases |bits|
  {
    if |bits| == 0 then []
    else if |bits| < k then [bits + NoBits(k - |bits|)]
    else [bits[..k]] + Groups(bits[k..], k)
  }

  lemma {:induction false} GroupsAre(groups: seq<seq<bit>>, part: seq<bit>, k: nat)
    requires k > 0 && Grouped(groups, k) && |part| < k
    ensures Groups(Flatten(groups) + part, k) == groups + if |part| == 0 then [] else [part + NoBits(k - |part|)]
    decreases |groups|
  {
    if |groups| == 0 {
      assert Flatten(groups) + part == part;
    } else {
      assert groups == [groups[0]] + groups[1..];
      FlattenConcat([groups[0]], groups[1..]);
      FlattenOne(groups[0]);
      assert Flatten(groups) + part == groups[0] + (Flatten(groups[1..]) + part);
      GroupsAre(groups[1..], part, k);
    }
  }

  /** Characters missing from the last block. */
  function Missing(n: nat, block: nat): (m: nat)
    requires block > 0
    ensures WholeBlocks(n + m, block)
  {
    if n == 0 then 0 else if n <= block then block - n else Missing(n - block, block)
  }

  function Repeat(b: byte, n: nat): (s: seq<byte>)
    ensures |s| == n && forall i :: 0 <= i < n ==> s[i] == b
  {
    if n == 0 then [] else Repeat(b, n - 1) + [b]
  }

  function WithPadding(text: seq<byte>, padding: Padding, block: nat): seq<byte>
    requires block > 0
  {
    if padding.NoPadding? then text else text + Repeat(padding.b, Missing(|text|, block))
  }

  lemma {:induction false} FitsAlphabet(groups: seq<seq<bit>>, k: nat, alphabet: seq<byte>)
    requires Grouped(groups, k) && |alphabet| == Pow2(k)
    ensures forall i :: 0 <= i < |groups| ==> Number(groups[i]) < |alphabet|
  {
  }

  /** Section 4 of RFC 4648, for any alphabet of 2^k characters. */
  function Encoded(alphabet: seq<byte>, k: int, padding: Padding, data: seq<byte>): seq<byte>
    requires IsWidth(k) && |alphabet| == Pow2(k)
  {
    FitsAlphabet(Groups(ByteBits(data), k), k, alphabet);
    WithPadding(Text(alphabet, Groups(ByteBits(data), k)), padding, BlockChars(k))
  }

  lemma {:induction false} TextConcat(alphabet: seq<byte>, a: seq<seq<bit>>, b: seq<seq<bit>>)
    requires forall i :: 0 <= i < |a + b| ==> Number((a + b)[i]) < |alphabet|
    ensures forall i :: 0 <= i < |a| ==> Number(a[i]) < |alphabet|
    ensures forall i :: 0 <= i < |b| ==> Number(b[i]) < |alphabet|
    ensures Text(alphabet, a + b) == Text(alphabet, a) + Text(alphabet, b)
  {
    forall i | 0 <= i < |a| ensures Number(a[i]) < |alphabet| {
      assert (a + b)[i] == a[i];
    }
    forall i | 0 <= i < |b| ensures Number(b[i]) < |alphabet| {
      assert (a + b)[|a| + i] == b[i];
    }
    if |b| == 0 {
      assert a + b == a;
    } else {
      assert (a + b)[..|a + b| - 1] == a + b[..|b| - 1];
      TextConcat(alphabet, a, b[..|b| - 1]);
    }
  }

  // ----- the encoder

  class BaseN_Encoder {
    const alphabet: seq<byte>
    const bitsPerChar: int
    const padding: Padding
    const outputBlockSize: nat
    var outBuf: seq<byte>
    var bytePos: nat
    var bitPos: nat
    ghost var groups: seq<seq<bit>>
    ghost var part: seq<bit>
    ghost var message: seq<byte>
    ghost var emitted: seq<byte>
    ghost var done: seq<seq<bit>>
    ghost var taken: nat

    ghost predicate Set() {
      IsWidth(bitsPerChar) && |alphabet| == Pow2(bitsPerChar) && outputBlockSize == BlockChars(bitsPerChar)
    }

    /** The buffer holds the bits of the groups and the part. */
    ghost predicate Filling()
      reads this
    {
      && Set() && |outBuf| == outputBlockSize
      && bytePos == |groups| && bitPos == |part| && Cells(outBuf, groups, part, bitsPerChar)
    }

    ghost function Pending(): seq<bit>
      reads this
    {
      Flatten(groups) + part
    }

    /** The next bits of the source complete a character. */
    method FillTarget(b: nat, ghost rest: seq<bit>, bitsLeftInTarget: nat)
      requires Filling() && bytePos < |outBuf| && SourceByte(b, rest)
      requires bitsLeftInTarget == bitsPerChar - bitPos <= |rest|
      modifies `outBuf, `bytePos, `bitPos, `groups, `part
      ensures Filling() && bitPos == 0 && Pending() == old(Pending()) + rest[..bitsLeftInTarget]
    {
      ghost var x := rest[..bitsLeftInTarget];
      TakesBits(b, rest, bitsLeftInTarget);
      CellIsFull(outBuf, groups, part, bitsPerChar, x);
      FlattenPush(groups, part, x);
      outBuf := OrInto(outBuf, bytePos, Shr(b, 8 - bitsLeftInTarget));
      groups, part := groups + [part + x], [];
      bitPos := 0;
      bytePos := bytePos + 1;
      assert Pending() == Flatten(groups);
    }

    /** What is left of the source is not enough for a character. */
    method FillPart(b: nat, ghost rest: seq<bit>, bitsLeftInSource: nat, bitsLeftInTarget: nat)
      requires Filling() && bytePos < |outBuf| && SourceByte(b, rest)
      requires bitsLeftInSource == |rest| < bitsLeftInTarget == bitsPerChar - bitPos
      modifies `outBuf, `bitPos, `part
      ensures Filling() && Pending() == old(Pending()) + rest
    {
      TakesAll(b, rest, bitsLeftInTarget);
      CellGetsBits(outBuf, groups, part, bitsPerChar, rest, bitsLeftInTarget - |rest|);
      outBuf := OrInto(outBuf, bytePos, Shr(b, 8 - bitsLeftInTarget));
      Regrouped(Flatten(groups), part, rest);
      part := part + rest;
      bitPos := bitPos + bitsLeftInSource;
    }

    /** One byte into the buffer, in pieces that fill up characters. */
    method TakeByte(source: byte)
      requires Filling() && |Pending()| + 8 <= 8 * BlockBytes(bitsPerChar)
      modifies `outBuf, `bytePos, `bitPos, `groups, `part
      ensures Filling() && Pending() == old(Pending()) + BitString(source, 8)
    {
      var b: nat, bitsLeftInSource: nat := source, 8;
      ghost var rest := BitString(source, 8);
      StartOfByte(source);
      ghost var all := Pending() + rest;
      BlockLeast(bitsPerChar, 0, 0);
      while true
        invariant Filling() && 1 <= bitsLeftInSource == |rest| && SourceByte(b, rest)
        invariant Pending() + rest == all
        decreases bitsLeftInSource
      {
        var bitsLeftInTarget: nat := bitsPerChar - bitPos;
        CellLeft(groups, bitsPerChar, outputBlockSize, 8 * BlockBytes(bitsPerChar));
        if bitsLeftInSource >= bitsLeftInTarget {
          SplitRest(Pending(), rest, bitsLeftInTarget);
          FillTarget(b, rest, bitsLeftInTarget);
          bitsLeftInSource := bitsLeftInSource - bitsLeftInTarget;
          DropsBits(b, rest, bitsLeftInTarget);
          rest := rest[bitsLeftInTarget..];
          if bitsLeftInSource == 0 {
            assert rest == [];
            break;
          }
          b := Shl(b, bitsLeftInTarget) % 256;
        } else {
          FillPart(b, rest, bitsLeftInSource, bitsLeftInTarget);
          break;
        }
      }
    }

    /** The whole blocks of the message have gone out, the rest of it is in the buffer. */
    ghost predicate Valid()
      reads this
    {
      && Set() && |outBuf| == outputBlockSize
      && bytePos == |groups| < outputBlockSize && bitPos == |part| < bitsPerChar
      && Grouped(groups, bitsPerChar) && Grouped(done, bitsPerChar)
      && (if bytePos == 0 then part == [] else Cells(outBuf, groups, part, bitsPerChar))
      && |Pending()| == 8 * taken && taken < BlockBytes(bitsPerChar)
      && WholeBlocks(|done|, outputBlockSize) && emitted == Text(alphabet, done)
      && ByteBits(message) == Flatten(done) + Pending()
    }

    /** `IsolatedInitialize` */
    constructor (alphabetArray: seq<byte>, k: int, pad: Padding)
      requires IsWidth(k) && |alphabetArray| == Pow2(k)
      ensures Valid() && alphabet == alphabetArray && bitsPerChar == k && padding == pad
      ensures message == [] && emitted == []
    {
      alphabet, bitsPerChar, padding := alphabetArray, k, pad;
      bytePos, bitPos := 0, 0;
      var size := EncoderBlockSize(k);
      outputBlockSize := size;
      outBuf := Zeros(size);
      groups, part, message, emitted, done, taken := [], [], [], [], [], 0;
      new;
      assert Flatten([]) + [] == [];
    }

    method Translate(n: nat, ghost cells: seq<seq<bit>>)
      requires Set() && n == |cells| <= |outBuf| && Grouped(cells, bitsPerChar)
      requires forall i :: 0 <= i < n ==> outBuf[i] == Number(cells[i])
      modifies `outBuf
      ensures |outBuf| == old(|outBuf|) && outBuf[..n] == Text(alphabet, cells)
    {
      var i := 0;
      while i < n
        invariant 0 <= i <= n && |outBuf| == old(|outBuf|)
        invariant forall j :: i <= j < n ==> outBuf[j] == Number(cells[j])
        invariant outBuf[..i] == Text(alphabet, cells[..i])
      {
        assert cells[..i + 1][..i] == cells[..i];
        outBuf := outBuf[i := alphabet[outBuf[i]]];
        i := i + 1;
        assert outBuf[..i] == outBuf[..i - 1] + [outBuf[i - 1]];
      }
      assert cells[..n] == cells;
    }

    /** An empty buffer. */
    method StartBlock(ghost newMessage: seq<byte>, ghost newEmitted: seq<byte>, ghost newDone: seq<seq<bit>>)
      modifies `bytePos, `bitPos, `groups, `part, `taken, `message, `emitted, `done
      ensures bytePos == bitPos == taken == 0 && groups == [] && part == [] && Pending() == []
      ensures message == newMessage && emitted == newEmitted && done == newDone
    {
      bytePos, bitPos := 0, 0;
      groups, part, taken := [], [], 0;
      message, emitted, done := newMessage, newEmitted, newDone;
    }

    /** A complete block goes out. */
    method EmitBlock() returns (out: seq<byte>)
      requires Filling() && bytePos == outputBlockSize && part == []
      requires Grouped(done, bitsPerChar) && WholeBlocks(|done|, outputBlockSize) && emitted == Text(alphabet, done)
      requires ByteBits(message) == Flatten(done) + Pending()
      modifies `outBuf, `bytePos, `bitPos, `groups, `part, `message, `emitted, `done, `taken
      ensures Valid() && message == old(message) && emitted == old(emitted) + out
    {
      Translate(bytePos, groups);
      out := outBuf;
      assert outBuf[..bytePos] == outBuf;
      BlockGone(done, groups, alphabet, outputBlockSize);
      AndNothing(Flatten(groups));
      AndNothing(Flatten(done + groups));
      StartBlock(message, emitted + out, done + groups);
    }

    /** One byte of the message, and a block of text once it is complete. */
    method PutByte(b: byte) returns (out: seq<byte>)
      requires Valid()
      modifies this
      ensures Valid() && message == old(message) + [b] && emitted == old(emitted) + out
    {
      if bytePos == 0 {
        outBuf := Zeros(outputBlockSize);
        EmptyCells(outBuf, bitsPerChar);
        assert groups == [];
      }
      TakeByte(b);
      taken := taken + 1;
      ByteBitsPush(message, b);
      Regrouped(Flatten(done), old(Pending()), BitString(b, 8));
      message := message + [b];
      BlockFull(groups, part, bitsPerChar, outputBlockSize, taken);
      out := [];
      if bytePos == outputBlockSize {
        out := EmitBlock();
      } else {
        assert emitted + [] == emitted;
      }
    }

    /** The last characters, padded to a block if padding is on. */
    method LastText(ghost last: seq<seq<bit>>) returns (out: seq<byte>)
      requires Valid() && last == groups + if bitPos == 0 then [] else [part + NoBits(bitsPerChar - bitPos)]
      modifies `outBuf, `bytePos
      ensures |outBuf| == outputBlockSize
      ensures out == Text(alphabet, last) +
                if padding.PadWith? && |last| > 0 then Repeat(padding.b, outputBlockSize - |last|) else []
    {
      if bitPos > 0 { bytePos := bytePos + 1; }
      Translate(bytePos, last);
      if padding.PadWith? && bytePos > 0 {
        outBuf := outBuf[..bytePos] + Repeat(padding.b, outputBlockSize - bytePos);
        bytePos := outputBlockSize;
      }
      out := outBuf[..bytePos];
    }

    method MessageEnd() returns (out: seq<byte>)
      requires Valid()
      modifies this
      ensures Valid() && message == [] && emitted == []
      ensures old(emitted) + out == Encoded(alphabet, bitsPerChar, padding, old(message))
    {
      ghost var last := groups + if bitPos == 0 then [] else [part + NoBits(bitsPerChar - bitPos)];
      ghost var padded := if padding.PadWith? && |last| > 0 then Repeat(padding.b, outputBlockSize - |last|) else [];
      EncodedEnd(message, done, groups, part, bitsPerChar, padding, alphabet, last, padded);
      out := LastText(last);
      StartBlock([], [], []);
    }

    method PutAll(begin: seq<byte>) returns (out: seq<byte>)
      requires Valid()
      modifies this
      ensures Valid() && message == old(message) + begin && emitted == old(emitted) + out
    {
      out := [];
      var inputPosition := 0;
      while inputPosition < |begin|
        invariant 0 <= inputPosition <= |begin| && Valid()
        invariant message == old(message) + begin[..inputPosition] && emitted == old(emitted) + out
      {
        var piece := PutByte(begin[inputPosition]);
        Extended(old(message), begin, inputPosition);
        Regrouped(old(emitted), out, piece);
        out := out + piece;
        inputPosition := inputPosition + 1;
      }
      assert begin[..inputPosition] == begin;
    }

    method Put2(begin: seq<byte>, messageEnd: bool) returns (out: seq<byte>)
      requires Valid()
      modifies this
      ensures Valid()
      ensures !messageEnd ==> message == old(message) + begin && emitted == old(emitted) + out
      ensures messageEnd ==> message == [] && emitted == []
      ensures messageEnd ==> old(emitted) + out == Encoded(alphabet, bitsPerChar, padding, old(message) + begin)
    {
      out := PutAll(begin);
      if messageEnd {
        var piece := MessageEnd();
        Regrouped(old(emitted), out, piece);
        out := out + piece;
      }
    }
  }

  /** All groups of the message: those gone out, those in the buffer, and the last bits. */
  lemma {:induction false} LastGroups(done: seq<seq<bit>>, groups: seq<seq<bit>>, part: seq<bit>, k: int, block: nat,
                                      alphabet: seq<byte>, last: seq<seq<bit>>)
    requires IsWidth(k) && |alphabet| == Pow2(k) && block > 0
    requires Grouped(done, k) && Grouped(groups, k) && |part| < k && |last| <= block && WholeBlocks(|done|, block)
    requires last == groups + if |part| == 0 then [] else [part + NoBits(k - |part|)]
    ensures Grouped(done + last, k) && Grouped(done, k) && Grouped(last, k)
    ensures Groups(Flatten(done) + (Flatten(groups) + part), k) == done + last
    ensures forall g :: 0 <= g < |done| ==> Number(done[g]) < |alphabet|
    ensures forall g :: 0 <= g < |last| ==> Number(last[g]) < |alphabet|
    ensures forall g :: 0 <= g < |done + last| ==> Number((done + last)[g]) < |alphabet|
    ensures Text(alphabet, done + last) == Text(alphabet, done) + Text(alphabet, last)
    ensures Missing(|done + last|, block) == if |last| == 0 then 0 else block - |last|
  {
    GroupsEnd(done, groups, part, k);
    FitsAlphabet(done + last, k, alphabet);
    TextConcat(alphabet, done, last);
    MissingAfter(|done|, |last|, |done + last|, block);
  }

  /** The last characters and the padding complete the text. */
  lemma {:induction false} EncodedEnd(message: seq<byte>, done: seq<seq<bit>>, groups: seq<seq<bit>>, part: seq<bit>,
                                      k: int, padding: Padding, alphabet: seq<byte>, last: seq<seq<bit>>,
                                      padded: seq<byte>)
    requires IsWidth(k) && |alphabet| == Pow2(k) && Grouped(done, k) && Grouped(groups, k) && |part| < k
    requires |last| <= BlockChars(k) && WholeBlocks(|done|, BlockChars(k))
    requires last == groups + if |part| == 0 then [] else [part + NoBits(k - |part|)]
    requires padded == if padding.PadWith? && |last| > 0 then Repeat(padding.b, BlockChars(k) - |last|) else []
    requires ByteBits(message) == Flatten(done) + (Flatten(groups) + part)
    ensures forall g :: 0 <= g < |done| ==> Number(done[g]) < |alphabet|
    ensures forall g :: 0 <= g < |last| ==> Number(last[g]) < |alphabet|
    ensures Text(alphabet, done) + (Text(alphabet, last) + padded) == Encoded(alphabet, k, padding, message)
  {
    LastGroups(done, groups, part, k, BlockChars(k), alphabet, last);
    Regrouped(Text(alphabet, done), Text(alphabet, last), padded);
    AndNothing(Text(alphabet, done) + Text(alphabet, last));
  }

  lemma {:induction false} GroupsEnd(done: seq<seq<bit>>, groups: seq<seq<bit>>, part: seq<bit>, k: nat)
    requires k > 0 && Grouped(done, k) && Grouped(groups, k) && |part| < k
    ensures Groups(Flatten(done) + (Flatten(groups) + part), k) ==
            done + (groups + if |part| == 0 then [] else [part + NoBits(k - |part|)])
  {
    FlattenConcat(done, groups);
    Regrouped(Flatten(done), Flatten(groups), part);
    GroupsAre(done + groups, part, k);
    Regrouped(done, groups, if |part| == 0 then [] else [part + NoBits(k - |part|)]);
  }

  lemma {:induction false} BlockGone(done: seq<seq<bit>>, groups: seq<seq<bit>>, alphabet: seq<byte>, block: nat)
    requires forall i :: 0 <= i < |done + groups| ==> Number((done + groups)[i]) < |alphabet|
    requires block > 0 && WholeBlocks(|done|, block) && |groups| == block
    ensures Flatten(done + groups) == Flatten(done) + Flatten(groups) && WholeBlocks(|done + groups|, block)
    ensures (forall i :: 0 <= i < |done| ==> Number(done[i]) < |alphabet|)
    ensures (forall i :: 0 <= i < |groups| ==> Number(groups[i]) < |alphabet|)
    ensures Text(alphabet, done + groups) == Text(alphabet, done) + Text(alphabet, groups)
  {
    FlattenConcat(done, groups);
    TextConcat(alphabet, done, groups);
    WholeBlocksAdd(|done|, block, block);
  }

  lemma {:induction false} Extended(a: seq<byte>, s: seq<byte>, i: nat)
    requires i < |s|
    ensures a + s[..i] + [s[i]] == a + s[..i + 1]
  {
  }

  lemma {:induction false} AndNothing<T>(s: seq<T>)
    ensures s + [] == s
  {
  }

  lemma {:induction false} MissingAfter(n: nat, m: nat, sum: nat, block: nat)
    requires block > 0 && WholeBlocks(n, block) && m <= block && sum == n + m
    ensures Missing(sum, block) == if m == 0 then 0 else block - m
  {
    if n != 0 && sum > block {
      MissingAfter(n - block, m, sum - block, block);
    }
  }

  lemma {:induction false} ByteBitsPush(s: seq<byte>, b: byte)
    ensures ByteBits(s + [b]) == ByteBits(s) + BitString(b, 8)
  {
    assert (s + [b])[..|s|] == s;
  }

  /** A block is complete exactly when its last character is. */
  lemma {:induction false} BlockFull(groups: seq<seq<bit>>, part: seq<bit>, k: int, chars: nat, taken: nat)
    requires IsWidth(k) && chars == BlockChars(k) && Grouped(groups, k) && |part| < k
    requires |Flatten(groups) + part| == 8 * taken && 1 <= taken <= BlockBytes(k)
    ensures 1 <= |groups| <= chars
    ensures |groups| == chars <==> taken == BlockBytes(k)
    ensures |groups| == chars ==> part == []
  {
    FlattenLength(groups, k);
    BlockLeast(k, 0, 0);
    match k {
      case 1 =>
      case 2 =>
      case 3 =>
      case 4 =>
      case 5 =>
      case 6 =>
      case 7 =>
    }
  }

  lemma {:induction false} SplitRest(a: seq<bit>, rest: seq<bit>, n: nat)
    requires n <= |rest|
    ensures a + rest == a + rest[..n] + rest[n..]
  {
  }

  lemma {:induction false} StartOfByte(source: byte)
    ensures SourceByte(source, BitString(source, 8))
  {
    EightBits(0);
    assert Pow2(0) == 1;
    NumberOfBits(source, 8);
    assert BitString(source, 8) + NoBits(0) == BitString(source, 8);
  }

  /** The width check of `IsolatedInitialize`. */
  method NewEncoder(alphabet: seq<byte>, k: int, padding: Padding) returns (e: BaseN_Encoder?)
    requires IsWidth(k) ==> |alphabet| == Pow2(k)
    ensures e == null <==> !IsWidth(k)
    ensures e != null ==> fresh(e) && e.Valid() && e.alphabet == alphabet && e.bitsPerChar == k && e.padding == padding
    ensures e != null ==> e.message == [] && e.emitted == []
  {
    if k <= 0 || k >= 8 { return null; }
    e := new BaseN_Encoder(alphabet, k, padding);
  }
}
