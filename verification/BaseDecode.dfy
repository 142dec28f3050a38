/** Base-2^n text (basecode.cpp): the streaming decoder and its lookup table. */
module BaseDecode {
  import opened Bits
  import opened Bytes
  import opened BitStrings
  import opened BaseCode

  // ----- the lookup table

  predicate IsAlpha(c: byte) {
    65 <= c <= 90 || 97 <= c <= 122
  }

  function ToUpper(c: byte): byte {
    if 97 <= c <= 122 then c - 32 else c
  }

  function ToLower(c: byte): byte {
    if 65 <= c <= 90 then c + 32 else c
  }

  /** The character c stands for the letter a of the alphabet. */
  predicate Matches(a: byte, c: byte, caseInsensitive: bool) {
    c == a || (caseInsensitive && IsAlpha(a) && (c == ToUpper(a) || c == ToLower(a)))
  }

  /** No character stands for two letters. */
  predicate Distinct(alphabet: seq<byte>, caseInsensitive: bool) {
    forall i, j :: 0 <= i < j < |alphabet| ==>
      alphabet[i] != alphabet[j] &&
      (caseInsensitive && IsAlpha(alphabet[i]) && IsAlpha(alphabet[j]) ==> ToUpper(alphabet[i]) != ToUpper(alphabet[j]))
  }

  /** The entry for c after the first n letters: the index of the letter it stands for, or -1. */
  ghost predicate Entry(alphabet: seq<byte>, n: nat, caseInsensitive: bool, c: byte, entry: int)
    requires n <= |alphabet|
  {
    if entry == -1 then forall i :: 0 <= i < n ==> !Matches(alphabet[i], c, caseInsensitive)
    else 0 <= entry < n && Matches(alphabet[entry], c, caseInsensitive)
  }

  method InitializeDecodingLookupArray(lookup: array<int>, alphabet: seq<byte>, base: nat, caseInsensitive: bool)
    requires lookup.Length == 256 && base <= |alphabet| && Distinct(alphabet[..base], caseInsensitive)
    modifies lookup
    ensures forall c: byte :: Entry(alphabet, base, caseInsensitive, c, lookup[c])
  {
    var f := 0;
    while f < 256
      invariant 0 <= f <= 256 && forall c :: 0 <= c < f ==> lookup[c] == -1
    {
      lookup[f] := -1;
      f := f + 1;
    }
    var i := 0;
    while i < base
      invariant 0 <= i <= base
      invariant forall c: byte :: Entry(alphabet, i, caseInsensitive, c, lookup[c])
    {
      var a := alphabet[i];
      ghost var before := lookup[..];
      if caseInsensitive && IsAlpha(a) {
        lookup[ToUpper(a)] := i;
        lookup[ToLower(a)] := i;
      } else {
        lookup[a] := i;
      }
      forall c: byte ensures Entry(alphabet, i + 1, caseInsensitive, c, lookup[c]) {
        assert Entry(alphabet, i, caseInsensitive, c, before[c]);
      }
      i := i + 1;
    }
  }

  /** No letter's index is ever overwritten, so every letter finds itself. */
  lemma {:induction false} LettersFound(alphabet: seq<byte>, caseInsensitive: bool, lookup: seq<int>)
    requires |lookup| == 256 && Distinct(alphabet, caseInsensitive)
    requires forall c: byte :: Entry(alphabet, |alphabet|, caseInsensitive, c, lookup[c])
    ensures forall i :: 0 <= i < |alphabet| ==> lookup[alphabet[i]] == i
  {
    forall i | 0 <= i < |alphabet| ensures lookup[alphabet[i]] == i {
      var c := alphabet[i];
      assert Entry(alphabet, |alphabet|, caseInsensitive, c, lookup[c]);
      assert Matches(alphabet[i], c, caseInsensitive);
    }
  }

  // ----- the decoded bytes

  predicate Ignored(lookup: seq<int>, c: byte)
    requires |lookup| == 256
  {
    lookup[c] < 0 || lookup[c] >= 256
  }

  /** Characters are ignored or stand for k bits. */
  predicate IsLookup(lookup: seq<int>, k: int) {
    IsWidth(k) && |lookup| == 256 && forall c: byte :: Ignored(lookup, c) || lookup[c] < Pow2(k)
  }

  function CharBits(lookup: seq<int>, k: int, text: seq<byte>): (b: seq<bit>)
    requires IsLookup(lookup, k)
  {
    if |text| == 0 then []
    else
      var c := text[|text| - 1];
      CharBits(lookup, k, text[..|text| - 1]) + if Ignored(lookup, c) then [] else BitString(lookup[c], k)
  }

  lemma {:induction false} CharBitsPush(lookup: seq<int>, k: int, text: seq<byte>, c: byte)
    requires IsLookup(lookup, k)
    ensures CharBits(lookup, k, text + [c]) ==
            CharBits(lookup, k, text) + if Ignored(lookup, c) then [] else BitString(lookup[c], k)
  {
    assert (text + [c])[..|text|] == text;
  }

  lemma {:induction false} CharBitsConcat(lookup: seq<int>, k: int, a: seq<byte>, b: seq<byte>)
    requires IsLookup(lookup, k)
    ensures CharBits(lookup, k, a + b) == CharBits(lookup, k, a) + CharBits(lookup, k, b)
  {
    if |b| == 0 {
      assert a + b == a;
    } else {
      var front, c := b[..|b| - 1], b[|b| - 1];
      CharBitsConcat(lookup, k, a, front);
      LastApart(a, b);
      CharBitsPush(lookup, k, a + front, c);
      CharBitsPush(lookup, k, front, c);
      Regrouped(CharBits(lookup, k, a), CharBits(lookup, k, front),
                if Ignored(lookup, c) then [] else BitString(lookup[c], k));
    }
  }

  /** The byte of each group of eight bits. */
  function BytesOf(groups: seq<seq<bit>>): (s: seq<byte>)
    requires Grouped(groups, 8)
    ensures |s| == |groups|
  {
    if |groups| == 0 then []
    else
      var n := |groups| - 1;
      ByteNumber(groups[n]);
      BytesOf(groups[..n]) + [Number(groups[n])]
  }

  lemma {:induction false} BytesOfConcat(a: seq<seq<bit>>, b: seq<seq<bit>>)
    requires Grouped(a, 8) && Grouped(b, 8)
    ensures Grouped(a + b, 8) && BytesOf(a + b) == BytesOf(a) + BytesOf(b)
  {
    if |b| == 0 {
      assert a + b == a;
    } else {
      assert (a + b)[..|a + b| - 1] == a + b[..|b| - 1];
      BytesOfConcat(a, b[..|b| - 1]);
    }
  }

  /** The whole bytes among the bits of the characters. */
  function Decoded(lookup: seq<int>, k: int, text: seq<byte>): seq<byte>
    requires IsLookup(lookup, k)
  {
    BytesOf(Whole(CharBits(lookup, k, text), 8))
  }

  // ----- one character into cells of eight bits

  lemma {:induction false} ShiftedCharacter(y: seq<bit>, n: nat)
    requires |y| + n <= 8
    ensures Shl(Number(y), n) == Number(y + NoBits(n)) < 256
  {
    ShlBits(y, n);
    ByteNumber(y + NoBits(n));
  }

  lemma {:induction false} LowBitsValue(y: seq<bit>, taken: nat, free: nat)
    requires taken <= |y| && |y| - taken + free == 8
    ensures Shl(Number(y), free) >= 0
    ensures Shl(Number(y), free) % 256 == Number(y[taken..] + NoBits(free)) < 256
    ensures Number(y[taken..] + NoBits(free)) % 256 == Number(y[taken..] + NoBits(free))
  {
    ShlBits(y, free);
    Regrouped(y[..taken], y[taken..], NoBits(free));
    assert y[..taken] + y[taken..] == y;
    LowByte(y[..taken], y[taken..] + NoBits(free));
    ByteNumber(y[taken..] + NoBits(free));
  }

  /** A character that does not reach over the edge. */
  lemma {:induction false} WholeInCell(buf: seq<byte>, groups: seq<seq<bit>>, part: seq<bit>, y: seq<bit>, free: nat)
    requires Cells(buf, groups, part, 8) && |groups| < |buf| && |part| + |y| + free == 8
    ensures Shl(Number(y), free) >= 0
    ensures free > 0 ==> Cells(OrInto(buf, |groups|, Shl(Number(y), free)), groups, part + y, 8)
    ensures free == 0 ==> Cells(OrInto(buf, |groups|, Shl(Number(y), free)), groups + [part + y], [], 8)
  {
    ShiftedCharacter(y, free);
    if free > 0 {
      CellGetsBits(buf, groups, part, 8, y, free);
    } else {
      assert y + NoBits(0) == y;
      CellIsFull(buf, groups, part, 8, y);
    }
  }

  /** A cell that was empty takes the low byte of a number. */
  lemma {:induction false} EmptyCell(buf: seq<byte>, n: nat, a: nat, b: nat)
    requires n < |buf| && buf[n] == 0 && a % 256 == b == b % 256
    ensures OrInto(buf, n, a) == OrInto(buf, n, b)
  {
    OrNothing(buf[n], a, b);
    OrNothing(buf[n], b, b);
  }

  lemma {:induction false} OrNothing(z: nat, a: nat, b: nat)
    requires z == 0 && a % 256 == b
    ensures Or(z, a) % 256 == b
  {
    OrZero(a);
  }

  /** The low bits of a character start the next cell. */
  lemma {:induction false} OverTheEdge(buf: seq<byte>, groups: seq<seq<bit>>, y: seq<bit>, taken: nat)
    requires Cells(buf, groups, [], 8) && |groups| < |buf| && 0 < taken < |y| && |y| - taken < 8
    ensures Shl(Number(y), 8 + taken - |y|) >= 0
    ensures Cells(OrInto(buf, |groups|, Shl(Number(y), 8 + taken - |y|)), groups, y[taken..], 8)
  {
    var z, free := y[taken..], 8 + taken - |y|;
    NoneYet(8);
    LowBitsValue(y, taken, free);
    EmptyCell(buf, |groups|, Shl(Number(y), free), Number(z + NoBits(free)));
    CellGetsBits(buf, groups, [], 8, z, free);
    assert [] + z == z;
  }

  /** A character that does. */
  lemma {:induction false} SplitInCells(buf: seq<byte>, groups: seq<seq<bit>>, part: seq<bit>,
                                        y: seq<bit>, x: seq<bit>, z: seq<bit>)
    requires Cells(buf, groups, part, 8) && |groups| + 1 < |buf| && y == x + z
    requires |part| + |x| == 8 && 0 < |x| && 0 < |z| < 8
    ensures Shl(Number(y), 8 - |z|) >= 0
    ensures Cells(OrInto(OrInto(buf, |groups|, Shr(Number(y), |z|)), |groups| + 1, Shl(Number(y), 8 - |z|)),
                  groups + [part + x], z, 8)
  {
    ShrBits(x, z);
    CellIsFull(buf, groups, part, 8, x);
    OverTheEdge(OrInto(buf, |groups|, Number(x)), groups + [part + x], y, |x|);
  }

  // ----- the decoder

  class BaseN_Decoder {
    const lookup: seq<int>
    const bitsPerChar: int
    const outputBlockSize: nat
    var outBuf: seq<byte>
    var bytePos: nat
    var bitPos: nat
    ghost var groups: seq<seq<bit>>
    ghost var part: seq<bit>

    ghost predicate Set() {
      IsLookup(lookup, bitsPerChar) && outputBlockSize == BlockBytes(bitsPerChar)
    }

    ghost predicate Filling()
      reads this
    {
      && Set() && |outBuf| == outputBlockSize
      && bytePos == |groups| && bitPos == |part| && Cells(outBuf, groups, part, 8)
    }

    ghost function Pending(): seq<bit>
      reads this
    {
      Flatten(groups) + part
    }

    /** The bits of one character into the buffer. */
    method TakeCharacter(value: nat)
      requires Filling() && value < Pow2(bitsPerChar) && |Pending()| + bitsPerChar <= 8 * outputBlockSize
      modifies `outBuf, `bytePos, `bitPos, `groups, `part
      ensures Filling() && Pending() == old(Pending()) + BitString(value, bitsPerChar)
    {
      ghost var y := BitString(value, bitsPerChar);
      NumberOfBits(value, bitsPerChar);
      FlattenLength(groups, 8);
      var newBitPos := bitPos + bitsPerChar;
      if newBitPos <= 8 {
        WholeCharacter(value, y, newBitPos);
      } else {
        SplitCharacter(value, y, newBitPos);
      }
      bitPos := newBitPos;
      while bitPos >= 8
        invariant 8 * bytePos + bitPos == 8 * old(bytePos) + newBitPos
        modifies `bitPos, `bytePos
      {
        bitPos := bitPos - 8;
        bytePos := bytePos + 1;
      }
      assert 8 * |groups| + |part| == 8 * bytePos + bitPos;
    }

    /** A character inside a byte. */
    method WholeCharacter(value: nat, ghost y: seq<bit>, newBitPos: nat)
      requires Filling() && |y| == bitsPerChar && value == Number(y) && newBitPos == bitPos + bitsPerChar <= 8
      requires |groups| < |outBuf|
      modifies `outBuf, `groups, `part
      ensures |outBuf| == outputBlockSize && Cells(outBuf, groups, part, 8)
      ensures Pending() == old(Pending()) + y
      ensures 8 * |groups| + |part| == 8 * bytePos + newBitPos
    {
      WholeInCell(outBuf, groups, part, y, 8 - newBitPos);
      outBuf := OrInto(outBuf, bytePos, Shl(value, 8 - newBitPos));
      if newBitPos < 8 {
        Regrouped(Flatten(groups), part, y);
        part := part + y;
      } else {
        FlattenPush(groups, part, y);
        groups, part := groups + [part + y], [];
      }
    }

    /** A character over the edge of a byte. */
    method SplitCharacter(value: nat, ghost y: seq<bit>, newBitPos: nat)
      requires Filling() && |y| == bitsPerChar && value == Number(y) && newBitPos == bitPos + bitsPerChar > 8
      requires |groups| + 1 < |outBuf|
      modifies `outBuf, `groups, `part
      ensures |outBuf| == outputBlockSize && Cells(outBuf, groups, part, 8)
      ensures Pending() == old(Pending()) + y
      ensures |groups| == bytePos + 1 && |part| == newBitPos - 8
    {
      ghost var x, z := y[..8 - bitPos], y[8 - bitPos..];
      SplitInCells(outBuf, groups, part, y, x, z);
      outBuf := OrInto(outBuf, bytePos, Shr(value, newBitPos - 8));
      outBuf := OrInto(outBuf, bytePos + 1, Shl(value, 16 - newBitPos));
      FlattenPush(groups, part, x);
      Regrouped(Pending(), x, z);
      groups, part := groups + [part + x], z;
    }

    ghost var message: seq<byte>
    ghost var emitted: seq<byte>
    ghost var done: seq<seq<bit>>
    ghost var taken: nat

    /** The whole blocks have gone out, the bits since are in the buffer. */
    ghost predicate Valid()
      reads this
    {
      && Set() && |outBuf| == outputBlockSize
      && bytePos == |groups| < outputBlockSize && bitPos == |part| < 8
      && Grouped(groups, 8) && Grouped(done, 8)
      && (bytePos > 0 || bitPos > 0 ==> Cells(outBuf, groups, part, 8))
      && |Pending()| == bitsPerChar * taken && taken < BlockChars(bitsPerChar)
      && emitted == BytesOf(done)
      && CharBits(lookup, bitsPerChar, message) == Flatten(done) + Pending()
    }

    /** `IsolatedInitialize` */
    constructor (lookupArray: seq<int>, k: int)
      requires IsLookup(lookupArray, k)
      ensures Valid() && lookup == lookupArray && bitsPerChar == k
      ensures message == [] && emitted == []
    {
      lookup, bitsPerChar := lookupArray, k;
      bytePos, bitPos := 0, 0;
      var size := DecoderBlockSize(k);
      outputBlockSize := size;
      outBuf := Zeros(size);
      groups, part, message, emitted, done, taken := [], [], [], [], [], 0;
      new;
      assert Flatten([]) + [] == [];
    }

    method StartBlock(ghost newMessage: seq<byte>, ghost newEmitted: seq<byte>, ghost newDone: seq<seq<bit>>)
      modifies `bytePos, `bitPos, `groups, `part, `taken, `message, `emitted, `done
      ensures bytePos == bitPos == taken == 0 && groups == [] && part == [] && Pending() == []
      ensures message == newMessage && emitted == newEmitted && done == newDone
    {
      bytePos, bitPos := 0, 0;
      groups, part, taken := [], [], 0;
      message, emitted, done := newMessage, newEmitted, newDone;
    }

    /** A complete block goes out. */
    method EmitBlock() returns (out: seq<byte>)
      requires Filling() && bytePos == outputBlockSize && part == []
      requires Grouped(done, 8) && emitted == BytesOf(done)
      requires CharBits(lookup, bitsPerChar, message) == Flatten(done) + Pending()
      modifies `bytePos, `bitPos, `groups, `part, `message, `emitted, `done, `taken
      ensures Valid() && message == old(message) && emitted == old(emitted) + out
    {
      out := outBuf;
      assert outBuf[..bytePos] == outBuf;
      CellBytes(outBuf, groups);
      BytesOfConcat(done, groups);
      FlattenConcat(done, groups);
      AndNothing(Flatten(groups));
      AndNothing(Flatten(done + groups));
      StartBlock(message, emitted + out, done + groups);
    }

    method EmitIfFull() returns (out: seq<byte>)
      requires Filling() && Grouped(groups, 8) && Grouped(done, 8) && emitted == BytesOf(done) && bitPos < 8
      requires |Pending()| == bitsPerChar * taken
      requires if bytePos == outputBlockSize then part == [] else taken < BlockChars(bitsPerChar)
      requires CharBits(lookup, bitsPerChar, message) == Flatten(done) + Pending()
      modifies `bytePos, `bitPos, `groups, `part, `message, `emitted, `done, `taken
      ensures Valid() && message == old(message) && emitted == old(emitted) + out
    {
      out := [];
      assert emitted + out == emitted;
      if bytePos == outputBlockSize {
        out := EmitBlock();
      }
    }

    /** A character that stands for nothing. */
    method SkipCharacter(c: byte)
      requires Valid() && Ignored(lookup, c)
      modifies `message
      ensures Valid() && message == old(message) + [c]
    {
      CharBitsPush(lookup, bitsPerChar, message, c);
      assert CharBits(lookup, bitsPerChar, message) + [] == CharBits(lookup, bitsPerChar, message);
      message := message + [c];
    }

    /** An empty buffer is cleared first. */
    method ClearCells()
      requires Valid()
      modifies `outBuf
      ensures Filling()
    {
      if bytePos == 0 && bitPos == 0 {
        outBuf := Zeros(outputBlockSize);
        EmptyCells(outBuf, 8);
        assert groups == [] && part == [];
      }
    }

    /** The bits of a character, which may complete a block. */
    method AddCharacter(c: byte)
      requires Filling() && !Ignored(lookup, c) && Grouped(groups, 8)
      requires |Pending()| == bitsPerChar * taken && taken < BlockChars(bitsPerChar)
      modifies `outBuf, `bytePos, `bitPos, `groups, `part, `taken
      ensures Filling() && Pending() == old(Pending()) + BitString(lookup[c], bitsPerChar)
      ensures |Pending()| == bitsPerChar * taken && bitPos < 8 && Grouped(groups, 8)
      ensures if bytePos == outputBlockSize then part == [] else taken < BlockChars(bitsPerChar)
    {
      BlockLeast(bitsPerChar, 0, 0);
      OneMore(bitsPerChar, taken);
      TakeCharacter(lookup[c]);
      taken := taken + 1;
      BytesFull(groups, part, bitsPerChar, outputBlockSize, taken);
    }

    method TakeNext(c: byte)
      requires Valid() && !Ignored(lookup, c)
      modifies `outBuf, `bytePos, `bitPos, `groups, `part, `taken, `message
      ensures Filling() && Grouped(groups, 8) && bitPos < 8
      ensures |Pending()| == bitsPerChar * taken && message == old(message) + [c]
      ensures if bytePos == outputBlockSize then part == [] else taken < BlockChars(bitsPerChar)
      ensures CharBits(lookup, bitsPerChar, message) == Flatten(done) + Pending()
    {
      ClearCells();
      CharBitsPush(lookup, bitsPerChar, message, c);
      Regrouped(Flatten(done), Pending(), BitString(lookup[c], bitsPerChar));
      message := message + [c];
      AddCharacter(c);
    }

    /** One character, and a block of bytes once it is complete. */
    method PutCharacter(c: byte) returns (out: seq<byte>)
      requires Valid()
      modifies this
      ensures Valid() && message == old(message) + [c] && emitted == old(emitted) + out
    {
      if Ignored(lookup, c) {
        SkipCharacter(c);
        out := [];
        assert emitted + out == emitted;
      } else {
        TakeNext(c);
        out := EmitIfFull();
      }
    }

    /** The end of the message: the whole bytes that are left. */
    method MessageEnd() returns (out: seq<byte>)
      requires Valid()
      modifies this
      ensures Valid() && message == [] && emitted == []
      ensures old(emitted) + out == Decoded(lookup, bitsPerChar, old(message))
    {
      out := outBuf[..bytePos];
      if bytePos > 0 {
        CellBytes(outBuf, groups);
      }
      Regrouped(Flatten(done), Flatten(groups), part);
      FlattenConcat(done, groups);
      WholeUnique(done + groups, part, 8);
      BytesOfConcat(done, groups);
      StartBlock([], [], []);
    }

    method PutAll(begin: seq<byte>) returns (out: seq<byte>)
      requires Valid()
      modifies this
      ensures Valid() && message == old(message) + begin && emitted == old(emitted) + out
    {
      out := [];
      var inputPosition := 0;
      while inputPosition < |begin|
        invariant 0 <= inputPosition <= |begin| && Valid()
        invariant message == old(message) + begin[..inputPosition] && emitted == old(emitted) + out
      {
        var piece := PutCharacter(begin[inputPosition]);
        Extended(old(message), begin, inputPosition);
        Regrouped(old(emitted), out, piece);
        out := out + piece;
        inputPosition := inputPosition + 1;
      }
      assert begin[..inputPosition] == begin;
    }

    method Put2(begin: seq<byte>, messageEnd: bool) returns (out: seq<byte>)
      requires Valid()
      modifies this
      ensures Valid()
      ensures !messageEnd ==> message == old(message) + begin && emitted == old(emitted) + out
      ensures messageEnd ==> message == [] && emitted == []
      ensures messageEnd ==> old(emitted) + out == Decoded(lookup, bitsPerChar, old(message) + begin)
    {
      out := PutAll(begin);
      if messageEnd {
        var piece := MessageEnd();
        Regrouped(old(emitted), out, piece);
        out := out + piece;
      }
    }
  }

  lemma {:induction false} CellBytes(buf: seq<byte>, groups: seq<seq<bit>>)
    requires Grouped(groups, 8) && |groups| <= |buf|
    requires forall i :: 0 <= i < |groups| ==> buf[i] == Number(groups[i])
    ensures buf[..|groups|] == BytesOf(groups)
  {
    if |groups| != 0 {
      var n := |groups| - 1;
      CellBytes(buf, groups[..n]);
      assert buf[..n + 1] == buf[..n] + [buf[n]];
    }
  }

  lemma {:induction false} OneMore(k: int, taken: nat)
    requires IsWidth(k) && taken < BlockChars(k)
    ensures k * (taken + 1) == k * taken + k <= k * BlockChars(k)
  {
    assert taken + 1 <= BlockChars(k);
  }

  /** A block is complete exactly when its last byte is. */
  lemma {:induction false} BytesFull(groups: seq<seq<bit>>, part: seq<bit>, k: int, bytes: nat, taken: nat)
    requires IsWidth(k) && bytes == BlockBytes(k) && Grouped(groups, 8) && |part| < 8
    requires |Flatten(groups) + part| == k * taken && taken <= BlockChars(k)
    ensures |groups| <= bytes
    ensures |groups| == bytes <==> taken == BlockChars(k)
    ensures |groups| == bytes ==> part == []
  {
    FlattenLength(groups, 8);
    BlockLeast(k, 0, 0);
    match k {
      case 1 =>
      case 2 =>
      case 3 =>
      case 4 =>
      case 5 =>
      case 6 =>
      case 7 =>
    }
  }

  /** The width check of `IsolatedInitialize`. */
  method NewDecoder(lookup: seq<int>, k: int) returns (d: BaseN_Decoder?)
    requires IsWidth(k) ==> IsLookup(lookup, k)
    ensures d == null <==> !IsWidth(k)
    ensures d != null ==> fresh(d) && d.Valid() && d.lookup == lookup && d.bitsPerChar == k
    ensures d != null ==> d.message == [] && d.emitted == []
  {
    if k <= 0 || k >= 8 { return null; }
    d := new BaseN_Decoder(lookup, k);
  }
}
