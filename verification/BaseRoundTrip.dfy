/** The grouper (basecode.cpp), and text through encoder, grouper and decoder and back. */
module BaseRoundTrip {
  import opened Bits
  import opened Bytes
  import opened BitStrings
  import opened BlockChain
  import opened BaseCode
  import opened BaseDecode

  // ----- grouping

  /** A separator after every group but the last. A group size of zero groups nothing. */
  function GroupedText(data: seq<byte>, size: nat, separator: seq<byte>): (t: seq<byte>)
    decreases |data|
  {
    if size == 0 || |data| <= size then data
    else data[..size] + separator + GroupedText(data[size..], size, separator)
  }

  function LastGroup(n: nat, size: nat): (l: nat)
    requires size > 0
    ensures l <= size && (n > 0 ==> l > 0)
  {
    if n <= size then n else LastGroup(n - size, size)
  }

  /** More of the last group. */
  lemma {:induction false} GroupGrows(data: seq<byte>, piece: seq<byte>, size: nat, separator: seq<byte>)
    requires size > 0 && LastGroup(|data|, size) + |piece| <= size
    ensures GroupedText(data + piece, size, separator) == GroupedText(data, size, separator) + piece
    ensures LastGroup(|data + piece|, size) == LastGroup(|data|, size) + |piece|
    decreases |data|
  {
    if |data| > size {
      GroupGrows(data[size..], piece, size, separator);
      assert (data + piece)[..size] == data[..size];
      assert (data + piece)[size..] == data[size..] + piece;
    }
  }

  /** A full group and the start of the next. */
  lemma {:induction false} GroupStarts(data: seq<byte>, piece: seq<byte>, size: nat, separator: seq<byte>)
    requires size > 0 && LastGroup(|data|, size) == size && 0 < |piece| <= size
    ensures GroupedText(data + piece, size, separator) == GroupedText(data, size, separator) + separator + piece
    ensures LastGroup(|data + piece|, size) == |piece|
    decreases |data|
  {
    if |data| > size {
      GroupStarts(data[size..], piece, size, separator);
      assert (data + piece)[..size] == data[..size];
      assert (data + piece)[size..] == data[size..] + piece;
    } else {
      assert (data + piece)[..size] == data;
      assert (data + piece)[size..] == piece;
    }
  }

  class Grouper {
    const groupSize: nat
    const separator: seq<byte>
    const terminator: seq<byte>
    var counter: nat
    ghost var data: seq<byte>
    ghost var emitted: seq<byte>

    ghost predicate Valid()
      reads this
    {
      && emitted == GroupedText(data, groupSize, separator)
      && (groupSize > 0 ==> counter == LastGroup(|data|, groupSize))
    }

    constructor (size: nat, separatorBytes: seq<byte>, terminatorBytes: seq<byte>)
      ensures Valid() && data == [] && emitted == []
      ensures groupSize == size && separator == separatorBytes && terminator == terminatorBytes
    {
      groupSize, separator, terminator := size, separatorBytes, terminatorBytes;
      counter, data, emitted := 0, [], [];
    }

    /** The loop over groups. */
    method PutGroups(begin: seq<byte>) returns (out: seq<byte>)
      requires Valid() && groupSize > 0
      modifies this
      ensures Valid() && data == old(data) + begin && emitted == old(emitted) + out
    {
      out := [];
      var inputPosition: nat := 0;
      while inputPosition < |begin|
        invariant inputPosition <= |begin| && Valid()
        invariant data == old(data) + begin[..inputPosition] && emitted == old(emitted) + out
      {
        var piece;
        var len: nat;
        piece, len := PutPiece(begin[inputPosition..]);
        Regrouped(old(emitted), out, piece);
        assert begin[..inputPosition + len] == begin[..inputPosition] + begin[inputPosition..][..len];
        Regrouped(old(data), begin[..inputPosition], begin[inputPosition..][..len]);
        out := out + piece;
        inputPosition := inputPosition + len;
      }
      assert begin[..inputPosition] == begin;
    }

    /** A separator if the group is full, then what fits into the group. */
    method PutPiece(rest: seq<byte>) returns (out: seq<byte>, len: nat)
      requires Valid() && groupSize > 0 && |rest| > 0
      modifies this
      ensures Valid() && 0 < len <= |rest|
      ensures data == old(data) + rest[..len] && emitted == old(emitted) + out
    {
      out := [];
      var full := counter == groupSize;
      if full {
        out := separator;
        counter := 0;
      }
      len := if |rest| <= groupSize - counter then |rest| else groupSize - counter;
      if full {
        GroupStarts(data, rest[..len], groupSize, separator);
      } else {
        GroupGrows(data, rest[..len], groupSize, separator);
      }
      Regrouped(emitted, out, rest[..len]);
      assert emitted + out == if full then emitted + separator else emitted;
      out := out + rest[..len];
      counter := counter + len;
      data := data + rest[..len];
      emitted := emitted + out;
    }

    method Put2(begin: seq<byte>, messageEnd: bool) returns (out: seq<byte>)
      requires Valid()
      modifies this
      ensures Valid()
      ensures !messageEnd ==> data == old(data) + begin && emitted == old(emitted) + out
      ensures messageEnd ==> data == [] && emitted == []
      ensures messageEnd ==>
                old(emitted) + out == GroupedText(old(data) + begin, groupSize, separator) + terminator
    {
      if groupSize > 0 {
        out := PutGroups(begin);
      } else {
        out := begin;
        data := data + begin;
        emitted := emitted + out;
      }
      if messageEnd {
        Regrouped(old(emitted), out, terminator);
        out := out + terminator;
        counter, data, emitted := 0, [], [];
      }
    }
  }

  // ----- round trip

  /** Every letter is looked up as its own index. */
  predicate Inverts(lookup: seq<int>, alphabet: seq<byte>, k: int) {
    && IsLookup(lookup, k) && |alphabet| == Pow2(k) && |alphabet| <= 256
    && forall i :: 0 <= i < |alphabet| ==> lookup[alphabet[i]] == i
  }

  predicate AllIgnored(lookup: seq<int>, s: seq<byte>)
    requires |lookup| == 256
  {
    forall i :: 0 <= i < |s| ==> Ignored(lookup, s[i])
  }

  lemma {:induction false} IgnoredBits(lookup: seq<int>, k: int, s: seq<byte>)
    requires IsLookup(lookup, k) && AllIgnored(lookup, s)
    ensures CharBits(lookup, k, s) == []
  {
    if |s| != 0 {
      IgnoredBits(lookup, k, s[..|s| - 1]);
    }
  }

  lemma {:induction false} TextBits(lookup: seq<int>, alphabet: seq<byte>, k: int, groups: seq<seq<bit>>)
    requires Inverts(lookup, alphabet, k) && Grouped(groups, k)
    ensures CharBits(lookup, k, Text(alphabet, groups)) == Flatten(groups)
  {
    if |groups| != 0 {
      var n := |groups| - 1;
      var c := alphabet[Number(groups[n])];
      TextBits(lookup, alphabet, k, groups[..n]);
      CharBitsPush(lookup, k, Text(alphabet, groups[..n]), c);
      BitsOfNumber(groups[n]);
    }
  }

  /** Separators leave no trace. */
  lemma {:induction false} GroupedBits(lookup: seq<int>, k: int, data: seq<byte>, size: nat, separator: seq<byte>)
    requires IsLookup(lookup, k) && AllIgnored(lookup, separator)
    ensures CharBits(lookup, k, GroupedText(data, size, separator)) == CharBits(lookup, k, data)
    decreases |data|
  {
    if size != 0 && |data| > size {
      var first, others := data[..size], data[size..];
      var later := GroupedText(others, size, separator);
      GroupedBits(lookup, k, others, size, separator);
      assert data == first + others;
      SeparatorSkipped(lookup, k, first, separator, later, others, first + separator + later, data);
    }
  }

  lemma {:induction false} SeparatorSkipped(lookup: seq<int>, k: int, a: seq<byte>, separator: seq<byte>, b: seq<byte>,
                                            c: seq<byte>, separated: seq<byte>, joined: seq<byte>)
    requires IsLookup(lookup, k) && AllIgnored(lookup, separator) && CharBits(lookup, k, b) == CharBits(lookup, k, c)
    requires separated == a + separator + b && joined == a + c
    ensures CharBits(lookup, k, separated) == CharBits(lookup, k, joined)
  {
    CharBitsConcat(lookup, k, a + separator, b);
    CharBitsConcat(lookup, k, a, separator);
    IgnoredBits(lookup, k, separator);
    AndNothing(CharBits(lookup, k, a));
    CharBitsConcat(lookup, k, a, c);
  }

  /** The bits of the groups are the bits of the data and at most k - 1 zeros. */
  lemma {:induction false} GroupsBits(bits: seq<bit>, k: nat) returns (zeros: seq<bit>)
    requires k > 0
    ensures Flatten(Groups(bits, k)) == bits + zeros && |zeros| < k
    decreases |bits|
  {
    if |bits| == 0 {
      zeros := [];
      assert bits + zeros == [];
    } else if |bits| < k {
      zeros := NoBits(k - |bits|);
      FlattenOne(bits + zeros);
    } else {
      zeros := GroupsBits(bits[k..], k);
      FlattenConcat([bits[..k]], Groups(bits[k..], k));
      FlattenOne(bits[..k]);
      assert bits[..k] + (bits[k..] + zeros) == bits + zeros;
    }
  }

  /** The bytes of the bits of bytes, whatever less than a byte follows. */
  lemma {:induction false} BytesBack(data: seq<byte>, zeros: seq<bit>)
    requires |zeros| < 8
    ensures BytesOf(Whole(ByteBits(data) + zeros, 8)) == data
  {
    var groups := ByteGroups(data);
    WholeUnique(groups, zeros, 8);
  }

  lemma {:induction false} ByteGroups(data: seq<byte>) returns (groups: seq<seq<bit>>)
    ensures Grouped(groups, 8) && Flatten(groups) == ByteBits(data) && BytesOf(groups) == data
  {
    if |data| == 0 {
      groups := [];
    } else {
      var n := |data| - 1;
      var init := ByteGroups(data[..n]);
      groups := init + [BitString(data[n], 8)];
      assert groups[..n] == init;
      StartOfByte(data[n]);
      assert BitString(data[n], 8) + NoBits(0) == BitString(data[n], 8);
    }
  }

  predicate PaddingIgnored(lookup: seq<int>, padding: Padding)
    requires |lookup| == 256
  {
    padding.PadWith? ==> Ignored(lookup, padding.b)
  }

  lemma {:induction false} EncodedBits(alphabet: seq<byte>, lookup: seq<int>, k: int, padding: Padding,
                                       data: seq<byte>)
    requires IsWidth(k) && Inverts(lookup, alphabet, k) && PaddingIgnored(lookup, padding)
    ensures CharBits(lookup, k, Encoded(alphabet, k, padding, data)) == Flatten(Groups(ByteBits(data), k))
  {
    var groups := Groups(ByteBits(data), k);
    TextBits(lookup, alphabet, k, groups);
    if padding.PadWith? {
      var text := Text(alphabet, groups);
      var pad := Repeat(padding.b, Missing(|text|, BlockChars(k)));
      CharBitsConcat(lookup, k, text, pad);
      IgnoredBits(lookup, k, pad);
      assert CharBits(lookup, k, text) + [] == CharBits(lookup, k, text);
    }
  }

  /** For every width, data, padding, group size, separator and terminator outside the alphabet:
      decoding the grouped text gives the data back. */
  lemma {:induction false} TextRoundTrip(alphabet: seq<byte>, lookup: seq<int>, k: int, padding: Padding,
                                         data: seq<byte>, size: nat, separator: seq<byte>, terminator: seq<byte>)
    requires IsWidth(k) && Inverts(lookup, alphabet, k) && PaddingIgnored(lookup, padding)
    requires AllIgnored(lookup, separator) && AllIgnored(lookup, terminator)
    ensures Decoded(lookup, k, GroupedText(Encoded(alphabet, k, padding, data), size, separator) + terminator) == data
  {
    var text := Encoded(alphabet, k, padding, data);
    CharBitsConcat(lookup, k, GroupedText(text, size, separator), terminator);
    IgnoredBits(lookup, k, terminator);
    GroupedBits(lookup, k, text, size, separator);
    EncodedBits(alphabet, lookup, k, padding, data);
    assert CharBits(lookup, k, text) + [] == CharBits(lookup, k, text);
    var zeros := GroupsBits(ByteBits(data), k);
    BytesBack(data, zeros);
  }

  /** The table built for an alphabet inverts it and ignores every other character. */
  lemma {:induction false} LookupInverts(alphabet: seq<byte>, caseInsensitive: bool, lookup: seq<int>, k: int)
    requires IsWidth(k) && |alphabet| == Pow2(k) && |lookup| == 256 && Distinct(alphabet, caseInsensitive)
    requires forall c: byte :: Entry(alphabet, |alphabet|, caseInsensitive, c, lookup[c])
    ensures Inverts(lookup, alphabet, k)
    ensures forall c: byte :: Ignored(lookup, c) <==>
              forall i :: 0 <= i < |alphabet| ==> !Matches(alphabet[i], c, caseInsensitive)
  {
    Pow2Monotone(k, 8);
    EightBits(0);
    assert Pow2(0) == 1;
    LettersFound(alphabet, caseInsensitive, lookup);
    forall c: byte
      ensures Ignored(lookup, c) || lookup[c] < Pow2(k)
      ensures Ignored(lookup, c) <==> forall i :: 0 <= i < |alphabet| ==> !Matches(alphabet[i], c, caseInsensitive)
    {
      assert Entry(alphabet, |alphabet|, caseInsensitive, c, lookup[c]);
    }
  }

  // ----- streams

  method PipeAll(e: BaseN_Encoder, g: Grouper, pieces: seq<seq<byte>>) returns (text: seq<byte>)
    requires e.Valid() && g.Valid() && e.message == [] && e.emitted == [] && g.data == [] && g.emitted == []
    modifies e, g
    ensures e.Valid() && g.Valid() && e.message == Concat(pieces) && g.data == e.emitted && g.emitted == text
    decreases |pieces|
  {
    if |pieces| == 0 { return []; }
    var n := |pieces| - 1;
    text := PipeAll(e, g, pieces[..n]);
    var chars := e.Put2(pieces[n], false);
    var grouped := g.Put2(chars, false);
    text := text + grouped;
  }

  method DecodeAll(d: BaseN_Decoder, pieces: seq<seq<byte>>) returns (data: seq<byte>)
    requires d.Valid() && d.message == [] && d.emitted == []
    modifies d
    ensures d.Valid() && d.message == Concat(pieces) && d.emitted == data
    decreases |pieces|
  {
    if |pieces| == 0 { return []; }
    var n := |pieces| - 1;
    data := DecodeAll(d, pieces[..n]);
    var bytes := d.Put2(pieces[n], false);
    data := data + bytes;
  }

  /** Data cut up in any way, through encoder and grouper; the text, cut up in any other way,
      through the decoder. */
  method StreamRoundTrip(alphabet: seq<byte>, lookup: seq<int>, k: int, padding: Padding, size: nat,
                         separator: seq<byte>, terminator: seq<byte>,
                         pieces: seq<seq<byte>>, cut: seq<byte> -> seq<seq<byte>>)
    returns (data: seq<byte>)
    requires IsWidth(k) && Inverts(lookup, alphabet, k) && PaddingIgnored(lookup, padding)
    requires AllIgnored(lookup, separator) && AllIgnored(lookup, terminator)
    requires forall t :: Concat(cut(t)) == t
    ensures data == Concat(pieces)
  {
    var e := new BaseN_Encoder(alphabet, k, padding);
    var g := new Grouper(size, separator, terminator);
    var text := PipeAll(e, g, pieces);
    var chars := e.Put2([], true);
    var rest := g.Put2(chars, true);
    text := text + rest;
    assert Concat(pieces) + [] == Concat(pieces);
    TextRoundTrip(alphabet, lookup, k, padding, Concat(pieces), size, separator, terminator);
    var d := new BaseN_Decoder(lookup, k);
    data := DecodeAll(d, cut(text));
    var last := d.Put2([], true);
    data := data + last;
    assert Concat(cut(text)) + [] == text;
  }
}
