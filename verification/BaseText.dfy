/** What the base-2^n text is, apart from the bits in the encoder's buffer: the data as one big
    number, its digits, and where the grouper puts them (section 4 of RFC 4648). */
module BaseText {
  import opened Bits
  import opened Bytes
  import opened BitStrings
  import opened BlockChain
  import opened BaseCode
  import opened BaseRoundTrip

  // ----- digits

  /** Digits in base 2^k, most significant first. */
  function BaseValue(digits: seq<nat>, k: nat): nat {
    if |digits| == 0 then 0
    else
      ShlNat(BaseValue(digits[..|digits| - 1], k), k);
      Shl(BaseValue(digits[..|digits| - 1], k), k) + digits[|digits| - 1]
  }

  function Digits(groups: seq<seq<bit>>): (d: seq<nat>)
    ensures |d| == |groups| && forall i :: 0 <= i < |d| ==> d[i] == Number(groups[i])
  {
    if |groups| == 0 then [] else Digits(groups[..|groups| - 1]) + [Number(groups[|groups| - 1])]
  }

  lemma {:induction false} OneDigitMore(digits: seq<nat>, d: nat, k: nat)
    ensures Shl(BaseValue(digits, k), k) >= 0
    ensures BaseValue(digits + [d], k) == Shl(BaseValue(digits, k), k) + d
  {
    assert (digits + [d])[..|digits|] == digits;
    ShlNat(BaseValue(digits, k), k);
  }

  lemma {:induction false} DigitsOfGroups(groups: seq<seq<bit>>, k: nat)
    requires Grouped(groups, k)
    ensures BaseValue(Digits(groups), k) == Number(Flatten(groups))
  {
    if |groups| != 0 {
      var init, last := groups[..|groups| - 1], groups[|groups| - 1];
      DigitsOfGroups(init, k);
      NumberConcat(Flatten(init), last);
      OneDigitMore(Digits(init), Number(last), k);
    }
  }

  lemma {:induction false} BitsOfBytes(data: seq<byte>)
    ensures Number(ByteBits(data)) == Value(data) && |ByteBits(data)| == 8 * |data|
  {
    if |data| != 0 {
      var n := |data| - 1;
      BitsOfBytes(data[..n]);
      NumberConcat(ByteBits(data[..n]), BitString(data[n], 8));
      ShiftByte(Number(ByteBits(data[..n])));
      EightBits(0);
      NumberOfBits(data[n], 8);
    }
  }

  /** Only the last group is filled up. */
  lemma {:induction false} FlattenedGroups(bits: seq<bit>, k: nat) returns (extra: nat)
    requires k > 0
    ensures extra < k && Flatten(Groups(bits, k)) == bits + NoBits(extra)
    decreases |bits|
  {
    if |bits| == 0 {
      extra := 0;
    } else if |bits| < k {
      extra := k - |bits|;
      FlattenOne(bits + NoBits(extra));
    } else {
      extra := FlattenedGroups(bits[k..], k);
      FlattenConcat([bits[..k]], Groups(bits[k..], k));
      FlattenOne(bits[..k]);
      Regrouped(bits[..k], bits[k..], NoBits(extra));
      assert bits[..k] + bits[k..] == bits;
    }
  }

  lemma {:induction false} TextAt(alphabet: seq<byte>, groups: seq<seq<bit>>, i: nat)
    requires (forall j :: 0 <= j < |groups| ==> Number(groups[j]) < |alphabet|) && i < |groups|
    ensures Text(alphabet, groups)[i] == alphabet[Number(groups[i])]
  {
    if i < |groups| - 1 { TextAt(alphabet, groups[..|groups| - 1], i); }
  }

  /** The text spells the digits of the data, read as one number and filled up with fewer zero bits
      than a character has. */
  lemma {:induction false} TextIsNumber(alphabet: seq<byte>, k: int, data: seq<byte>)
    returns (digits: seq<nat>, extra: nat)
    requires IsWidth(k) && |alphabet| == Pow2(k)
    ensures var text := Encoded(alphabet, k, NoPadding, data);
            && |text| == |digits|
            && forall i :: 0 <= i < |digits| ==> digits[i] < |alphabet| && text[i] == alphabet[digits[i]]
    ensures extra < k && k * |digits| == 8 * |data| + extra
    ensures BaseValue(digits, k) == Shl(Value(data), extra)
  {
    var groups := Groups(ByteBits(data), k);
    digits := Digits(groups);
    FitsAlphabet(groups, k, alphabet);
    forall i | 0 <= i < |digits|
      ensures Encoded(alphabet, k, NoPadding, data)[i] == alphabet[digits[i]]
    {
      TextAt(alphabet, groups, i);
    }
    extra := FlattenedGroups(ByteBits(data), k);
    DigitsOfGroups(groups, k);
    FlattenLength(groups, k);
    BitsOfBytes(data);
    ShlBits(ByteBits(data), extra);
  }

  /** Padding goes behind the text, up to whole blocks and less than one. */
  lemma {:induction false} PaddedText(alphabet: seq<byte>, k: int, b: byte, data: seq<byte>) returns (n: nat)
    requires IsWidth(k) && |alphabet| == Pow2(k)
    ensures n < BlockChars(k)
    ensures var text := Encoded(alphabet, k, NoPadding, data);
            && Encoded(alphabet, k, PadWith(b), data) == text + Repeat(b, n)
            && WholeBlocks(|text| + n, BlockChars(k))
  {
    var text := Encoded(alphabet, k, NoPadding, data);
    n := Missing(|text|, BlockChars(k));
    FewMissing(|text|, BlockChars(k));
  }

  lemma {:induction false} FewMissing(n: nat, block: nat)
    requires block > 0
    ensures Missing(n, block) < block
  {
    if n > block { FewMissing(n - block, block); }
  }

  // ----- groups

  /** Where group g starts. */
  function GroupStart(g: nat, size: nat, separator: seq<byte>): nat {
    if g == 0 then 0 else size + |separator| + GroupStart(g - 1, size, separator)
  }

  /** How much of the data comes before group g. */
  function Before(g: nat, size: nat): nat {
    if g == 0 then 0 else size + Before(g - 1, size)
  }

  /** Each group stands behind those before it and their separators. */
  lemma {:induction false} GroupAt(data: seq<byte>, size: nat, separator: seq<byte>, g: nat)
    requires size > 0 && Before(g, size) < |data|
    ensures var rest := data[Before(g, size)..];
            var group := if |rest| < size then rest else rest[..size];
            var t, at := GroupedText(data, size, separator), GroupStart(g, size, separator);
            && at + |group| <= |t| && t[at..at + |group|] == group
            && (if |rest| > size then separator <= t[at + size..] else |t| == at + |group|)
    decreases g
  {
    var t := GroupedText(data, size, separator);
    if g == 0 {
      FirstGroup(data, size, separator);
    } else {
      var later := GroupedText(data[size..], size, separator);
      GroupAt(data[size..], size, separator, g - 1);
      assert data[size..][Before(g - 1, size)..] == data[Before(g, size)..];
      Behind(t, data[..size] + separator, later);
    }
  }

  lemma {:induction false} FirstGroup(data: seq<byte>, size: nat, separator: seq<byte>)
    requires size > 0
    ensures var t := GroupedText(data, size, separator);
            if |data| <= size then t == data
            else |t| >= size && t[..size] == data[..size] && separator <= t[size..]
  {
    if |data| > size {
      var later := GroupedText(data[size..], size, separator);
      Regrouped(data[..size], separator, later);
      assert (data[..size] + (separator + later))[size..] == separator + later;
    }
  }

  /** What stands at some place of the end stands that much further on in the whole. */
  lemma {:induction false} Behind(t: seq<byte>, front: seq<byte>, later: seq<byte>)
    requires t == front + later
    ensures forall i, j :: 0 <= i <= j <= |later| ==> t[|front| + i..|front| + j] == later[i..j]
    ensures forall i :: 0 <= i <= |later| ==> t[|front| + i..] == later[i..]
  {
  }
}
