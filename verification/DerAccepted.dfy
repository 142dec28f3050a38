/** Exactly which octets the decoders of integers and object identifiers accept, and what they
    read from them: minimal or not, and whatever follows. Everything else is refused. */
module DerAccepted {
  import opened Bits
  import opened Bytes
  import opened DerLengths
  import opened DerValues
  import opened Wrappers

  // ----- tag, length, contents

  /** Octets that start with this tag and these contents, under a definite length. */
  lemma {:induction false} Front(asnTag: byte, length: seq<byte>, content: seq<byte>, rest: seq<byte>)
    requires Says(length, |content|)
    ensures var s := [asnTag] + length + content + rest;
            && s[0] == asnTag && DecodedLength(s[1..]) == Definite(|content|)
            && AfterLength(s[1..]) == content + rest
            && (content + rest)[..|content|] == content && (content + rest)[|content|..] == rest
  {
    BehindFirst(asnTag, length, content, rest);
    SaysInFront(length, |content|, content + rest);
  }

  // ----- integers

  /** Under a definite length the contents are the number, leading zeros and all; one that does not
      fit the type, or lies outside the bounds, is refused. */
  lemma {:induction false} DefiniteUnsigned(asnTag: byte, length: seq<byte>, content: seq<byte>, rest: seq<byte>,
                                            size: nat, minValue: nat, maxValue: nat, stale: nat)
    requires Says(length, |content|)
    ensures DecodedUnsigned([asnTag] + length + content + rest, size, asnTag, minValue, maxValue, stale) ==
            if InRange(Value(content), size, minValue, maxValue) then Ok((Value(content), rest)) else Err(BERDecodeErr)
  {
    Front(asnTag, length, content, rest);
  }

  /** Whatever has another tag, no length or fewer octets than its length says is refused. */
  lemma {:induction false} AcceptedUnsigned(s: seq<byte>, size: nat, asnTag: byte, minValue: nat, maxValue: nat,
                                            stale: nat)
    returns (length: seq<byte>, content: seq<byte>, rest: seq<byte>)
    requires DecodedUnsigned(s, size, asnTag, minValue, maxValue, stale).Ok? && !OpenLength(s, asnTag)
    ensures s == [asnTag] + length + content + rest && Says(length, |content|)
    ensures InRange(Value(content), size, minValue, maxValue)
  {
    length, content, rest := DefiniteFront(s);
  }

  // ----- object identifiers

  /** One sub-identifier: only its last octet is without the continuation bit, and its value has 32
      bits. Leading zero digits are allowed. */
  ghost predicate IsSubIdentifier(s: seq<byte>) {
    && |s| >= 1 && s[|s| - 1] < 0x80 && (forall i :: 0 <= i < |s| - 1 ==> s[i] >= 0x80)
    && Value7(s) < WORD32
  }

  ghost predicate SubIdentifiers(groups: seq<seq<byte>>) {
    forall g :: g in groups ==> IsSubIdentifier(g)
  }

  function Joined(groups: seq<seq<byte>>): seq<byte> {
    if |groups| == 0 then [] else groups[0] + Joined(groups[1..])
  }

  ghost function Numbers(groups: seq<seq<byte>>): (values: seq<word32>)
    requires SubIdentifiers(groups)
    ensures |values| == |groups|
  {
    if |groups| == 0 then []
    else
      assert groups[0] in groups;
      [Value7(groups[0])] + Numbers(groups[1..])
  }

  lemma {:induction false} ContinuedUpTo(s: seq<byte>, n: nat)
    requires n < |s| && s[n] < 0x80 && forall i :: 0 <= i < n ==> s[i] >= 0x80
    ensures Continued(s) == n
  {
    if n > 0 { ContinuedUpTo(s[1..], n - 1); }
  }

  lemma {:induction false} ReadsGroup(g: seq<byte>, rest: seq<byte>)
    requires IsSubIdentifier(g)
    ensures DecodedValue(g + rest) == Ok((Value7(g), |g|))
  {
    ContinuedUpTo(g + rest, |g| - 1);
    assert (g + rest)[..|g|] == g;
  }

  lemma {:induction false} GroupInFront(s: seq<byte>)
    requires DecodedValue(s).Ok?
    ensures var (v, n) := DecodedValue(s).value;
            IsSubIdentifier(s[..n]) && v == Value7(s[..n]) && s == s[..n] + s[n..]
  {
    var n := DecodedValue(s).value.1;
    forall i | 0 <= i < n - 1 ensures s[..n][i] >= 0x80 {
      ContinuedBefore(s, i);
    }
  }

  /** Groups that fill the contents are read one by one. */
  lemma {:induction false} ReadsGroups(groups: seq<seq<byte>>, rest: seq<byte>)
    requires SubIdentifiers(groups)
    ensures DecodedArcs(Joined(groups) + rest, |Joined(groups)|) == Ok(Numbers(groups))
  {
    if |groups| != 0 {
      var first, others := groups[0], groups[1..];
      assert first in groups;
      ReadsGroup(first, Joined(others) + rest);
      ReadsGroups(others, rest);
      ArcFirst(first, Value7(first), Joined(others) + rest, |Joined(others)|, Numbers(others));
      Regroup(first, Joined(others), rest);
    }
  }

  /** And only those are. */
  lemma {:induction false} AcceptedArcs(s: seq<byte>, n: nat) returns (groups: seq<seq<byte>>, rest: seq<byte>)
    requires DecodedArcs(s, n).Ok?
    ensures SubIdentifiers(groups) && |Joined(groups)| == n && s == Joined(groups) + rest
    decreases n
  {
    if n == 0 {
      groups, rest := [], s;
    } else {
      var k := DecodedValue(s).value.1;
      var others;
      GroupInFront(s);
      others, rest := AcceptedArcs(s[k..], n - k);
      groups := [s[..k]] + others;
      assert groups[1..] == others;
      Regroup(s[..k], Joined(others), rest);
    }
  }

  /** Under a definite length: the first byte stands for two arcs, and the groups for one each. */
  lemma {:induction false} DefiniteOid(length: seq<byte>, b: byte, groups: seq<seq<byte>>, rest: seq<byte>)
    requires SubIdentifiers(groups) && Says(length, 1 + |Joined(groups)|)
    ensures DecodedOid([OBJECT_IDENTIFIER] + length + ([b] + Joined(groups)) + rest) ==
            Ok(([(b as int) / 40, (b as int) % 40] + Numbers(groups), rest))
  {
    var packed := Joined(groups);
    Front(OBJECT_IDENTIFIER, length, [b] + packed, rest);
    ReadsGroups(groups, rest);
    Regroup([b], packed, rest);
    assert (packed + rest)[|packed|..] == rest;
    OidContents([OBJECT_IDENTIFIER] + length + ([b] + packed) + rest, b, packed + rest, |packed|, Numbers(groups));
  }

  /** Everything else is refused: other tags, indefinite lengths, empty contents, a sub-identifier
      that is cut off, reaches beyond the contents or has more than 32 bits. */
  lemma {:induction false} AcceptedOid(s: seq<byte>)
    returns (length: seq<byte>, b: byte, groups: seq<seq<byte>>, rest: seq<byte>)
    requires DecodedOid(s).Ok?
    ensures SubIdentifiers(groups) && Says(length, 1 + |Joined(groups)|)
    ensures s == [OBJECT_IDENTIFIER] + length + ([b] + Joined(groups)) + rest
  {
    var content, more;
    length, content, rest := DefiniteFront(s);
    var after := AfterLength(s[1..]);
    b := content[0];
    groups, more := AcceptedArcs(after[1..], |content| - 1);
    ContentsApart(after, content, Joined(groups), more, rest);
  }

  lemma {:induction false} ContentsApart(after: seq<byte>, content: seq<byte>, packed: seq<byte>, more: seq<byte>,
                                         rest: seq<byte>)
    requires 1 <= |content| <= |after| && content == after[..|content|] && rest == after[|content|..]
    requires after[1..] == packed + more && |packed| == |content| - 1
    ensures content == [content[0]] + packed
  {
    assert after == content + rest;
    assert after[1..] == content[1..] + rest;
    SameFront(content[1..], packed, rest, more);
    assert content == [content[0]] + content[1..];
  }

  // ----- examples

  /** Lengths in the short and in the long form (section 8.1.3 of ITU-T X.690). */
  lemma {:induction false} LengthExamples()
    ensures LengthOctets(38) == [38] && LengthOctets(201) == [0x81, 0xc9]
  {
    assert BytePrecision(201) == 1;
    assert BigEndian(201, 1) == BigEndian(0, 0) + [201];
  }

  /** The identifier 1.2.840.113549. */
  lemma {:induction false} OidExample()
    ensures OidContent([1, 2, 840, 113549]) == [0x2a, 0x86, 0x48, 0x86, 0xf7, 0x0d]
  {
    assert Leading(6) == Leading(0) + [0x86];
    assert Leading(887) == Leading(6) + [0xf7];
    TwoArcs(840, 113549);
  }

  lemma {:induction false} TwoArcs(a: word32, b: word32)
    ensures Arcs([a, b]) == SubIdentifier(a) + SubIdentifier(b) && [1, 2, a, b][2..] == [a, b]
  {
    assert [a, b][1..] == [b] && [b][1..] == [];
    assert Arcs([b]) == SubIdentifier(b) + Arcs([]);
  }

  /** An integer whose top bit needs a leading zero, and one whose top bit does not. */
  lemma {:induction false} UnsignedExamples(asnTag: byte)
    requires asnTag != BOOLEAN
    ensures UnsignedContent(128, asnTag) == [0, 0x80] && UnsignedContent(127, asnTag) == [0x7f]
  {
    assert BytePrecision(128) == 1 && BytePrecision(127) == 1;
    assert BigEndian(128, 1) == BigEndian(0, 0) + [128];
    assert BigEndian(127, 1) == BigEndian(0, 0) + [127];
  }
}
