/** `DERReencode` (asn.cpp): a BER object rewritten with definite, shortest lengths down to the
    first definite one. Objects have single-byte tags. */
module DerReencoding {
  import opened Bytes
  import opened DerLengths
  import opened Wrappers

  // ----- BER objects

  /** An object, with the length octets its sender chose. */
  datatype Ber =
    | Primitive(tag: byte, length: seq<byte>, content: seq<byte>)
    | Constructed(tag: byte, length: seq<byte>, parts: seq<Ber>)
    | Open(tag: byte, parts: seq<Ber>)

  predicate ConstructedTag(tag: byte) {
    (tag as int) / 0x20 % 2 == 1
  }

  function Encoding(o: Ber): (s: seq<byte>)
    ensures |s| >= 1
  {
    match o
    case Primitive(tag, length, content) => [tag] + length + content
    case Constructed(tag, length, parts) => [tag] + length + Series(parts)
    case Open(tag, parts) => [tag, 0x80] + Series(parts) + [0, 0]
  }

  function Series(parts: seq<Ber>): (s: seq<byte>) {
    if |parts| == 0 then [] else Encoding(parts[0]) + Series(parts[1..])
  }

  /** Sections 8.1.2 to 8.1.5 of ITU-T X.690. The tag 0 is reserved for end-of-contents. */
  ghost predicate WellFormed(o: Ber) {
    o.tag != 0 &&
    match o
    case Primitive(tag, length, content) => !ConstructedTag(tag) && Says(length, |content|)
    case Constructed(tag, length, parts) =>
      ConstructedTag(tag) && Says(length, |Series(parts)|) && forall p :: p in parts ==> WellFormed(p)
    case Open(tag, parts) => ConstructedTag(tag) && forall p :: p in parts ==> WellFormed(p)
  }

  /** What an object means, whatever the form of its lengths. */
  datatype Tree = Leaf(tag: byte, content: seq<byte>) | Node(tag: byte, children: seq<Tree>)

  function Meaning(o: Ber): Tree {
    match o
    case Primitive(tag, _, content) => Leaf(tag, content)
    case Constructed(tag, _, parts) => Node(tag, Meanings(parts))
    case Open(tag, parts) => Node(tag, Meanings(parts))
  }

  function Meanings(parts: seq<Ber>): (ts: seq<Tree>)
    ensures |ts| == |parts|
  {
    if |parts| == 0 then [] else [Meaning(parts[0])] + Meanings(parts[1..])
  }

  /** The object rewritten: shortest length, and the parts rewritten if the length was open. */
  function Rewritten(o: Ber): (r: Ber)
    ensures !r.Open? && r.tag == o.tag
  {
    match o
    case Primitive(tag, _, content) => Primitive(tag, Shortest(|content|), content)
    case Constructed(tag, _, parts) => Constructed(tag, Shortest(|Series(parts)|), parts)
    case Open(tag, parts) => Constructed(tag, Shortest(|Series(RewrittenAll(parts))|), RewrittenAll(parts))
  }

  function RewrittenAll(parts: seq<Ber>): (r: seq<Ber>)
    ensures |r| == |parts|
  {
    if |parts| == 0 then [] else [Rewritten(parts[0])] + RewrittenAll(parts[1..])
  }

  /** Sizes are 64-bit. */
  function Shortest(n: nat): seq<byte> {
    LengthOctets(Wrap(n))
  }

  // ----- the program

  /** What the program does to the front of a string of bytes: output and what is left. */
  function Reencoded(s: seq<byte>): (r: Option<(seq<byte>, seq<byte>)>)
    ensures r.Some? ==> |r.value.1| < |s|
    decreases |s|, 0
  {
    if |s| == 0 then None
    else
      match DecodedLength(s[1..])
      case Definite(n) =>
        var rest := AfterLength(s[1..]);
        if |rest| < n then None else Some(([s[0]] + Shortest(n) + rest[..n], rest[n..]))
      case Indefinite =>
        if !ConstructedTag(s[0]) then None
        else
          var parts := ReencodedParts(AfterLength(s[1..]));
          if parts.None? then None
          else Some(([s[0]] + Shortest(|parts.value.0|) + parts.value.0, parts.value.1))
      case _ => None
  }

  function ReencodedParts(s: seq<byte>): (r: Option<(seq<byte>, seq<byte>)>)
    ensures r.Some? ==> |r.value.1| < |s|
    decreases |s|, 1
  {
    if EndReached(s) then Some(([], s[2..]))
    else
      var first := Reencoded(s);
      if first.None? then None
      else
        var others := ReencodedParts(first.value.1);
        if others.None? then None else Some((first.value.0 + others.value.0, others.value.1))
  }

  /** The end-of-contents octets are next. */
  predicate EndReached(s: seq<byte>) {
    |s| >= 2 && s[0] == 0 && s[1] == 0
  }

  /** `BERGeneralDecoder::Init` */
  method Init(source: ByteQueue, asnTag: byte) returns (length: Option<Length>)
    modifies source
    ensures var s := old(source.bytes);
            length == if |s| > 0 && s[0] == asnTag && (DecodedLength(s[1..]).Definite? ||
                           (DecodedLength(s[1..]).Indefinite? && ConstructedTag(asnTag)))
                      then Some(DecodedLength(s[1..])) else None
    ensures length.Some? ==> source.bytes == AfterLength(old(source.bytes)[1..])
  {
    var ok, b := source.Get();
    if !ok || b != asnTag { return None; }
    var l := BERLengthDecode(source);
    if l.Truncated? || l.Overflow? { return None; }
    if l.Indefinite? && !ConstructedTag(asnTag) { return None; }
    length := Some(l);
  }

  lemma {:induction false} Joined(a: seq<byte>, b: seq<byte>, c: seq<byte>, d: seq<byte>)
    ensures a + b + c + d == a + (b + c + d)
  {
  }

  /** `DERGeneralEncoder::MessageEnd` */
  method PutObject(dest: ByteQueue, asnTag: byte, content: seq<byte>)
    modifies dest
    ensures dest.bytes == old(dest.bytes) + ([asnTag] + Shortest(|content|) + content)
  {
    ghost var before, octets := dest.bytes, Shortest(|content|);
    dest.Put(asnTag);
    var _ := DERLengthEncode(dest, Wrap(|content|));
    dest.PutString(content);
    Joined(before, [asnTag], octets, content);
  }

  /** Output so far in front of what is to come. */
  function After(done: seq<byte>, r: Option<(seq<byte>, seq<byte>)>): Option<(seq<byte>, seq<byte>)> {
    if r.None? then None else Some((done + r.value.0, r.value.1))
  }

  lemma {:induction false} OnePart(done: seq<byte>, s: seq<byte>)
    requires !EndReached(s)
    ensures Reencoded(s).None? ==> ReencodedParts(s).None?
    ensures Reencoded(s).Some? ==> var first := Reencoded(s).value;
              After(done, ReencodedParts(s)) == After(done + first.0, ReencodedParts(first.1))
  {
    if Reencoded(s).Some? && ReencodedParts(Reencoded(s).value.1).Some? {
      var first := Reencoded(s).value;
      assert done + (first.0 + ReencodedParts(first.1).value.0) == done + first.0 + ReencodedParts(first.1).value.0;
    }
  }

  /** The loop over an open object's parts, up to its end. */
  method ReencodeParts(source: ByteQueue, content: ByteQueue) returns (ok: bool)
    requires source != content && content.bytes == []
    modifies source, content
    ensures ok <==> ReencodedParts(old(source.bytes)).Some?
    ensures ok ==> EndReached(source.bytes)
                   && ReencodedParts(old(source.bytes)) == Some((content.bytes, source.bytes[2..]))
    decreases |source.bytes|, 1
  {
    ghost var s := source.bytes;
    assert ReencodedParts(s).Some? ==> [] + ReencodedParts(s).value.0 == ReencodedParts(s).value.0;
    while !EndReached(source.bytes)
      invariant source.bytes == s || |source.bytes| < |s|
      invariant ReencodedParts(s) == After(content.bytes, ReencodedParts(source.bytes))
      decreases |source.bytes|
    {
      OnePart(content.bytes, source.bytes);
      ok := DERReencode(source, content);
      if !ok { return false; }
    }
    assert content.bytes + [] == content.bytes;
    ok := true;
  }

  method DERReencode(source: ByteQueue, dest: ByteQueue) returns (ok: bool)
    requires source != dest
    modifies source, dest
    ensures ok <==> Reencoded(old(source.bytes)).Some?
    ensures ok ==> var r := Reencoded(old(source.bytes)).value;
                   dest.bytes == old(dest.bytes) + r.0 && source.bytes == r.1
    decreases |source.bytes|, 0
  {
    if |source.bytes| == 0 { return false; }
    var tag := source.bytes[0];
    var length := Init(source, tag);
    if length.None? { return false; }
    if length.value.Definite? {
      var n := length.value.length;
      if |source.bytes| < n { return false; }
      PutObject(dest, tag, source.bytes[..n]);
      source.bytes := source.bytes[n..];
    } else {
      var content := new ByteQueue();
      ok := ReencodeParts(source, content);
      if !ok { return false; }
      PutObject(dest, tag, content.bytes);
      source.bytes := source.bytes[2..];
    }
    ok := true;
  }

  // ----- main results

  /** The program consumes exactly one object and puts out its rewriting. */
  lemma {:induction false} RewritesObject(o: Ber, rest: seq<byte>)
    requires WellFormed(o)
    ensures Reencoded(Encoding(o) + rest) == Some((Encoding(Rewritten(o)), rest))
    decreases o, 1
  {
    match o
    case Primitive(tag, length, content) => CopiesDefinite(tag, length, content, rest);
    case Constructed(tag, length, parts) => CopiesDefinite(tag, length, Series(parts), rest);
    case Open(tag, parts) =>
      RewritesParts(parts, rest);
      ClosesOpen(tag, Series(parts), Series(RewrittenAll(parts)), rest);
  }

  lemma {:induction false} TwoInFront(x: byte, y: byte, s: seq<byte>)
    ensures ([x, y] + s)[0] == x && ([x, y] + s)[1..] == [y] + s && ([y] + s)[1..] == s
  {
  }

  lemma {:induction false} ClosesOpen(tag: byte, body: seq<byte>, output: seq<byte>, rest: seq<byte>)
    requires ConstructedTag(tag) && ReencodedParts(body + [0, 0] + rest) == Some((output, rest))
    ensures Reencoded([tag, 0x80] + body + [0, 0] + rest) == Some(([tag] + Shortest(|output|) + output, rest))
  {
    var after := body + [0, 0] + rest;
    assert [tag, 0x80] + body + [0, 0] + rest == [tag, 0x80] + after;
    TwoInFront(tag, 0x80, after);
  }

  lemma {:induction false} CopiesDefinite(tag: byte, length: seq<byte>, content: seq<byte>, rest: seq<byte>)
    requires Says(length, |content|)
    ensures Reencoded([tag] + length + content + rest) == Some(([tag] + Shortest(|content|) + content, rest))
  {
    var s := [tag] + length + content + rest;
    SaysInFront(length, |content|, content + rest);
    assert s[1..] == length + (content + rest);
    assert (content + rest)[..|content|] == content;
  }

  lemma {:induction false} RewritesParts(parts: seq<Ber>, rest: seq<byte>)
    requires forall p :: p in parts ==> WellFormed(p)
    ensures ReencodedParts(Series(parts) + [0, 0] + rest) == Some((Series(RewrittenAll(parts)), rest))
    decreases parts, 0
  {
    var s := Series(parts) + [0, 0] + rest;
    if |parts| == 0 {
      assert s[2..] == rest;
    } else {
      var others := Series(parts[1..]) + [0, 0] + rest;
      assert s == Encoding(parts[0]) + others;
      RewritesObject(parts[0], others);
      RewritesParts(parts[1..], rest);
    }
  }

  /** Tags and contents are kept at every level. */
  lemma {:induction false} MeaningKept(o: Ber)
    ensures Meaning(Rewritten(o)) == Meaning(o)
    decreases o, 1
  {
    if o.Open? { MeaningsKept(o.parts); }
  }

  lemma {:induction false} MeaningsKept(parts: seq<Ber>)
    ensures Meanings(RewrittenAll(parts)) == Meanings(parts)
    decreases parts, 0
  {
    if |parts| != 0 {
      MeaningKept(parts[0]);
      MeaningsKept(parts[1..]);
      assert RewrittenAll(parts)[1..] == RewrittenAll(parts[1..]);
    }
  }

  // ----- which octets are accepted

  /** Of an object with a definite length only the length counts, whatever the tag and the
      contents; an open one has a constructed tag, and parts none of which looks like
      end-of-contents octets. */
  ghost predicate Framed(o: Ber) {
    match o
    case Primitive(_, length, content) => Says(length, |content|)
    case Constructed(_, _, _) => false
    case Open(tag, parts) => ConstructedTag(tag) && forall p :: p in parts ==> Framed(p) && !EndReached(Encoding(p))
  }

  /** Appending octets changes nothing about the front. */
  lemma {:induction false} EndInFront(s: seq<byte>, rest: seq<byte>)
    requires |s| >= 2
    ensures EndReached(s + rest) <==> EndReached(s)
  {
  }

  lemma {:induction false} FramedLength(o: Ber)
    requires Framed(o)
    ensures |Encoding(o)| >= 2
  {
  }

  /** Every such object is consumed exactly and rewritten, whatever follows. */
  lemma {:induction false} RewritesFramed(o: Ber, rest: seq<byte>)
    requires Framed(o)
    ensures Reencoded(Encoding(o) + rest) == Some((Encoding(Rewritten(o)), rest))
    decreases o, 1
  {
    if o.Open? {
      RewritesFramedParts(o.parts, rest);
      ClosesOpen(o.tag, Series(o.parts), Series(RewrittenAll(o.parts)), rest);
    } else {
      CopiesDefinite(o.tag, o.length, o.content, rest);
    }
  }

  lemma {:induction false} RewritesFramedParts(parts: seq<Ber>, rest: seq<byte>)
    requires forall p :: p in parts ==> Framed(p) && !EndReached(Encoding(p))
    ensures ReencodedParts(Series(parts) + [0, 0] + rest) == Some((Series(RewrittenAll(parts)), rest))
    decreases parts, 0
  {
    var s := Series(parts) + [0, 0] + rest;
    if |parts| == 0 {
      assert s[2..] == rest;
    } else {
      var others := Series(parts[1..]) + [0, 0] + rest;
      assert parts[0] in parts;
      assert s == Encoding(parts[0]) + others;
      FramedLength(parts[0]);
      EndInFront(Encoding(parts[0]), others);
      RewritesFramed(parts[0], others);
      RewritesFramedParts(parts[1..], rest);
    }
  }

  lemma {:induction false} OpenFront(s: seq<byte>, body: seq<byte>, rest: seq<byte>)
    requires |s| > 0 && DecodedLength(s[1..]).Indefinite? && AfterLength(s[1..]) == body + [0, 0] + rest
    ensures s == [s[0], 0x80] + body + [0, 0] + rest
  {
    assert s == [s[0]] + ([s[1]] + s[1..][1..]);
  }

  /** And nothing else is accepted. */
  lemma {:induction false} AcceptedIsFramed(s: seq<byte>) returns (o: Ber, rest: seq<byte>)
    requires Reencoded(s).Some?
    ensures Framed(o) && s == Encoding(o) + rest
    decreases |s|, 0
  {
    if DecodedLength(s[1..]).Definite? {
      var length, content;
      length, content, rest := DefiniteFront(s);
      o := Primitive(s[0], length, content);
    } else {
      var parts;
      parts, rest := AcceptedParts(AfterLength(s[1..]));
      o := Open(s[0], parts);
      OpenFront(s, Series(parts), rest);
    }
  }

  lemma {:induction false} SeriesFrom(first: Ber, others: seq<Ber>, behind: seq<byte>, rest: seq<byte>)
    requires behind == Series(others) + [0, 0] + rest
    ensures Encoding(first) + behind == Series([first] + others) + [0, 0] + rest
  {
    assert ([first] + others)[1..] == others;
  }

  lemma {:induction false} AcceptedParts(s: seq<byte>) returns (parts: seq<Ber>, rest: seq<byte>)
    requires ReencodedParts(s).Some?
    ensures forall p :: p in parts ==> Framed(p) && !EndReached(Encoding(p))
    ensures s == Series(parts) + [0, 0] + rest
    decreases |s|, 1
  {
    if EndReached(s) {
      parts, rest := [], s[2..];
    } else {
      var first, behind := AcceptedIsFramed(s);
      RewritesFramed(first, behind);
      FramedLength(first);
      EndInFront(Encoding(first), behind);
      var others;
      others, rest := AcceptedParts(behind);
      parts := [first] + others;
      SeriesFrom(first, others, behind, rest);
    }
  }

  lemma {:induction false} CutFront(s: seq<byte>, k: nat, front: seq<byte>, rest: seq<byte>)
    requires k < |s| && s[..k] == front + rest
    ensures s == front + (rest + s[k..]) && rest + s[k..] != []
  {
    assert s == s[..k] + s[k..];
    assert |rest + s[k..]| > 0;
  }

  /** So what is accepted to its end is refused when it is cut off. */
  lemma {:induction false} CutOffIsRefused(s: seq<byte>, k: nat)
    requires Reencoded(s).Some? && Reencoded(s).value.1 == [] && k < |s|
    ensures Reencoded(s[..k]).None?
  {
    if Reencoded(s[..k]).Some? {
      var o, rest := AcceptedIsFramed(s[..k]);
      CutFront(s, k, Encoding(o), rest);
      RewritesFramed(o, rest + s[k..]);
    }
  }

  /** Well-formed objects above all. */
  lemma {:induction false} CutOffObject(o: Ber, k: nat)
    requires WellFormed(o) && k < |Encoding(o)|
    ensures Reencoded(Encoding(o)[..k]).None?
  {
    RewritesObject(o, []);
    assert Encoding(o) + [] == Encoding(o);
    CutOffIsRefused(Encoding(o), k);
  }

  /** Section 8.1.2.5 of ITU-T X.690: the constructed tags, of all four classes, are those that may
      go with an indefinite length. */
  lemma {:induction false} OpenTags(tag: byte, rest: seq<byte>)
    ensures Reencoded([tag, 0x80, 0, 0] + rest).Some? <==>
            0x20 <= tag < 0x40 || 0x60 <= tag < 0x80 || 0xa0 <= tag < 0xc0 || 0xe0 <= tag < 0x100
  {
    var s := [tag, 0x80, 0, 0] + rest;
    assert s[1..] == [0x80] + ([0, 0] + rest);
    assert AfterLength(s[1..]) == [0, 0] + rest;
  }

  // ----- octets are read in one way only

  /** Length octets in front of anything are told apart from what follows. */
  lemma {:induction false} LengthReadOnce(length: seq<byte>, length': seq<byte>, n: nat, m: nat, a: seq<byte>,
                                          b: seq<byte>)
    requires Says(length, n) && Says(length', m) && length + a == length' + b
    ensures length == length' && n == m && a == b
  {
    SaysInFront(length, n, a);
    SaysInFront(length', m, b);
    assert (length + a)[..|length|] == length && (length' + b)[..|length'|] == length';
  }

  lemma {:induction false} BehindTag(tag: byte, tag': byte, a: seq<byte>, b: seq<byte>)
    requires [tag] + a == [tag'] + b
    ensures tag == tag' && a == b
  {
    assert ([tag] + a)[0] == tag && ([tag] + a)[1..] == a;
    assert ([tag'] + b)[0] == tag' && ([tag'] + b)[1..] == b;
  }

  /** Contents of a stated length. */
  lemma {:induction false} DefiniteReadOnce(tag: byte, tag': byte, length: seq<byte>, length': seq<byte>,
                                            a: seq<byte>, b: seq<byte>, r: seq<byte>, s: seq<byte>)
    requires Says(length, |a|) && Says(length', |b|)
    requires [tag] + length + a + r == [tag'] + length' + b + s
    ensures tag == tag' && length == length' && a == b && r == s
  {
    assert [tag] + length + a + r == [tag] + (length + (a + r));
    assert [tag'] + length' + b + s == [tag'] + (length' + (b + s));
    BehindTag(tag, tag', length + (a + r), length' + (b + s));
    LengthReadOnce(length, length', |a|, |b|, a + r, b + s);
    SameFront(a, b, r, s);
  }

  /** A stated length is never mistaken for an open one. */
  lemma {:induction false} FormsDiffer(tag: byte, tag': byte, length: seq<byte>, n: nat, a: seq<byte>, b: seq<byte>)
    requires Says(length, n)
    ensures [tag] + length + a != [tag', 0x80] + b
  {
    SaysInFront(length, n, a);
    assert [tag] + length + a == [tag] + (length + a);
    assert [tag', 0x80] + b == [tag'] + ([0x80] + b);
    assert DecodedLength([0x80] + b).Indefinite?;
    if [tag] + length + a == [tag', 0x80] + b {
      BehindTag(tag, tag', length + a, [0x80] + b);
    }
  }

  /** A string of octets starts with at most one object. */
  lemma {:induction false} ReadOnce(o: Ber, p: Ber, r: seq<byte>, s: seq<byte>)
    requires WellFormed(o) && WellFormed(p) && Encoding(o) + r == Encoding(p) + s
    ensures o == p && r == s
    decreases o, 1
  {
    if o.Open? && p.Open? {
      OpenBodies(o, p, r, s);
      OpenSeriesReadOnce(o.parts, p.parts, r, s);
    } else if p.Open? {
      NotBoth(o, p, r, s);
    } else if o.Open? {
      NotBoth(p, o, s, r);
    } else {
      var a := if o.Primitive? then o.content else Series(o.parts);
      var b := if p.Primitive? then p.content else Series(p.parts);
      DefiniteReadOnce(o.tag, p.tag, o.length, p.length, a, b, r, s);
      if o.Constructed? { SeriesReadOnce(o.parts, p.parts); }
    }
  }

  lemma {:induction false} OpenBodies(o: Ber, p: Ber, r: seq<byte>, s: seq<byte>)
    requires o.Open? && p.Open? && Encoding(o) + r == Encoding(p) + s
    ensures o.tag == p.tag && Series(o.parts) + [0, 0] + r == Series(p.parts) + [0, 0] + s
  {
    var a, b := Series(o.parts) + [0, 0] + r, Series(p.parts) + [0, 0] + s;
    assert Encoding(o) + r == [o.tag, 0x80] + a;
    assert Encoding(p) + s == [p.tag, 0x80] + b;
    TwoInFront(o.tag, 0x80, a);
    TwoInFront(p.tag, 0x80, b);
  }

  lemma {:induction false} NotBoth(o: Ber, p: Ber, r: seq<byte>, s: seq<byte>)
    requires WellFormed(o) && WellFormed(p) && !o.Open? && p.Open?
    ensures Encoding(o) + r != Encoding(p) + s
  {
    var a := if o.Primitive? then o.content else Series(o.parts);
    FormsDiffer(o.tag, p.tag, o.length, |a|, a + r, Series(p.parts) + [0, 0] + s);
    assert Encoding(o) + r == [o.tag] + o.length + (a + r);
    assert Encoding(p) + s == [p.tag, 0x80] + (Series(p.parts) + [0, 0] + s);
  }

  /** Parts that fill their octets exactly. */
  lemma {:induction false} SeriesReadOnce(ps: seq<Ber>, qs: seq<Ber>)
    requires (forall p :: p in ps ==> WellFormed(p)) && (forall q :: q in qs ==> WellFormed(q))
    requires Series(ps) == Series(qs)
    ensures ps == qs
    decreases ps, 0
  {
    if |ps| != 0 && |qs| != 0 {
      ReadOnce(ps[0], qs[0], Series(ps[1..]), Series(qs[1..]));
      SeriesReadOnce(ps[1..], qs[1..]);
      assert ps == [ps[0]] + ps[1..] && qs == [qs[0]] + qs[1..];
    }
  }

  /** Parts up to the end-of-contents octets: no object starts with their tag. */
  lemma {:induction false} OpenSeriesReadOnce(ps: seq<Ber>, qs: seq<Ber>, r: seq<byte>, s: seq<byte>)
    requires (forall p :: p in ps ==> WellFormed(p)) && (forall q :: q in qs ==> WellFormed(q))
    requires Series(ps) + [0, 0] + r == Series(qs) + [0, 0] + s
    ensures ps == qs && r == s
    decreases ps, 0
  {
    SeriesStart(ps, r);
    SeriesStart(qs, s);
    if |ps| != 0 && |qs| != 0 {
      assert Series(ps) + [0, 0] + r == Encoding(ps[0]) + (Series(ps[1..]) + [0, 0] + r);
      assert Series(qs) + [0, 0] + s == Encoding(qs[0]) + (Series(qs[1..]) + [0, 0] + s);
      ReadOnce(ps[0], qs[0], Series(ps[1..]) + [0, 0] + r, Series(qs[1..]) + [0, 0] + s);
      OpenSeriesReadOnce(ps[1..], qs[1..], r, s);
      assert ps == [ps[0]] + ps[1..] && qs == [qs[0]] + qs[1..];
    } else if |ps| == |qs| {
      assert [] + [0, 0] + r == [0, 0] + r && [] + [0, 0] + s == [0, 0] + s;
      SameFront([0, 0], [0, 0], r, s);
    }
  }

  lemma {:induction false} SeriesStart(parts: seq<Ber>, r: seq<byte>)
    requires forall p :: p in parts ==> WellFormed(p)
    ensures (Series(parts) + [0, 0] + r)[0] == 0 <==> |parts| == 0
  {
    if |parts| != 0 {
      assert parts[0] in parts;
      assert Series(parts)[0] == Encoding(parts[0])[0] == parts[0].tag;
    }
  }

  /** The octets are one object with this meaning. */
  ghost predicate Denotes(s: seq<byte>, t: Tree) {
    exists o :: WellFormed(o) && Encoding(o) == s && Meaning(o) == t
  }

  lemma {:induction false} OneMeaning(o: Ber, t: Tree)
    requires WellFormed(o)
    ensures Denotes(Encoding(o), t) <==> t == Meaning(o)
  {
    if Denotes(Encoding(o), t) {
      var p :| WellFormed(p) && Encoding(p) == Encoding(o) && Meaning(p) == t;
      assert Encoding(p) + [] == Encoding(o) + [];
      ReadOnce(p, o, [], []);
    }
  }

  /** The octets put out mean what the octets taken in mean, and nothing else. */
  lemma {:induction false} OutputMeans(input: seq<byte>, rest: seq<byte>, t: Tree, u: Tree)
    requires Denotes(input, t)
    ensures var r := Reencoded(input + rest);
            && r.Some? && r.value.1 == rest
            && (|r.value.0| < WORD64 ==> (Denotes(r.value.0, u) <==> u == t))
  {
    var o :| WellFormed(o) && Encoding(o) == input && Meaning(o) == t;
    RewritesObject(o, rest);
    MeaningKept(o);
    if |Encoding(Rewritten(o))| < WORD64 {
      RewrittenWellFormed(o);
      OneMeaning(Rewritten(o), u);
    }
  }

  /** The output is a well-formed object with the shortest length octets. */
  lemma {:induction false} RewrittenWellFormed(o: Ber)
    requires WellFormed(o) && |Encoding(Rewritten(o))| < WORD64
    ensures WellFormed(Rewritten(o))
    decreases o, 1
  {
    match o
    case Primitive(_, _, content) => ShortestSays(|content|);
    case Constructed(_, _, parts) => ShortestSays(|Series(parts)|);
    case Open(_, parts) =>
      ShortestSays(|Series(RewrittenAll(parts))|);
      RewrittenAllWellFormed(parts);
  }

  lemma {:induction false} RewrittenAllWellFormed(parts: seq<Ber>)
    requires (forall p :: p in parts ==> WellFormed(p)) && |Series(RewrittenAll(parts))| < WORD64
    ensures forall p :: p in RewrittenAll(parts) ==> WellFormed(p)
    decreases parts, 0
  {
    if |parts| != 0 {
      assert RewrittenAll(parts)[1..] == RewrittenAll(parts[1..]);
      RewrittenWellFormed(parts[0]);
      RewrittenAllWellFormed(parts[1..]);
    }
  }

  lemma {:induction false} ShortestSays(n: nat)
    requires n < WORD64
    ensures Says(Shortest(n), n)
  {
    var octets := Shortest(n);
    assert octets == LengthOctets(n);
    LengthRoundTrip(n, []);
    assert octets + [] == octets;
  }

  /** Rewriting the output changes nothing. */
  lemma {:induction false} Idempotent(o: Ber, rest: seq<byte>)
    requires WellFormed(o) && |Encoding(Rewritten(o))| < WORD64
    ensures Reencoded(Encoding(Rewritten(o)) + rest) == Some((Encoding(Rewritten(o)), rest))
  {
    RewrittenWellFormed(o);
    RewritesObject(Rewritten(o), rest);
  }

  /** Definite, shortest lengths at every level: what section 10.1 asks of DER. */
  ghost predicate AllShortest(o: Ber) {
    match o
    case Primitive(_, length, content) => length == Shortest(|content|)
    case Constructed(_, length, parts) =>
      length == Shortest(|Series(parts)|) && forall p :: p in parts ==> AllShortest(p)
    case Open(_, _) => false
  }

  /** Below a definite length nothing is rewritten. */
  ghost predicate ShortestBelow(o: Ber) {
    match o
    case Primitive(_, _, _) => true
    case Constructed(_, _, parts) => forall p :: p in parts ==> AllShortest(p)
    case Open(_, parts) => forall p :: p in parts ==> ShortestBelow(p)
  }

  /** So the output has shortest lengths all the way down exactly when the contents of every
      definite constructed object reached had them already. */
  lemma {:induction false} ShortestExactly(o: Ber)
    ensures AllShortest(Rewritten(o)) <==> ShortestBelow(o)
    decreases o, 1
  {
    if o.Open? { AllShortestExactly(o.parts); }
  }

  lemma {:induction false} AllShortestExactly(parts: seq<Ber>)
    ensures (forall p :: p in RewrittenAll(parts) ==> AllShortest(p)) <==> (forall p :: p in parts ==> ShortestBelow(p))
    decreases parts, 0
  {
    if |parts| != 0 {
      ShortestExactly(parts[0]);
      AllShortestExactly(parts[1..]);
      assert RewrittenAll(parts)[1..] == RewrittenAll(parts[1..]);
      assert parts == [parts[0]] + parts[1..];
      assert RewrittenAll(parts) == [Rewritten(parts[0])] + RewrittenAll(parts[1..]);
    }
  }

  /** An open object inside a definite one stays open. */
  lemma {:induction false} InnerStaysOpen()
    ensures var o := Constructed(0x30, [4], [Open(0x30, [])]);
            WellFormed(o) && Rewritten(o) == o && !AllShortest(o)
  {
    var inner := Open(0x30, []);
    assert Series([]) == [];
    assert [inner][1..] == [];
    assert Series([inner]) == Encoding(inner) == [0x30, 0x80, 0, 0];
    assert inner in [inner] && !AllShortest(inner);
  }
}
