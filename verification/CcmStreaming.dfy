/** The CCM object: `AuthenticatedSymmetricCipherBase` (authenc.cpp) with the CCM parts filled
    in (ccm.cpp), and the all-at-once calls of cryptlib.cpp. The ghost fields record the run:
    which nonce, how much header and message since. */
module CcmStreaming {
  import opened Bytes
  import opened BlockChain
  import opened CounterMode
  import opened Ccm
  import opened Wrappers

  datatype State = Start | KeySet | IVSet | AuthUntransformed | AuthTransformed | AuthFooter

  /** memcpy(buffer + at, piece, |piece|) */
  function Put(buffer: seq<byte>, at: nat, piece: seq<byte>): (r: seq<byte>)
    requires at + |piece| <= |buffer|
    ensures |r| == |buffer|
  {
    buffer[..at] + piece + buffer[at + |piece|..]
  }

  lemma {:induction false} WrapAdd(a: nat, b: nat, sum: nat)
    requires sum == a + b
    ensures Wrap(Wrap(a) + b) == Wrap(sum)
  {
  }

  lemma {:induction false} PutNonce(cbc: seq<byte>, flag: byte, nonce: seq<byte>, length: seq<byte>, low: seq<byte>)
    requires |cbc| == SIZE && IsNonce(nonce) && |length| == 8 && length[|nonce| - 7..] == low
    ensures Put(Put(cbc[0 := flag], SIZE - 8, length), 1, nonce) == [flag] + nonce + low
  {
  }

  /** Flag, message length in the last eight bytes, and the nonce over its unused part. */
  lemma {:induction false} PutFirstBlock(cbc: seq<byte>, flag: byte, nonce: seq<byte>, length: nat)
    requires |cbc| == SIZE && IsNonce(nonce)
    ensures Put(Put(cbc[0 := flag], SIZE - 8, BigEndian(length, 8)), 1, nonce) ==
            [flag] + nonce + BigEndian(length, 15 - |nonce|)
  {
    BigEndianLow(length, 8, 15 - |nonce|);
    PutNonce(cbc, flag, nonce, BigEndian(length, 8), BigEndian(length, 15 - |nonce|));
  }

  /** The length prefix over the start of a buffer. */
  method PutHeaderLength(buffer: seq<byte>, length: nat) returns (r: seq<byte>, n: nat)
    requires |buffer| == SIZE && 0 < length < WORD64
    ensures |r| == SIZE && n == |EncodedLength(length)| && r[..n] == EncodedLength(length)
  {
    if length < 0x1_0000 - 0x100 {
      r := Put(buffer, 0, BigEndian(length, 2));
      n := 2;
    } else if length < 0x1_0000_0000 {
      r := buffer[0 := 0xff][1 := 0xfe];
      r := Put(r, 2, BigEndian(length, 4));
      n := 6;
    } else {
      r := buffer[0 := 0xff][1 := 0xff];
      r := Put(r, 2, BigEndian(length, 8));
      n := 10;
    }
  }

  lemma {:induction false} CounterBlockZero(nonce: seq<byte>)
    requires IsNonce(nonce)
    ensures CounterBlock(nonce, 0) == [14 - |nonce|] + nonce + Zeros(15 - |nonce|)
  {
    BigEndianZero(15 - |nonce|);
  }

  lemma {:induction false} CounterBlockNonce(nonce: seq<byte>)
    requires IsNonce(nonce)
    ensures CounterBlock(nonce, 0)[1..1 + |nonce|] == nonce
  {
  }

  /** The state while a message passes. */
  function Active(forward: bool): State {
    if forward then AuthUntransformed else AuthTransformed
  }

  /** What has gone into the chaining since it was last flushed, and the chaining value then. */
  datatype Section = Section(start: seq<byte>, data: seq<byte>)

  /** The two halves of `m_buffer`: what waits for a whole block, and the chaining value. */
  datatype Blocks = Blocks(data: seq<byte>, cbc: seq<byte>)

  /** The whole blocks of the section are in the chaining value, the rest waits in the buffer. */
  ghost predicate Buffered(c: Cipher, s: Section, cbc: seq<byte>, buffer: seq<byte>, num: nat) {
    && c.Valid() && c.blockSize == SIZE
    && |buffer| == |cbc| == |s.start| == SIZE
    && cbc == Chain(c, s.start, s.data)
    && num == |Tail(s.data)| && buffer[..num] == Tail(s.data)
  }

  /** What is fixed for a run: the size of the length field, the chaining value after the first
      block, what stands in front of the header, the key stream. */
  datatype Session = Session(L: nat, opening: seq<byte>, prefix: seq<byte>, stream: nat -> byte)

  /** A run that follows the protocol, as far as it has come; Idle when none is under way. */
  datatype Run =
    | Idle
    | Fresh(nonce: seq<byte>)
    | Header(session: Session, header: seq<byte>)
    | Message(session: Session, header: seq<byte>, message: seq<byte>)
  {
    predicate Underway() {
      Header? || Message?
    }

    /** The message so far. */
    function SoFar(): seq<byte> {
      if Message? then message else []
    }
  }

  /** The run after a piece of header; */
  function Extended(run: Run, piece: seq<byte>): Run {
    if run.Header? then Header(run.session, run.header + piece) else Idle
  }

  /** after the header was closed, if it was still open; */
  function Started(run: Run): Run {
    match run
    case Header(s, header) => Message(s, header, [])
    case Message(_, _, _) => run
    case _ => Idle
  }

  /** and after a piece of message. */
  function Passed(run: Run, piece: seq<byte>): Run {
    if run.Message? then Message(run.session, run.header, run.message + piece) else Idle
  }

  /** The fields that a run determines. */
  datatype Registers = Registers(state: State, L: nat, section: Section, stream: nat -> byte, position: nat,
                                 headerTotal: nat, messageTotal: nat, footerTotal: nat)

  /** A whole section chained from x and flushed. */
  ghost function Flushed(c: Cipher, x: seq<byte>, data: seq<byte>): (r: seq<byte>)
    requires c.Valid() && c.blockSize == SIZE == |x|
    ensures |r| == SIZE
  {
    Flush(c, Chain(c, x, data), Tail(data))
  }

  lemma {:induction false} FlushedNothing(c: Cipher, x: seq<byte>)
    requires c.Valid() && c.blockSize == SIZE == |x|
    ensures Flushed(c, x, []) == x
  {
  }

  /** The registers after a nonce, */
  ghost function AsFresh(c: Cipher, nonce: seq<byte>, start: seq<byte>): Registers
    requires c.Valid() && c.blockSize == SIZE && IsNonce(nonce)
  {
    Registers(IVSet, 15 - |nonce|, Section(start, []), KeyStream(c, CounterBlock(nonce, 0)), SIZE, 0, 0, 0)
  }

  /** after a piece of header, */
  ghost function InHeader(s: Session, header: seq<byte>): Registers {
    Registers(IVSet, s.L, Section(s.opening, s.prefix + header), s.stream, SIZE, Wrap(|header|), 0, 0)
  }

  /** and after a piece of message. */
  ghost function InMessage(s: Session, c: Cipher, forward: bool, header: seq<byte>, message: seq<byte>): Registers
    requires c.Valid() && c.blockSize == SIZE == |s.opening|
  {
    Registers(Active(forward), s.L, Section(Flushed(c, s.opening, s.prefix + header), message), s.stream,
              SIZE + |message|, Wrap(|header|), Wrap(|message|), 0)
  }

  /** The registers are those of the run. */
  ghost predicate OnTrack(run: Run, c: Cipher, forward: bool, r: Registers) {
    match run
    case Idle => true
    case Fresh(nonce) => c.Valid() && c.blockSize == SIZE && IsNonce(nonce) && r == AsFresh(c, nonce, r.section.start)
    case Header(s, header) => |s.opening| == SIZE && r == InHeader(s, header)
    case Message(s, header, message) =>
      c.Valid() && c.blockSize == SIZE == |s.opening| && r == InMessage(s, c, forward, header, message)
  }

  /** The tag of a run with this header and message. */
  ghost function RunTag(s: Session, c: Cipher, header: seq<byte>, message: seq<byte>): (t: seq<byte>)
    requires c.Valid() && c.blockSize == SIZE == |s.opening|
    ensures |t| == SIZE
  {
    Transform(s.stream, 0, Flushed(c, Flushed(c, s.opening, s.prefix + header), message))
  }

  /** Flushing what is waiting completes the chaining of the run. */
  lemma {:induction false} TagReached(run: Run, c: Cipher, forward: bool, r: Registers)
    requires OnTrack(run, c, forward, r) && run.Underway() && c.Valid() && c.blockSize == SIZE == |r.section.start|
    ensures Transform(r.stream, 0, Flushed(c, r.section.start, r.section.data)) ==
            RunTag(run.session, c, run.header, run.SoFar())
  {
    if run.Header? {
      FlushedNothing(c, Flushed(c, r.section.start, r.section.data));
    }
  }

  /** The session that nonce and lengths determine. */
  function SessionOf(c: Cipher, digestSize: nat, nonce: seq<byte>, headerLength: nat, messageLength: nat)
    : (s: Session)
    requires c.Valid() && c.blockSize == SIZE && 4 <= digestSize <= 16 && IsNonce(nonce)
    ensures |s.opening| == SIZE
  {
    Session(15 - |nonce|, c.encrypt(FirstBlock(digestSize, nonce, headerLength, messageLength)),
            EncodedLength(headerLength), KeyStream(c, CounterBlock(nonce, 0)))
  }

  /** The tag of such a run is the tag of the one-shot definition. */
  lemma {:induction false} RunTagIsTag(c: Cipher, digestSize: nat, nonce: seq<byte>, headerLength: nat,
                                       messageLength: nat, header: seq<byte>, message: seq<byte>)
    requires c.Valid() && c.blockSize == SIZE && 4 <= digestSize <= 16 && IsNonce(nonce)
    ensures RunTag(SessionOf(c, digestSize, nonce, headerLength, messageLength), c, header, message) ==
            Tag(c, digestSize, nonce, headerLength, messageLength, header, message)
  {
    ChainSections(c, FirstBlock(digestSize, nonce, headerLength, messageLength),
                  EncodedLength(headerLength) + header, message);
  }

  /** More of the header. */
  lemma {:induction false} HeaderGrows(run: Run, c: Cipher, forward: bool, r: Registers, piece: seq<byte>)
    requires OnTrack(run, c, forward, r) && r.state == IVSet
    ensures OnTrack(Extended(run, piece), c, forward,
                    r.(section := Section(r.section.start, r.section.data + piece),
                       headerTotal := Wrap(r.headerTotal + |piece|)))
  {
    if run.Header? {
      WrapAdd(|run.header|, |piece|, |run.header + piece|);
      Regrouped(run.session.prefix, run.header, piece);
    }
  }

  /** More of the message. */
  lemma {:induction false} MessageGrows(run: Run, c: Cipher, forward: bool, r: Registers, piece: seq<byte>)
    requires OnTrack(run, c, forward, r) && r.state != IVSet
    ensures OnTrack(Passed(run, piece), c, forward,
                    r.(section := Section(r.section.start, r.section.data + piece), position := r.position + |piece|,
                       messageTotal := Wrap(r.messageTotal + |piece|)))
  {
    if run.Message? {
      WrapAdd(|run.message|, |piece|, |run.message + piece|);
    }
  }

  class CCM_Base {
    const forward: bool
    var cipher: Cipher
    var digestSize: nat
    var L: nat
    var state: State
    var num: nat
    var blocks: Blocks
    var stream: nat -> byte
    var position: nat
    var headerTotal: nat
    var messageTotal: nat
    var footerTotal: nat
    var aadLength: nat
    var messageLength: nat
    ghost var section: Section
    ghost var run: Run

    constructor (isEncryption: bool)
      ensures state == Start && Valid() && forward == isEncryption
    {
      forward := isEncryption;
      cipher := Cipher(0, b => b);
      digestSize, L, state, num, position := 0, 0, Start, 0, 0;
      blocks := Blocks(Zeros(SIZE), Zeros(SIZE));
      stream := _ => 0;
      headerTotal, messageTotal, footerTotal, aadLength, messageLength := 0, 0, 0, 0, 0;
      run := Idle;
    }

    ghost predicate Buffering()
      reads this
    {
      Buffered(cipher, section, blocks.cbc, blocks.data, num)
    }

    ghost function Current(): Registers
      reads this
    {
      Registers(state, L, section, stream, position, headerTotal, messageTotal, footerTotal)
    }

    ghost predicate Keyed()
      reads this
    {
      Buffering() && 4 <= digestSize <= 16 && 2 <= L <= 8
    }

    ghost predicate Valid()
      reads this
    {
      && |blocks.data| == |blocks.cbc| == SIZE && (state.Start? ==> run.Idle?)
      && (state.AuthUntransformed? || state.AuthTransformed? ==> state == Active(forward))
      && (!state.Start? ==> Keyed())
      && OnTrack(run, cipher, forward, Current())
      && (run.Fresh? ==> !state.Start? && blocks.data[1..SIZE - L] == run.nonce)
      && (run.Message? ==> aadLength == headerTotal)
    }

    // ----- the parts from ccm.cpp

    /** `xorbuf` and `ProcessBlock` on what is waiting, if anything is. */
    method FlushBuffer()
      requires Buffering()
      modifies `num, `blocks, `section
      ensures Buffering() && num == 0 && section == Section(blocks.cbc, [])
      ensures blocks.cbc == old(Flushed(cipher, section.start, section.data))
    {
      if num > 0 {
        blocks := blocks.(cbc := cipher.encrypt(XorInto(blocks.cbc, 0, blocks.data[..num])));
        num := 0;
      }
      section := Section(blocks.cbc, []);
    }

    method AuthenticateLastHeaderBlock() returns (ok: bool)
      requires Buffering()
      modifies `num, `blocks, `section
      ensures ok <==> aadLength == headerTotal
      ensures if ok then Buffering() && num == 0 && section == Section(blocks.cbc, []) else unchanged(this)
      ensures ok ==> blocks.cbc == old(Flushed(cipher, section.start, section.data))
    {
      if aadLength != headerTotal { return false; }
      FlushBuffer();
      ok := true;
    }

    method AuthenticateLastConfidentialBlock() returns (ok: bool)
      requires Buffering()
      modifies `num, `blocks, `section
      ensures ok <==> messageLength == messageTotal
      ensures if ok then Buffering() && num == 0 && section == Section(blocks.cbc, []) else unchanged(this)
      ensures ok ==> blocks.cbc == old(Flushed(cipher, section.start, section.data))
    {
      if messageLength != messageTotal { return false; }
      FlushBuffer();
      ok := true;
    }

    // ----- authenc.cpp

    method AuthenticateData(input: seq<byte>)
      requires Buffering()
      modifies `num, `blocks, `section
      ensures Buffering() && section == Section(old(section.start), old(section.data) + input)
    {
      var rest := input;
      ChainTail(cipher, section.start, section.data, input);
      section := Section(section.start, section.data + input);
      if num != 0 {
        if num + |input| >= SIZE {
          ghost var all := blocks.data[..num] + input;
          blocks := blocks.(data := blocks.data[..num] + input[..SIZE - num]);
          rest := input[SIZE - num..];
          assert all[..SIZE] == blocks.data && all[SIZE..] == rest;
          ChainBlock(cipher, blocks.cbc, blocks.data);
          var chained, _ := AdvancedProcessBlocks(cipher, blocks.cbc, blocks.data);
          blocks := blocks.(cbc := chained);
          num := 0;
        } else {
          blocks := blocks.(data := Put(blocks.data, num, input));
          num := num + |input|;
          return;
        }
      } else {
        assert blocks.data[..num] + input == input;
      }
      if |rest| >= SIZE {
        var chained, leftOver := AdvancedProcessBlocks(cipher, blocks.cbc, rest);
        blocks := blocks.(cbc := chained);
        TailOfWhole(rest, |rest| - leftOver);
        rest := rest[|rest| - leftOver..];
      }
      blocks := blocks.(data := Put(blocks.data, 0, rest));
      num := |rest|;
    }

    method SetKey(c: Cipher, size: nat) returns (r: Outcome<()>)
      requires c.Valid()
      requires Valid()
      modifies this
      ensures Valid()
      ensures r.Ok? <==> c.blockSize == SIZE && size % 2 == 0 && 4 <= size <= 16
      ensures r.Ok? ==> state == KeySet && cipher == c && digestSize == size && L == 8
      ensures !r.Ok? ==> Fails(r, InvalidArgument) && state == Start
    {
      num, state, run := 0, Start, Idle;
      cipher := c;
      if c.blockSize != SIZE { return Err(InvalidArgument); }
      digestSize := size;
      if size % 2 > 0 || size < 4 || size > 16 { return Err(InvalidArgument); }
      L := 8;
      section := Section(blocks.cbc, []);
      state := KeySet;
      r := Ok(());
    }

    /** The counter block is laid down and the key stream starts after its first block. */
    method Resync(iv: seq<byte>)
      requires cipher.Valid() && cipher.blockSize == SIZE && |iv| <= 13
      modifies `L, `blocks, `stream, `position, `aadLength, `messageLength, `run
      ensures 2 <= L <= 8 && |blocks.data| == SIZE && blocks.cbc == old(blocks.cbc)
      ensures IsNonce(iv) ==> L == 15 - |iv| && blocks.data == CounterBlock(iv, 0)
      ensures stream == KeyStream(cipher, blocks.data) && position == SIZE
      ensures aadLength == 0 && messageLength == 0 && run == Fresh(iv)
    {
      L := SIZE - 1 - |iv|;
      if L > 8 { L := 8; }
      if IsNonce(iv) { CounterBlockZero(iv); }
      blocks := blocks.(data := [L - 1] + iv + Zeros(SIZE - 1 - |iv|));
      stream := KeyStream(cipher, blocks.data);
      position := SIZE;
      aadLength, messageLength, run := 0, 0, Fresh(iv);
    }

    /** Keyed, with nothing counted or waiting. */
    method ClearCounts()
      requires Valid() && state != Start
      modifies `num, `headerTotal, `messageTotal, `footerTotal, `state, `run, `section
      ensures Keyed() && num == headerTotal == messageTotal == footerTotal == 0
      ensures state == KeySet && run == Idle && section == Section(blocks.cbc, [])
    {
      num, headerTotal, messageTotal, footerTotal := 0, 0, 0, 0;
      state, run, section := KeySet, Idle, Section(blocks.cbc, []);
    }

    method Resynchronize(iv: seq<byte>) returns (r: Outcome<()>)
      requires Valid()
      modifies `state, `L, `num, `blocks, `section, `stream, `position, `run
      modifies `headerTotal, `messageTotal, `footerTotal, `aadLength, `messageLength
      ensures Valid()
      ensures Fails(r, BadState) <==> old(state) == Start
      ensures Fails(r, InvalidArgument) <==> old(state) != Start && !IsNonce(iv)
      ensures r.Ok? ==> run == Fresh(iv)
      ensures state == if r.Ok? then IVSet else if Fails(r, BadState) then Start else KeySet
    {
      if state == Start { return Err(BadState); }
      ClearCounts();
      if |iv| < 7 || |iv| > 13 { return Err(InvalidArgument); }
      Resync(iv);
      CounterBlockNonce(iv);
      state := IVSet;
      r := Ok(());
    }

    /** Flag, length and nonce written over the chaining value. */
    method FormFirstBlock() returns (block: seq<byte>)
      requires |blocks.cbc| == |blocks.data| == SIZE && 2 <= L <= 8 && 4 <= digestSize <= 16
      ensures block == FirstBlock(digestSize, blocks.data[1..SIZE - L], aadLength, messageLength)
    {
      var flag: byte := (if aadLength > 0 then 64 else 0) + 8 * ((digestSize - 2) / 2) + (L - 1);
      PutFirstBlock(blocks.cbc, flag, blocks.data[1..SIZE - L], messageLength);
      block := blocks.cbc[0 := flag];
      block := Put(block, SIZE - 8, BigEndian(messageLength, 8));
      block := Put(block, 1, blocks.data[1..SIZE - L]);
    }

    /** The lengths are stored, and the first block is formed and enciphered. */
    method Open(headerLength: nat, newMessageLength: nat)
      requires |blocks.cbc| == |blocks.data| == SIZE && Keyed()
      modifies `aadLength, `messageLength, `blocks
      ensures aadLength == headerLength && messageLength == newMessageLength
      ensures blocks.data == old(blocks.data)
      ensures blocks.cbc ==
              cipher.encrypt(FirstBlock(digestSize, blocks.data[1..SIZE - L], headerLength, newMessageLength))
    {
      aadLength, messageLength := headerLength, newMessageLength;
      var block := FormFirstBlock();
      blocks := blocks.(cbc := cipher.encrypt(block));
    }

    /** The length of a non-empty header waits in front of it. */
    method BufferHeaderLength(ghost next: Run)
      requires cipher.Valid() && cipher.blockSize == SIZE && |blocks.cbc| == |blocks.data| == SIZE && num < SIZE
      requires aadLength < WORD64
      modifies `blocks, `num, `section, `run
      ensures run == next
      ensures Buffering() && blocks.cbc == old(blocks.cbc) && section.start == blocks.cbc
      ensures section.data == if aadLength > 0 then EncodedLength(aadLength) else old(blocks.data[..num])
    {
      if aadLength > 0 {
        var prefixed, n := PutHeaderLength(blocks.data, aadLength);
        blocks, num := blocks.(data := prefixed), n;
      }
      section, run := Section(blocks.cbc, blocks.data[..num]), next;
    }

    method UncheckedSpecifyDataLengths(headerLength: nat, newMessageLength: nat) returns (r: Outcome<()>)
      requires Valid() && headerLength < WORD64 && newMessageLength < WORD64
      modifies `aadLength, `messageLength, `blocks, `num, `section, `run
      ensures Valid()
      ensures r == if state == IVSet then Ok(()) else Err(BadState)
      ensures r.Ok? ==> aadLength == headerLength && messageLength == newMessageLength
      ensures r.Ok? && old(run).Fresh? ==>
                run == Header(SessionOf(cipher, digestSize, old(run).nonce, headerLength, newMessageLength), [])
    {
      if state != IVSet { return Err(BadState); }
      Open(headerLength, newMessageLength);
      BufferHeaderLength(if run.Fresh?
                         then Header(SessionOf(cipher, digestSize, run.nonce, headerLength, newMessageLength), [])
                         else Idle);
      r := Ok(());
    }

    method SpecifyDataLengths(headerLength: nat, newMessageLength: nat, footerLength: nat) returns (r: Outcome<()>)
      requires Valid() && headerLength < WORD64 && newMessageLength < WORD64
      modifies `aadLength, `messageLength, `blocks, `num, `section, `run
      ensures Valid()
      ensures Fails(r, InvalidArgument) <==> newMessageLength > MaxMessageLength(L) || footerLength > 0
      ensures Fails(r, BadState) <==> !Fails(r, InvalidArgument) && state != IVSet
      ensures r.Ok? ==> aadLength == headerLength && messageLength == newMessageLength
      ensures r.Ok? && old(run).Fresh? ==>
                run == Header(SessionOf(cipher, digestSize, old(run).nonce, headerLength, newMessageLength), [])
    {
      if newMessageLength > MaxMessageLength(L) || footerLength > 0 { return Err(InvalidArgument); }
      r := UncheckedSpecifyDataLengths(headerLength, newMessageLength);
    }

    method UpdateHeader(input: seq<byte>)
      requires Valid() && state == IVSet && |input| > 0
      modifies `num, `blocks, `section, `headerTotal, `run
      ensures Valid() && headerTotal == Wrap(old(headerTotal) + |input|)
      ensures run == Extended(old(run), input)
    {
      HeaderGrows(run, cipher, forward, Current(), input);
      AuthenticateData(input);
      headerTotal, run := Wrap(headerTotal + |input|), Extended(run, input);
    }

    method UpdateFooter(input: seq<byte>)
      requires Valid() && state == AuthFooter
      modifies `num, `blocks, `section, `footerTotal
      ensures Valid() && footerTotal == Wrap(old(footerTotal) + |input|)
    {
      AuthenticateData(input);
      footerTotal := Wrap(footerTotal + |input|);
    }

    /** The first footer bytes close the message. */
    method StartFooter() returns (ok: bool)
      requires Valid() && state in {AuthUntransformed, AuthTransformed}
      modifies `num, `blocks, `section, `state, `run
      ensures Valid() && (ok <==> messageLength == messageTotal)
      ensures if ok then state == AuthFooter && run == Idle else unchanged(this)
    {
      ok := AuthenticateLastConfidentialBlock();
      if !ok { return; }
      num, state, run := 0, AuthFooter, Idle;
    }

    /** Header bytes before the message, footer bytes after it. */
    method Update(input: seq<byte>) returns (r: Outcome<()>)
      requires Valid() && |input| < WORD64
      modifies `num, `blocks, `section, `state, `headerTotal, `footerTotal, `run
      ensures Valid()
      ensures Fails(r, BadState) <==> |input| > 0 && old(state) in {Start, KeySet}
      ensures Fails(r, InvalidArgument) <==>
              |input| > 0 && old(state) in {AuthUntransformed, AuthTransformed} && messageLength != messageTotal
      ensures old(run).Header? ==> run == Header(old(run).session, old(run).header + input)
      ensures |input| == 0 || !r.Ok? ==> state == old(state) && footerTotal == old(footerTotal)
      ensures |input| > 0 && r.Ok? ==> state == if old(state) == IVSet then IVSet else AuthFooter
      ensures |input| > 0 && r.Ok? ==>
                footerTotal == if state == AuthFooter then Wrap(old(footerTotal) + |input|) else old(footerTotal)
    {
      r := Ok(());
      if |input| == 0 {
        assert run.Header? ==> run.header + input == run.header;
        return;
      }
      match state {
        case Start => return Err(BadState);
        case KeySet => return Err(BadState);
        case IVSet => UpdateHeader(input);
        case AuthFooter => UpdateFooter(input);
        case _ =>
          var ok := StartFooter();
          if !ok { return Err(InvalidArgument); }
          UpdateFooter(input);
      }
    }

    /** The first message bytes close the header. */
    method StartMessage() returns (ok: bool)
      requires Valid() && state == IVSet
      modifies `num, `blocks, `section, `state, `run
      ensures Valid() && (ok <==> aadLength == headerTotal)
      ensures ok ==> state == Active(forward)
      ensures run == if ok then Started(old(run)) else old(run)
      ensures !ok ==> state == IVSet
    {
      ok := AuthenticateLastHeaderBlock();
      if !ok { return; }
      num, state := 0, Active(forward);
      run := Started(run);
    }

    /** The key stream over the next bytes. */
    method Encipher(input: seq<byte>) returns (output: seq<byte>)
      modifies `position
      ensures output == Transform(stream, old(position), input) && position == old(position) + |input|
    {
      output := Transform(stream, position, input);
      position := position + |input|;
    }

    /** Encrypting authenticates what goes in, decrypting what comes out. */
    method AuthenticateAndEncipher(input: seq<byte>, ghost next: Run) returns (output: seq<byte>)
      requires Buffering() && state == Active(forward)
      modifies `num, `blocks, `section, `position, `messageTotal, `run
      ensures output == Transform(stream, old(position), input) && position == old(position) + |input|
      ensures messageTotal == Wrap(old(messageTotal) + |input|) && run == next
      ensures Buffering()
      ensures section == Section(old(section.start), old(section.data) + if forward then input else output)
    {
      if state == AuthUntransformed {
        AuthenticateData(input);
        output := Encipher(input);
      } else {
        output := Encipher(input);
        AuthenticateData(output);
      }
      messageTotal, run := Wrap(messageTotal + |input|), next;
    }

    method TransformData(input: seq<byte>) returns (output: seq<byte>)
      requires Valid() && state in {AuthUntransformed, AuthTransformed}
      modifies `num, `blocks, `section, `position, `messageTotal, `run
      ensures Valid() && messageTotal == Wrap(old(messageTotal) + |input|)
      ensures output == Transform(stream, old(position), input) && position == old(position) + |input|
      ensures run == Passed(old(run), if forward then input else output)
    {
      ghost var plain := if forward then input else Transform(stream, position, input);
      MessageGrows(run, cipher, forward, Current(), plain);
      output := AuthenticateAndEncipher(input, Passed(run, plain));
    }

    /** Refused bytes are counted all the same. */
    method Refuse(length: nat)
      requires Valid()
      modifies `messageTotal, `run
      ensures Valid() && messageTotal == Wrap(old(messageTotal) + length)
    {
      messageTotal, run := Wrap(messageTotal + length), Idle;
    }

    /** What is checked before message bytes pass, and the end of the header before the first. */
    method Admit(length: nat) returns (r: Outcome<()>)
      requires Valid()
      modifies `num, `blocks, `section, `state, `messageTotal, `run
      ensures Valid()
      ensures Fails(r, InvalidArgument) <==>
              (old(state) !in {Start, KeySet} && Wrap(old(messageTotal) + length) > MaxMessageLength(L)) ||
              (old(state) == IVSet && aadLength != headerTotal)
      ensures Fails(r, BadState) <==> !Fails(r, InvalidArgument) && old(state) in {Start, KeySet, AuthFooter}
      ensures messageTotal == if r.Ok? then old(messageTotal) else Wrap(old(messageTotal) + length)
      ensures r.Ok? ==> state == Active(forward) && run == Started(old(run))
      ensures !r.Ok? ==> state == old(state)
    {
      if state !in {Start, KeySet} && Wrap(messageTotal + length) > MaxMessageLength(L) {
        Refuse(length);
        return Err(InvalidArgument);
      }
      if state in {Start, KeySet, AuthFooter} {
        Refuse(length);
        return Err(BadState);
      }
      if state == IVSet {
        var ok := StartMessage();
        if !ok {
          Refuse(length);
          return Err(InvalidArgument);
        }
      }
      r := Ok(());
    }

    /** The message, encrypted or decrypted as it passes. */
    method ProcessData(input: seq<byte>) returns (r: Outcome<seq<byte>>)
      requires Valid() && |input| < WORD64
      modifies `num, `blocks, `section, `state, `position, `messageTotal, `run
      ensures Valid() && messageTotal == Wrap(old(messageTotal) + |input|)
      ensures Fails(r, InvalidArgument) <==>
              (old(state) !in {Start, KeySet} && messageTotal > MaxMessageLength(L)) ||
              (old(state) == IVSet && aadLength != headerTotal)
      ensures Fails(r, BadState) <==> !Fails(r, InvalidArgument) && old(state) in {Start, KeySet, AuthFooter}
      ensures r.Ok? ==> r.value == Transform(stream, old(position), input) && position == old(position) + |input|
      ensures r.Ok? ==> run == Passed(Started(old(run)), if forward then input else r.value)
      ensures state == if r.Ok? then Active(forward) else old(state)
    {
      var _ :- Admit(|input|);
      var output := TransformData(input);
      r := Ok(output);
    }

    /** The chaining value under the first block of the key stream. */
    method AuthenticateLastFooterBlock(size: nat) returns (mac: seq<byte>)
      requires |blocks.cbc| == SIZE && size <= SIZE
      modifies `position
      ensures mac == Transform(stream, 0, blocks.cbc)[..size]
    {
      position := 0;
      TransformTake(stream, 0, blocks.cbc[..size], blocks.cbc);
      mac := Transform(stream, position, blocks.cbc[..size]);
      position := position + size;
    }

    /** Header and message are flushed, whichever are still open. */
    method CloseSections() returns (ok: bool)
      requires Keyed() && state in {IVSet, AuthUntransformed, AuthTransformed}
      modifies `num, `blocks, `section
      ensures Keyed()
      ensures ok <==> (state == IVSet ==> aadLength == headerTotal) && messageLength == messageTotal
      ensures ok ==> blocks.cbc == old(Flushed(cipher, section.start, section.data))
    {
      if state == IVSet {
        ok := AuthenticateLastHeaderBlock();
        if !ok { return; }
        num := 0;
        FlushedNothing(cipher, blocks.cbc);
      }
      ok := AuthenticateLastConfidentialBlock();
      if ok { num := 0; }
    }

    /** The run is over, whether its sections could be closed or not. */
    method EndRun() returns (ok: bool)
      requires Valid() && state !in {Start, KeySet}
      modifies `num, `blocks, `section, `run
      ensures Valid() && run == Idle
      ensures ok <==> state == AuthFooter ||
                      ((state == IVSet ==> aadLength == headerTotal) && messageLength == messageTotal)
      ensures ok && old(run).Underway() ==>
                Transform(stream, 0, blocks.cbc) == RunTag(old(run).session, cipher, old(run).header, old(run).SoFar())
    {
      if run.Underway() { TagReached(run, cipher, forward, Current()); }
      run := Idle;
      if state == AuthFooter { return true; }
      ok := CloseSections();
    }

    /** The chaining value enciphered; a new nonce is needed. */
    method Finish(size: nat) returns (mac: seq<byte>)
      requires Valid() && run == Idle && state != Start && size <= SIZE
      modifies `num, `section, `state, `position
      ensures Valid() && state == KeySet
      ensures mac == Transform(stream, 0, blocks.cbc)[..size]
    {
      mac := AuthenticateLastFooterBlock(size);
      num, section, state := 0, Section(blocks.cbc, []), KeySet;
    }

    /** The tag of the run, if its lengths were the ones specified. */
    method TruncatedFinal(size: nat) returns (r: Outcome<seq<byte>>)
      requires Valid() && size <= SIZE
      modifies `num, `blocks, `section, `state, `position, `run
      ensures Valid()
      ensures Fails(r, InvalidArgument) <==>
              footerTotal > 0 || (old(state) == IVSet && aadLength != headerTotal) ||
              (old(state) in {IVSet, AuthUntransformed, AuthTransformed} && messageLength != messageTotal)
      ensures Fails(r, BadState) <==> !Fails(r, InvalidArgument) && old(state) in {Start, KeySet}
      ensures r.Ok? ==> state == KeySet && run == Idle
      ensures !r.Ok? ==> state == old(state)
      ensures r.Ok? && old(run).Underway() ==>
                r.value == RunTag(old(run).session, cipher, old(run).header, old(run).SoFar())[..size]
    {
      if footerTotal > 0 { return Err(InvalidArgument); }
      if state in {Start, KeySet} { return Err(BadState); }
      var ok := EndRun();
      if !ok { return Err(InvalidArgument); }
      var mac := Finish(size);
      r := Ok(mac);
    }

    method TruncatedVerify(mac: seq<byte>) returns (r: Outcome<bool>)
      requires Valid()
      modifies `num, `blocks, `section, `state, `position, `run
      ensures Valid()
      ensures |mac| > digestSize ==> Fails(r, InvalidArgument)
      ensures old(run).Underway() && aadLength == headerTotal && messageLength == messageTotal ==>
                (r.Ok? <==> |mac| <= digestSize)
      ensures r.Ok? && old(run).Underway() ==>
                (r.value <==> mac == RunTag(old(run).session, cipher, old(run).header, old(run).SoFar())[..|mac|])
    {
      if |mac| > digestSize { return Err(InvalidArgument); }
      if state == Start { return Err(BadState); }
      var digest :- TruncatedFinal(|mac|);
      r := Ok(digest == mac);
    }
    // ----- cryptlib.cpp

    /** Nonce and lengths. */
    method Prepare(iv: seq<byte>, headerLength: nat, newMessageLength: nat) returns (r: Outcome<()>)
      requires Valid() && headerLength < WORD64 && newMessageLength < WORD64
      modifies `state, `L, `num, `blocks, `section, `stream, `position, `run
      modifies `headerTotal, `messageTotal, `footerTotal, `aadLength, `messageLength
      ensures Valid()
      ensures r.Ok? <==> old(state) != Start && IsNonce(iv) && newMessageLength <= MaxMessageLength(15 - |iv|)
      ensures r.Ok? ==> state == IVSet && aadLength == headerLength && messageLength == newMessageLength
      ensures r.Ok? ==> run == Header(SessionOf(cipher, digestSize, iv, headerLength, newMessageLength), [])
    {
      var _ :- Resynchronize(iv);
      r := SpecifyDataLengths(headerLength, newMessageLength, 0);
    }

    /** Header and message of a run. */
    method Pass(headerData: seq<byte>, data: seq<byte>) returns (r: Outcome<seq<byte>>)
      requires Valid() && run.Header? && run.header == [] && aadLength == |headerData| < WORD64 && |data| < WORD64
      modifies `num, `blocks, `section, `state, `position, `headerTotal, `messageTotal, `footerTotal, `run
      ensures Valid()
      ensures r.Ok? <==> |data| <= MaxMessageLength(L)
      ensures r.Ok? ==> r.value == Transform(stream, SIZE, data) && state == Active(forward)
      ensures r.Ok? ==> aadLength == headerTotal && |data| == messageTotal && footerTotal == 0
      ensures r.Ok? ==> run == Message(old(run).session, headerData, if forward then data else r.value)
    {
      var _ := Update(headerData);
      r := ProcessData(data);
    }

    /** What both calls do before the tag. */
    method Process(iv: seq<byte>, headerData: seq<byte>, data: seq<byte>) returns (r: Outcome<seq<byte>>)
      requires Valid() && |headerData| < WORD64 && |data| < WORD64
      modifies `state, `L, `num, `blocks, `section, `stream, `position, `run
      modifies `headerTotal, `messageTotal, `footerTotal, `aadLength, `messageLength
      ensures Valid()
      ensures r.Ok? <==> old(state) != Start && IsNonce(iv) && |data| <= MaxMessageLength(15 - |iv|)
      ensures r.Ok? ==> r.value == Crypt(cipher, iv, data) && state == Active(forward)
      ensures r.Ok? ==> aadLength == headerTotal && messageLength == messageTotal && footerTotal == 0
      ensures r.Ok? ==> run == Message(SessionOf(cipher, digestSize, iv, |headerData|, |data|), headerData,
                                       if forward then data else r.value)
    {
      var prepared := Prepare(iv, |headerData|, |data|);
      if prepared.Err? {
        return Err(prepared.error);
      }
      r := Pass(headerData, data);
    }

    method EncryptAndAuthenticate(iv: seq<byte>, headerData: seq<byte>, plain: seq<byte>, macSize: nat)
      returns (r: Outcome<(seq<byte>, seq<byte>)>)
      requires Valid() && |headerData| < WORD64 && |plain| < WORD64 && macSize <= SIZE
      modifies this
      ensures Valid() && cipher == old(cipher) && digestSize == old(digestSize)
      ensures r.Ok? <==> old(state) != Start && IsNonce(iv) && |plain| <= MaxMessageLength(15 - |iv|)
      ensures r.Ok? ==> r.value.0 == Crypt(cipher, iv, plain)
      ensures r.Ok? ==> r.value.1 == Tag(cipher, digestSize, iv, |headerData|, |plain|, headerData,
                                         if forward then plain else r.value.0)[..macSize]
    {
      var output :- Process(iv, headerData, plain);
      RunTagIsTag(cipher, digestSize, iv, |headerData|, |plain|, headerData, if forward then plain else output);
      var mac :- TruncatedFinal(macSize);
      r := Ok((output, mac));
    }

    method DecryptAndVerify(iv: seq<byte>, headerData: seq<byte>, ciphertext: seq<byte>, mac: seq<byte>)
      returns (r: Outcome<(seq<byte>, bool)>)
      requires Valid() && |headerData| < WORD64 && |ciphertext| < WORD64
      modifies this
      ensures Valid() && cipher == old(cipher) && digestSize == old(digestSize)
      ensures r.Ok? <==>
              old(state) != Start && IsNonce(iv) && |ciphertext| <= MaxMessageLength(15 - |iv|) && |mac| <= digestSize
      ensures r.Ok? ==> r.value.0 == Crypt(cipher, iv, ciphertext)
      ensures r.Ok? ==> (r.value.1 <==>
              mac == Tag(cipher, digestSize, iv, |headerData|, |ciphertext|, headerData,
                         if forward then ciphertext else r.value.0)[..|mac|])
    {
      var output :- Process(iv, headerData, ciphertext);
      RunTagIsTag(cipher, digestSize, iv, |headerData|, |ciphertext|, headerData,
                  if forward then ciphertext else output);
      var verified :- TruncatedVerify(mac);
      r := Ok((output, verified));
    }
  }

  // ----- main results

  /** A keyed object with nonce and lengths in place. */
  method Begin(c: Cipher, digestSize: nat, forward: bool, iv: seq<byte>, headerLength: nat, messageLength: nat)
    returns (ccm: CCM_Base)
    requires c.Valid() && c.blockSize == SIZE && digestSize % 2 == 0 && 4 <= digestSize <= 16 && IsNonce(iv)
    requires headerLength < WORD64 && messageLength < WORD64 && messageLength <= MaxMessageLength(15 - |iv|)
    ensures fresh(ccm) && ccm.Valid() && ccm.state == IVSet && ccm.forward == forward && ccm.cipher == c
    ensures ccm.digestSize == digestSize && ccm.L == 15 - |iv|
    ensures ccm.run == Header(SessionOf(c, digestSize, iv, headerLength, messageLength), [])
    ensures ccm.aadLength == headerLength && ccm.messageLength == messageLength
  {
    ccm := new CCM_Base(forward);
    var keyed := ccm.SetKey(c, digestSize);
    var prepared := ccm.Prepare(iv, headerLength, messageLength);
  }

  method UpdateAll(ccm: CCM_Base, headers: seq<seq<byte>>)
    requires ccm.Valid() && ccm.run.Header? && ccm.run.header == [] && |Concat(headers)| < WORD64
    modifies ccm`num, ccm`blocks, ccm`section, ccm`state, ccm`headerTotal, ccm`footerTotal, ccm`run
    ensures ccm.Valid() && ccm.run == Header(old(ccm.run).session, Concat(headers))
    decreases |headers|
  {
    if |headers| == 0 { return; }
    var n := |headers| - 1;
    UpdateAll(ccm, headers[..n]);
    var _ := ccm.Update(headers[n]);
  }

  /** One more piece of the message. */
  method ProcessPiece(ccm: CCM_Base, ghost done: seq<byte>, output: seq<byte>, piece: seq<byte>)
    returns (r: seq<byte>)
    requires ccm.Valid() && ccm.run.Underway() && ccm.aadLength == ccm.headerTotal
    requires |done + piece| < WORD64 && |done + piece| <= MaxMessageLength(ccm.L)
    requires output == Transform(ccm.stream, SIZE, done)
    requires ccm.run.SoFar() == if ccm.forward then done else output
    requires ccm.position == SIZE + |done| && ccm.messageTotal == |done|
    modifies ccm`num, ccm`blocks, ccm`section, ccm`state, ccm`position, ccm`messageTotal, ccm`run
    ensures ccm.Valid() && ccm.position == SIZE + |done + piece| && ccm.messageTotal == |done + piece|
    ensures r == Transform(ccm.stream, SIZE, done + piece)
    ensures ccm.run == Message(old(ccm.run).session, old(ccm.run).header, if ccm.forward then done + piece else r)
  {
    TransformConcat(ccm.stream, SIZE, done, piece);
    var next := ccm.ProcessData(piece);
    r := output + next.value;
  }

  method ProcessAll(ccm: CCM_Base, inputs: seq<seq<byte>>) returns (output: seq<byte>)
    requires ccm.Valid() && ccm.run.Header? && ccm.aadLength == ccm.headerTotal
    requires |Concat(inputs)| < WORD64 && |Concat(inputs)| <= MaxMessageLength(ccm.L)
    modifies ccm`num, ccm`blocks, ccm`section, ccm`state, ccm`position, ccm`messageTotal, ccm`run
    ensures ccm.Valid() && ccm.position == SIZE + |Concat(inputs)| && ccm.messageTotal == |Concat(inputs)|
    ensures output == Transform(ccm.stream, SIZE, Concat(inputs))
    ensures ccm.run.Underway() && ccm.run.session == old(ccm.run).session && ccm.run.header == old(ccm.run).header
    ensures ccm.run.SoFar() == if ccm.forward then Concat(inputs) else output
    decreases |inputs|
  {
    if |inputs| == 0 { return []; }
    var n := |inputs| - 1;
    output := ProcessAll(ccm, inputs[..n]);
    output := ProcessPiece(ccm, Concat(inputs[..n]), output, inputs[n]);
  }

  /** Header and message in pieces. */
  method PassPieces(ccm: CCM_Base, headers: seq<seq<byte>>, inputs: seq<seq<byte>>) returns (output: seq<byte>)
    requires ccm.Valid() && ccm.run.Header? && ccm.run.header == []
    requires |Concat(headers)| < WORD64 && |Concat(inputs)| < WORD64 && |Concat(inputs)| <= MaxMessageLength(ccm.L)
    requires ccm.aadLength == |Concat(headers)|
    modifies ccm`num, ccm`blocks, ccm`section, ccm`state, ccm`position, ccm`headerTotal, ccm`messageTotal,
             ccm`footerTotal, ccm`run
    ensures ccm.Valid() && ccm.footerTotal == 0
    ensures ccm.aadLength == ccm.headerTotal && ccm.messageTotal == |Concat(inputs)|
    ensures output == Transform(ccm.stream, SIZE, Concat(inputs))
    ensures ccm.run.Underway() && ccm.run.session == old(ccm.run).session && ccm.run.header == Concat(headers)
    ensures ccm.run.SoFar() == if ccm.forward then Concat(inputs) else output
  {
    UpdateAll(ccm, headers);
    output := ProcessAll(ccm, inputs);
  }

  /** A whole run in pieces. */
  method PassAll(ccm: CCM_Base, headers: seq<seq<byte>>, inputs: seq<seq<byte>>)
    returns (output: seq<byte>, tag: seq<byte>)
    requires ccm.Valid() && ccm.run.Header? && ccm.run.header == []
    requires |Concat(headers)| < WORD64 && |Concat(inputs)| < WORD64 && |Concat(inputs)| <= MaxMessageLength(ccm.L)
    requires ccm.aadLength == |Concat(headers)| && ccm.messageLength == |Concat(inputs)|
    requires ccm.digestSize <= SIZE
    modifies ccm
    ensures output == Transform(old(ccm.stream), SIZE, Concat(inputs))
    ensures tag == RunTag(old(ccm.run).session, old(ccm.cipher), Concat(headers),
                          if ccm.forward then Concat(inputs) else output)[..old(ccm.digestSize)]
  {
    output := PassPieces(ccm, headers, inputs);
    var mac := ccm.TruncatedFinal(ccm.digestSize);
    tag := mac.value;
  }

  /** However header and message are cut up, output and tag are those of the whole. */
  method AnyCut(c: Cipher, digestSize: nat, forward: bool, iv: seq<byte>, headers: seq<seq<byte>>,
                inputs: seq<seq<byte>>)
    returns (output: seq<byte>, tag: seq<byte>)
    requires c.Valid() && c.blockSize == SIZE && digestSize % 2 == 0 && 4 <= digestSize <= 16 && IsNonce(iv)
    requires |Concat(headers)| < WORD64 && |Concat(inputs)| < WORD64
    requires |Concat(inputs)| <= MaxMessageLength(15 - |iv|)
    ensures output == Crypt(c, iv, Concat(inputs))
    ensures tag == Tag(c, digestSize, iv, |Concat(headers)|, |Concat(inputs)|, Concat(headers),
                       if forward then Concat(inputs) else output)[..digestSize]
  {
    var ccm := Begin(c, digestSize, forward, iv, |Concat(headers)|, |Concat(inputs)|);
    output, tag := PassAll(ccm, headers, inputs);
    RunTagIsTag(c, digestSize, iv, |Concat(headers)|, |Concat(inputs)|, Concat(headers),
                if forward then Concat(inputs) else output);
  }

  /** In the terms of section 2 of RFC 3610: the message under the enciphered counter blocks, and
      the CBC-MAC of the formatted input under the first of them. */
  method AnySplit(c: Cipher, digestSize: nat, forward: bool, iv: seq<byte>,
                  headers: seq<seq<byte>>, inputs: seq<seq<byte>>)
    returns (output: seq<byte>, tag: seq<byte>)
    requires c.Valid() && c.blockSize == SIZE && digestSize % 2 == 0 && 4 <= digestSize <= 16 && IsNonce(iv)
    requires |Concat(headers)| < WORD64 && |Concat(inputs)| < WORD64
    requires |Concat(inputs)| <= MaxMessageLength(15 - |iv|)
    ensures output == Ciphertext(c, iv, Concat(inputs))
    ensures tag == AuthenticationTag(c, digestSize, iv, Concat(headers),
                                     if forward then Concat(inputs) else output)[..digestSize]
  {
    output, tag := AnyCut(c, digestSize, forward, iv, headers, inputs);
    CryptIsCiphertext(c, iv, Concat(inputs));
    TagIsAuthenticationTag(c, digestSize, iv, Concat(headers), if forward then Concat(inputs) else output);
  }

  /** One call each way. */
  method SealAndOpen(c: Cipher, digestSize: nat, iv: seq<byte>, header: seq<byte>, message: seq<byte>)
    returns (sealed: seq<byte>, tag: seq<byte>, decrypted: seq<byte>, verified: bool)
    requires c.Valid() && c.blockSize == SIZE && digestSize % 2 == 0 && 4 <= digestSize <= 16
    requires IsNonce(iv) && |header| < WORD64 && |message| < WORD64 && |message| <= MaxMessageLength(15 - |iv|)
    ensures sealed == Crypt(c, iv, message)
    ensures tag == Tag(c, digestSize, iv, |header|, |message|, header, message)[..digestSize]
    ensures decrypted == message && verified
  {
    var encryption := new CCM_Base(true);
    var decryption := new CCM_Base(false);
    var keyed := encryption.SetKey(c, digestSize);
    keyed := decryption.SetKey(c, digestSize);
    var sent := encryption.EncryptAndAuthenticate(iv, header, message, digestSize);
    sealed, tag := sent.value.0, sent.value.1;
    CryptTwice(c, iv, message);
    var received := decryption.DecryptAndVerify(iv, header, sealed, tag);
    decrypted, verified := received.value.0, received.value.1;
  }

  /** Decrypting what was encrypted gives the message back, and the tag verifies. */
  method RoundTrip(c: Cipher, digestSize: nat, iv: seq<byte>, header: seq<byte>, message: seq<byte>)
    returns (sealed: seq<byte>, tag: seq<byte>, decrypted: seq<byte>, verified: bool)
    requires c.Valid() && c.blockSize == SIZE && digestSize % 2 == 0 && 4 <= digestSize <= 16
    requires IsNonce(iv) && |header| < WORD64 && |message| < WORD64 && |message| <= MaxMessageLength(15 - |iv|)
    ensures sealed == Ciphertext(c, iv, message)
    ensures tag == AuthenticationTag(c, digestSize, iv, header, message)[..digestSize]
    ensures decrypted == message && verified
  {
    sealed, tag, decrypted, verified := SealAndOpen(c, digestSize, iv, header, message);
    CryptIsCiphertext(c, iv, message);
    TagIsAuthenticationTag(c, digestSize, iv, header, message);
  }
}
