/** Counter mode: `CTR_ModePolicy` (modes.cpp) under `AdditiveCipherTemplate` (strciphr.cpp), over
    an arbitrary block cipher. Wherever it seeks and however the data are cut up, the bytes it
    uses are those of one key stream, which is a function of the position. */
module CounterMode {
  import opened Bytes
  import opened BlockChain
  import opened Gf2Polynomials
  import opened Modular
  import opened Wrappers

  // ----- counters as strings of bytes

  /** The digits of reg + rest + carry: those in `done`, and what is left for the first n bytes. */
  ghost predicate Adding(total: seq<byte>, reg: seq<byte>, n: nat, rest: nat, carry: nat, done: seq<byte>)
    requires n <= |reg|
  {
    total == BigEndian(Value(reg[..n]) + rest + carry, n) + done
  }

  lemma {:induction false} AddingStep(total: seq<byte>, reg: seq<byte>, n: nat, rest: nat, carry: nat,
                                      done: seq<byte>, digit: int, sum: nat)
    requires n < |reg| && Adding(total, reg, n + 1, rest, carry, done)
    requires digit == reg[n] && sum == digit + rest % 256 + carry
    ensures Adding(total, reg, n, rest / 256, sum / 256, [sum % 256] + done)
  {
    var v := Value(reg[..n + 1]) + rest + carry;
    LastApart([], reg[..n + 1]);
    assert reg[..n + 1] == reg[..n] + [reg[n]];
    ValuePair(reg[..n], reg[n]);
    Digits(v, Value(reg[..n]), digit, rest, carry, sum);
    LastDigit(v, v / 256, n, n + 1);
    Regrouped(BigEndian(v / 256, n), [sum % 256], done);
  }

  lemma {:induction false} LastDigit(v: nat, high: nat, n: nat, next: nat)
    requires next == n + 1 && high == v / 256
    ensures BigEndian(v, next) == BigEndian(high, n) + [v % 256]
  {
  }

  lemma {:induction false} Digits(v: nat, high: nat, digit: int, rest: nat, carry: nat, sum: nat)
    requires v == 256 * high + digit + rest + carry && sum == digit + rest % 256 + carry
    ensures v % 256 == sum % 256 && v / 256 == high + rest / 256 + sum / 256
  {
    SplitDigit(rest, rest / 256, rest % 256);
    SplitDigit(v, high + rest / 256, sum);
  }

  lemma {:induction false} SplitDigit(v: nat, high: nat, low: nat)
    requires v == 256 * high + low
    ensures v % 256 == low % 256 && v / 256 == high + low / 256
  {
  }

  /** The sum so far, with its low digits in place: `r` is `inout` with `done` behind the first i bytes. */
  ghost predicate Counting(total: seq<byte>, inout: seq<byte>, n: nat, i: nat, carry: nat, done: seq<byte>,
                           r: seq<byte>)
  {
    && i <= n <= |inout| && |done| == n - i
    && r == inout[..i] + (done + inout[n..])
    && Adding(total, inout, i, 0, carry, done)
  }

  lemma {:induction false} CountingStep(total: seq<byte>, inout: seq<byte>, n: nat, i: nat, carry: nat,
                                        done: seq<byte>, r: seq<byte>, digit: int, sum: nat)
    requires Counting(total, inout, n, i + 1, carry, done, r) && digit == inout[i] && sum == digit + carry
    ensures r[i] == inout[i]
    ensures Counting(total, inout, n, i, sum / 256, [sum % 256] + done, r[i := sum % 256])
  {
    AddingStep(total, inout, i, 0, carry, done, digit, sum);
    Replaced(inout, i, done + inout[n..], sum % 256);
    Regrouped([sum % 256], done, inout[n..]);
  }

  lemma {:induction false} Replaced(a: seq<byte>, i: nat, b: seq<byte>, x: byte)
    requires i < |a|
    ensures (a[..i + 1] + b)[i] == a[i] && (a[..i + 1] + b)[i := x] == a[..i] + ([x] + b)
  {
  }

  lemma {:induction false} CarryOf(digit: nat)
    requires digit < 256
    ensures (digit + 1) / 256 == if (digit + 1) % 256 == 0 then 1 else 0
  {
  }

  lemma {:induction false} CountingDone(total: seq<byte>, inout: seq<byte>, n: nat, i: nat, carry: nat,
                                        done: seq<byte>, r: seq<byte>)
    requires Counting(total, inout, n, i, carry, done, r) && (carry == 0 || i == 0)
    ensures r == total + inout[n..]
  {
    ValueBytes(inout[..i]);
    Regrouped(inout[..i], done, inout[n..]);
  }

  /** One byte of the counter, with the carry into the next. */
  method CountByte(ghost total: seq<byte>, ghost inout: seq<byte>, ghost n: nat, i: nat, ghost done: seq<byte>,
                   r: seq<byte>)
    returns (r': seq<byte>, carry: nat, ghost done': seq<byte>)
    requires Counting(total, inout, n, i + 1, 1, done, r)
    ensures Counting(total, inout, n, i, carry, done', r') && carry <= 1
  {
    var digit: int := r[i];
    CountingStep(total, inout, n, i, 1, done, r, inout[i], inout[i] as int + 1);
    CarryOf(digit);
    r' := r[i := (digit + 1) % 256];
    done' := [(digit + 1) % 256] + done;
    carry := if r'[i] == 0 then 1 else 0;
  }

  /** `IncrementCounterByOne`: one is added to the first n bytes; the rest stay. */
  method IncrementCounterByOne(inout: seq<byte>, n: nat) returns (r: seq<byte>)
    requires n <= |inout|
    ensures r == BigEndian(Value(inout[..n]) + 1, n) + inout[n..]
  {
    r := inout;
    var i, carry := n - 1, 1;
    ghost var total, done: seq<byte> := BigEndian(Value(inout[..n]) + 1, n), [];
    CountingStart(total, inout, n);
    while i >= 0 && carry != 0
      invariant -1 <= i < n && 0 <= carry <= 1 && Counting(total, inout, n, i + 1, carry, done, r)
    {
      r, carry, done := CountByte(total, inout, n, i, done, r);
      i := i - 1;
    }
    CountingDone(total, inout, n, i + 1, carry, done, r);
  }

  lemma {:induction false} CountingStart(total: seq<byte>, inout: seq<byte>, n: nat)
    requires n <= |inout| && total == BigEndian(Value(inout[..n]) + 1, n)
    ensures Counting(total, inout, n, n, 1, [], inout)
  {
    assert total + [] == total;
    assert [] + inout[n..] == inout[n..];
  }

  // ----- the key stream, and data under it

  /** Byte p of the key stream. The counter runs over the whole block. */
  function KeyStream(c: Cipher, iv: seq<byte>): nat -> byte
    requires c.Valid() && |iv| == c.blockSize
  {
    (p: nat) => c.encrypt(BigEndian(Value(iv) + p / c.blockSize, |iv|))[p % c.blockSize]
  }

  function Transform(stream: nat -> byte, at: nat, data: seq<byte>): (r: seq<byte>)
    ensures |r| == |data|
  {
    if |data| == 0 then []
    else
      var n := |data| - 1;
      Transform(stream, at, data[..n]) + [XorByte(data[n], stream(at + n))]
  }

  lemma {:induction false} TransformConcat(stream: nat -> byte, at: nat, a: seq<byte>, b: seq<byte>)
    ensures Transform(stream, at, a + b) == Transform(stream, at, a) + Transform(stream, at + |a|, b)
  {
    if |b| == 0 {
      assert a + b == a;
    } else {
      var n := |b| - 1;
      assert (a + b)[..|a| + n] == a + b[..n];
      TransformConcat(stream, at, a, b[..n]);
    }
  }

  lemma {:induction false} TransformTake(stream: nat -> byte, at: nat, a: seq<byte>, data: seq<byte>)
    requires a <= data
    ensures Transform(stream, at, data)[..|a|] == Transform(stream, at, a)
  {
    var b := data[|a|..];
    assert a + b == data;
    TransformConcat(stream, at, a, b);
  }

  lemma {:induction false} XorByteTwice(a: byte, b: byte)
    ensures XorByte(XorByte(a, b), b) == a
  {
    XorCancel(a, b);
  }

  lemma {:induction false} TransformTwice(stream: nat -> byte, at: nat, data: seq<byte>)
    ensures Transform(stream, at, Transform(stream, at, data)) == data
  {
    if |data| != 0 {
      var n := |data| - 1;
      var once := Transform(stream, at, data[..n]);
      TransformTwice(stream, at, data[..n]);
      XorByteTwice(data[n], stream(at + n));
      TransformMore(stream, at, data[..n], data[n]);
      TransformMore(stream, at, once, XorByte(data[n], stream(at + n)));
      assert data == data[..n] + [data[n]];
    }
  }

  lemma {:induction false} TransformMore(stream: nat -> byte, at: nat, data: seq<byte>, b: byte)
    ensures Transform(stream, at, data + [b]) == Transform(stream, at, data) + [XorByte(b, stream(at + |data|))]
  {
    assert (data + [b])[..|data|] == data;
  }

  lemma {:induction false} TransformAt(stream: nat -> byte, at: nat, data: seq<byte>, j: nat)
    requires j < |data|
    ensures Transform(stream, at, data)[j] == XorByte(data[j], stream(at + j))
  {
    if j < |data| - 1 {
      TransformAt(stream, at, data[..|data| - 1], j);
    }
  }

  /** Data under as many bytes of key. */
  function Xored(data: seq<byte>, key: seq<byte>): (r: seq<byte>)
    requires |data| == |key|
    ensures |r| == |data| && forall i :: 0 <= i < |data| ==> r[i] == XorByte(data[i], key[i])
  {
    seq(|data|, i requires 0 <= i < |data| => XorByte(data[i], key[i]))
  }

  lemma {:induction false} XoredConcat(a: seq<byte>, b: seq<byte>, k: seq<byte>, l: seq<byte>)
    requires |a| == |k| && |b| == |l|
    ensures Xored(a + b, k + l) == Xored(a, k) + Xored(b, l)
  {
  }

  /** A stretch of the key stream. */
  function Stretch(stream: nat -> byte, at: nat, n: nat): (s: seq<byte>)
    ensures |s| == n && forall i: nat :: i < n ==> s[i] == stream(at + i)
  {
    seq(n, i requires 0 <= i < n => stream(at + i))
  }

  lemma {:induction false} TransformIsXored(stream: nat -> byte, at: nat, data: seq<byte>)
    ensures Transform(stream, at, data) == Xored(data, Stretch(stream, at, |data|))
  {
    forall i | 0 <= i < |data|
      ensures Transform(stream, at, data)[i] == Xored(data, Stretch(stream, at, |data|))[i]
    {
      TransformAt(stream, at, data, i);
    }
  }

  // ----- blocks of the key stream

  /** n·s, the bytes of n blocks. */
  function Span(n: nat, s: nat): nat {
    if n == 0 then 0 else Span(n - 1, s) + s
  }

  lemma {:induction false} SpanAdd(n: nat, m: nat, s: nat, total: nat)
    requires total == n + m
    ensures Span(total, s) == Span(n, s) + Span(m, s)
  {
    if m != 0 { SpanAdd(n, m - 1, s, total - 1); }
  }

  lemma {:induction false} SpanIsProduct(n: nat, s: nat)
    ensures Span(n, s) == n * s
  {
    if n != 0 {
      SpanIsProduct(n - 1, s);
      assert n * s == (n - 1) * s + s;
    }
  }

  /** The counter k blocks after the first. */
  function Counter(iv: seq<byte>, k: nat): (counter: seq<byte>)
    ensures |counter| == |iv|
  {
    BigEndian(Value(iv) + k, |iv|)
  }

  function KeyBlock(c: Cipher, iv: seq<byte>, k: nat): (b: seq<byte>)
    requires c.Valid() && |iv| == c.blockSize
    ensures |b| == c.blockSize
  {
    c.encrypt(Counter(iv, k))
  }

  /** Blocks k to k + n - 1. */
  function KeyText(c: Cipher, iv: seq<byte>, k: nat, n: nat): (t: seq<byte>)
    requires c.Valid() && |iv| == c.blockSize
    ensures |t| == Span(n, c.blockSize)
  {
    if n == 0 then [] else KeyText(c, iv, k, n - 1) + KeyBlock(c, iv, k + n - 1)
  }

  lemma {:induction false} KeyTextLast(c: Cipher, iv: seq<byte>, k: nat, n: nat, last: nat)
    requires c.Valid() && |iv| == c.blockSize && n > 0 && last == k + n - 1
    ensures KeyText(c, iv, k, n) == KeyText(c, iv, k, n - 1) + KeyBlock(c, iv, last)
  {
  }

  lemma {:induction false} KeyTextConcat(c: Cipher, iv: seq<byte>, k: nat, n: nat, m: nat, total: nat)
    requires c.Valid() && |iv| == c.blockSize && total == n + m
    ensures KeyText(c, iv, k, total) == KeyText(c, iv, k, n) + KeyText(c, iv, k + n, m)
  {
    if m == 0 {
      assert KeyText(c, iv, k, n) + [] == KeyText(c, iv, k, n);
    } else {
      var last := k + total - 1;
      KeyTextConcat(c, iv, k, n, m - 1, total - 1);
      KeyTextLast(c, iv, k, total, last);
      KeyTextLast(c, iv, k + n, m, last);
      Regrouped(KeyText(c, iv, k, n), KeyText(c, iv, k + n, m - 1), KeyBlock(c, iv, last));
    }
  }

  /** Position and block: p = q·s + i. */
  lemma {:induction false} QuotientOf(p: nat, q: nat, s: nat, i: nat)
    requires s > 0 && p == Span(q, s) + i && i < s
    ensures p / s == q && p % s == i
  {
    SpanIsProduct(q, s);
    var d := p / s - q;
    assert d * s == i - p % s by {
      assert p == (p / s) * s + p % s;
      assert d * s == (p / s) * s - q * s;
    }
    MulSign(d, s);
  }

  lemma {:induction false} StreamAt(c: Cipher, iv: seq<byte>, k: nat, i: nat, p: nat)
    requires c.Valid() && |iv| == c.blockSize && i < c.blockSize && p == Span(k, c.blockSize) + i
    ensures KeyStream(c, iv)(p) == KeyBlock(c, iv, k)[i]
  {
    QuotientOf(p, k, c.blockSize, i);
  }

  lemma {:induction false} KeyBlockIsStretch(c: Cipher, iv: seq<byte>, k: nat, at: nat)
    requires c.Valid() && |iv| == c.blockSize && at == Span(k, c.blockSize)
    ensures KeyBlock(c, iv, k) == Stretch(KeyStream(c, iv), at, c.blockSize)
  {
    forall i: nat | i < c.blockSize ensures KeyBlock(c, iv, k)[i] == KeyStream(c, iv)(at + i) {
      StreamAt(c, iv, k, i, at + i);
    }
  }

  lemma {:induction false} StretchConcat(stream: nat -> byte, at: nat, n: nat, m: nat, next: nat, total: nat)
    requires next == at + n && total == n + m
    ensures Stretch(stream, at, n) + Stretch(stream, next, m) == Stretch(stream, at, total)
  {
  }

  /** Whole blocks are a stretch of the key stream. */
  lemma {:induction false} KeyTextIsStretch(c: Cipher, iv: seq<byte>, k: nat, n: nat, at: nat)
    requires c.Valid() && |iv| == c.blockSize && at == Span(k, c.blockSize)
    ensures KeyText(c, iv, k, n) == Stretch(KeyStream(c, iv), at, Span(n, c.blockSize))
  {
    if n != 0 {
      var s := c.blockSize;
      KeyTextIsStretch(c, iv, k, n - 1, at);
      SpanAdd(k, n - 1, s, k + n - 1);
      KeyBlockIsStretch(c, iv, k + n - 1, Span(k + n - 1, s));
      StretchConcat(KeyStream(c, iv), at, Span(n - 1, s), s, Span(k + n - 1, s), Span(n, s));
    }
  }

  // ----- the counter

  /** Adding to the digits of a number is adding to the number, as far as there are digits. */
  lemma {:induction false} AddToDigits(w: nat, x: nat, total: nat, n: nat)
    requires total == w + x
    ensures BigEndian(Value(BigEndian(w, n)) + x, n) == BigEndian(total, n)
  {
    if n != 0 {
      var high := BigEndian(w / 256, n - 1);
      var sum := w % 256 + x;
      ValuePair(high, w % 256);
      AddToDigits(w / 256, sum / 256, w / 256 + sum / 256, n - 1);
      SameLow(Value(BigEndian(w, n)) + x, total, Value(high), w / 256, sum, n);
    }
  }

  lemma {:induction false} SameLow(a: nat, b: nat, high: nat, high': nat, sum: nat, n: nat)
    requires n > 0 && a == 256 * high + sum && b == 256 * high' + sum
    requires BigEndian(high + sum / 256, n - 1) == BigEndian(high' + sum / 256, n - 1)
    ensures BigEndian(a, n) == BigEndian(b, n)
  {
    SplitDigit(a, high, sum);
    SplitDigit(b, high', sum);
    LastDigit(a, high + sum / 256, n - 1, n);
    LastDigit(b, high' + sum / 256, n - 1, n);
  }

  /** The counter with `blocks` more in its last byte. */
  function Bumped(counter: seq<byte>, blocks: nat): (r: seq<byte>)
    requires |counter| > 0
    ensures |r| == |counter|
  {
    var last: int := counter[|counter| - 1];
    counter[|counter| - 1 := (last + blocks) % 256]
  }

  /** Up to the end of the last byte's range no other byte changes. */
  lemma {:induction false} BumpedDigits(v: nat, blocks: nat, n: nat, counter: seq<byte>)
    requires n > 0 && counter == BigEndian(v, n) && v % 256 + blocks < 256
    ensures Bumped(counter, blocks) == BigEndian(v + blocks, n)
  {
    SplitDigit(v, v / 256, v % 256);
    SplitDigit(v + blocks, v / 256, v % 256 + blocks);
    LastDigit(v, v / 256, n - 1, n);
    LastDigit(v + blocks, v / 256, n - 1, n);
  }

  /** And where the range ends the carry goes into the other bytes. */
  lemma {:induction false} CarriedDigits(v: nat, blocks: nat, n: nat, counter: seq<byte>)
    requires n > 0 && counter == BigEndian(v, n) && v % 256 + blocks == 256
    ensures Bumped(counter, blocks)[n - 1] == 0
    ensures BigEndian(Value(Bumped(counter, blocks)[..n - 1]) + 1, n - 1) + Bumped(counter, blocks)[n - 1..] ==
            BigEndian(v + blocks, n)
  {
    var high := BigEndian(v / 256, n - 1);
    SplitDigit(v, v / 256, v % 256);
    LastDigit(v, v / 256, n - 1, n);
    NextTurn(v, blocks, n);
    BumpedToZero(high, v % 256, blocks);
  }

  lemma {:induction false} NextTurn(v: nat, blocks: nat, n: nat)
    requires n > 0 && v % 256 + blocks == 256
    ensures BigEndian(Value(BigEndian(v / 256, n - 1)) + 1, n - 1) + [0] == BigEndian(v + blocks, n)
  {
    SplitDigit(v + blocks, v / 256, 256);
    LastDigit(v + blocks, v / 256 + 1, n - 1, n);
    AddToDigits(v / 256, 1, v / 256 + 1, n - 1);
  }

  lemma {:induction false} BumpedToZero(high: seq<byte>, last: nat, blocks: nat)
    requires last < 256 && last + blocks == 256
    ensures Bumped(high + [last], blocks) == high + [0]
    ensures (high + [0])[..|high|] == high && (high + [0])[|high|..] == [0]
  {
  }

  // ----- many blocks at once

  /** The enciphered counters, with n counted up in the last byte. */
  function CounterText(c: Cipher, counter: seq<byte>, n: nat): (t: seq<byte>)
    requires c.Valid() && |counter| == c.blockSize
    ensures |t| == Span(n, c.blockSize)
  {
    if n == 0 then [] else CounterText(c, counter, n - 1) + c.encrypt(Bumped(counter, n - 1))
  }

  /** Without carry these are blocks of the key stream. */
  lemma {:induction false} CounterTextIsKeyText(c: Cipher, iv: seq<byte>, counter: seq<byte>, k: nat, n: nat)
    requires c.Valid() && |iv| == c.blockSize && counter == Counter(iv, k)
    requires (Value(iv) + k) % 256 + n <= 256
    ensures CounterText(c, counter, n) == KeyText(c, iv, k, n)
  {
    if n != 0 {
      CounterTextIsKeyText(c, iv, counter, k, n - 1);
      BumpedDigits(Value(iv) + k, n - 1, |iv|, counter);
      SameBlock(c, iv, Value(iv) + k + (n - 1), k + n - 1);
    }
  }

  lemma {:induction false} SameBlock(c: Cipher, iv: seq<byte>, v: nat, k: nat)
    requires c.Valid() && |iv| == c.blockSize && v == Value(iv) + k
    ensures c.encrypt(BigEndian(v, |iv|)) == KeyBlock(c, iv, k)
  {
  }

  /** What comes out: the key itself, or the input under it. */
  function Masked(input: Option<seq<byte>>, key: seq<byte>): (r: seq<byte>)
    requires input.Some? ==> |input.value| == |key|
    ensures |r| == |key|
  {
    if input.None? then key else Xored(input.value, key)
  }

  function Part(input: Option<seq<byte>>, from: nat, to: nat): Option<seq<byte>>
    requires input.Some? ==> from <= to <= |input.value|
  {
    if input.None? then None else Some(input.value[from..to])
  }

  lemma {:induction false} MaskedMore(input: Option<seq<byte>>, a: nat, b: nat, key: seq<byte>, more: seq<byte>)
    requires input.Some? ==> b <= |input.value|
    requires |key| == a && |more| == b - a >= 0
    ensures Masked(Part(input, 0, b), key + more) == Masked(Part(input, 0, a), key) + Masked(Part(input, a, b), more)
  {
    if input.Some? {
      assert input.value[0..b] == input.value[0..a] + input.value[a..b];
      XoredConcat(input.value[0..a], input.value[a..b], key, more);
    }
  }

  /** n blocks have come out. */
  ghost predicate BlocksOut(c: Cipher, counter: seq<byte>, xorBlocks: Option<seq<byte>>, n: nat, size: nat,
                            output: seq<byte>, counter': seq<byte>)
    requires c.Valid() && |counter| == c.blockSize
  {
    && size == Span(n, c.blockSize) == |output| && (xorBlocks.Some? ==> size <= |xorBlocks.value|)
    && output == Masked(Part(xorBlocks, 0, size), CounterText(c, counter, n))
    && counter' == Bumped(counter, n)
  }

  lemma {:induction false} NoBlocksOut(c: Cipher, counter: seq<byte>, xorBlocks: Option<seq<byte>>)
    requires c.Valid() && |counter| == c.blockSize
    ensures BlocksOut(c, counter, xorBlocks, 0, 0, [], counter)
  {
    BumpedNone(counter);
  }

  lemma {:induction false} BlockOut(c: Cipher, counter: seq<byte>, xorBlocks: Option<seq<byte>>, n: nat, size: nat,
                                    next: nat, output: seq<byte>, counter': seq<byte>)
    requires c.Valid() && |counter| == c.blockSize && BlocksOut(c, counter, xorBlocks, n, size, output, counter')
    requires next == size + c.blockSize && (xorBlocks.Some? ==> next <= |xorBlocks.value|)
    ensures |counter'| == |c.encrypt(counter')| == c.blockSize
    ensures BlocksOut(c, counter, xorBlocks, n + 1, next,
                      output + Masked(Part(xorBlocks, size, next), c.encrypt(counter')), Bumped(counter', 1))
  {
    MaskedMore(xorBlocks, size, next, CounterText(c, counter, n), c.encrypt(counter'));
    BumpedAgain(counter, n);
  }

  /** `AdvancedProcessBlocks` with the input block as a counter and the output xored with the
      other input, if there is one: it counts in the last byte. */
  method ProcessCounterBlocks(c: Cipher, counter: seq<byte>, xorBlocks: Option<seq<byte>>, length: nat)
    returns (output: seq<byte>, counter': seq<byte>, leftOver: nat, ghost n: nat)
    requires c.Valid() && |counter| == c.blockSize && (xorBlocks.Some? ==> |xorBlocks.value| == length)
    ensures leftOver <= length && leftOver < c.blockSize
    ensures BlocksOut(c, counter, xorBlocks, n, length - leftOver, output, counter')
  {
    var s, at := c.blockSize, 0;
    output, counter', leftOver, n := [], counter, length, 0;
    NoBlocksOut(c, counter, xorBlocks);
    while leftOver >= s
      invariant at + leftOver == length && BlocksOut(c, counter, xorBlocks, n, at, output, counter')
    {
      var next := at + s;
      BlockOut(c, counter, xorBlocks, n, at, next, output, counter');
      output := output + Masked(Part(xorBlocks, at, next), c.encrypt(counter'));
      counter' := Bumped(counter', 1);
      at, leftOver, n := next, leftOver - s, n + 1;
    }
  }

  /** Whole blocks in, whole blocks out. */
  lemma {:induction false} AllBlocksOut(c: Cipher, iv: seq<byte>, k: nat, counter: seq<byte>,
                                        input: Option<seq<byte>>, blocks: nat, n: nat, length: nat, leftOver: nat,
                                        output: seq<byte>, counter': seq<byte>)
    requires c.Valid() && |iv| == |counter| == c.blockSize && counter == Counter(iv, k)
    requires length == Span(blocks, c.blockSize) && leftOver <= length && leftOver < c.blockSize
    requires input.Some? ==> |input.value| == length
    requires (Value(iv) + k) % 256 + blocks <= 256
    requires BlocksOut(c, counter, input, n, length - leftOver, output, counter')
    ensures leftOver == 0 && output == Masked(input, KeyText(c, iv, k, blocks)) && counter' == Bumped(counter, blocks)
  {
    QuotientOf(length, blocks, c.blockSize, 0);
    QuotientOf(length, n, c.blockSize, leftOver);
    WholePart(input, length);
    CounterTextIsKeyText(c, iv, counter, k, blocks);
  }

  lemma {:induction false} WholePart(input: Option<seq<byte>>, length: nat)
    requires input.Some? ==> |input.value| == length
    ensures Part(input, 0, length) == input
  {
    if input.Some? {
      assert input.value[0..length] == input.value;
    }
  }

  lemma {:induction false} CounterMoved(v: nat, blocks: nat, moved: nat, n: nat, counter: seq<byte>,
                                        counter': seq<byte>)
    requires moved == v + blocks && n > 0 && counter == BigEndian(v, n) && blocks > 0 && v % 256 + blocks <= 256
    requires counter' == Bumped(counter, blocks)
    ensures counter'[n - 1] == 0 ==>
              BigEndian(Value(counter'[..n - 1]) + 1, n - 1) + counter'[n - 1..] == BigEndian(moved, n)
    ensures counter'[n - 1] != 0 ==> counter' == BigEndian(moved, n)
  {
    LastDigit(v, v / 256, n - 1, n);
    if v % 256 + blocks == 256 {
      CarriedDigits(v, blocks, n, counter);
    } else {
      BumpedDigits(v, blocks, n, counter);
    }
  }

  lemma {:induction false} BumpedNone(counter: seq<byte>)
    requires |counter| > 0
    ensures Bumped(counter, 0) == counter
  {
  }

  lemma {:induction false} BumpedAgain(counter: seq<byte>, n: nat)
    requires |counter| > 0
    ensures Bumped(Bumped(counter, n), 1) == Bumped(counter, n + 1)
  {
  }

  method IncrementCounterBy256(counter: seq<byte>) returns (counter': seq<byte>)
    requires |counter| > 0
    ensures counter' == BigEndian(Value(counter[..|counter| - 1]) + 1, |counter| - 1) + counter[|counter| - 1..]
  {
    counter' := IncrementCounterByOne(counter, |counter| - 1);
  }

  /** As many blocks as the last byte of the counter can count. */
  method OperateSome(c: Cipher, iv: seq<byte>, ghost k: nat, counter: seq<byte>, input: Option<seq<byte>>,
                     blocks: nat, ghost next: nat)
    returns (output: seq<byte>, counter': seq<byte>)
    requires c.Valid() && |iv| == c.blockSize && counter == Counter(iv, k)
    requires 1 <= blocks <= 256 - counter[c.blockSize - 1] as int && next == k + blocks
    requires input.Some? ==> |input.value| == Span(blocks, c.blockSize)
    ensures counter' == Counter(iv, next)
    ensures output == Masked(input, KeyText(c, iv, k, blocks))
  {
    ghost var v := Value(iv) + k;
    var leftOver; ghost var n;
    LastDigit(v, v / 256, c.blockSize - 1, c.blockSize);
    output, counter', leftOver, n := ProcessCounterBlocks(c, counter, input, Span(blocks, c.blockSize));
    AllBlocksOut(c, iv, k, counter, input, blocks, n, Span(blocks, c.blockSize), leftOver, output, counter');
    CounterMoved(v, blocks, Value(iv) + next, c.blockSize, counter, counter');
    if counter'[c.blockSize - 1] == 0 {
      counter' := IncrementCounterBy256(counter');
    }
  }

  /** n blocks have been used. */
  ghost predicate Operated(c: Cipher, iv: seq<byte>, k: nat, n: nat, input: Option<seq<byte>>, at: nat,
                           counter: seq<byte>, output: seq<byte>)
    requires c.Valid() && |iv| == c.blockSize
  {
    && at == Span(n, c.blockSize) && (input.Some? ==> at <= |input.value|)
    && counter == Counter(iv, k + n)
    && output == Masked(Part(input, 0, at), KeyText(c, iv, k, n))
  }

  lemma {:induction false} OperatedNone(c: Cipher, iv: seq<byte>, k: nat, input: Option<seq<byte>>)
    requires c.Valid() && |iv| == c.blockSize
    ensures Operated(c, iv, k, 0, input, 0, Counter(iv, k), [])
  {
  }

  lemma {:induction false} OperatedMore(c: Cipher, iv: seq<byte>, k: nat, n: nat, input: Option<seq<byte>>, at: nat,
                                        counter: seq<byte>, output: seq<byte>, blocks: nat, total: nat, next: nat,
                                        some: seq<byte>, counter': seq<byte>, output': seq<byte>)
    requires c.Valid() && |iv| == c.blockSize && Operated(c, iv, k, n, input, at, counter, output)
    requires next == at + Span(blocks, c.blockSize) && (input.Some? ==> next <= |input.value|) && total == n + blocks
    requires some == Masked(Part(input, at, next), KeyText(c, iv, k + n, blocks))
    requires counter' == Counter(iv, k + total) && output' == output + some
    ensures Operated(c, iv, k, total, input, next, counter', output')
  {
    SpanAdd(n, blocks, c.blockSize, total);
    KeyTextConcat(c, iv, k, n, blocks, total);
    MaskedMore(input, at, next, KeyText(c, iv, k, n), KeyText(c, iv, k + n, blocks));
  }

  /** The loop of `OperateKeystream`. */
  method Operate(c: Cipher, iv: seq<byte>, ghost k: nat, counter: seq<byte>, input: Option<seq<byte>>,
                 iterationCount: nat)
    returns (output: seq<byte>, counter': seq<byte>)
    requires c.Valid() && |iv| == c.blockSize && counter == Counter(iv, k)
    requires input.Some? ==> |input.value| == Span(iterationCount, c.blockSize)
    ensures counter' == Counter(iv, k + iterationCount)
    ensures output == Masked(input, KeyText(c, iv, k, iterationCount))
  {
    var at: nat, rest: nat := 0, iterationCount;
    output, counter' := [], counter;
    ghost var n := 0;
    OperatedNone(c, iv, k, input);
    while rest != 0
      invariant n + rest == iterationCount && Operated(c, iv, k, n, input, at, counter', output)
    {
      var lsb: int := counter'[c.blockSize - 1];
      var blocks := if rest < 256 - lsb then rest else 256 - lsb;
      var next := at + Span(blocks, c.blockSize);
      MoreBlocks(n, blocks, rest, c.blockSize, at, next, iterationCount);
      ghost var before, sofar, total := counter', output, n + blocks;
      var some;
      some, counter' := OperateSome(c, iv, k + n, counter', Part(input, at, next), blocks, k + total);
      output := output + some;
      OperatedMore(c, iv, k, n, input, at, before, sofar, blocks, total, next, some, counter', output);
      at, rest, n := next, rest - blocks, total;
    }
    WholePart(input, at);
  }

  lemma {:induction false} MoreBlocks(n: nat, blocks: nat, rest: nat, s: nat, at: nat, next: nat, total: nat)
    requires n + rest == total && blocks <= rest && at == Span(n, s) && next == at + Span(blocks, s)
    ensures next == Span(n + blocks, s) && next <= Span(total, s)
  {
    SpanAdd(n, blocks, s, n + blocks);
    SpanAdd(n + blocks, rest - blocks, s, total);
  }

  // ----- the buffer of what is left of a block

  /** A division, in blocks. */
  lemma {:induction false} BlocksIn(x: nat, s: nat, q: nat)
    requires s > 0 && q == x / s
    ensures Span(q, s) <= x < Span(q, s) + s
  {
    SpanIsProduct(q, s);
    assert x == q * s + x % s;
  }

  /** `RoundUpToMultipleOf`, in blocks. */
  lemma {:induction false} BlocksUpTo(x: nat, s: nat, q: nat)
    requires s > 0 && x > 0 && q == (x + s - 1) / s
    ensures q > 0 && x <= Span(q, s) < x + s
  {
    BlocksIn(x + s - 1, s, q);
  }

  lemma {:induction false} SpanWithin(q: nat, n: nat, s: nat, x: nat)
    requires x <= Span(n, s) && Span(q, s) < x + s
    ensures Span(q, s) <= Span(n, s)
  {
    if q > n {
      assert Span(q - n, s) >= s;
      SpanAdd(n, q - n, s, q);
    } else {
      SpanAdd(q, n - q, s, n);
    }
  }

  /** The end of the buffer is the stretch of the key stream from `at` on. */
  ghost predicate Holds(buffer: seq<byte>, leftOver: nat, stream: nat -> byte, at: nat) {
    leftOver <= |buffer| && buffer[|buffer| - leftOver..] == Stretch(stream, at, leftOver)
  }

  lemma {:induction false} UseBuffered(buffer: seq<byte>, leftOver: nat, stream: nat -> byte, at: nat,
                                       data: seq<byte>, from: nat, to: nat, leftOver': nat, at': nat)
    requires Holds(buffer, leftOver, stream, at) && |data| <= leftOver
    requires from == |buffer| - leftOver && to == from + |data| && leftOver' == leftOver - |data| && at' == at + |data|
    ensures Xored(data, buffer[from..to]) == Transform(stream, at, data)
    ensures Holds(buffer, leftOver', stream, at')
  {
    assert buffer[from..to] == buffer[from..][..|data|];
    assert buffer[to..] == buffer[from..][|data|..];
    StretchParts(stream, at, |data|, leftOver);
    TransformIsXored(stream, at, data);
  }

  lemma {:induction false} HoldsNothing(buffer: seq<byte>, stream: nat -> byte, at: nat)
    ensures Holds(buffer, 0, stream, at)
  {
  }

  lemma {:induction false} CounterZero(iv: seq<byte>)
    ensures Counter(iv, 0) == iv
  {
    ValueBytes(iv);
  }

  lemma {:induction false} StretchParts(stream: nat -> byte, at: nat, n: nat, total: nat)
    requires n <= total
    ensures Stretch(stream, at, total)[..n] == Stretch(stream, at, n)
    ensures Stretch(stream, at, total)[n..] == Stretch(stream, at + n, total - n)
  {
  }

  /** One more piece of the data. */
  lemma {:induction false} NextPiece(data: seq<byte>, from: nat, to: nat, stream: nat -> byte, at: nat)
    requires from <= to <= |data|
    ensures Transform(stream, at, data[..to]) ==
            Transform(stream, at, data[..from]) + Transform(stream, at + from, data[from..to])
  {
    assert data[..to] == data[..from] + data[from..to];
    TransformConcat(stream, at, data[..from], data[from..to]);
  }

  lemma {:induction false} InTwo(data: seq<byte>, n: nat, stream: nat -> byte, at: nat)
    requires n <= |data|
    ensures Transform(stream, at, data) == Transform(stream, at, data[..n]) + Transform(stream, at + n, data[n..])
    ensures n == |data| ==> data[..n] == data
  {
    assert data == data[..n] + data[n..];
    TransformConcat(stream, at, data[..n], data[n..]);
  }

  /** Key written to the end of the buffer. */
  function WithEnd(buffer: seq<byte>, key: seq<byte>): (r: seq<byte>)
    requires |key| <= |buffer|
    ensures |r| == |buffer| && r[|buffer| - |key|..] == key
  {
    buffer[..|buffer| - |key|] + key
  }

  class CTR_Mode {
    const cipher: Cipher
    const canOperateKeystream: bool
    const iterationsToBuffer: nat
    var register: seq<byte>
    var counterArray: seq<byte>
    var buffer: seq<byte>
    var leftOver: nat
    ghost var iteration: nat
    ghost var position: nat

    ghost predicate Set() {
      cipher.Valid() && iterationsToBuffer >= 1
    }

    /** The counter stands at the next block to encipher. */
    ghost predicate Counts()
      reads this
    {
      && Set() && |register| == cipher.blockSize
      && counterArray == Counter(register, iteration)
    }

    ghost function Stream(): nat -> byte
      requires Counts()
      reads this
    {
      KeyStream(cipher, register)
    }

    /** The end of the buffer holds the bytes of the key stream up to the next block. */
    ghost predicate Valid()
      reads this
    {
      && Counts() && |buffer| == Span(iterationsToBuffer, cipher.blockSize)
      && position + leftOver == Span(iteration, cipher.blockSize)
      && Holds(buffer, leftOver, Stream(), position)
    }

    // ----- modes.cpp

    /** The counter for any block, from the register and 64 bits of iteration count. */
    method SeekToIteration(iterationCount: nat)
      requires Set() && |register| == |counterArray| == cipher.blockSize && iterationCount < WORD64
      modifies `counterArray, `iteration
      ensures Counts() && iteration == iterationCount
    {
      ghost var total, done: seq<byte> := BigEndian(Value(register) + iterationCount, |register|), [];
      var i, carry, rest := |register| - 1, 0, iterationCount;
      assert register[..|register|] == register && total + [] == total;
      while i >= 0
        invariant -1 <= i < |register| == |counterArray| && carry >= 0
        invariant done == counterArray[i + 1..] && Adding(total, register, i + 1, rest, carry, done)
        modifies `counterArray
      {
        var digit: int := register[i];
        var sum := digit + rest % 256 + carry;
        AddingStep(total, register, i, rest, carry, done, digit, sum);
        counterArray := counterArray[i := sum % 256];
        done := [sum % 256] + done;
        carry, rest := sum / 256, rest / 256;
        i := i - 1;
      }
      iteration := iterationCount;
    }

    method OperateKeystream(input: Option<seq<byte>>, iterationCount: nat) returns (output: seq<byte>)
      requires Counts() && (input.Some? ==> |input.value| == Span(iterationCount, cipher.blockSize))
      modifies `counterArray, `iteration
      ensures Counts() && iteration == old(iteration) + iterationCount
      ensures output == Masked(input, KeyText(cipher, register, old(iteration), iterationCount))
    {
      output, counterArray := Operate(cipher, register, iteration, counterArray, input, iterationCount);
      iteration := iteration + iterationCount;
    }

    // ----- strciphr.cpp

    /** Key for whole blocks at the end of the buffer. */
    method WriteKeystream(iterationCount: nat, ghost at: nat, ghost size: nat)
      requires Counts() && size == Span(iterationCount, cipher.blockSize) <= |buffer|
      requires at == Span(iteration, cipher.blockSize)
      modifies `counterArray, `iteration, `buffer
      ensures Counts() && iteration == old(iteration) + iterationCount && |buffer| == old(|buffer|)
      ensures Holds(buffer, size, Stream(), at)
    {
      KeyTextIsStretch(cipher, register, iteration, iterationCount, at);
      var key := OperateKeystream(None, iterationCount);
      buffer := WithEnd(buffer, key);
    }

    method UseLeftOver(data: seq<byte>) returns (output: seq<byte>)
      requires Valid() && |data| <= leftOver
      modifies `leftOver, `position
      ensures Valid() && position == old(position) + |data| && leftOver == old(leftOver) - |data|
      ensures output == Transform(Stream(), old(position), data)
    {
      var from, rest := |buffer| - leftOver, leftOver - |data|;
      ghost var next := position + |data|;
      UseBuffered(buffer, leftOver, Stream(), position, data, from, from + |data|, rest, next);
      output := Xored(data, buffer[from..from + |data|]);
      leftOver, position := rest, next;
    }

    /** Whole blocks, without the buffer. */
    method OperateBlocks(data: seq<byte>, iterations: nat) returns (output: seq<byte>)
      requires Valid() && leftOver == 0 && |data| == Span(iterations, cipher.blockSize)
      modifies `counterArray, `iteration, `position
      ensures Valid() && position == old(position) + |data|
      ensures output == Transform(Stream(), old(position), data)
    {
      KeyTextIsStretch(cipher, register, iteration, iterations, position);
      TransformIsXored(Stream(), position, data);
      SpanAdd(iteration, iterations, cipher.blockSize, iteration + iterations);
      output := OperateKeystream(Some(data), iterations);
      position := position + |data|;
    }

    /** Key for whole blocks at the end of the buffer. */
    method FillBuffer(iterations: nat)
      requires Valid() && leftOver == 0 && Span(iterations, cipher.blockSize) <= |buffer|
      modifies `counterArray, `iteration, `buffer, `leftOver
      ensures Valid() && leftOver == Span(iterations, cipher.blockSize)
    {
      SpanAdd(iteration, iterations, cipher.blockSize, iteration + iterations);
      WriteKeystream(iterations, position, Span(iterations, cipher.blockSize));
      leftOver := Span(iterations, cipher.blockSize);
    }

    /** A piece that fits into the buffer: as many blocks as it needs are written there. */
    method UseBuffer(data: seq<byte>, iterations: nat) returns (output: seq<byte>)
      requires Valid() && leftOver == 0 && |data| <= Span(iterations, cipher.blockSize) <= |buffer|
      modifies `counterArray, `iteration, `buffer, `leftOver, `position
      ensures Valid() && position == old(position) + |data| && leftOver == Span(iterations, cipher.blockSize) - |data|
      ensures output == Transform(Stream(), old(position), data)
    {
      FillBuffer(iterations);
      output := UseLeftOver(data);
    }

    /** What was left of a block is used up first. */
    method ProcessLeftOver(data: seq<byte>) returns (output: seq<byte>)
      requires Valid()
      modifies `leftOver, `position
      ensures Valid() && |output| <= |data| && position == old(position) + |output|
      ensures output == Transform(Stream(), old(position), data[..|output|])
      ensures leftOver == 0 || |output| == |data|
    {
      output := [];
      if leftOver > 0 {
        var len := if leftOver < |data| then leftOver else |data|;
        output := UseLeftOver(data[..len]);
      }
    }

    /** Then the whole blocks, if the policy can do without the buffer. */
    method ProcessBlocks(data: seq<byte>) returns (output: seq<byte>)
      requires Valid() && leftOver == 0
      modifies `counterArray, `iteration, `position
      ensures Valid() && |output| <= |data| && position == old(position) + |output|
      ensures output == Transform(Stream(), old(position), data[..|output|])
      ensures canOperateKeystream ==> |data| - |output| < cipher.blockSize
    {
      output := [];
      if canOperateKeystream && |data| >= cipher.blockSize {
        var iterations := |data| / cipher.blockSize;
        BlocksIn(|data|, cipher.blockSize, iterations);
        output := OperateBlocks(data[..Span(iterations, cipher.blockSize)], iterations);
      }
    }

    /** Whole buffers, */
    method ProcessBuffers(data: seq<byte>) returns (output: seq<byte>)
      requires Valid() && leftOver == 0
      modifies `counterArray, `iteration, `buffer, `leftOver, `position
      ensures Valid() && leftOver == 0 && |output| <= |data| && position == old(position) + |output|
      ensures output == Transform(Stream(), old(position), data[..|output|])
      ensures |data| - |output| < |buffer|
    {
      output := [];
      while |data| - |output| >= |buffer|
        invariant Valid() && leftOver == 0 && |output| <= |data| && position == old(position) + |output|
        invariant output == Transform(Stream(), old(position), data[..|output|])
        decreases |data| - |output|
      {
        var next := |output| + |buffer|;
        NextPiece(data, |output|, next, Stream(), old(position));
        var piece := UseBuffer(data[|output|..next], iterationsToBuffer);
        output := output + piece;
      }
    }

    /** and what remains, from the end of the buffer. */
    method ProcessRest(data: seq<byte>) returns (output: seq<byte>)
      requires Valid() && leftOver == 0 && |data| < |buffer|
      modifies `counterArray, `iteration, `buffer, `leftOver, `position
      ensures Valid() && position == old(position) + |data|
      ensures output == Transform(Stream(), old(position), data)
    {
      output := [];
      if |data| > 0 {
        var iterations := (|data| + cipher.blockSize - 1) / cipher.blockSize;
        BlocksUpTo(|data|, cipher.blockSize, iterations);
        SpanWithin(iterations, iterationsToBuffer, cipher.blockSize, |data|);
        output := UseBuffer(data, iterations);
      }
    }

    /** What goes through the buffer. */
    method ProcessBuffered(data: seq<byte>) returns (output: seq<byte>)
      requires Valid() && leftOver == 0
      modifies `counterArray, `iteration, `buffer, `leftOver, `position
      ensures Valid() && position == old(position) + |data|
      ensures output == Transform(Stream(), old(position), data)
    {
      output := ProcessBuffers(data);
      InTwo(data, |output|, Stream(), old(position));
      var rest := ProcessRest(data[|output|..]);
      output := output + rest;
    }

    /** What needs new blocks. */
    method ProcessMore(data: seq<byte>) returns (output: seq<byte>)
      requires Valid() && leftOver == 0
      modifies `counterArray, `iteration, `buffer, `leftOver, `position
      ensures Valid() && position == old(position) + |data|
      ensures output == Transform(Stream(), old(position), data)
    {
      output := ProcessBlocks(data);
      InTwo(data, |output|, Stream(), old(position));
      if |output| == |data| { return; }
      var more := ProcessBuffered(data[|output|..]);
      output := output + more;
    }

    /** The data under the key stream from the current position on. */
    method ProcessData(data: seq<byte>) returns (output: seq<byte>)
      requires Valid()
      modifies `counterArray, `iteration, `buffer, `leftOver, `position
      ensures Valid() && position == old(position) + |data|
      ensures output == Transform(Stream(), old(position), data)
    {
      output := ProcessLeftOver(data);
      InTwo(data, |output|, Stream(), old(position));
      if |output| == |data| { return; }
      var more := ProcessMore(data[|output|..]);
      output := output + more;
    }

    /** The same key stream from any position below 2^64. */
    method Seek(newPosition: nat)
      requires Valid() && newPosition < WORD64
      modifies `counterArray, `iteration, `buffer, `leftOver, `position
      ensures Valid() && position == newPosition
    {
      var s := cipher.blockSize;
      BlocksIn(newPosition, s, newPosition / s);
      SeekToIteration(newPosition / s);
      leftOver, position := 0, Span(iteration, s);
      Skip(newPosition - Span(newPosition / s, s), newPosition);
    }

    /** The first bytes of a block are passed over. */
    method Skip(offset: nat, ghost newPosition: nat)
      requires Valid() && leftOver == 0 && offset < cipher.blockSize && newPosition == position + offset
      modifies `counterArray, `iteration, `buffer, `leftOver, `position
      ensures Valid() && position == newPosition
    {
      if offset > 0 {
        assert Span(1, cipher.blockSize) == cipher.blockSize;
        SpanWithin(1, iterationsToBuffer, cipher.blockSize, 1);
        FillBuffer(1);
        var rest := cipher.blockSize - offset;
        ghost var from := |buffer| - leftOver;
        UseBuffered(buffer, leftOver, Stream(), position, Zeros(offset), from, from + offset, rest, newPosition);
        leftOver := rest;
      }
      position := newPosition;
    }

    /** A new initialisation vector, all zeros if there is none; one of another length is refused
        after what was left of the last block has been thrown away. */
    method Resynchronize(iv: Option<seq<byte>>) returns (ok: bool)
      requires Valid()
      modifies `register, `counterArray, `iteration, `leftOver, `position
      ensures Valid() && (ok <==> iv.None? || |iv.value| == cipher.blockSize)
      ensures ok ==> position == 0 && register == if iv.None? then Zeros(cipher.blockSize) else iv.value
      ensures !ok ==> register == old(register) && position == old(position) + old(leftOver)
    {
      HoldsNothing(buffer, Stream(), position + leftOver);
      leftOver, position := 0, position + leftOver;
      ok := iv.None? || |iv.value| == cipher.blockSize;
      if ok {
        var first := if iv.None? then Zeros(cipher.blockSize) else iv.value;
        CounterZero(first);
        HoldsNothing(buffer, KeyStream(cipher, first), 0);
        register, counterArray := first, first;
        iteration, position := 0, 0;
      }
    }

    constructor (c: Cipher, canOperate: bool, iterations: nat, iv: seq<byte>)
      requires c.Valid() && iterations >= 1 && |iv| == c.blockSize
      ensures Valid() && position == 0 && register == iv && cipher == c
    {
      cipher, canOperateKeystream, iterationsToBuffer := c, canOperate, iterations;
      register, counterArray, buffer := iv, iv, Zeros(Span(iterations, c.blockSize));
      leftOver, iteration, position := 0, 0, 0;
      new;
      CounterZero(iv);
      HoldsNothing(buffer, KeyStream(cipher, iv), 0);
    }
  }

  // ----- main results

  /** However the data are cut up, the output is that of the whole. */
  method ProcessAll(ctr: CTR_Mode, pieces: seq<seq<byte>>) returns (output: seq<byte>)
    requires ctr.Valid()
    modifies ctr`counterArray, ctr`iteration, ctr`buffer, ctr`leftOver, ctr`position
    ensures ctr.Valid() && ctr.position == old(ctr.position) + |Concat(pieces)|
    ensures output == Transform(ctr.Stream(), old(ctr.position), Concat(pieces))
    decreases |pieces|
  {
    if |pieces| == 0 { return []; }
    var n := |pieces| - 1;
    var before := ProcessAll(ctr, pieces[..n]);
    output := ProcessPiece(ctr, old(ctr.position), Concat(pieces[..n]), before, pieces[n]);
  }

  /** One more piece behind those processed so far. */
  method ProcessPiece(ctr: CTR_Mode, ghost start: nat, ghost done: seq<byte>, before: seq<byte>, piece: seq<byte>)
    returns (output: seq<byte>)
    requires ctr.Valid() && ctr.position == start + |done| && before == Transform(ctr.Stream(), start, done)
    modifies ctr`counterArray, ctr`iteration, ctr`buffer, ctr`leftOver, ctr`position
    ensures ctr.Valid() && ctr.position == start + |done + piece|
    ensures output == Transform(ctr.Stream(), start, done + piece)
  {
    TransformConcat(ctr.Stream(), start, done, piece);
    var last := ctr.ProcessData(piece);
    output := before + last;
  }

  /** Any slice of what was enciphered in any pieces is deciphered by itself after a seek. */
  method DecryptSlice(c: Cipher, canOperate: bool, iterations: nat, iv: seq<byte>, pieces: seq<seq<byte>>,
                      from: nat, to: nat)
    returns (slice: seq<byte>)
    requires c.Valid() && iterations >= 1 && |iv| == c.blockSize
    requires from <= to <= |Concat(pieces)| && from < WORD64
    ensures slice == Concat(pieces)[from..to]
  {
    var encryption := new CTR_Mode(c, canOperate, iterations, iv);
    var sealed := ProcessAll(encryption, pieces);
    var decryption := new CTR_Mode(c, canOperate, iterations, iv);
    decryption.Seek(from);
    slice := decryption.ProcessData(sealed[from..to]);
    TransformSlice(KeyStream(c, iv), Concat(pieces), from, to);
    TransformTwice(KeyStream(c, iv), from, Concat(pieces)[from..to]);
  }

  lemma {:induction false} TransformSlice(stream: nat -> byte, data: seq<byte>, from: nat, to: nat)
    requires from <= to <= |data|
    ensures Transform(stream, 0, data)[from..to] == Transform(stream, from, data[from..to])
  {
    forall j | 0 <= j < to - from
      ensures Transform(stream, 0, data)[from + j] == Transform(stream, from, data[from..to])[j]
    {
      TransformAt(stream, 0, data, from + j);
      TransformAt(stream, from, data[from..to], j);
    }
  }
}
