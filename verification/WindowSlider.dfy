/** `WindowSlider` (algebra.cpp): cuts an exponent, from its low end, into odd windows
    that carry a sign when negation is cheap. */
module WindowSliders {
  import opened Bits

  const WORD_BITS: nat := 64

  /** `exp.WordCount() * WORD_BITS` */
  function WordLength(x: nat): (n: nat)
    ensures x < Pow2(n)
  {
    var n := (BitCount(x) + WORD_BITS - 1) / WORD_BITS * WORD_BITS;
    Pow2Monotone(BitCount(x), n);
    n
  }

  /** The window size chosen from the length of the exponent. */
  function DefaultWindowSize(expLen: nat): (w: nat)
    ensures 1 <= w <= 7
  {
    if expLen <= 17 then 1
    else if expLen <= 24 then 2
    else if expLen <= 70 then 3
    else if expLen <= 197 then 4
    else if expLen <= 539 then 5
    else if expLen <= 1434 then 6
    else 7
  }

  function Signed(window: nat, negate: bool): int {
    if negate then -(window as int) else window as int
  }

  /** Skipping a zero bit keeps the value above the skipped bits. */
  lemma {:induction false} SkipZero(x: nat, i: nat)
    requires !GetBit(x, i)
    ensures Shl(Shr(x, i + 1), i + 1) == Shl(Shr(x, i), i)
  {
    var h := Shr(x, i + 1);
    assert Shr(x, i) == h + h;
    ShlAdd(h, h, i);
  }

  lemma {:induction false} OddLow(e: nat, w: nat)
    requires e % 2 == 1 && w >= 1
    ensures Low(e, w) % 2 == 1
  {
    if w > 1 {
      OddLow(e, w - 1);
    }
  }

  /** What `FindNextWindow` does to an odd remainder e: cut it at bit w, rounding the
      upper part up if negated and down if not. */
  lemma {:induction false} TakeWindow(e: nat, w: nat, negate: bool, window: nat, exp: nat)
    requires e % 2 == 1 && w >= 1 && (negate ==> GetBit(e, w))
    requires exp == if negate then e + Pow2(w) else e
    requires window == if negate then Pow2(w) - Low(e, w) else Low(e, w)
    ensures window % 2 == 1 && window < Pow2(w)
    ensures e == Shl(Shr(exp, w), w) + Signed(window, negate)
    ensures negate ==> e >= Pow2(w) && Shr(exp, w) == Shr(e, w) + 1
  {
    OddLow(e, w);
    Split(e, w);
    if negate {
      ShlAdd(Shr(e, w), 1, w);
      Pow2IsShl(w);
      SplitUnique(e + Pow2(w), w, Shr(e, w) + 1, Low(e, w));
      ShlMonotone(1, Shr(e, w), w);
    }
  }

  /** Rounding up never passes a power of two that bounds the value from above. */
  lemma {:induction false} RoundUpBounded(e: nat, w: nat, d: nat)
    requires e % 2 == 1 && w >= 1 && Pow2(w) <= e <= Pow2(d)
    ensures w <= d && Shr(e, w) + 1 <= Pow2(d - w)
  {
    Pow2Order(w, d);
    Pow2Add(d - w, w);
    Split(e, w);
    ShlMonotone(Pow2(d - w), Shr(e, w), w);
  }

  lemma {:induction false} TakeWindowBounded(e: nat, w: nat, begin: nat, negate: bool, exp: nat, bound: nat)
    requires e % 2 == 1 && w >= 1
    requires negate ==> e >= Pow2(w) && Shr(exp, w) == Shr(e, w) + 1
    requires !negate ==> exp == e
    requires Shl(e, begin) <= Pow2(bound)
    ensures begin <= bound && Shl(Shr(exp, w), w + begin) <= Pow2(bound)
  {
    Pow2IsShl(begin);
    ShlMonotone(1, e, begin);
    Pow2Order(begin, bound);
    var d := bound - begin;
    Pow2Add(d, begin);
    ShlMonotone(e, Pow2(d), begin);
    ShlShl(Shr(exp, w), w, begin);
    if negate {
      RoundUpBounded(e, w, d);
      Pow2Add(d - w, w);
      ShlMonotone(Shr(e, w) + 1, Pow2(d - w), w);
    } else {
      Split(e, w);
    }
    ShlMonotone(Shl(Shr(exp, w), w), Pow2(d), begin);
  }

  /** The two lemmas above, at bit `begin` of the whole exponent. */
  lemma {:induction false} PlaceWindow(e: nat, w: nat, begin: nat, negate: bool, window: nat, exp: nat, bound: nat)
    requires e % 2 == 1 && w >= 1 && (negate ==> GetBit(e, w))
    requires exp == if negate then e + Pow2(w) else e
    requires window == if negate then Pow2(w) - Low(e, w) else Low(e, w)
    requires Shl(e, begin) <= Pow2(bound)
    ensures window % 2 == 1 && window < Pow2(w)
    ensures Shl(e, begin) == Shl(Shr(exp, w), w + begin) + Shl(Signed(window, negate), begin)
    ensures begin <= bound && 0 <= Shl(Shr(exp, w), w + begin) <= Pow2(bound)
  {
    TakeWindow(e, w, negate, window, exp);
    ShlAdd(Shl(Shr(exp, w), w), Signed(window, negate), begin);
    ShlShl(Shr(exp, w), w, begin);
    TakeWindowBounded(e, w, begin, negate, exp, bound);
    ShlMonotone(0, Shr(exp, w), w + begin);
    Pow2IsShl(w + begin);
  }

  /** Skipping a run of zero bits keeps the value above the skipped bits. */
  lemma {:induction false} SkipZeros(x: nat, i: nat, j: nat)
    requires i <= j && forall k :: i <= k < j ==> !GetBit(x, k)
    ensures Shl(Shr(x, j), j) == Shl(Shr(x, i), i)
  {
    if i < j {
      SkipZeros(x, i, j - 1);
      SkipZero(x, j - 1);
    }
  }

  lemma {:induction false} NothingAbove(x: nat, n: nat, i: nat)
    requires x < Pow2(n) && n <= i
    ensures Shr(x, i) == 0 && Shl(Shr(x, i), i) == 0
  {
    Pow2Monotone(n, i);
    ShrZero(x, i);
    Pow2IsShl(i);
  }

  /** The search loop of `FindNextWindow`: the first set bit at or above `start`. */
  method FindSetBit(exp: nat, start: nat) returns (skipCount: nat, finished: bool)
    ensures skipCount >= start && forall i :: start <= i < skipCount ==> !GetBit(exp, i)
    ensures !finished ==> GetBit(exp, skipCount)
    ensures finished ==> forall i: nat :: start <= i ==> !GetBit(exp, i)
    ensures finished ==> Shl(Shr(exp, start), start) == 0
  {
    var expLen := WordLength(exp);
    skipCount, finished := start, false;
    while !GetBit(exp, skipCount)
      invariant skipCount >= start && forall i :: start <= i < skipCount ==> !GetBit(exp, i)
      decreases expLen - skipCount
    {
      if skipCount >= expLen {
        finished := true;
        SkipZeros(exp, start, skipCount);
        NothingAbove(exp, expLen, skipCount);
        forall i: nat | skipCount <= i
          ensures !GetBit(exp, i)
        {
          NothingAbove(exp, expLen, i);
        }
        return;
      }
      skipCount := skipCount + 1;
    }
  }

  class WindowSlider {
    var exp: nat
    var windowModulus: nat
    var windowSize: nat
    var windowBegin: nat
    var expWindow: nat
    var fastNegate: bool
    var negateNext: bool
    var firstTime: bool
    var finished: bool

    ghost predicate Valid()
      reads this
    {
      && windowSize >= 1
      && windowModulus == Pow2(windowSize)
      && (firstTime ==> windowBegin == 0 && !finished)
      && (!firstTime && !finished ==> expWindow % 2 == 1 && expWindow < windowModulus)
      && (!firstTime && !finished && negateNext ==> fastNegate)
    }

    /** The part of the exponent that lies beyond the current window. */
    ghost function Rest(): int
      reads this
    {
      if firstTime then exp else Shl(Shr(exp, windowSize), windowSize + windowBegin)
    }

    /** What is still to be accounted for: the rest and the current window, which
        stands at bit `windowBegin`. */
    ghost function Pending(): int
      reads this
    {
      if finished then 0
      else if firstTime then exp
      else Rest() + Shl(Signed(expWindow, negateNext), windowBegin)
    }

    constructor (expIn: nat, fastNegate: bool, windowSizeIn: nat)
      ensures Valid() && firstTime && exp == expIn && this.fastNegate == fastNegate
      ensures windowSize == if windowSizeIn == 0 then DefaultWindowSize(BitCount(expIn)) else windowSizeIn
      ensures Rest() == expIn
    {
      exp := expIn;
      windowBegin := 0;
      expWindow := 0;
      this.fastNegate := fastNegate;
      negateNext := false;
      firstTime := true;
      finished := false;
      var size := windowSizeIn;
      if size == 0 {
        size := DefaultWindowSize(BitCount(expIn));
      }
      windowSize := size;
      windowModulus := Pow2(size);
    }

    /** The zeros at the low end of what remains. */
    method SkipToBit() returns (skipCount: nat, done: bool)
      requires Valid() && !finished
      ensures done ==> Rest() == 0
      ensures !done ==> GetBit(exp, skipCount) && skipCount >= (if firstTime then 0 else windowSize)
      ensures !done ==> Rest() == Shl(Shr(exp, skipCount), windowBegin + skipCount)
    {
      var start := if firstTime then 0 else windowSize;
      ghost var high := Shl(Shr(exp, start), start);
      assert Rest() == Shl(high, windowBegin) by {
        ShlShl(Shr(exp, windowSize), windowSize, windowBegin);
      }
      skipCount, done := FindSetBit(exp, start);
      if done {
        Pow2IsShl(windowBegin);
      } else {
        SkipZeros(exp, start, skipCount);
        ShlShl(Shr(exp, skipCount), skipCount, windowBegin);
      }
    }

    /** The next window is found: it and what then remains add up to what remained.
        A power of two that bounds the remainder from above is never passed. */
    method FindNextWindow(ghost bound: nat)
      requires Valid() && !finished && Rest() <= Pow2(bound)
      modifies this
      ensures Valid() && !firstTime
      ensures windowSize == old(windowSize) && fastNegate == old(fastNegate)
      ensures Pending() == old(Rest())
      ensures !finished ==> windowBegin >= old(windowBegin) + (if old(firstTime) then 0 else windowSize)
      ensures !finished ==> windowBegin <= bound && 0 <= Rest() <= Pow2(bound)
    {
      var skipCount, done := SkipToBit();
      if done {
        firstTime, finished := false, true;
      } else {
        var e := Shr(exp, skipCount);
        var next, window, negate := e, Low(e, windowSize), false;
        if fastNegate && GetBit(e, windowSize) {
          next, window, negate := next + windowModulus, Pow2(windowSize) - window, true;
        }
        PlaceWindow(e, windowSize, windowBegin + skipCount, negate, window, next, bound);
        exp, windowBegin, expWindow, negateNext := next, windowBegin + skipCount, window, negate;
        firstTime := false;
      }
    }
  }
}
