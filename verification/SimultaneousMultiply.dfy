/** `AbstractGroup::SimultaneousMultiply` (algebra.cpp): several multiples of one base,
    by sliding windows over the exponents and bucket accumulation. */
module SimultaneousMultiplication {
  import opened Bits
  import opened Groups
  import opened WindowSliders

  ghost predicate AllMembers<T>(g: Group<T>, s: seq<T>) {
    forall i :: 0 <= i < |s| ==> g.mem(s[i])
  }

  /** The sum over i >= j of (2i + 1)·bucket[i]: what the buckets stand for. */
  ghost function BucketSum<T>(g: Group<T>, bucket: seq<T>, j: nat): T
    requires j <= |bucket|
    decreases |bucket| - j
  {
    if j == |bucket| then g.id
    else g.add(Mul(g, 2 * j + 1, bucket[j]), BucketSum(g, bucket, j + 1))
  }

  lemma {:induction false} BucketSumMember<T(!new)>(g: Group<T>, bucket: seq<T>, j: nat)
    requires Lawful(g) && AllMembers(g, bucket) && j <= |bucket|
    ensures g.mem(BucketSum(g, bucket, j))
    decreases |bucket| - j
  {
    if j < |bucket| {
      BucketSumMember(g, bucket, j + 1);
      MulMember(g, 2 * j + 1, bucket[j]);
      AddMember(g, Mul(g, 2 * j + 1, bucket[j]), BucketSum(g, bucket, j + 1));
    }
  }

  lemma {:induction false} BucketSumEmpty<T(!new)>(g: Group<T>, bucket: seq<T>, j: nat)
    requires Lawful(g) && j <= |bucket| && forall i :: 0 <= i < |bucket| ==> bucket[i] == g.id
    ensures BucketSum(g, bucket, j) == g.id
    decreases |bucket| - j
  {
    if j < |bucket| {
      BucketSumEmpty(g, bucket, j + 1);
      MulUnit(g, 2 * j + 1);
      UnitRight(g, g.id);
    }
  }

  lemma {:induction false} BucketSumFrame<T>(g: Group<T>, bucket: seq<T>, k: nat, v: T, j: nat)
    requires k < j <= |bucket|
    ensures BucketSum(g, bucket[k := v], j) == BucketSum(g, bucket, j)
    decreases |bucket| - j
  {
    if j < |bucket| {
      BucketSumFrame(g, bucket, k, v, j + 1);
    }
  }

  /** Accumulating y into bucket k adds (2k + 1)·y to the sum: from bucket k on, */
  lemma {:induction false} AccumulateHere<T(!new)>(g: Group<T>, bucket: seq<T>, k: nat, y: T)
    requires Lawful(g) && AllMembers(g, bucket) && g.mem(y) && k < |bucket|
    ensures BucketSum(g, bucket[k := g.add(bucket[k], y)], k) == g.add(BucketSum(g, bucket, k), Mul(g, 2 * k + 1, y))
  {
    BucketSumMember(g, bucket, k + 1);
    MulMember(g, 2 * k + 1, bucket[k]);
    MulMember(g, 2 * k + 1, y);
    MulDistributes(g, 2 * k + 1, bucket[k], y);
    BucketSumFrame(g, bucket, k, g.add(bucket[k], y), k + 1);
    SwapLast(g, Mul(g, 2 * k + 1, bucket[k]), Mul(g, 2 * k + 1, y), BucketSum(g, bucket, k + 1));
  }

  /** and from any earlier bucket on. */
  lemma {:induction false} BucketSumAccumulate<T(!new)>(g: Group<T>, bucket: seq<T>, k: nat, y: T, j: nat)
    requires Lawful(g) && AllMembers(g, bucket) && g.mem(y) && j <= k < |bucket|
    ensures BucketSum(g, bucket[k := g.add(bucket[k], y)], j)
         == g.add(BucketSum(g, bucket, j), Mul(g, 2 * k + 1, y))
    decreases k - j
  {
    if j == k {
      AccumulateHere(g, bucket, k, y);
    } else {
      BucketSumAccumulate(g, bucket, k, y, j + 1);
      BucketSumMember(g, bucket, j + 1);
      MulMember(g, 2 * j + 1, bucket[j]);
      MulMember(g, 2 * k + 1, y);
      Assoc(g, Mul(g, 2 * j + 1, bucket[j]), BucketSum(g, bucket, j + 1), Mul(g, 2 * k + 1, y));
    }
  }

  /** Buckets and what is pending of the exponent still add up to e·base. */
  ghost predicate Accounted<T>(g: Group<T>, bucket: seq<T>, pending: int, e: nat, base: T) {
    && pending >= 0
    && AllMembers(g, bucket)
    && g.add(BucketSum(g, bucket, 0), Mul(g, pending, base)) == Mul(g, e, base)
  }

  /** The element accumulated for one signed window at bit `begin`. */
  function WindowElement<T>(g: Group<T>, power: T, negate: bool): T {
    if negate then g.inv(power) else power
  }

  /** A signed window's worth of 2^begin·base, added to what remains, is what was pending. */
  lemma {:induction false} WindowMultiple<T(!new)>(g: Group<T>, rest: nat, window: nat, negate: bool, begin: nat,
                                                   base: T)
    requires Lawful(g) && g.mem(base) && (negate ==> g.inversionIsFast)
    requires rest + Shl(Signed(window, negate), begin) >= 0
    ensures var y := WindowElement(g, Mul(g, Pow2(begin), base), negate);
            && g.mem(y)
            && g.add(Mul(g, window, y), Mul(g, rest, base))
            == Mul(g, rest + Shl(Signed(window, negate), begin), base)
  {
    var power := Mul(g, Pow2(begin), base);
    MulMember(g, Pow2(begin), base);
    MulMember(g, rest, base);
    if negate {
      NegateShl(window, begin);
      MulCancel(g, rest - Shl(window, begin), window, begin, base);
      MulMember(g, window, g.inv(power));
      AddMember(g, Mul(g, window, g.inv(power)), Mul(g, rest, base));
    } else {
      MulShl(g, window, begin, base);
      MulAdd(g, Shl(window, begin), rest, base);
    }
  }

  /** Moving one window from the exponent into its bucket keeps the account. */
  lemma {:induction false} MoveWindow<T(!new)>(g: Group<T>, bucket: seq<T>, rest: nat, window: nat, negate: bool,
                                               begin: nat, e: nat, base: T)
    requires Lawful(g) && g.mem(base) && (negate ==> g.inversionIsFast)
    requires window % 2 == 1 && window / 2 < |bucket|
    requires Accounted(g, bucket, rest + Shl(Signed(window, negate), begin), e, base)
    ensures var y := WindowElement(g, Mul(g, Pow2(begin), base), negate);
            Accounted(g, bucket[window / 2 := g.add(bucket[window / 2], y)], rest, e, base)
  {
    var y := WindowElement(g, Mul(g, Pow2(begin), base), negate);
    WindowMultiple(g, rest, window, negate, begin, base);
    BucketSumMember(g, bucket, 0);
    MulMember(g, window, y);
    MulMember(g, rest, base);
    AddMember(g, bucket[window / 2], y);
    BucketSumAccumulate(g, bucket, window / 2, y, 0);
    Assoc(g, BucketSum(g, bucket, 0), Mul(g, window, y), Mul(g, rest, base));
  }

  lemma {:induction false} NegateShl(w: int, i: nat)
    ensures Shl(-w, i) == -Shl(w, i)
  {
    if i != 0 { NegateShl(w, i - 1); }
  }

  // ----- the suffix-sum pass

  /** bucket[j] + bucket[j+1] + ... */
  ghost function SuffixSum<T>(g: Group<T>, bucket: seq<T>, j: nat): T
    requires j < |bucket|
    decreases |bucket| - j
  {
    if j == |bucket| - 1 then bucket[j] else g.add(bucket[j], SuffixSum(g, bucket, j + 1))
  }

  /** SuffixSum(j) + SuffixSum(j+1) + ... */
  ghost function SuffixTotal<T>(g: Group<T>, bucket: seq<T>, j: nat): T
    requires j < |bucket|
    decreases |bucket| - j
  {
    if j == |bucket| - 1 then bucket[j] else g.add(SuffixTotal(g, bucket, j + 1), SuffixSum(g, bucket, j))
  }

  lemma {:induction false} SuffixMember<T(!new)>(g: Group<T>, bucket: seq<T>, j: nat)
    requires Lawful(g) && AllMembers(g, bucket) && j < |bucket|
    ensures g.mem(SuffixSum(g, bucket, j)) && g.mem(SuffixTotal(g, bucket, j))
    decreases |bucket| - j
  {
    if j < |bucket| - 1 {
      SuffixMember(g, bucket, j + 1);
      AddMember(g, bucket[j], SuffixSum(g, bucket, j + 1));
      AddMember(g, SuffixTotal(g, bucket, j + 1), SuffixSum(g, bucket, j));
    }
  }

  lemma {:induction false} Triple<T(!new)>(g: Group<T>, n: nat, s: T)
    requires Lawful(g) && g.mem(s)
    ensures g.add(g.add(s, s), Mul(g, n, s)) == Mul(g, n + 2, s)
  {
    MulDouble(g, 1, s);
    MulOne(g, s);
    MulAdd(g, 2, n, s);
  }

  /** Twice the total from j on, and 2j - 1 times the sum from j on, is the bucket sum from j on. */
  lemma {:induction false} SuffixIsBucketSum<T(!new)>(g: Group<T>, bucket: seq<T>, j: nat)
    requires Lawful(g) && AllMembers(g, bucket) && 1 <= j < |bucket|
    ensures var total := SuffixTotal(g, bucket, j);
            g.add(g.add(total, total), Mul(g, 2 * j - 1, SuffixSum(g, bucket, j))) == BucketSum(g, bucket, j)
    decreases |bucket| - j
  {
    var s := SuffixSum(g, bucket, j);
    SuffixMember(g, bucket, j);
    Triple(g, 2 * j - 1, s);
    if j == |bucket| - 1 {
      MulMember(g, 2 * j + 1, s);
      UnitRight(g, Mul(g, 2 * j + 1, s));
    } else {
      var t := SuffixTotal(g, bucket, j + 1);
      SuffixMember(g, bucket, j + 1);
      SwapMiddle(g, t, s, t, s);
      AddMember(g, t, t);
      AddMember(g, s, s);
      MulMember(g, 2 * j - 1, s);
      Assoc(g, g.add(t, t), g.add(s, s), Mul(g, 2 * j - 1, s));
      SuffixPeel(g, bucket, j);
    }
  }

  /** Peeling bucket j off the sums. */
  lemma {:induction false} SuffixPeel<T(!new)>(g: Group<T>, bucket: seq<T>, j: nat)
    requires Lawful(g) && AllMembers(g, bucket) && j < |bucket| - 1
    ensures var total := SuffixTotal(g, bucket, j + 1);
            g.add(g.add(total, total), Mul(g, 2 * j + 1, SuffixSum(g, bucket, j))) == BucketSum(g, bucket, j)
    decreases |bucket| - j, 0
  {
    var b, s, total := bucket[j], SuffixSum(g, bucket, j + 1), SuffixTotal(g, bucket, j + 1);
    SuffixMember(g, bucket, j + 1);
    var wb, ws, twice := Mul(g, 2 * j + 1, b), Mul(g, 2 * j + 1, s), g.add(total, total);
    MulMember(g, 2 * j + 1, s);
    MulMember(g, 2 * j + 1, b);
    AddMember(g, total, total);
    SuffixIsBucketSum(g, bucket, j + 1);
    MulDistributes(g, 2 * j + 1, b, s);
    AddMember(g, wb, ws);
    AddMember(g, wb, twice);
    AddMember(g, twice, ws);
    AddMember(g, g.add(twice, ws), wb);
    Assoc(g, twice, ws, wb);
  }

  /** The last loop of `SimultaneousMultiply`, for one exponent. */
  method CollectBuckets<T(!new)>(g: Group<T>, bucket: seq<T>) returns (r: T)
    requires Lawful(g) && AllMembers(g, bucket) && |bucket| >= 1
    ensures r == BucketSum(g, bucket, 0)
  {
    var b := bucket;
    r := b[|b| - 1];
    if |b| > 1 {
      var j := |b| - 2;
      while j >= 1
        invariant 0 <= j <= |b| - 2 && |b| == |bucket|
        invariant b[..j + 1] == bucket[..j + 1]
        invariant b[j + 1] == SuffixSum(g, bucket, j + 1)
        invariant r == SuffixTotal(g, bucket, j + 1)
      {
        b := b[j := g.add(b[j], b[j + 1])];
        r := g.add(r, b[j]);
        j := j - 1;
      }
      b := b[0 := g.add(b[0], b[1])];
      SuffixPeel(g, bucket, 0);
      SuffixMember(g, bucket, 0);
      MulOne(g, SuffixSum(g, bucket, 0));
      r := g.add(g.add(r, r), b[0]);
    } else {
      MulOne(g, r);
      UnitRight(g, r);
    }
  }

  // ----- the main loop

  /** One exponent's slider and buckets, between two bit positions. */
  ghost predicate Tracks<T>(g: Group<T>, s: WindowSlider, bucket: seq<T>, e: nat, base: T,
                            position: nat, bound: nat)
    reads s
  {
    && s.Valid() && !s.firstTime
    && s.fastNegate == g.inversionIsFast
    && |bucket| == Pow2(s.windowSize - 1)
    && Accounted(g, bucket, s.Pending(), e, base)
    && (!s.finished ==> position <= s.windowBegin <= bound && 0 <= s.Rest() <= Pow2(bound))
  }

  /** The window standing at `position` goes to its bucket and the slider moves on. */
  method TakeWindowAt<T(!new)>(g: Group<T>, s: WindowSlider, bucket: seq<T>, power: T, position: nat,
                               ghost e: nat, ghost base: T, ghost bound: nat)
    returns (bucket': seq<T>)
    requires Lawful(g) && g.mem(base)
    requires Tracks(g, s, bucket, e, base, position, bound)
    requires power == Mul(g, Pow2(position), base)
    modifies s
    ensures Tracks(g, s, bucket', e, base, position + 1, bound)
  {
    bucket' := bucket;
    if !s.finished && position == s.windowBegin {
      ghost var rest, window, negate := s.Rest(), s.expWindow, s.negateNext;
      var k := s.expWindow / 2;
      if s.negateNext {
        bucket' := bucket[k := g.add(bucket[k], g.inv(power))];
      } else {
        bucket' := bucket[k := g.add(bucket[k], power)];
      }
      MoveWindow(g, bucket, rest, window, negate, position, e, base);
      s.FindNextWindow(bound);
    }
  }

  method StartSlider<T(!new)>(g: Group<T>, e: nat, base: T, ghost bound: nat)
    returns (s: WindowSlider, bucket: seq<T>)
    requires Lawful(g) && g.mem(base) && e <= Pow2(bound)
    ensures fresh(s) && Tracks(g, s, bucket, e, base, 0, bound)
  {
    s := new WindowSlider(e, g.inversionIsFast, 0);
    s.FindNextWindow(bound);
    bucket := seq(Pow2(s.windowSize - 1), _ => g.id);
    BucketSumEmpty(g, bucket, 0);
    MulMember(g, e, base);
    UnitRight(g, Mul(g, e, base));
  }

  ghost predicate AllTrack<T>(g: Group<T>, sliders: seq<WindowSlider>, buckets: seq<seq<T>>, exps: seq<nat>,
                              base: T, position: nat, bound: nat)
    reads sliders
  {
    && |sliders| == |buckets| == |exps|
    && (forall i, j :: 0 <= i < j < |sliders| ==> sliders[i] != sliders[j])
    && (forall k :: 0 <= k < |exps| ==> Tracks(g, sliders[k], buckets[k], exps[k], base, position, bound))
  }

  method StartSliders<T(!new)>(g: Group<T>, exps: seq<nat>, base: T, ghost bound: nat)
    returns (sliders: seq<WindowSlider>, buckets: seq<seq<T>>)
    requires Lawful(g) && g.mem(base) && forall i :: 0 <= i < |exps| ==> exps[i] <= Pow2(bound)
    ensures AllTrack(g, sliders, buckets, exps, base, 0, bound)
    ensures fresh(set s | s in sliders)
  {
    sliders, buckets := [], [];
    for i := 0 to |exps|
      invariant |sliders| == i
      invariant fresh(set s | s in sliders)
      invariant AllTrack(g, sliders, buckets, exps[..i], base, 0, bound)
    {
      var s, bucket := StartSlider(g, exps[i], base, bound);
      sliders, buckets := sliders + [s], buckets + [bucket];
      assert exps[..i + 1] == exps[..i] + [exps[i]];
    }
    assert exps[..|exps|] == exps;
  }

  /** One round of the main loop, at one bit position. */
  method TakeWindowsAt<T(!new)>(g: Group<T>, sliders: seq<WindowSlider>, buckets: seq<seq<T>>, power: T,
                                position: nat, ghost exps: seq<nat>, ghost base: T, ghost bound: nat)
    returns (buckets': seq<seq<T>>, notDone: bool)
    requires Lawful(g) && g.mem(base) && power == Mul(g, Pow2(position), base)
    requires AllTrack(g, sliders, buckets, exps, base, position, bound)
    modifies sliders
    ensures AllTrack(g, sliders, buckets', exps, base, position + 1, bound)
    ensures notDone ==> position + 1 <= bound
    ensures !notDone ==> forall k :: 0 <= k < |exps| ==> sliders[k].finished
  {
    buckets', notDone := buckets, false;
    for i := 0 to |sliders|
      invariant |buckets'| == |sliders|
      invariant forall k :: 0 <= k < i ==>
                  Tracks(g, sliders[k], buckets'[k], exps[k], base, position + 1, bound)
      invariant forall k :: i <= k < |sliders| ==>
                  Tracks(g, sliders[k], buckets'[k], exps[k], base, position, bound)
      invariant notDone ==> position + 1 <= bound
      invariant !notDone ==> forall k :: 0 <= k < i ==> sliders[k].finished
    {
      var bucket := TakeWindowAt(g, sliders[i], buckets'[i], power, position, exps[i], base, bound);
      buckets' := buckets'[i := bucket];
      notDone := notDone || !sliders[i].finished;
    }
  }

  /** The buckets of finished sliders hold the answers. */
  method CollectAll<T(!new)>(g: Group<T>, buckets: seq<seq<T>>, ghost exps: seq<nat>, ghost base: T)
    returns (results: seq<T>)
    requires Lawful(g) && g.mem(base) && |buckets| == |exps|
    requires forall k :: 0 <= k < |exps| ==> |buckets[k]| >= 1 && Accounted(g, buckets[k], 0, exps[k], base)
    ensures |results| == |exps|
    ensures forall i :: 0 <= i < |exps| ==> results[i] == Mul(g, exps[i], base)
  {
    results := [];
    for i := 0 to |buckets|
      invariant |results| == i
      invariant forall k :: 0 <= k < i ==> results[k] == Mul(g, exps[k], base)
    {
      var r := CollectBuckets(g, buckets[i]);
      BucketSumMember(g, buckets[i], 0);
      UnitRight(g, r);
      results := results + [r];
    }
  }

  lemma {:induction false} AllDrained<T>(g: Group<T>, sliders: seq<WindowSlider>, buckets: seq<seq<T>>,
                                         exps: seq<nat>, base: T, position: nat, bound: nat)
    requires AllTrack(g, sliders, buckets, exps, base, position, bound)
    requires forall k :: 0 <= k < |exps| ==> sliders[k].finished
    ensures forall k :: 0 <= k < |exps| ==> |buckets[k]| >= 1 && Accounted(g, buckets[k], 0, exps[k], base)
  {
    forall k | 0 <= k < |exps|
      ensures |buckets[k]| >= 1 && Accounted(g, buckets[k], 0, exps[k], base)
    {
      assert Tracks(g, sliders[k], buckets[k], exps[k], base, position, bound);
    }
  }

  /** The main loop: every window of every exponent is moved to its bucket. */
  method DrainSliders<T(!new)>(g: Group<T>, sliders: seq<WindowSlider>, buckets: seq<seq<T>>, base: T,
                               ghost exps: seq<nat>, ghost bound: nat)
    returns (buckets': seq<seq<T>>)
    requires Lawful(g) && g.mem(base) && AllTrack(g, sliders, buckets, exps, base, 0, bound)
    modifies sliders
    ensures |buckets'| == |exps|
    ensures forall k :: 0 <= k < |exps| ==> |buckets'[k]| >= 1 && Accounted(g, buckets'[k], 0, exps[k], base)
  {
    buckets' := buckets;
    var position, power, notDone := 0, base, true;
    MulOne(g, base);
    while notDone
      invariant AllTrack(g, sliders, buckets', exps, base, if notDone then position else position + 1, bound)
      invariant power == Mul(g, Pow2(position), base)
      invariant !notDone ==> forall k :: 0 <= k < |exps| ==> sliders[k].finished
      invariant notDone ==> position <= bound
      decreases if notDone then bound - position + 1 else 0
    {
      buckets', notDone := TakeWindowsAt(g, sliders, buckets', power, position, exps, base, bound);
      if notDone {
        MulDouble(g, Pow2(position), base);
        power := g.add(power, power);
        position := position + 1;
      }
    }
    AllDrained(g, sliders, buckets', exps, base, position + 1, bound);
  }

  /** For every abelian group, base and list of exponents, and whether or not inversion
      is fast, the results are the plain multiples of the base. */
  method SimultaneousMultiply<T(!new)>(g: Group<T>, base: T, exps: seq<nat>) returns (results: seq<T>)
    requires Lawful(g) && g.mem(base)
    ensures |results| == |exps|
    ensures forall i :: 0 <= i < |exps| ==> results[i] == Mul(g, exps[i], base)
  {
    ghost var bound := Sum(exps);
    SumBounds(exps);
    Pow2Exceeds(bound);
    var sliders, buckets := StartSliders(g, exps, base, bound);
    buckets := DrainSliders(g, sliders, buckets, base, exps, bound);
    results := CollectAll(g, buckets, exps, base);
  }

  ghost function Sum(s: seq<nat>): nat {
    if |s| == 0 then 0 else s[0] + Sum(s[1..])
  }

  lemma {:induction false} SumBounds(s: seq<nat>)
    ensures forall i :: 0 <= i < |s| ==> s[i] <= Sum(s)
  {
    if |s| > 0 {
      SumBounds(s[1..]);
      assert forall i :: 1 <= i < |s| ==> s[i] == s[1..][i - 1];
    }
  }

  /** `AbstractGroup::ScalarMultiply` */
  method ScalarMultiply<T(!new)>(g: Group<T>, base: T, exponent: nat) returns (result: T)
    requires Lawful(g) && g.mem(base)
    ensures result == Mul(g, exponent, base) && g.mem(result)
  {
    var results := SimultaneousMultiply(g, base, [exponent]);
    result := results[0];
    MulMember(g, exponent, base);
  }
}
