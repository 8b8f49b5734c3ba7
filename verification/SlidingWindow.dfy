/** Externals/CryptoPP/algebra.cpp: the window slider and simultaneous multiplication by several exponents. */
module SlidingWindow {
  import opened Arithmetic
  import opened Bits
  import opened Groups

  /** The word size of the platform. */
  const WORD_BITS: nat := 64

  function WordCount(x: nat): nat {
    (BitLength(x) + WORD_BITS - 1) / WORD_BITS
  }

  function DefaultWindowSize(expLen: nat): (w: nat)
    ensures 1 <= w <= 7
  {
    if expLen <= 17 then 1 else if expLen <= 24 then 2 else if expLen <= 70 then 3
    else if expLen <= 197 then 4 else if expLen <= 539 then 5 else if expLen <= 1434 then 6 else 7
  }

  /** No digit from `from` on is set before `skip`. */
  lemma SkippedDigits(x: nat, from: nat, skip: nat)
    requires from <= skip && forall k :: from <= k < skip ==> GetBit(x, k) == 0
    ensures Shr(x, from) == TwoTo(skip - from) * Shr(x, skip)
    decreases skip - from
  {
    if from < skip {
      SkippedDigits(x, from + 1, skip);
      assert GetBit(x, from) == 0;
      ShrSucc(x, from);
      var y := Shr(x, skip);
      assert 2 * (TwoTo(skip - from - 1) * y) == TwoTo(skip - from) * y;
    }
  }

  /** The shift distance is paid for by the shrinking of what is left of the exponent. */
  lemma WindowProgress(rest: nat, skipped: nat, y: nat, w: nat, next: nat)
    requires rest == TwoTo(skipped) * y && y % 2 == 1 && 1 <= w <= 7
    requires next == Shr(y, w) || (Shr(y, w) % 2 == 1 && next == Shr(y, w) + 1)
    ensures skipped + w + 9 * next <= 9 * rest
  {
    ShrAtMostHalf(y, w);
    TwoToExceeds(skipped);
    hide Shr, TwoTo;
    RestBound(TwoTo(skipped), skipped, y);
    ProgressBound(rest, skipped, y, w, Shr(y, w), next);
  }

  lemma RestBound(t: nat, s: nat, y: nat)
    requires t >= s + 1 && y >= 1
    ensures t * y >= s + y
  {
    Monotone(s + 1, t, y);
    assert (s + 1) * y == s * y + y;
    NonNegative(s, y);
  }

  lemma ProgressBound(rest: nat, skipped: nat, y: nat, w: nat, h: nat, next: nat)
    requires rest >= skipped + y && y % 2 == 1 && 1 <= w <= 7 && h <= y / 2
    requires next == h || (h % 2 == 1 && next == h + 1)
    ensures skipped + w + 9 * next <= 9 * rest
  {
  }

  lemma {:induction false} ShrAtMostHalf(y: nat, w: nat)
    requires w >= 1
    ensures Shr(y, w) <= y / 2
  {
    if w > 1 { ShrAtMostHalf(y / 2, w - 1); }
  }

  /** The number y is a digit of weight one and a part of weight 2^w. */
  ghost predicate Splits(y: nat, w: nat, digit: int, next: nat) {
    y == digit + TwoTo(w) * next
  }

  lemma LowIsOdd(y: nat, w: nat)
    requires y % 2 == 1 && w >= 1
    ensures Low(y, w) % 2 == 1 && (TwoTo(w) - Low(y, w)) % 2 == 1
  {
    var t, l := TwoTo(w - 1), Low(y / 2, w - 1);
    assert TwoTo(w) == 2 * t && Low(y, w) == 2 * l + 1;
    hide TwoTo, Low;
    assert 2 * t - (2 * l + 1) == 2 * (t - l - 1) + 1;
  }

  /** The window and the digits above it make up the exponent. */
  lemma PlainWindow(y: nat, w: nat)
    ensures Splits(y, w, Low(y, w), Shr(y, w))
  {
    ShrSplit(y, w);
  }

  /** With the window taken as negative, the digits above it grow by one. */
  lemma NegatedWindow(y: nat, w: nat)
    ensures Shr(y + TwoTo(w), w) == Shr(y, w) + 1
    ensures Splits(y, w, 0 - (TwoTo(w) - Low(y, w)), Shr(y, w) + 1)
  {
    ShrSplit(y, w);
    ShrPlusPower(y, w);
    hide Shr, Low, TwoTo;
    Distribute(TwoTo(w), Shr(y, w), 1);
  }

  class WindowSlider {
    var exp: nat
    var windowModulus: nat
    var windowSize: nat
    var windowBegin: nat
    var expWindow: nat
    const fastNegate: bool
    var negateNext: bool
    var firstTime: bool
    var finished: bool

    ghost predicate Valid()
      reads this
    {
      && 1 <= windowSize <= 7 && windowModulus == TwoTo(windowSize)
      && (firstTime ==> !finished && windowBegin == 0)
      && (negateNext ==> fastNegate)
      && (!firstTime && !finished ==> expWindow % 2 == 1 && expWindow < windowModulus)
    }

    /** What the digits above the current window contribute to the exponent. */
    ghost function RestValue(): nat
      reads this
    {
      if firstTime then exp else TwoTo(windowBegin + windowSize) * Shr(exp, windowSize)
    }

    /** The current window as a signed digit. */
    ghost function Digit(): int
      reads this
    {
      if negateNext then 0 - expWindow else expWindow
    }

    /** What the current window and the digits above it contribute. */
    ghost function Value(): int
      requires !firstTime
      reads this
    {
      if finished then 0 else TwoTo(windowBegin) * Digit() + RestValue()
    }

    /** A bound on the positions of all windows still to come. */
    ghost function Horizon(): nat
      reads this
    {
      windowBegin + 9 * (if firstTime then exp else Shr(exp, windowSize))
    }

    /** A window size of 0 asks for the one that suits the length of the exponent. */
    constructor (expIn: nat, fastNegate: bool, windowSizeIn: nat)
      requires windowSizeIn <= 7
      ensures Valid() && firstTime && exp == expIn && this.fastNegate == fastNegate
      ensures windowSize == if windowSizeIn == 0 then DefaultWindowSize(BitLength(expIn)) else windowSizeIn
    {
      this.fastNegate := fastNegate;
      exp, windowBegin, expWindow := expIn, 0, 0;
      negateNext, firstTime, finished := false, true, false;
      var size := if windowSizeIn == 0 then DefaultWindowSize(BitLength(expIn)) else windowSizeIn;
      windowSize, windowModulus := size, TwoTo(size);
    }

    /** Skips the zero digits above the current window and takes the next window; with fast negation a
        window followed by a one is taken as negative and carries into the digits above it. */
    method FindNextWindow()
      requires Valid() && !finished
      modifies this
      ensures Valid() && !firstTime && windowSize == old(windowSize)
      ensures Value() == old(RestValue())
      ensures windowBegin >= old(if firstTime then 0 else windowBegin)
      ensures !finished ==> windowBegin >= old(if firstTime then 0 else windowBegin + windowSize)
      ensures !finished ==> Horizon() <= old(Horizon())
    {
      assert Shr(exp, 0) == exp && TwoTo(0) == 1;
      hide Splits, Shr, TwoTo, GetBit;
      var start := if firstTime then 0 else windowSize;
      ghost var rest, begin := Shr(exp, start), windowBegin;
      firstTime := false;
      var skipCount := SkipZeros(start);
      SkippedDigits(exp, start, skipCount);
      if GetBit(exp, skipCount) == 0 {
        assert TwoTo(skipCount - start) * 0 == 0 && TwoTo(begin + start) * 0 == 0;
        finished := true;
        return;
      }
      TakeWindow(skipCount);
      WindowProgress(rest, skipCount - start, Shr(old(exp), skipCount), windowSize, Shr(exp, windowSize));
      PlaceWindow(begin, start, skipCount, Shr(old(exp), skipCount), windowSize, Digit(), Shr(exp, windowSize));
    }

    /** The first set digit from start on, or a position above all set digits. */
    method SkipZeros(start: nat) returns (skipCount: nat)
      ensures start <= skipCount && forall k :: start <= k < skipCount ==> GetBit(exp, k) == 0
      ensures GetBit(exp, skipCount) == 0 ==> Shr(exp, skipCount) == 0
    {
      var expLen := WordCount(exp) * WORD_BITS;
      assert BitLength(exp) <= expLen;
      skipCount := start;
      while GetBit(exp, skipCount) == 0
        invariant start <= skipCount && forall k :: start <= k < skipCount ==> GetBit(exp, k) == 0
        decreases expLen - skipCount
      {
        if skipCount >= expLen {
          ShrSmall(exp, skipCount);
          return;
        }
        skipCount := skipCount + 1;
      }
    }

    /** Takes the window that starts at the set digit skipCount. */
    method TakeWindow(skipCount: nat)
      requires 1 <= windowSize <= 7 && windowModulus == TwoTo(windowSize) && GetBit(exp, skipCount) == 1
      modifies this
      ensures unchanged(`windowSize, `windowModulus, `firstTime, `finished)
      ensures windowBegin == old(windowBegin) + skipCount
      ensures expWindow % 2 == 1 && expWindow < windowModulus && (negateNext ==> fastNegate)
      ensures var y := Shr(old(exp), skipCount);
        Splits(y, windowSize, Digit(), Shr(exp, windowSize)) &&
        (Shr(exp, windowSize) == Shr(y, windowSize) ||
         (Shr(y, windowSize) % 2 == 1 && Shr(exp, windowSize) == Shr(y, windowSize) + 1))
    {
      hide TwoTo, Low, Shr, Splits;
      exp := Shr(exp, skipCount);
      windowBegin := windowBegin + skipCount;
      LowIsOdd(exp, windowSize);
      PlainWindow(exp, windowSize);
      NegatedWindow(exp, windowSize);
      expWindow := Low(exp, windowSize);
      if fastNegate && GetBit(exp, windowSize) == 1 {
        negateNext := true;
        expWindow := TwoTo(windowSize) - expWindow;
        exp := exp + windowModulus;
      } else {
        negateNext := false;
      }
    }
  }

  /** Moving the window up by the skipped digits keeps the value. */
  lemma PlaceWindow(begin: nat, start: nat, skip: nat, y: nat, w: nat, digit: int, next: nat)
    requires start <= skip && Splits(y, w, digit, next)
    ensures TwoTo(begin + start) * (TwoTo(skip - start) * y)
         == TwoTo(begin + skip) * digit + TwoTo(begin + skip + w) * next
  {
    TwoToSum(begin + start, skip - start);
    TwoToSum(begin + skip, w);
    var a, b, m, t := TwoTo(begin + start), TwoTo(skip - start), TwoTo(begin + skip), TwoTo(w);
    hide TwoTo;
    Associate(a, b, y);
    Distribute(m, digit, t * next);
    Associate(m, t, next);
  }

  /** The sum of (2 l + 1) c[l] over l from j on. */
  ghost function Weighted(c: seq<int>, j: nat): int
    decreases |c| - j
  {
    if j >= |c| then 0 else (2 * j + 1) * c[j] + Weighted(c, j + 1)
  }

  ghost function SuffixSum(c: seq<int>, j: nat): int
    decreases |c| - j
  {
    if j >= |c| then 0 else c[j] + SuffixSum(c, j + 1)
  }

  ghost function SumOfSuffixSums(c: seq<int>, j: nat): int
    decreases |c| - j
  {
    if j >= |c| then 0 else SuffixSum(c, j) + SumOfSuffixSums(c, j + 1)
  }

  lemma {:induction false} WeightedUpdate(c: seq<int>, j: nat, k: nat, v: int)
    requires k < |c|
    ensures Weighted(c[k := c[k] + v], j) == Weighted(c, j) + if j <= k then (2 * k + 1) * v else 0
    decreases |c| - j
  {
    if j < |c| {
      WeightedUpdate(c, j + 1, k, v);
      if j == k { Distribute(2 * k + 1, c[k], v); }
    }
  }

  /** The sum the buckets are combined by is the weighted one. */
  lemma {:induction false} SweepIsWeighted(c: seq<int>, j: nat)
    ensures Weighted(c, j) == 2 * SumOfSuffixSums(c, j + 1) + (2 * j + 1) * SuffixSum(c, j)
    decreases |c| - j
  {
    if j < |c| {
      SweepIsWeighted(c, j + 1);
      var t := SuffixSum(c, j + 1);
      Distribute(2 * j + 1, c[j], t);
      assert (2 * (j + 1) + 1) * t == (2 * j + 1) * t + 2 * t;
    }
  }

  lemma {:induction false} WeightedZero(n: nat, j: nat)
    ensures Weighted(seq(n, _ => 0), j) == 0
    decreases n - j
  {
    if j < n { WeightedZero(n, j + 1); }
  }

  /** Bucket j holds c[j] times the base. */
  ghost predicate Holds(g: Group, base: Element, bucket: seq<Element>, c: seq<int>) {
    |bucket| == |c| && forall j :: 0 <= j < |c| ==> bucket[j] == g.Times(c[j], base)
  }

  /** Adds the doubled base, or its inverse, into the bucket of the window that starts here. */
  method AddWindow(g: Group, slider: WindowSlider, bucket: seq<Element>, doubled: Element,
                   ghost base: Element, ghost c: seq<int>)
    returns (bucket': seq<Element>, ghost c': seq<int>)
    requires g.Abelian() && slider.Valid() && !slider.firstTime && !slider.finished
    requires |bucket| == TwoTo(slider.windowSize - 1) && Holds(g, base, bucket, c)
    requires doubled == g.Times(TwoTo(slider.windowBegin), base)
    modifies slider
    ensures Holds(g, base, bucket', c') && |bucket'| == |bucket|
    ensures slider.Valid() && !slider.firstTime && slider.windowSize == old(slider.windowSize)
    ensures Weighted(c', 0) + slider.Value() == Weighted(c, 0) + old(slider.Value())
    ensures !slider.finished ==> slider.windowBegin > old(slider.windowBegin)
    ensures !slider.finished ==> slider.Horizon() <= old(slider.Horizon())
  {
    hide Weighted, Group.Abelian, Group.Times, Shr;
    var j := slider.expWindow / 2;
    assert TwoTo(slider.windowSize) == 2 * |bucket|;
    hide TwoTo;
    ghost var v := if slider.negateNext then 0 - TwoTo(slider.windowBegin) else TwoTo(slider.windowBegin);
    var addend := doubled;
    if slider.negateNext {
      addend := g.neg(doubled);
      TimesNeg(g, TwoTo(slider.windowBegin), base);
    }
    TimesSum(g, c[j], v, base);
    bucket' := bucket[j := g.add(bucket[j], addend)];
    c' := c[j := c[j] + v];
    WeightedUpdate(c, 0, j, v);
    WindowWeight(TwoTo(slider.windowBegin), slider.expWindow, j, slider.negateNext);
    slider.FindNextWindow();
  }

  lemma WindowWeight(m: nat, window: nat, j: nat, negate: bool)
    requires window == 2 * j + 1
    ensures (2 * j + 1) * (if negate then 0 - m else m) == m * (if negate then 0 - window else window)
  {
  }

  /** Combines the buckets from the top: the result is the sum of 2 j + 1 times bucket j. */
  method CombineBuckets(g: Group, bucket: seq<Element>, ghost base: Element, ghost c: seq<int>) returns (r: Element)
    requires g.Abelian() && Holds(g, base, bucket, c) && |bucket| > 0
    ensures r == g.Times(Weighted(c, 0), base)
  {
    hide Group.Abelian, Group.Times, Weighted;
    var b := bucket;
    r := b[|b| - 1];
    SweepIsWeighted(c, 0);
    if |b| > 1 {
      var j := |b| - 2;
      while j >= 1
        invariant 0 <= j && |b| == |c|
        invariant forall l :: 0 <= l <= j ==> b[l] == g.Times(c[l], base)
        invariant b[j + 1] == g.Times(SuffixSum(c, j + 1), base)
        invariant r == g.Times(SumOfSuffixSums(c, j + 1), base)
      {
        TimesSum(g, c[j], SuffixSum(c, j + 1), base);
        TimesSum(g, SumOfSuffixSums(c, j + 1), SuffixSum(c, j), base);
        b := b[j := g.add(b[j], b[j + 1])];
        r := g.add(r, b[j]);
        j := j - 1;
      }
      TimesSum(g, c[0], SuffixSum(c, 1), base);
      TimesSum(g, SumOfSuffixSums(c, 1), SumOfSuffixSums(c, 1), base);
      TimesSum(g, 2 * SumOfSuffixSums(c, 1), SuffixSum(c, 0), base);
      b := b[0 := g.add(b[0], b[1])];
      r := g.add(g.add(r, r), b[0]);
    }
  }

  /** The buckets and the slider of one exponent together hold that exponent times the base. */
  ghost predicate Slot(g: Group, base: Element, e: nat, slider: WindowSlider, bucket: seq<Element>, c: seq<int>,
                       limit: nat)
    reads slider
  {
    && slider.Valid() && !slider.firstTime
    && |bucket| == TwoTo(slider.windowSize - 1) && Holds(g, base, bucket, c)
    && Weighted(c, 0) + slider.Value() == e
    && (!slider.finished ==> slider.Horizon() <= limit)
  }

  /** No window starts before position pos. */
  ghost predicate NotMissed(slider: WindowSlider, pos: nat)
    reads slider
  {
    !slider.finished ==> slider.windowBegin >= pos
  }

  method StartSlot(g: Group, base: Element, e: nat, fastNegate: bool)
    returns (slider: WindowSlider, bucket: seq<Element>, ghost c: seq<int>)
    requires g.Abelian()
    ensures fresh(slider) && Slot(g, base, e, slider, bucket, c, slider.Horizon()) && NotMissed(slider, 0)
  {
    hide Group.Abelian;
    slider := new WindowSlider(e, fastNegate, 0);
    slider.FindNextWindow();
    var n := TwoTo(slider.windowSize - 1);
    bucket := seq(n, _ => g.zero);
    c := seq(n, _ => 0);
    WeightedZero(n, 0);
  }

  /** AbstractGroup::SimultaneousMultiply: every exponent times the base. */
  method SimultaneousMultiply(g: Group, inversionIsFast: bool, base: Element, exps: seq<nat>)
    returns (results: seq<Element>)
    requires g.Abelian()
    ensures |results| == |exps|
    ensures forall k :: 0 <= k < |exps| ==> results[k] == g.Times(exps[k], base)
  {
    hide Group.Abelian, Group.Times, Slot, NotMissed;
    var n := |exps|;
    var buckets: seq<seq<Element>> := [];
    var exponents: seq<WindowSlider> := [];
    ghost var coefs: seq<seq<int>> := [];
    ghost var limit: nat := 0;
    for i := 0 to n
      invariant |buckets| == |exponents| == |coefs| == i
      invariant forall k :: 0 <= k < i ==> fresh(exponents[k])
      invariant forall j, k :: 0 <= j < k < i ==> exponents[j] != exponents[k]
      invariant forall k :: 0 <= k < i ==>
        Slot(g, base, exps[k], exponents[k], buckets[k], coefs[k], limit) && NotMissed(exponents[k], 0)
    {
      var slider, bucket;
      ghost var c;
      slider, bucket, c := StartSlot(g, base, exps[i], inversionIsFast);
      ghost var bound: nat := if limit < slider.Horizon() then slider.Horizon() else limit;
      forall k | 0 <= k < i ensures Slot(g, base, exps[k], exponents[k], buckets[k], coefs[k], bound) {
        RaiseLimit(g, base, exps[k], exponents[k], buckets[k], coefs[k], limit, bound);
      }
      RaiseLimit(g, base, exps[i], slider, bucket, c, slider.Horizon(), bound);
      exponents, buckets, coefs, limit := exponents + [slider], buckets + [bucket], coefs + [c], bound;
    }
    buckets, coefs := DoubleAndAdd(g, base, exps, exponents, buckets, coefs, limit);
    results := [];
    for i := 0 to n
      invariant |results| == i
      invariant forall k :: 0 <= k < i ==> results[k] == g.Times(exps[k], base)
    {
      var r := CombineBuckets(g, buckets[i], base, coefs[i]);
      results := results + [r];
    }
  }

  lemma RaiseLimit(g: Group, base: Element, e: nat, slider: WindowSlider, bucket: seq<Element>, c: seq<int>,
                   limit: nat, bound: nat)
    requires Slot(g, base, e, slider, bucket, c, limit) && limit <= bound
    ensures Slot(g, base, e, slider, bucket, c, bound)
  {
  }

  /** One tick of the clock: adds the windows that start at this position. */
  method VisitSlots(g: Group, ghost base: Element, ghost exps: seq<nat>, exponents: seq<WindowSlider>,
                    before: seq<seq<Element>>, ghost coefsBefore: seq<seq<int>>, ghost limit: nat,
                    doubled: Element, expBitPosition: nat)
    returns (buckets: seq<seq<Element>>, ghost coefs: seq<seq<int>>, notDone: bool)
    requires g.Abelian() && |exps| == |exponents| == |before| == |coefsBefore|
    requires forall j, k :: 0 <= j < k < |exps| ==> exponents[j] != exponents[k]
    requires doubled == g.Times(TwoTo(expBitPosition), base)
    requires forall k :: 0 <= k < |exps| ==>
      Slot(g, base, exps[k], exponents[k], before[k], coefsBefore[k], limit) && NotMissed(exponents[k], expBitPosition)
    modifies exponents
    ensures |buckets| == |coefs| == |exps|
    ensures forall k :: 0 <= k < |exps| ==>
      Slot(g, base, exps[k], exponents[k], buckets[k], coefs[k], limit) && NotMissed(exponents[k], expBitPosition + 1)
    ensures notDone <==> exists k :: 0 <= k < |exps| && !exponents[k].finished
  {
    hide Group.Abelian, Group.Times, Slot, NotMissed, TwoTo;
    buckets, coefs, notDone := before, coefsBefore, false;
    var n := |exponents|;
    for i := 0 to n
      invariant |buckets| == |coefs| == n
      invariant forall k :: 0 <= k < n ==> Slot(g, base, exps[k], exponents[k], buckets[k], coefs[k], limit)
      invariant forall k :: 0 <= k < i ==> NotMissed(exponents[k], expBitPosition + 1)
      invariant forall k :: i <= k < n ==> NotMissed(exponents[k], expBitPosition)
      invariant notDone <==> exists k :: 0 <= k < i && !exponents[k].finished
    {
      if !exponents[i].finished && expBitPosition == exponents[i].windowBegin {
        ghost var c;
        var bucket;
        bucket, c := VisitSlot(g, exponents[i], buckets[i], doubled, base, exps[i], coefs[i], limit);
        buckets, coefs := buckets[i := bucket], coefs[i := c];
      } else {
        PassSlot(exponents[i], expBitPosition);
      }
      notDone := notDone || !exponents[i].finished;
    }
  }

  /** The doubling clock: every window is added exactly when the clock reaches its position. */
  method DoubleAndAdd(g: Group, base: Element, ghost exps: seq<nat>, exponents: seq<WindowSlider>,
                      initial: seq<seq<Element>>, ghost initialCoefs: seq<seq<int>>, ghost limit: nat)
    returns (buckets: seq<seq<Element>>, ghost coefs: seq<seq<int>>)
    requires g.Abelian() && |exps| == |exponents| == |initial| == |initialCoefs|
    requires forall j, k :: 0 <= j < k < |exps| ==> exponents[j] != exponents[k]
    requires forall k :: 0 <= k < |exps| ==>
      Slot(g, base, exps[k], exponents[k], initial[k], initialCoefs[k], limit) && NotMissed(exponents[k], 0)
    modifies exponents
    ensures |buckets| == |coefs| == |exps|
    ensures forall k :: 0 <= k < |exps| ==>
      Holds(g, base, buckets[k], coefs[k]) && |buckets[k]| > 0 && Weighted(coefs[k], 0) == exps[k]
  {
    hide Group.Abelian, Group.Times, Slot, NotMissed;
    buckets, coefs := initial, initialCoefs;
    var n := |exponents|;
    var expBitPosition := 0;
    var doubled := base;
    var notDone := true;
    TimesOne(g, base);
    while notDone
      invariant |buckets| == |coefs| == n
      invariant doubled == g.Times(TwoTo(expBitPosition), base)
      invariant forall k :: 0 <= k < n ==> Slot(g, base, exps[k], exponents[k], buckets[k], coefs[k], limit)
      invariant notDone ==> forall k :: 0 <= k < n ==> NotMissed(exponents[k], expBitPosition)
      invariant notDone || forall k :: 0 <= k < n ==> exponents[k].finished
      invariant notDone ==> expBitPosition <= limit
      decreases if notDone then limit + 1 - expBitPosition else 0
    {
      buckets, coefs, notDone := VisitSlots(g, base, exps, exponents, buckets, coefs, limit, doubled, expBitPosition);
      if notDone {
        TimesSum(g, TwoTo(expBitPosition), TwoTo(expBitPosition), base);
        doubled := g.add(doubled, doubled);
        expBitPosition := expBitPosition + 1;
        ghost var k :| 0 <= k < n && !exponents[k].finished;
        SlotWithinLimit(g, base, exps[k], exponents[k], buckets[k], coefs[k], limit, expBitPosition);
      }
    }
    forall k | 0 <= k < n
      ensures Holds(g, base, buckets[k], coefs[k]) && |buckets[k]| > 0 && Weighted(coefs[k], 0) == exps[k]
    {
      SlotFinished(g, base, exps[k], exponents[k], buckets[k], coefs[k], limit);
    }
  }

  lemma PassSlot(slider: WindowSlider, pos: nat)
    requires NotMissed(slider, pos) && (slider.finished || slider.windowBegin != pos)
    ensures NotMissed(slider, pos + 1)
  {
  }

  lemma SlotWithinLimit(g: Group, base: Element, e: nat, slider: WindowSlider, bucket: seq<Element>, c: seq<int>,
                        limit: nat, pos: nat)
    requires Slot(g, base, e, slider, bucket, c, limit) && !slider.finished && NotMissed(slider, pos)
    ensures pos <= limit
  {
  }

  lemma SlotFinished(g: Group, base: Element, e: nat, slider: WindowSlider, bucket: seq<Element>, c: seq<int>,
                     limit: nat)
    requires Slot(g, base, e, slider, bucket, c, limit) && slider.finished
    ensures Holds(g, base, bucket, c) && |bucket| > 0 && Weighted(c, 0) == e
  {
  }

  /** The body of the inner loop for an exponent whose window starts at the clock's position. */
  method VisitSlot(g: Group, slider: WindowSlider, bucket: seq<Element>, doubled: Element, ghost base: Element,
                   ghost e: nat, ghost c: seq<int>, ghost limit: nat)
    returns (bucket': seq<Element>, ghost c': seq<int>)
    requires g.Abelian() && Slot(g, base, e, slider, bucket, c, limit) && !slider.finished
    requires doubled == g.Times(TwoTo(slider.windowBegin), base)
    modifies slider
    ensures Slot(g, base, e, slider, bucket', c', limit) && NotMissed(slider, old(slider.windowBegin) + 1)
  {
    hide Group.Abelian, Group.Times;
    bucket', c' := AddWindow(g, slider, bucket, doubled, base, c);
  }

  /** AbstractGroup::ScalarMultiply */
  method ScalarMultiply(g: Group, inversionIsFast: bool, base: Element, exponent: nat) returns (result: Element)
    requires g.Abelian()
    ensures result == g.Times(exponent, base)
  {
    var results := SimultaneousMultiply(g, inversionIsFast, base, [exponent]);
    result := results[0];
  }
}
