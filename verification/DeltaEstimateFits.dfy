/** The widths of the estimator: which of its 32-, 64- and 128-bit intermediates can
    overflow, and on what readings. */
module DeltaEstimateFits {
  import opened Arith
  import opened DeltaStep
  import opened DeltaControl
  import opened DeltaEstimate
  import opened DeltaEstimateRuns
  import opened DeltaMachine

  // ------------------------------------------------------------- 32-bit fields

  /** The largest reading the window sum has room for: it spans less than one minimum
      window and one capped period. */
  const READING_BOUND := INT32_MAX / (MIN_WINDOW_MS + MAX_PERIOD_MS - 1)

  /** On readings up to the bound every 32-bit intermediate of a sample fits. */
  lemma SampleFits(e: Est, c: Input, most: nat)
    requires Inv(e, most) && 0 <= c.reading.util <= most <= READING_BOUND
    ensures var e', p := SampleTaken(e, c), SamplePeriod(e, c);
      && (p > 0 ==> 0 <= c.reading.util * p <= INT32_MAX && 3 * e.period + p + 2 <= INT32_MAX)
      && 0 <= e'.winReading <= INT32_MAX && 0 <= e'.winMs <= INT32_MAX
  {
    hide SampleTaken, Wrap32;
    SampleTakenBounds(e, c, most);
    var p, ms := SamplePeriod(e, c), SampleTaken(e, c).winMs;
    MulMono(ms, MIN_WINDOW_MS + MAX_PERIOD_MS - 1, most);
    if p > 0 {
      MulMono(c.reading.util, READING_BOUND, p);
      MulMono(0, c.reading.util, p);
    }
  }

  /** One past it the window sum can overflow: the bound is exact. */
  lemma SampleCanWrap(most: nat) returns (e: Est, c: Input)
    requires most > READING_BOUND
    ensures Inv(e, most) && c.reading.util == most && SampleTaken(e, c).winReading > INT32_MAX
  {
    var ms := MIN_WINDOW_MS - 1;
    e := Fresh0.(lastTs := 1, winTs := 1, winMs := ms, winReading := most * ms);
    c := Input(Tuning(0, 0, 0), Reading(50, most, 0, false), 0, 1 + MAX_PERIOD_MS, 0, 0, 0);
    assert SamplePeriod(e, c) == MAX_PERIOD_MS;
    assert SampleTaken(e, c).winReading == most * ms + most * MAX_PERIOD_MS;
  }

  // ------------------------------------------------------ the weighted averages

  lemma {:induction false} SpanDen(e: Est, from: int, end: int, i: nat, s: Sums)
    requires |e.ring| == RING && i < RING
    ensures SpanSums(e, from, end, i, s).den <= s.den + 1000 * (RING - 1 - i)
    decreases RING - i
  {
    hide Weight;
    if Walking(e, from, i) {
      var w := Weight(Start(e, from, i), End(e, from, i), end);
      WeightBounds(Start(e, from, i), End(e, from, i), end);
      SpanDen(e, from, end, i + 1, Added(s, RingAt(e, i + 1), w));
    }
  }

  lemma {:induction false} WindowDen(e: Est, c: Input, j: nat, s: Sums)
    requires |e.ring| == RING && j <= SpanCount(e, c)
    ensures WindowSums(e, c, j, s).den <= s.den + 1000 * (RING - 1) * (SpanCount(e, c) - j)
    decreases SpanCount(e, c) - j
  {
    hide SpanSums, SpanFrom, SpanEnd, SpanCount;
    if j < SpanCount(e, c) {
      SpanDen(e, SpanFrom(e, c, j), SpanEnd(e, c), 0, s);
      WindowDen(e, c, j + 1, SpanSums(e, SpanFrom(e, c, j), SpanEnd(e, c), 0, s));
    }
  }

  lemma SpanCountBound(e: Est, c: Input)
    requires 0 <= e.winMs < MIN_WINDOW_MS + MAX_PERIOD_MS
    ensures 1 <= SpanCount(e, c) <= MIN_WINDOW_MS + MAX_PERIOD_MS
  {
    if Sliding(e, c) {
      var p := e.period;
      var most := e.winMs + 1;
      MulMono(1, p, e.winMs);
      QuotientMono(e.winMs + p / 2, most * p, p);
      QuotientOfMultiple(most * p, most, p);
    }
  }

  /** The total weight of a window is at most this. */
  const DEN_BOUND := 1000 * (RING - 1) * (MIN_WINDOW_MS + MAX_PERIOD_MS)

  /** With 64-bit consumption in the ring, the sums stay in 64 and 128 bits with room to
      spare, and the means are 64-bit again. */
  lemma SumsFit(e: Est, c: Input)
    requires |e.ring| == RING && RingWithin(e, 0, INT64_MAX) && 0 <= e.winMs < MIN_WINDOW_MS + MAX_PERIOD_MS
    ensures var s := WindowSums(e, c, 0, NoSums);
      && 0 <= s.starvedDen <= s.activeDen <= s.den <= DEN_BOUND && 4 * DEN_BOUND <= INT64_MAX
      && 0 <= s.num <= INT64_MAX * DEN_BOUND && 0 <= s.starvedNum <= INT64_MAX * DEN_BOUND
      && INT64_MAX * DEN_BOUND + DEN_BOUND <= INT128_MAX
      && 0 <= Mean(s.num, s.den) <= INT64_MAX && 0 <= Mean(s.starvedNum, s.starvedDen) <= INT64_MAX
  {
    hide WindowSums, RingWithin, WindowWithin, Mean;
    var s := WindowSums(e, c, 0, NoSums);
    SpanCountBound(e, c);
    WindowDen(e, c, 0, NoSums);
    RingWindow(e, c, 0, 0, INT64_MAX);
    WindowSumsWithin(e, c, 0, NoSums, 0, INT64_MAX);
    MeanBetween(e, c, 0, INT64_MAX);
    MulMono(s.den, DEN_BOUND, INT64_MAX);
    MulMono(s.starvedDen, DEN_BOUND, INT64_MAX);
    NoMean(s.num, s.den);
    NoMean(s.starvedNum, s.starvedDen);
  }

  lemma NoMean(num: int, den: int)
    ensures den <= 0 ==> Mean(num, den) == 0
  {
  }

  /** Nor does sizing overflow: every dividend of the estimate is within 128 bits, and
      the scaled reading is positive. */
  lemma EstimateFits(e: Est, c: Input)
    requires |e.ring| == RING && RingWithin(e, 0, INT64_MAX) && 0 <= e.winMs < MIN_WINDOW_MS + MAX_PERIOD_MS
    requires 1 <= WindowReading(e) <= READING_BOUND && 1 <= c.reading.target < 100
    ensures var s, m, target := WindowSums(e, c, 0, NoSums), WindowReading(e), c.reading.target;
      && 0 <= Mean(s.num, s.den) * target + m / 2 <= INT128_MAX
      && 0 <= m * s.den <= INT64_MAX
      && (s.activeDen > 0 ==>
        var active := m * s.den / s.activeDen;
        active >= 1 && 0 <= Mean(s.starvedNum, s.starvedDen) * target + active / 2 <= INT128_MAX)
  {
    hide WindowSums, RingWithin, Mean;
    SumsFit(e, c);
    var s, m, target := WindowSums(e, c, 0, NoSums), WindowReading(e), c.reading.target;
    TargetProductFits(Mean(s.num, s.den), target);
    TargetProductFits(Mean(s.starvedNum, s.starvedDen), target);
    ScaledReading(m, s.den, s.activeDen);
  }

  lemma ScaledReading(m: int, den: int, active: int)
    requires 1 <= m <= READING_BOUND && 0 <= active <= den <= DEN_BOUND
    ensures 0 <= m * den <= INT64_MAX
    ensures active > 0 ==> 1 <= m * den / active <= INT64_MAX
  {
    MulMono(den, DEN_BOUND, m);
    MulMono(m, READING_BOUND, DEN_BOUND);
    MulMono(1, m, den);
    if active > 0 {
      QuotientAtLeast(m * den, active, 1);
      QuotientNonNegative(m * den, active);
    }
  }

  lemma TargetProductFits(mean: int, target: int)
    requires 0 <= mean <= INT64_MAX && 1 <= target < 100
    ensures 0 <= mean * target <= INT64_MAX * 100
  {
    MulMono(mean, INT64_MAX, target);
    MulMono(0, mean, target);
    MulMono(target, 100, INT64_MAX);
  }

  // ----------------------------------------------------------- keeping the ring

  /** 64-bit consumption is all the ring ever holds, over every run. */
  lemma {:induction false} RingFits(e: Est, share: nat, inputs: seq<Input>)
    requires |e.ring| == RING && (forall k :: 0 <= k < RING ==> e.ring[k].consumed <= INT64_MAX)
    requires forall c :: c in inputs ==> c.consumed <= INT64_MAX
    ensures RingWithin(EstRun(e, share, inputs).0, 0, INT64_MAX)
    decreases |inputs|
  {
    hide SampleTaken, WindowClosed, BetweenSamples;
    if inputs != [] {
      var c := inputs[0];
      RingKept(Recorded(e, c, share), c);
      var (e', d) := EstControl(e, c, share);
      RingFits(e', d.share, inputs[1..]);
    }
  }

  lemma RingKept(e: Est, c: Input)
    ensures SampleTaken(e, c).ring == e.ring
  {
  }

  /** A demand drop leaves at most what the cycle consumed, so its share is 64-bit. */
  lemma DropFits(e: Est, c: Input)
    requires Dropped(e, c)
    ensures 1 <= DropShare(c) <= c.consumed
  {
    MulMono(c.reading.target, 99, c.consumed);
    MulMono(0, c.reading.target, c.consumed);
    QuotientAtLeast(c.consumed * c.reading.target + 50, 100, c.consumed + 1);
  }
}
