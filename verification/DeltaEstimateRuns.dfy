/** What the sample-driven estimate keeps over every run, what its averages mean,
    and the equilibrium it holds. */
module DeltaEstimateRuns {
  import opened Arith
  import opened DeltaStep
  import opened DeltaControl
  import opened DeltaEstimate

  // ----------------------------------------------------------- run invariant

  /** What holds between cycles, for readings of at most `most`. */
  ghost predicate Inv(e: Est, most: nat) {
    && |e.ring| == RING
    && 0 <= e.winMs < MIN_WINDOW_MS
    && 0 <= e.winReading <= most * e.winMs
    && 0 <= e.period <= MAX_PERIOD_MS
    && 0 <= e.longGaps < PERIOD_READOPT
    && 0 <= e.dropCycles < DROP_CYCLES
  }

  ghost predicate InputOk(c: Input, total: nat, most: nat) {
    c.tuning.total == total <= INT64_MAX && 0 <= c.reading.util <= most
  }

  /** A sample widens the window by at most one capped period and keeps the smoothed
      period positive once it is set. */
  lemma SampleTakenBounds(e: Est, c: Input, most: nat)
    requires Inv(e, most) && 0 <= c.reading.util <= most
    ensures var e' := SampleTaken(e, c);
      && e'.ring == e.ring && e'.dropCycles == e.dropCycles
      && 0 <= e'.winMs < MIN_WINDOW_MS + MAX_PERIOD_MS
      && 0 <= e'.winReading <= most * e'.winMs
      && 0 <= e'.period <= MAX_PERIOD_MS && (e.period > 0 ==> e'.period > 0)
      && 0 <= e'.longGaps < PERIOD_READOPT
      && (e.lastTs == 0 ==> e'.winMs < MIN_WINDOW_MS)
  {
    hide Wrap32, PeriodTaken;
    var p := SamplePeriod(e, c);
    if p > 0 && e.lastTs != 0 {
      var read, ms := e.winReading + c.reading.util * p, e.winMs + p;
      ReadingGrows(e.winReading, e.winMs, c.reading.util, p, most);
      PeriodTakenBounds(e.(lastTs := c.sampleTs, winReading := read, winMs := ms), p);
    }
  }

  lemma ReadingGrows(sum: int, ms: int, util: int, p: int, most: nat)
    requires 0 <= sum <= most * ms && 0 <= util <= most && p > 0
    ensures 0 <= sum + util * p <= most * (ms + p)
  {
    MulMono(util, most, p);
    MulMono(0, util, p);
    assert most * (ms + p) == most * ms + most * p;
  }

  lemma PeriodTakenBounds(e: Est, p: int)
    requires 0 < p <= MAX_PERIOD_MS && 0 <= e.period <= MAX_PERIOD_MS && 0 <= e.longGaps < PERIOD_READOPT
    ensures var e' := PeriodTaken(e, p);
      && e' == e.(period := e'.period, longGaps := e'.longGaps)
      && 0 <= e'.period <= MAX_PERIOD_MS && (e.period > 0 ==> e'.period > 0)
      && 0 <= e'.longGaps < PERIOD_READOPT
  {
  }

  lemma BetweenSamplesBounds(e: Est, c: Input, share: nat, total: nat, most: nat)
    requires Inv(e, most) && InputOk(c, total, most) && share <= Limit(total)
    ensures var (e', d) := BetweenSamples(e, c, share);
      Inv(e', most) && d.share <= Limit(total) && e'.period == e.period
  {
    ControlInRange(c.tuning, share, c.reading, c.consumed);
  }

  lemma WindowClosedBounds(e: Est, c: Input, share: nat, total: nat, most: nat)
    requires |e.ring| == RING && InputOk(c, total, most) && share <= Limit(total)
    requires 0 <= e.period <= MAX_PERIOD_MS && 0 <= e.longGaps < PERIOD_READOPT && 0 <= e.dropCycles < DROP_CYCLES
    ensures var (e', d) := WindowClosed(e, c, share);
      Inv(e', most) && d.share <= Limit(total) && e'.period == e.period
  {
    hide WindowSums, Estimated, BetweenSamples;
    var s := WindowSums(e, c, 0, NoSums);
    var zero := ZeroWhileStarved(WindowReading(e), s);
    BetweenSamplesBounds(Closed(e, c, zero), c, share, total, most);
  }

  /** Every cycle keeps the invariant and the headroom limit; a window that closes
      spans a positive time, so its reading is a mean in 0..most. */
  lemma EstControlKeeps(e: Est, c: Input, share: nat, total: nat, most: nat)
    requires Inv(e, most) && InputOk(c, total, most) && share <= Limit(total)
    ensures var (e', d) := EstControl(e, c, share);
      Inv(e', most) && d.share <= Limit(total) && (e.period > 0 ==> e'.period > 0)
    ensures var e1 := Recorded(e, c, share); var e2 := SampleTaken(e1, c);
      Fresh(e1, c) && Closes(e1, e2, c) ==> e2.winMs > 0 && 0 <= WindowReading(e2) <= most
  {
    hide WindowClosed, BetweenSamples, SampleTaken, ZeroNow;
    var e1 := Recorded(e, c, share);
    BetweenSamplesBounds(e1, c, share, total, most);
    SampleTakenBounds(e1, c, most);
    var e2 := SampleTaken(e1, c);
    WindowClosedBounds(e2, c, share, total, most);
    ZeroNowHasWindow(e2, c);
    if e2.winMs > 0 {
      QuotientAtLeast(e2.winReading, e2.winMs, 0);
      QuotientMono(e2.winReading, most * e2.winMs, e2.winMs);
      QuotientOfMultiple(most * e2.winMs, most, e2.winMs);
    }
    if !Closes(e1, e2, c) && e2.winMs < MIN_WINDOW_MS {
      BetweenSamplesBounds(e2, c, share, total, most);
    }
  }

  lemma ZeroNowHasWindow(e: Est, c: Input)
    requires |e.ring| == RING
    ensures ZeroNow(e, c) ==> e.winMs > 0
  {
  }

  function EstRun(e: Est, share: nat, inputs: seq<Input>): (r: (Est, nat))
    requires |e.ring| == RING
    ensures |r.0.ring| == RING
    decreases |inputs|
  {
    if inputs == [] then (e, share)
    else
      var (e', d) := EstControl(e, inputs[0], share);
      EstRun(e', d.share, inputs[1..])
  }

  const Fresh0 := Est(0, 0, 0, 0, 0, false, false, 0, 0, 0, 0, seq(RING, _ => Record(0, 0, false)))

  /** Over every run, whatever the clock, the samples and the consumption do, the
      invariant holds and share stays within the headroom limit. */
  lemma {:induction false} EstRunKeeps(e: Est, share: nat, inputs: seq<Input>, total: nat, most: nat)
    requires Inv(e, most) && share <= Limit(total)
    requires forall c :: c in inputs ==> InputOk(c, total, most)
    ensures var (e', share') := EstRun(e, share, inputs);
      Inv(e', most) && share' <= Limit(total) && (e.period > 0 ==> e'.period > 0)
    decreases |inputs|
  {
    if inputs != [] {
      EstControlKeeps(e, inputs[0], share, total, most);
      var (e', d) := EstControl(e, inputs[0], share);
      EstRunKeeps(e', d.share, inputs[1..], total, most);
    }
  }

  /** ... from the zero-initialised state in particular. */
  lemma EveryRunKeeps(share: nat, inputs: seq<Input>, total: nat, most: nat)
    requires share <= Limit(total) && forall c :: c in inputs ==> InputOk(c, total, most)
    ensures Inv(EstRun(Fresh0, share, inputs).0, most) && EstRun(Fresh0, share, inputs).1 <= Limit(total)
  {
    EstRunKeeps(Fresh0, share, inputs, total, most);
  }

  // --------------------------------------------------------------- averaging

  /** A record's weight is a number of thousandths between 0 and 1000. */
  lemma WeightBounds(t0: int, t1: int, end: int)
    requires -0x8000_0000 <= t0 < 0x8000_0000 && -0x8000_0000 <= t1 < 0x8000_0000
    ensures 0 <= Weight(t0, t1, end) <= 1000
  {
    var lo, hi, len := Max(t0, 0), Min(t1, end), Wrap32(t1 - t0);
    if hi > lo && len > 0 {
      FractionAtMost(1000, hi - lo, len);
    }
  }

  /** Every record the walk gives weight to consumed between `lo` and `hi`. */
  ghost predicate SpanWithin(e: Est, from: int, end: int, i: nat, lo: nat, hi: nat)
    requires |e.ring| == RING
    decreases RING - i
  {
    Walking(e, from, i) ==>
      && (Weight(Start(e, from, i), End(e, from, i), end) > 0 ==> lo <= RingAt(e, i + 1).consumed <= hi)
      && SpanWithin(e, from, end, i + 1, lo, hi)
  }

  ghost predicate WindowWithin(e: Est, c: Input, j: nat, lo: nat, hi: nat)
    requires |e.ring| == RING
    decreases SpanCount(e, c) - j
  {
    j < SpanCount(e, c) ==>
      SpanWithin(e, SpanFrom(e, c, j), SpanEnd(e, c), 0, lo, hi) && WindowWithin(e, c, j + 1, lo, hi)
  }

  /** The sums of records that all consumed between `lo` and `hi`. */
  ghost predicate SumsWithin(s: Sums, lo: nat, hi: nat) {
    && 0 <= s.starvedDen <= s.activeDen <= s.den
    && lo * s.den <= s.num <= hi * s.den
    && lo * s.starvedDen <= s.starvedNum <= hi * s.starvedDen
    && (lo > 0 ==> s.activeDen == s.den)
  }

  lemma AddedWithin(s: Sums, r: Record, w: int, lo: nat, hi: nat)
    requires SumsWithin(s, lo, hi) && w >= 0 && (w > 0 ==> lo <= r.consumed <= hi)
    ensures SumsWithin(Added(s, r, w), lo, hi)
  {
    WeightedBetween(lo, hi, s.num, s.den, r.consumed, w);
    WeightedBetween(lo, hi, s.starvedNum, s.starvedDen, r.consumed, w);
  }

  lemma WeightedBetween(lo: int, hi: int, num: int, den: int, x: int, w: int)
    requires lo * den <= num <= hi * den && w >= 0 && (w > 0 ==> lo <= x <= hi)
    ensures lo * (den + w) <= num + x * w <= hi * (den + w)
  {
    if w > 0 {
      MulMono(lo, x, w);
      MulMono(x, hi, w);
      assert lo * (den + w) == lo * den + lo * w;
      assert hi * (den + w) == hi * den + hi * w;
    }
  }

  lemma {:induction false} SpanSumsWithin(e: Est, from: int, end: int, i: nat, s: Sums, lo: nat, hi: nat)
    requires |e.ring| == RING && SumsWithin(s, lo, hi) && SpanWithin(e, from, end, i, lo, hi)
    ensures SumsWithin(SpanSums(e, from, end, i, s), lo, hi)
    decreases RING - i
  {
    hide SumsWithin, Weight, Added;
    if Walking(e, from, i) {
      var w := Weight(Start(e, from, i), End(e, from, i), end);
      WeightBounds(Start(e, from, i), End(e, from, i), end);
      AddedWithin(s, RingAt(e, i + 1), w, lo, hi);
      SpanSumsWithin(e, from, end, i + 1, Added(s, RingAt(e, i + 1), w), lo, hi);
    }
  }

  /** Over the whole window: starved_den <= active_den <= den, and the sums lie
      between the least and the greatest overlapped consumption. */
  lemma {:induction false} WindowSumsWithin(e: Est, c: Input, j: nat, s: Sums, lo: nat, hi: nat)
    requires |e.ring| == RING && SumsWithin(s, lo, hi) && WindowWithin(e, c, j, lo, hi)
    ensures SumsWithin(WindowSums(e, c, j, s), lo, hi)
    decreases SpanCount(e, c) - j
  {
    hide SumsWithin, SpanSums, SpanWithin;
    if j < SpanCount(e, c) {
      var from, end := SpanFrom(e, c, j), SpanEnd(e, c);
      SpanSumsWithin(e, from, end, 0, s, lo, hi);
      WindowSumsWithin(e, c, j + 1, SpanSums(e, from, end, 0, s), lo, hi);
    }
  }

  /** Every record still in the ring consumed between `lo` and `hi`. */
  ghost predicate RingWithin(e: Est, lo: nat, hi: nat)
    requires |e.ring| == RING
  {
    forall k :: 0 <= k < RING && k < e.head ==> lo <= e.ring[k].consumed <= hi
  }

  lemma {:induction false} RingSpan(e: Est, from: int, end: int, i: nat, lo: nat, hi: nat)
    requires |e.ring| == RING && RingWithin(e, lo, hi)
    ensures SpanWithin(e, from, end, i, lo, hi)
    decreases RING - i
  {
    if Walking(e, from, i) {
      var k := (e.head - (i + 1)) % RING;
      assert k < e.head;
      RingSpan(e, from, end, i + 1, lo, hi);
    }
  }

  lemma {:induction false} RingWindow(e: Est, c: Input, j: nat, lo: nat, hi: nat)
    requires |e.ring| == RING && RingWithin(e, lo, hi)
    ensures WindowWithin(e, c, j, lo, hi)
    decreases SpanCount(e, c) - j
  {
    hide RingWithin;
    if j < SpanCount(e, c) {
      RingSpan(e, SpanFrom(e, c, j), SpanEnd(e, c), 0, lo, hi);
      RingWindow(e, c, j + 1, lo, hi);
    }
  }

  /** Rounding is to the nearest: the error is at most half the divisor. */
  lemma RoundedNearest(n: int, d: int)
    requires d > 0
    ensures 2 * Abs(n - d * Rounded(n, d)) <= d
  {
    var q := (n + d / 2) / d;
    assert d * q + (n + d / 2) % d == n + d / 2;
  }

  lemma RoundedExact(q: int, d: int)
    requires d > 0
    ensures Rounded(q * d, d) == q
  {
    QuotientIs(q * d + d / 2, d, q);
  }

  lemma RoundedBetween(n: int, d: int, lo: int, hi: int)
    requires d > 0 && lo * d <= n <= hi * d
    ensures lo <= Rounded(n, d) <= hi
  {
    QuotientMono(lo * d + d / 2, n + d / 2, d);
    QuotientMono(n + d / 2, hi * d + d / 2, d);
    RoundedExact(lo, d);
    RoundedExact(hi, d);
  }

  /** The window's mean lies between the least and the greatest overlapped
      consumption. */
  lemma MeanBetween(e: Est, c: Input, lo: nat, hi: nat)
    requires |e.ring| == RING && WindowWithin(e, c, 0, lo, hi)
    ensures var s := WindowSums(e, c, 0, NoSums);
      && 0 <= s.starvedDen <= s.activeDen <= s.den
      && (s.den > 0 ==> lo <= Mean(s.num, s.den) <= hi)
      && (s.starvedDen > 0 ==> lo <= Mean(s.starvedNum, s.starvedDen) <= hi)
  {
    WindowSumsWithin(e, c, 0, NoSums, lo, hi);
    var s := WindowSums(e, c, 0, NoSums);
    if s.den > 0 { RoundedBetween(s.num, s.den, lo, hi); }
    if s.starvedDen > 0 { RoundedBetween(s.starvedNum, s.starvedDen, lo, hi); }
  }

  lemma UniformEstimate(target: int, m: int, s: Sums, used: nat)
    requires SumsWithin(s, used, used) && s.den > 0 && used > 0 && m >= 1
    ensures Estimated(target, m, s) == Rounded(used * target, m)
  {
    RoundedExact(used, s.den);
    if s.starvedDen > 0 { RoundedExact(used, s.starvedDen); }
    QuotientOfMultiple(m * s.den, m, s.den);
  }

  /** A window whose overlapped records all consumed `used` is answered in one step:
      used * target / reading to the nearest token, the constrained and the
      unconstrained sizing agreeing. */
  lemma UniformWindow(e: Est, c: Input, share: nat, used: nat)
    requires |e.ring| == RING && WindowWithin(e, c, 0, used, used) && used > 0
    requires WindowSums(e, c, 0, NoSums).den > 0 && WindowReading(e) >= 1 && 1 <= c.reading.target < 100
    ensures var (e', d) := WindowClosed(e, c, share);
      && d.share == Max(0, Min(Rounded(used * c.reading.target, WindowReading(e)), Limit(c.tuning.total)))
      && d.drain == (c.reading.bucket > d.share)
      && e'.haveEst && e'.refConsumed == used && !e'.zeroStarved
  {
    hide WindowSums, WindowWithin, SumsWithin, Estimated, Rounded;
    var s := WindowSums(e, c, 0, NoSums);
    NoSumsWithin(used);
    WindowSumsWithin(e, c, 0, NoSums, used, used);
    UniformEstimate(c.reading.target, WindowReading(e), s, used);
    UniformMean(s, used);
  }

  lemma NoSumsWithin(used: nat)
    ensures SumsWithin(NoSums, used, used)
  {
  }

  lemma UniformMean(s: Sums, used: nat)
    requires SumsWithin(s, used, used) && s.den > 0
    ensures Mean(s.num, s.den) == used
  {
    RoundedExact(used, s.den);
  }

  /** Every record the walk gives weight to is idle, or hit its share consuming `used`. */
  ghost predicate SpanOnOff(e: Est, from: int, end: int, i: nat, used: nat)
    requires |e.ring| == RING
    decreases RING - i
  {
    Walking(e, from, i) ==>
      var r := RingAt(e, i + 1);
      && (Weight(Start(e, from, i), End(e, from, i), end) > 0 ==> r.consumed == if r.starved then used else 0)
      && SpanOnOff(e, from, end, i + 1, used)
  }

  ghost predicate WindowOnOff(e: Est, c: Input, j: nat, used: nat)
    requires |e.ring| == RING
    decreases SpanCount(e, c) - j
  {
    j < SpanCount(e, c) ==>
      SpanOnOff(e, SpanFrom(e, c, j), SpanEnd(e, c), 0, used) && WindowOnOff(e, c, j + 1, used)
  }

  /** Only the busy cycles count as active, and they consumed `used` each. */
  ghost predicate SumsOnOff(s: Sums, used: nat) {
    && 0 <= s.activeDen == s.starvedDen <= s.den
    && s.num == s.starvedNum == used * s.starvedDen
  }

  lemma AddedOnOff(s: Sums, r: Record, w: int, used: nat)
    requires SumsOnOff(s, used) && w >= 0 && (w > 0 ==> r.consumed == if r.starved then used else 0)
    ensures SumsOnOff(Added(s, r, w), used)
  {
    assert used * (s.starvedDen + w) == used * s.starvedDen + used * w;
  }

  lemma {:induction false} SpanSumsOnOff(e: Est, from: int, end: int, i: nat, s: Sums, used: nat)
    requires |e.ring| == RING && SumsOnOff(s, used) && SpanOnOff(e, from, end, i, used)
    ensures SumsOnOff(SpanSums(e, from, end, i, s), used)
    decreases RING - i
  {
    hide SumsOnOff, Weight, Added;
    if Walking(e, from, i) {
      var w := Weight(Start(e, from, i), End(e, from, i), end);
      WeightBounds(Start(e, from, i), End(e, from, i), end);
      AddedOnOff(s, RingAt(e, i + 1), w, used);
      SpanSumsOnOff(e, from, end, i + 1, Added(s, RingAt(e, i + 1), w), used);
    }
  }

  lemma {:induction false} WindowSumsOnOff(e: Est, c: Input, j: nat, s: Sums, used: nat)
    requires |e.ring| == RING && SumsOnOff(s, used) && WindowOnOff(e, c, j, used)
    ensures SumsOnOff(WindowSums(e, c, j, s), used)
    decreases SpanCount(e, c) - j
  {
    hide SumsOnOff, SpanSums, SpanOnOff;
    if j < SpanCount(e, c) {
      var from, end := SpanFrom(e, c, j), SpanEnd(e, c);
      SpanSumsOnOff(e, from, end, 0, s, used);
      WindowSumsOnOff(e, c, j + 1, SpanSums(e, from, end, 0, s), used);
    }
  }

  /** The reading over the active part of the window: the window's own, scaled up by the
      time that was idle. */
  ghost function ActiveReading(e: Est, c: Input): int
    requires |e.ring| == RING && WindowSums(e, c, 0, NoSums).activeDen > 0
  {
    WindowReading(e) * WindowSums(e, c, 0, NoSums).den / WindowSums(e, c, 0, NoSums).activeDen
  }

  /** The sizing of an on/off load, when the window's mean does not round to nothing. */
  lemma OnOffWindow(e: Est, c: Input, share: nat, used: nat)
    requires |e.ring| == RING && WindowOnOff(e, c, 0, used) && WindowSums(e, c, 0, NoSums).activeDen > 0
    requires WindowReading(e) >= 1 && 1 <= c.reading.target < 100
    requires Mean(WindowSums(e, c, 0, NoSums).num, WindowSums(e, c, 0, NoSums).den) > 0
    ensures ActiveReading(e, c) >= WindowReading(e)
    ensures WindowClosed(e, c, share).1.share
      == Max(0, Min(Rounded(used * c.reading.target, ActiveReading(e, c)), Limit(c.tuning.total)))
  {
    hide WindowSums, WindowOnOff, Rounded, Mean;
    var s, m := WindowSums(e, c, 0, NoSums), WindowReading(e);
    WindowSumsOnOff(e, c, 0, NoSums, used);
    MulMono(s.activeDen, s.den, m);
    QuotientMono(m * s.activeDen, m * s.den, s.activeDen);
    QuotientOfMultiple(m * s.activeDen, m, s.activeDen);
    RoundedExact(used, s.starvedDen);
  }

  /** Idle cycles neither inflate nor dilute: an on/off window gets the share that a
      window without idle cycles gets, at the reading its active time had. */
  lemma IdleCancels(e: Est, c: Input, busy: Est, cb: Input, share: nat, used: nat)
    requires |e.ring| == RING && WindowOnOff(e, c, 0, used) && WindowSums(e, c, 0, NoSums).activeDen > 0
    requires WindowReading(e) >= 1 && 1 <= c.reading.target < 100
    requires Mean(WindowSums(e, c, 0, NoSums).num, WindowSums(e, c, 0, NoSums).den) > 0
    requires |busy.ring| == RING && WindowWithin(busy, cb, 0, used, used) && used > 0
    requires WindowSums(busy, cb, 0, NoSums).den > 0 && WindowReading(busy) == ActiveReading(e, c)
    requires cb.reading.target == c.reading.target && cb.tuning.total == c.tuning.total
    ensures WindowClosed(e, c, share).1.share == WindowClosed(busy, cb, share).1.share
  {
    hide WindowSums, WindowOnOff, WindowWithin, WindowClosed, Rounded, Mean, ActiveReading;
    OnOffWindow(e, c, share, used);
    UniformWindow(busy, cb, share, used);
  }

  /** Dead beat: on a load that costs `perPoint` tokens a utilization point, one
      window takes share to exactly perPoint * target, from above or from below. */
  lemma DeadBeat(e: Est, c: Input, share: nat, perPoint: nat)
    requires |e.ring| == RING && perPoint > 0 && WindowReading(e) >= 1 && 1 <= c.reading.target < 100
    requires WindowWithin(e, c, 0, perPoint * WindowReading(e), perPoint * WindowReading(e))
    requires WindowSums(e, c, 0, NoSums).den > 0 && perPoint * c.reading.target <= Limit(c.tuning.total)
    ensures WindowClosed(e, c, share).1.share == perPoint * c.reading.target
  {
    hide WindowSums, WindowWithin, WindowClosed, Rounded;
    var m, target := WindowReading(e), c.reading.target;
    MulMono(1, m, perPoint);
    MulMono(0, target, perPoint);
    UniformWindow(e, c, share, perPoint * m);
    assert perPoint * m * target == perPoint * target * m;
    RoundedExact(perPoint * target, m);
  }

  /** A larger divisor rounds to no larger a quotient. */
  lemma RoundedAntitone(n: nat, d: int, d': int)
    requires 0 < d <= d'
    ensures 0 <= Rounded(n, d') <= Rounded(n, d)
  {
    var q := Rounded(n, d');
    QuotientAtLeast(n + d' / 2, d', 0);
    QuotientAtLeast(n + d' / 2, d', q);
    if q >= 1 {
      assert (2 * q - 1) * d' == 2 * (d' * q) - d';
      MulMono(d, d', 2 * q - 1);
      assert (2 * q - 1) * d == 2 * (d * q) - d;
    }
    QuotientAtLeast(n + d / 2, d, q);
  }

  lemma RoundedMono(n: int, n': int, d: int)
    requires n <= n' && d > 0
    ensures Rounded(n, d) <= Rounded(n', d)
  {
    QuotientMono(n + d / 2, n' + d / 2, d);
  }

  /** Whatever the mix of starved, active and idle cycles, a new share is at most what
      the heaviest overlapped cycle would need at the window's reading. */
  lemma EstimateAtMost(target: int, m: int, s: Sums, lo: nat, hi: nat)
    requires SumsWithin(s, lo, hi) && s.den > 0 && m >= 1 && target >= 0
    ensures 0 <= Estimated(target, m, s) <= Rounded(hi * target, m)
  {
    hide Rounded;
    var mean := if Constrained(s) && s.starvedDen > 0 then Rounded(s.starvedNum, s.starvedDen) else Mean(s.num, s.den);
    RoundedBetween(s.num, s.den, lo, hi);
    if s.starvedDen > 0 { RoundedBetween(s.starvedNum, s.starvedDen, lo, hi); }
    MulMono(mean, hi, target);
    MulMono(0, mean, target);
    var d := if Constrained(s) && s.starvedDen > 0 then Max(1, m * s.den / s.activeDen) else m;
    if Constrained(s) {
      MulMono(s.activeDen, s.den, m);
      QuotientMono(m * s.activeDen, m * s.den, s.activeDen);
      QuotientOfMultiple(m * s.activeDen, m, s.activeDen);
    }
    RoundedMono(mean * target, hi * target, m);
    RoundedAntitone(mean * target, m, d);
  }

  // ------------------------------------------------------------- equilibrium

  /** At the target: the last estimate saw `share`, every record still in the ring
      consumed `share`, and every reading of the open window was the target. */
  ghost predicate Steady(e: Est, share: nat, target: int) {
    && target >= 0 && Inv(e, target)
    && e.lastTs != 0 && e.haveEst && !e.zeroStarved && e.refConsumed == share
    && e.winReading == target * e.winMs
    && RingWithin(e, share, share)
  }

  ghost predicate SteadyInput(c: Input, share: nat, target: int) {
    && c.reading.target == target == c.reading.util
    && c.consumed == share
    && share <= Limit(c.tuning.total)
  }

  lemma SteadyRecorded(e: Est, c: Input, share: nat, target: int)
    requires Steady(e, share, target) && c.consumed == share
    ensures Steady(Recorded(e, c, share), share, target)
  {
    var e' := Recorded(e, c, share);
    forall k | 0 <= k < RING && k < e'.head ensures e'.ring[k].consumed == share {
      if k != e.head % RING { assert k < e.head; }
    }
  }

  lemma SteadyBetween(e: Est, c: Input, share: nat, target: int)
    requires Steady(e, share, target) && SteadyInput(c, share, target) && 1 <= target < 100
    ensures BetweenSamples(e, c, share) == (e.(dropCycles := 0), Decision(share, false))
  {
  }

  lemma SteadySample(e: Est, c: Input, share: nat, target: int)
    requires Steady(e, share, target) && SteadyInput(c, share, target) && 1 <= target < 100
    ensures var e' := SampleTaken(e, c);
      && e' == e.(lastTs := e'.lastTs, winReading := e'.winReading, winMs := e'.winMs, period := e'.period,
                  longGaps := e'.longGaps)
      && e'.winReading == target * e'.winMs && e'.lastTs == c.sampleTs
  {
    var p := SamplePeriod(e, c);
    assert target * (e.winMs + p) == target * e.winMs + target * p;
  }

  lemma SteadyClosed(e: Est, c: Input, share: nat, target: int)
    requires |e.ring| == RING && SteadyInput(c, share, target) && 1 <= target < 100 && share > 0
    requires e.winMs > 0 && e.winReading == target * e.winMs && e.lastTs != 0 && e.haveEst && e.refConsumed == share
    requires RingWithin(e, share, share)
    ensures WindowClosed(e, c, share).0 == Closed(e, c, false).(dropCycles := 0)
    ensures WindowClosed(e, c, share).1.share == share
  {
    hide WindowSums, WindowWithin, SumsWithin, Rounded;
    QuotientOfMultiple(target * e.winMs, target, e.winMs);
    RingWindow(e, c, 0, share, share);
    var s := WindowSums(e, c, 0, NoSums);
    NoSumsWithin(share);
    WindowSumsWithin(e, c, 0, NoSums, share, share);
    if s.den > 0 {
      UniformMean(s, share);
      UniformEstimate(target, target, s, share);
      RoundedExact(share, target);
    }
  }

  /** One cycle at the target changes nothing, whatever the clock and the sample
      timestamps do and whether or not the cycle closes a window. */
  lemma SteadyCycle(e: Est, c: Input, share: nat, target: int)
    requires Steady(e, share, target) && SteadyInput(c, share, target)
    requires 1 <= target < 100 && share > 0 && c.tuning.total <= INT64_MAX
    ensures var (e', d) := EstControl(e, c, share); d.share == share && Steady(e', share, target)
  {
    hide WindowClosed, BetweenSamples, SampleTaken, Recorded;
    var e1 := Recorded(e, c, share);
    SteadyRecorded(e, c, share, target);
    EstControlKeeps(e, c, share, c.tuning.total, target);
    SteadyBetween(e1, c, share, target);
    if Fresh(e1, c) {
      var e2 := SampleTaken(e1, c);
      SteadySample(e1, c, share, target);
      SampleTakenBounds(e1, c, target);
      if Closes(e1, e2, c) {
        SteadyClosed(e2, c, share, target);
      } else {
        SteadyBetween(e2, c, share, target);
      }
    }
  }

  /** The equilibrium: over any run that consumes exactly its share and reads exactly
      its target, share never moves. */
  lemma {:induction false} SteadyRun(e: Est, share: nat, target: int, inputs: seq<Input>)
    requires Steady(e, share, target) && 1 <= target < 100 && share > 0
    requires forall c :: c in inputs ==> SteadyInput(c, share, target) && c.tuning.total <= INT64_MAX
    ensures EstRun(e, share, inputs).1 == share && Steady(EstRun(e, share, inputs).0, share, target)
    decreases |inputs|
  {
    if inputs != [] {
      SteadyCycle(e, inputs[0], share, target);
      SteadyRun(EstControl(e, inputs[0], share).0, share, target, inputs[1..]);
    }
  }
}
