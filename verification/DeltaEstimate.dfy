/** The sample-driven estimate of library/include/sm_delta.h as a function on
    values: one cycle takes the estimator's state and the cycle's inputs to the
    next state and a decision. Module DeltaEstimator runs it in place. */
module DeltaEstimate {
  import opened Arith
  import opened DeltaStep
  import opened DeltaControl

  const RING := 16
  const MIN_READING := 1
  const MIN_WINDOW_MS := 500
  const DROP_FACTOR := 4
  const DROP_CYCLES := 2
  const MAX_PERIOD_MS := 10000
  const PERIOD_READOPT := 3
  const WORD32 := 0x1_0000_0000

  type u32 = x: int | 0 <= x < WORD32

  /** One cycle's consumption, when it was read, and whether the bucket ran dry. */
  datatype Record = Record(at: u32, consumed: nat, starved: bool)

  datatype Est = Est(
    lastTs: nat, winTs: nat, winReading: int, winMs: int, refConsumed: int,
    haveEst: bool, zeroStarved: bool, dropCycles: int, period: int, longGaps: int,
    head: u32, ring: seq<Record>)

  /** What one watcher cycle sees. `sampleTs` is 0 when there is no sample. */
  datatype Input = Input(
    tuning: Tuning, reading: Reading, deviceUtil: int, sampleTs: nat, avgMs: int,
    now: u32, consumed: int)

  /** The two's complement reading of the low 32 bits. */
  function Wrap32(x: int): (r: int)
    ensures -0x8000_0000 <= r < 0x8000_0000 && (x - r) % WORD32 == 0
  {
    var low := x % WORD32;
    if low < 0x8000_0000 then low else low - WORD32
  }

  function Demand(c: Input, share: nat): bool {
    c.reading.bucket <= 0 || (c.consumed >= 0 && c.consumed >= share - share / 8)
  }

  /** Append this cycle's record, once a refill has been seen. */
  function Recorded(e: Est, c: Input, share: nat): Est
    requires |e.ring| == RING
  {
    if c.consumed < 0 then e
    else e.(ring := e.ring[e.head % RING := Record(c.now, c.consumed, Demand(c, share))], head := (e.head + 1) % WORD32)
  }

  predicate Fresh(e: Est, c: Input) {
    c.sampleTs != 0 && c.sampleTs != e.lastTs
  }

  function SamplePeriod(e: Est, c: Input): int {
    Min(Wrap32(c.sampleTs - e.lastTs), MAX_PERIOD_MS)
  }

  /** An average that keeps three parts of the old period. Gaps of more than twice that
      count as pauses, until three in a row replace it. */
  function PeriodTaken(e: Est, p: int): Est {
    if e.period == 0 then e.(period := p)
    else if p <= 2 * e.period then e.(period := (3 * e.period + p + 2) / 4, longGaps := 0)
    else if e.longGaps + 1 >= PERIOD_READOPT then e.(period := p, longGaps := 0)
    else e.(longGaps := e.longGaps + 1)
  }

  /** A fresh sample opens the first window, or widens the open one. */
  function SampleTaken(e: Est, c: Input): Est {
    var p := SamplePeriod(e, c);
    if e.lastTs == 0 then e.(lastTs := c.sampleTs, winTs := c.sampleTs)
    else if p <= 0 then e.(lastTs := c.sampleTs)
    else
      PeriodTaken(e.(lastTs := c.sampleTs, winReading := e.winReading + c.reading.util * p, winMs := e.winMs + p), p)
  }

  function AvgMs(e: Est, c: Input): int { Max(c.avgMs, e.period) }

  predicate Sliding(e: Est, c: Input) {
    e.period > 0 && AvgMs(e, c) * 2 > e.period * 3
  }

  predicate LastStarved(e: Est)
    requires |e.ring| == RING
  {
    e.head > 0 && e.ring[(e.head - 1) % RING].starved
  }

  predicate ZeroNow(e: Est, c: Input)
    requires |e.ring| == RING
  {
    Sliding(e, c) && e.winMs > 0 && c.reading.util < MIN_READING && c.deviceUtil < MIN_READING && LastStarved(e)
  }

  // -------------------------------------------------- the weighted averages

  datatype Sums = Sums(num: int, den: int, starvedNum: int, starvedDen: int, activeDen: int)

  const NoSums := Sums(0, 0, 0, 0, 0)

  function RingAt(e: Est, back: int): Record
    requires |e.ring| == RING
  {
    e.ring[(e.head - back) % RING]
  }

  /** Overlap of (t0, t1] with (0, end], in thousandths of the record's own length. */
  function Weight(t0: int, t1: int, end: int): int {
    var lo, hi, len := Max(t0, 0), Min(t1, end), Wrap32(t1 - t0);
    if hi <= lo || len <= 0 then 0 else (hi - lo) * 1000 / len
  }

  function Added(s: Sums, r: Record, w: int): Sums {
    Sums(s.num + r.consumed * w, s.den + w,
         if r.starved then s.starvedNum + r.consumed * w else s.starvedNum,
         if r.starved then s.starvedDen + w else s.starvedDen,
         if r.consumed > 0 || r.starved then s.activeDen + w else s.activeDen)
  }

  function Start(e: Est, from: int, i: nat): int
    requires |e.ring| == RING
  {
    Wrap32(RingAt(e, i + 2).at - from)
  }

  function End(e: Est, from: int, i: nat): int
    requires |e.ring| == RING
  {
    Wrap32(RingAt(e, i + 1).at - from)
  }

  predicate Walking(e: Est, from: int, i: nat)
    requires |e.ring| == RING
  {
    i + 1 < RING && i + 1 < e.head && End(e, from, i) > 0
  }

  /** Walk the ring backwards from record `i`, adding what overlaps (from, from + end]. */
  function SpanSums(e: Est, from: int, end: int, i: nat, s: Sums): Sums
    requires |e.ring| == RING
    decreases RING - i
  {
    if !Walking(e, from, i) then s
    else SpanSums(e, from, end, i + 1, Added(s, RingAt(e, i + 1), Weight(Start(e, from, i), End(e, from, i), end)))
  }

  function SpanCount(e: Est, c: Input): int {
    if Sliding(e, c) then Max(1, (e.winMs + e.period / 2) / e.period) else 1
  }

  function SpanFrom(e: Est, c: Input, j: nat): int {
    if Sliding(e, c) then c.sampleTs - j * e.period - AvgMs(e, c) else e.winTs
  }

  function SpanEnd(e: Est, c: Input): int {
    if Sliding(e, c) then AvgMs(e, c) else Wrap32(c.sampleTs - e.winTs)
  }

  function WindowSums(e: Est, c: Input, j: nat, s: Sums): Sums
    requires |e.ring| == RING
    decreases SpanCount(e, c) - j
  {
    if j >= SpanCount(e, c) then s
    else WindowSums(e, c, j + 1, SpanSums(e, SpanFrom(e, c, j), SpanEnd(e, c), 0, s))
  }

  // ------------------------------------------------------------ the estimate

  /** n / d to the nearest integer, halves up. */
  function Rounded(n: int, d: int): int
    requires d > 0
  {
    (n + d / 2) / d
  }

  function Mean(num: int, den: int): int {
    if den > 0 then Rounded(num, den) else 0
  }

  predicate Constrained(s: Sums) {
    s.activeDen > 0 && 4 * s.starvedDen >= s.activeDen
  }

  function WindowReading(e: Est): int {
    if e.winMs > 0 then e.winReading / e.winMs else 0
  }

  predicate ZeroWhileStarved(reading: int, s: Sums) {
    reading < MIN_READING && s.den > 0 && 2 * s.starvedDen >= s.den
  }

  function ReadingUsed(reading: int, s: Sums): int {
    if reading >= MIN_READING then reading else if ZeroWhileStarved(reading, s) then 1 else 0
  }

  function Estimated(target: int, m: int, s: Sums): int
    requires m >= 1
  {
    if Constrained(s) && s.starvedDen > 0 then
      var active := Max(1, m * s.den / s.activeDen);
      Rounded(Rounded(s.starvedNum, s.starvedDen) * target, active)
    else Rounded(Mean(s.num, s.den) * target, m)
  }

  predicate Sizes(c: Input, m: int, s: Sums) {
    m >= 1 && Mean(s.num, s.den) > 0 && 1 <= c.reading.target < 100
  }

  function Closed(e: Est, c: Input, zeroStarved: bool): Est {
    e.(winTs := c.sampleTs, winReading := 0, winMs := 0, zeroStarved := zeroStarved)
  }

  /** Close the window: a new share when the sums carry one. */
  function WindowClosed(e: Est, c: Input, share: nat): (r: (Est, Decision))
    requires |e.ring| == RING
    ensures r.0.ring == e.ring
  {
    var s := WindowSums(e, c, 0, NoSums);
    var reading := WindowReading(e);
    var m := ReadingUsed(reading, s);
    var e' := Closed(e, c, ZeroWhileStarved(reading, s));
    if Sizes(c, m, s) then
      var next := Max(0, Min(Estimated(c.reading.target, m, s), Limit(c.tuning.total)));
      (e'.(haveEst := true, refConsumed := Mean(s.num, s.den), dropCycles := 0),
       Decision(next, c.reading.bucket > next))
    else BetweenSamples(e', c, share)
  }

  // ------------------------------------------------------ between estimates

  predicate Dropped(e: Est, c: Input) {
    e.haveEst && c.consumed > 0 && c.reading.bucket > 0 && 1 <= c.reading.target < 100
    && c.consumed * DROP_FACTOR < e.refConsumed
  }

  function DropShare(c: Input): int {
    Max(1, (c.consumed * c.reading.target + 50) / 100)
  }

  function Held(e: Est, c: Input, share: nat): (Est, Decision) {
    if c.reading.target < 100 && e.lastTs != 0 && ((e.haveEst && !e.zeroStarved) || !Demand(c, share)) then
      (e, Decision(share, false))
    else (e, Control(c.tuning, share, c.reading, c.consumed))
  }

  function BetweenSamples(e: Est, c: Input, share: nat): (r: (Est, Decision))
    ensures r.0.ring == e.ring
  {
    if Dropped(e, c) then
      if e.dropCycles + 1 >= DROP_CYCLES then
        (e.(dropCycles := 0, refConsumed := c.consumed),
         Decision(Min(DropShare(c), share), c.reading.bucket > DropShare(c)))
      else Held(e.(dropCycles := e.dropCycles + 1), c, share)
    else Held(e.(dropCycles := 0), c, share)
  }

  predicate Closes(before: Est, e: Est, c: Input)
    requires |e.ring| == RING
  {
    before.lastTs != 0 && (ZeroNow(e, c) || e.winMs >= MIN_WINDOW_MS)
  }

  /** sm_delta_est_control_avg. */
  function EstControl(e: Est, c: Input, share: nat): (r: (Est, Decision))
    requires |e.ring| == RING
    ensures |r.0.ring| == RING
  {
    var e1 := Recorded(e, c, share);
    if !Fresh(e1, c) then BetweenSamples(e1, c, share)
    else
      var e2 := SampleTaken(e1, c);
      if Closes(e1, e2, c) then WindowClosed(e2, c, share) else BetweenSamples(e2, c, share)
  }
}
