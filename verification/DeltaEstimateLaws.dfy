/** What one cycle of the sample-driven estimate does, said without its own subroutines:
    the log it keeps, the window it opens, widens and closes, the share it sizes, and
    what it does between samples. Quotients are given by the inequalities that fix them
    and constants by their values. */
module DeltaEstimateLaws {
  import opened Arith
  import opened DeltaStep
  import opened DeltaControl
  import opened DeltaEstimate
  import opened DeltaEstimateRuns
  import opened DeltaLaws
  import opened DeltaWindow

  // ------------------------------------------------------------------- the log

  /** The container wanted more: its bucket was dry, or it used seven eighths of share. */
  predicate Wanting(c: Input, share: nat) {
    c.reading.bucket <= 0 || (c.consumed >= 0 && 8 * c.consumed >= 7 * share)
  }

  lemma WantingLaw(c: Input, share: nat)
    ensures Demand(c, share) <==> Wanting(c, share)
  {
  }

  /** The log with this cycle, its last sixteen entries; the 32-bit count of cycles
      starts over when it wraps. A cycle before the first refill is not logged. */
  ghost function Logged(log: seq<Entry>, head: int, c: Input, time: nat, share: nat): seq<Entry> {
    if c.consumed < 0 then log
    else if head == 0xFFFF_FFFF then []
    else
      var more := log + [Entry(time, c.consumed, Wanting(c, share))];
      if |more| > 16 then more[1..] else more
  }

  /** The record a cycle leaves is its entry. */
  ghost predicate Matches(r: Record, x: Entry) {
    r.at == x.time % 0x1_0000_0000 && r.consumed == x.consumed && r.starved == x.starved
  }

  lemma KeepsAt(e: Est, log: seq<Entry>, k: int)
    requires Keeps(e, log) && 0 <= k < |log|
    ensures Matches(e.ring[(e.head - |log| + k) % 16], log[k])
  {
  }

  lemma KeepsIs(e: Est, log: seq<Entry>)
    requires |e.ring| == 16 && |log| == Min(16, e.head)
    requires forall k :: 0 <= k < |log| ==> Matches(e.ring[(e.head - |log| + k) % 16], log[k])
    ensures Keeps(e, log)
  {
    forall k | 0 <= k < |log|
      ensures var r := e.ring[(e.head - |log| + k) % 16];
        r.at == log[k].time % 0x1_0000_0000 && r.consumed == log[k].consumed && r.starved == log[k].starved
    {
      assert Matches(e.ring[(e.head - |log| + k) % 16], log[k]);
    }
  }

  lemma RecordedKeeps(e: Est, log: seq<Entry>, c: Input, time: nat, share: nat)
    requires Keeps(e, log) && c.now == time % 0x1_0000_0000
    ensures Keeps(Recorded(e, c, share), Logged(log, e.head, c, time, share))
  {
    WantingLaw(c, share);
    var e', log' := Recorded(e, c, share), Logged(log, e.head, c, time, share);
    KeepsSize(e, log);
    if c.consumed >= 0 {
      hide Demand, Wanting, Keeps;
      forall k | 0 <= k < |log'| ensures Matches(e'.ring[(e'.head - |log'| + k) % 16], log'[k]) {
        if k < |log'| - 1 {
          var was := if |log| == 16 then k + 1 else k;
          assert e'.head - |log'| + k == e.head - |log| + was;
          SlotsDiffer(e.head, e.head - |log| + was);
          assert log'[k] == log[was];
          KeepsAt(e, log, was);
        }
      }
      KeepsIs(e', log');
    }
  }

  lemma SlotsDiffer(a: int, b: int)
    requires b < a < b + 16
    ensures a % 16 != b % 16
  {
  }

  /** Closing a window and what comes between samples leave ring, count and sample
      times alone. */
  lemma RestKeeps(e: Est, c: Input, share: nat)
    requires |e.ring| == RING
    ensures var e' := BetweenSamples(e, c, share).0;
      e' == e.(dropCycles := e'.dropCycles, refConsumed := e'.refConsumed)
    ensures var e' := WindowClosed(e, c, share).0;
      e' == e.(winTs := c.sampleTs, winMs := 0, winReading := 0, zeroStarved := e'.zeroStarved, haveEst := e'.haveEst,
               dropCycles := e'.dropCycles, refConsumed := e'.refConsumed)
  {
    hide WindowSums, Estimated, Mean, Control, Sizes, ReadingUsed;
  }

  /** Whatever else a cycle does, the ring then holds the log with that cycle. */
  lemma CycleKeeps(e: Est, log: seq<Entry>, c: Input, time: nat, share: nat)
    requires Keeps(e, log) && c.now == time % 0x1_0000_0000
    ensures Keeps(EstControl(e, c, share).0, Logged(log, e.head, c, time, share))
  {
    hide WindowClosed, BetweenSamples, Logged, Recorded;
    var e1 := Recorded(e, c, share);
    RecordedKeeps(e, log, c, time, share);
    KeepsSize(e1, Logged(log, e.head, c, time, share));
    RestKeeps(e1, c, share);
    RestKeeps(SampleTaken(e1, c), c, share);
  }

  /** The log of a whole run, each cycle at its time and under the share it had. */
  ghost function LogRun(e: Est, share: nat, log: seq<Entry>, inputs: seq<Input>, times: seq<nat>): seq<Entry>
    requires |times| == |inputs| && |e.ring| == RING
    decreases |inputs|
  {
    if inputs == [] then log
    else
      var (e', d) := EstControl(e, inputs[0], share);
      LogRun(e', d.share, Logged(log, e.head, inputs[0], times[0], share), inputs[1..], times[1..])
  }

  /** Over every run the ring holds the log of the run. */
  lemma {:induction false} RunKeepsLog(e: Est, share: nat, log: seq<Entry>, inputs: seq<Input>, times: seq<nat>)
    requires Keeps(e, log) && |e.ring| == RING && |times| == |inputs|
    requires forall k :: 0 <= k < |inputs| ==> inputs[k].now == times[k] % 0x1_0000_0000
    ensures Keeps(EstRun(e, share, inputs).0, LogRun(e, share, log, inputs, times))
    decreases |inputs|
  {
    hide EstControl, Keeps, Logged;
    if inputs != [] {
      CycleKeeps(e, log, inputs[0], times[0], share);
      var (e', d) := EstControl(e, inputs[0], share);
      RunKeepsLog(e', d.share, Logged(log, e.head, inputs[0], times[0], share), inputs[1..], times[1..]);
    }
  }

  // ---------------------------------------------------------------- the window

  /** The period and the count of long gaps after a gap of `g`: the first gap is the
      period; a gap of up to twice it is averaged in, one part to three, to the nearest;
      of longer ones the third in a row replaces it. */
  ghost predicate PeriodIs(e: Est, g: int, period: int, gaps: int) {
    if e.period == 0 then period == g && gaps == e.longGaps
    else if g <= 2 * e.period then Largest(period, 3 * e.period + g + 2, 4) && gaps == 0
    else if e.longGaps >= 2 then period == g && gaps == 0
    else period == e.period && gaps == e.longGaps + 1
  }

  lemma PeriodSame(e: Est, e1: Est, g: int, period: int, gaps: int)
    requires PeriodIs(e, g, period, gaps) && e1.period == e.period && e1.longGaps == e.longGaps
    ensures PeriodIs(e1, g, period, gaps)
  {
  }

  lemma PeriodLaw(e: Est, g: int, period: int, gaps: int)
    requires PeriodIs(e, g, period, gaps)
    ensures PeriodTaken(e, g) == e.(period := period, longGaps := gaps)
  {
    if e.period != 0 && g <= 2 * e.period {
      LargestIs(period, 3 * e.period + g + 2, 4);
    }
  }

  /** A sample `gap` after the last one widens the window by it, ten seconds at most,
      and adds its reading for that long; one from the past only moves the time. */
  lemma SampleLaw(e: Est, c: Input, gap: int, period: int, gaps: int)
    requires e.lastTs != 0 && gap == c.sampleTs - e.lastTs && -HALF <= gap < HALF
    requires gap > 0 ==> PeriodIs(e, Min(gap, 10000), period, gaps)
    ensures var g := Min(gap, 10000);
      SampleTaken(e, c) ==
        if gap <= 0 then e.(lastTs := c.sampleTs)
        else e.(lastTs := c.sampleTs, winMs := e.winMs + g, winReading := e.winReading + g * c.reading.util,
                period := period, longGaps := gaps)
  {
    MultipleOf(0);
    WrapIs(gap, gap);
    hide Wrap32, PeriodTaken, PeriodIs;
    var g := Min(gap, 10000);
    if gap > 0 {
      var e1 := e.(lastTs := c.sampleTs, winReading := e.winReading + c.reading.util * g, winMs := e.winMs + g);
      PeriodSame(e, e1, g, period, gaps);
      PeriodLaw(e1, g, period, gaps);
    }
  }

  /** The first sample only opens the window. */
  lemma FirstSampleLaw(e: Est, c: Input)
    requires e.lastTs == 0
    ensures SampleTaken(e, c) == e.(lastTs := c.sampleTs, winTs := c.sampleTs)
  {
  }

  /** Samples in order and at most ten seconds apart. */
  ghost predicate Successive(last: nat, samples: seq<Input>)
    decreases |samples|
  {
    samples == [] || (last < samples[0].sampleTs <= last + 10000 && Successive(samples[0].sampleTs, samples[1..]))
  }

  ghost function Taken(e: Est, samples: seq<Input>): Est
    decreases |samples|
  {
    if samples == [] then e else Taken(SampleTaken(e, samples[0]), samples[1..])
  }

  ghost function LastTs(last: nat, samples: seq<Input>): nat {
    if samples == [] then last else samples[|samples| - 1].sampleTs
  }

  /** Each reading for as long as it stood. */
  ghost function ReadingTime(last: nat, samples: seq<Input>): int
    decreases |samples|
  {
    if samples == [] then 0
    else samples[0].reading.util * (samples[0].sampleTs - last) + ReadingTime(samples[0].sampleTs, samples[1..])
  }

  /** However many samples a window takes in, its length is the time that passed and its
      sum is every reading for as long as it stood. */
  lemma {:induction false} WindowElapses(e: Est, samples: seq<Input>)
    requires e.lastTs != 0 && Successive(e.lastTs, samples)
    ensures var e' := Taken(e, samples);
      && e'.winTs == e.winTs && e'.lastTs == LastTs(e.lastTs, samples)
      && e'.winMs == e.winMs + (LastTs(e.lastTs, samples) - e.lastTs)
      && e'.winReading == e.winReading + ReadingTime(e.lastTs, samples)
    decreases |samples|
  {
    hide SampleTaken;
    if samples != [] {
      var c := samples[0];
      SampleWidens(e, c);
      WindowElapses(SampleTaken(e, c), samples[1..]);
    }
  }

  lemma SampleWidens(e: Est, c: Input)
    requires e.lastTs != 0 && e.lastTs < c.sampleTs <= e.lastTs + 10000
    ensures var e', gap := SampleTaken(e, c), c.sampleTs - e.lastTs;
      && e'.winTs == e.winTs && e'.lastTs == c.sampleTs
      && e'.winMs == e.winMs + gap && e'.winReading == e.winReading + c.reading.util * gap
  {
    MultipleOf(0);
    WrapIs(c.sampleTs - e.lastTs, c.sampleTs - e.lastTs);
    hide Wrap32;
  }

  /** The window ends with this sample: it spans half a second; or a sliding reading, the
      device's too, is 0 while the last cycle wanted more. */
  ghost predicate Ends(ms: int, period: int, log: seq<Entry>, c: Input) {
    || ms >= 500
    || (period > 0 && 2 * c.avgMs > 3 * period && c.reading.util < 1 && c.deviceUtil < 1
        && log != [] && log[|log| - 1].starved)
  }

  lemma ZeroNowLaw(e: Est, c: Input, log: seq<Entry>)
    requires Keeps(e, log) && |e.ring| == RING && e.winMs > 0
    ensures ZeroNow(e, c) || e.winMs >= 500 <==> Ends(e.winMs, e.period, log, c)
  {
    if log != [] {
      assert e.head - |log| + (|log| - 1) == e.head - 1;
    }
  }

  /** The estimator with this cycle recorded and the window wider by `g`. */
  ghost function Widened(e: Est, c: Input, share: nat, g: int, period: int, gaps: int): Est
    requires |e.ring| == RING
  {
    Recorded(e, c, share).(lastTs := c.sampleTs, winMs := e.winMs + g, winReading := e.winReading + g * c.reading.util,
                           period := period, longGaps := gaps)
  }

  lemma WidenedIs(e: Est, c: Input, share: nat, g: int, period: int, gaps: int)
    requires |e.ring| == RING
    ensures var e2 := Widened(e, c, share, g, period, gaps);
      && e2.winTs == e.winTs && e2.winMs == e.winMs + g && e2.winReading == e.winReading + g * c.reading.util
      && e2.period == period
  {
  }

  /** A fresh sample after `gap`, cycle and all: the window closes exactly when it ends,
      and otherwise is wider by the gap. */
  lemma ClosesExactly(e: Est, log: seq<Entry>, c: Input, time: nat, share: nat, gap: int, period: int, gaps: int)
    requires Keeps(e, log) && c.now == time % 0x1_0000_0000
    requires e.lastTs != 0 && e.winMs >= 0 && c.sampleTs != 0
    requires 0 < gap == c.sampleTs - e.lastTs < HALF && PeriodIs(e, Min(gap, 10000), period, gaps)
    ensures var g := Min(gap, 10000);
      var log' := Logged(log, e.head, c, time, share);
      var e2 := Widened(e, c, share, g, period, gaps);
      && Keeps(e2, log')
      && EstControl(e, c, share)
        == if Ends(e.winMs + g, period, log', c) then WindowClosed(e2, c, share) else BetweenSamples(e2, c, share)
  {
    hide WindowClosed, BetweenSamples, Logged, SampleTaken, Ends, PeriodIs, ZeroNow;
    var e1, log' := Recorded(e, c, share), Logged(log, e.head, c, time, share);
    RecordedKeeps(e, log, c, time, share);
    assert e1 == e.(ring := e1.ring, head := e1.head);
    PeriodSame(e, e1, Min(gap, 10000), period, gaps);
    SampleLaw(e1, c, gap, period, gaps);
    var e2 := SampleTaken(e1, c);
    KeepsSame(e1, e2, log');
    KeepsSize(e2, log');
    ZeroNowLaw(e2, c, log');
  }

  lemma KeepsSame(e: Est, e': Est, log: seq<Entry>)
    requires Keeps(e, log) && e'.ring == e.ring && e'.head == e.head
    ensures Keeps(e', log)
  {
  }

  /** No new sample, or the first: no window closes. */
  lemma QuietCycle(e: Est, c: Input, share: nat)
    requires |e.ring| == RING && (c.sampleTs == 0 || c.sampleTs == e.lastTs || e.lastTs == 0)
    ensures var e1 := Recorded(e, c, share);
      var stale := c.sampleTs == 0 || c.sampleTs == e.lastTs;
      var e2 := if stale then e1 else e1.(lastTs := c.sampleTs, winTs := c.sampleTs);
      EstControl(e, c, share) == BetweenSamples(e2, c, share)
  {
    hide WindowClosed, BetweenSamples;
  }

  // ---------------------------------------------------------------- the sizing

  /** The share a closing window asks for: x to the nearest of consumption times target
      over reading. In a window where a quarter or more of the active time was starved,
      the consumption is that of the starved cycles and the reading is the one over
      active time, at least 1; otherwise both are the window's own. */
  ghost predicate Asks(x: int, s: Sums, target: int, reading: int) {
    if s.activeDen > 0 && s.starvedDen > 0 && 4 * s.starvedDen >= s.activeDen then
      exists hit, active ::
        && Nearest(hit, s.starvedNum, s.starvedDen)
        && ActiveIs(active, reading, s)
        && Nearest(x, hit * target, Max(1, active))
    else exists mean :: MeanIs(mean, s) && Nearest(x, mean * target, reading)
  }

  /** The reading scaled up by the idle part of the window. */
  ghost predicate ActiveIs(active: int, reading: int, s: Sums) {
    Largest(active, reading * s.den, s.activeDen)
  }

  /** The mean consumption of the window to the nearest token, 0 when nothing was seen. */
  ghost predicate MeanIs(mean: int, s: Sums) {
    if s.den > 0 then Nearest(mean, s.num, s.den) else mean == 0
  }

  lemma MeanLaw(mean: int, s: Sums)
    requires MeanIs(mean, s)
    ensures Mean(s.num, s.den) == mean
  {
    if s.den > 0 { NearestIs(mean, s.num, s.den); }
  }

  lemma AsksLaw(x: int, s: Sums, target: int, reading: int)
    requires reading >= 1 && Asks(x, s, target, reading)
    ensures Estimated(target, reading, s) == x
  {
    if s.activeDen > 0 && s.starvedDen > 0 && 4 * s.starvedDen >= s.activeDen {
      var hit, active :|
        && Nearest(hit, s.starvedNum, s.starvedDen)
        && ActiveIs(active, reading, s)
        && Nearest(x, hit * target, Max(1, active));
      NearestIs(hit, s.starvedNum, s.starvedDen);
      LargestIs(active, reading * s.den, s.activeDen);
      NearestIs(x, hit * target, Max(1, active));
    } else {
      var mean :| MeanIs(mean, s) && Nearest(x, mean * target, reading);
      MeanLaw(mean, s);
      NearestIs(x, mean * target, reading);
    }
  }

  /** A reading below 1 while half the window or more was starved counts as 1: the share
      it asks for is the least the target needs. Any other reading below 1 is idleness. */
  ghost predicate ReadingIs(used: int, reading: int, s: Sums) {
    used == if reading >= 1 then reading else if s.den > 0 && 2 * s.starvedDen >= s.den then 1 else 0
  }

  /** A closing window is answered by the share it asks for, within 65536 pools, with the
      bucket drained if it holds more; or, when it carries no reading, no consumption or
      no limit to hold, as if between samples. */
  lemma SizeLaw(e: Est, c: Input, share: nat, reading: int, used: int, mean: int, x: int)
    requires |e.ring| == RING && Largest(reading, e.winReading, e.winMs)
    requires var s := WindowSums(e, c, 0, NoSums);
      ReadingIs(used, reading, s) && MeanIs(mean, s) && (used >= 1 ==> Asks(x, s, c.reading.target, used))
    ensures var s := WindowSums(e, c, 0, NoSums);
      var (e', d) := WindowClosed(e, c, share);
      var zero := reading < 1 && s.den > 0 && 2 * s.starvedDen >= s.den;
      var closed := e.(winTs := c.sampleTs, winMs := 0, winReading := 0, zeroStarved := zero);
      if used >= 1 && mean > 0 && 1 <= c.reading.target <= 99 then
        && d.share == Max(0, Min(x, Min(65536 * c.tuning.total, INT64_MAX)))
        && d.drain == (c.reading.bucket > d.share)
        && e' == closed.(haveEst := true, refConsumed := mean, dropCycles := 0)
      else (e', d) == BetweenSamples(closed, c, share)
  {
    var s := WindowSums(e, c, 0, NoSums);
    hide WindowSums, Estimated, Mean, BetweenSamples, Limit, Asks, MeanIs;
    LargestIs(reading, e.winReading, e.winMs);
    MeanLaw(mean, s);
    LimitLaw(c.tuning.total);
    if used >= 1 { AsksLaw(x, s, c.reading.target, used); }
  }

  // ----------------------------------------------------------- between samples

  /** The load dropped: with tokens left, less than a quarter of what the estimate was
      made on was consumed, and not nothing. */
  predicate Drops(e: Est, c: Input) {
    && e.haveEst && c.consumed > 0 && c.reading.bucket > 0
    && 1 <= c.reading.target <= 99 && 4 * c.consumed < e.refConsumed
  }

  /** The second such cycle in a row takes share down to consumption * target / 100 to
      the nearest token, at least one, and never up. */
  lemma DropLaw(e: Est, c: Input, share: nat, x: int)
    requires Drops(e, c) && e.dropCycles >= 1 && Nearest(x, c.consumed * c.reading.target, 100)
    ensures BetweenSamples(e, c, share)
      == (e.(dropCycles := 0, refConsumed := c.consumed),
          Decision(Min(share, Max(1, x)), c.reading.bucket > Max(1, x)))
  {
    NearestIs(x, c.consumed * c.reading.target, 100);
  }

  /** Any other cycle holds share, once a sample was seen and below a target of 100, if
      there is an estimate that was no starved zero, or the container wanted no more;
      otherwise it takes a control step. */
  lemma HoldLaw(e: Est, c: Input, share: nat)
    requires !(Drops(e, c) && e.dropCycles >= 1)
    ensures var e' := e.(dropCycles := if Drops(e, c) then e.dropCycles + 1 else 0);
      BetweenSamples(e, c, share) ==
        if c.reading.target < 100 && e.lastTs != 0 && ((e.haveEst && !e.zeroStarved) || !Wanting(c, share))
        then (e', Decision(share, false))
        else (e', Control(c.tuning, share, c.reading, c.consumed))
  {
    hide Control;
    WantingLaw(c, share);
  }

  // ------------------------------------------------------------- whole cycles

  /** A cycle of discrete readings that brings a sample and ends its window: if every
      logged cycle that reaches into (winTs, sampleTs] consumed `used`, whatever the
      others did, the new share is used * target / reading to the nearest token. */
  lemma DiscreteCycle(e: Est, log: seq<Entry>, c: Input, time: nat, share: nat, gap: int, used: nat, m: int, x: int)
    requires Keeps(e, log) && c.now == time % 0x1_0000_0000 && c.avgMs <= 0
    requires e.lastTs != 0 && e.winMs >= 0 && e.period >= 0
    requires 0 < gap == c.sampleTs - e.lastTs < HALF && e.winMs + Min(gap, 10000) >= 500
    requires var log' := Logged(log, e.head, c, time, share);
      Readable(log', e.winTs) && Used(log', e.winTs, c.sampleTs, used) && Seen(log', e.winTs, c.sampleTs)
    requires -HALF <= c.sampleTs - e.winTs < HALF && used > 0 && 1 <= c.reading.target < 100
    requires var g := Min(gap, 10000); Largest(m, e.winReading + g * c.reading.util, e.winMs + g) && m >= 1
    requires Nearest(x, used * c.reading.target, m)
    ensures var d := EstControl(e, c, share).1;
      d.share == Min(x, Min(65536 * c.tuning.total, INT64_MAX)) && d.drain == (c.reading.bucket > d.share)
  {
    hide WindowClosed, BetweenSamples, EstControl, Keeps, Logged, Widened, Readable, Used, Seen, PeriodIs;
    var g, log' := Min(gap, 10000), Logged(log, e.head, c, time, share);
    var period, gaps := SomePeriod(e, g);
    ClosesExactly(e, log, c, time, share, gap, period, gaps);
    KeepsSize(e, log);
    var e2 := Widened(e, c, share, g, period, gaps);
    WidenedIs(e, c, share, g, period, gaps);
    DiscreteWindow(e2, c, log', share, used, m, x);
  }

  lemma SomePeriod(e: Est, g: int) returns (period: int, gaps: int)
    requires g > 0 && e.period >= 0
    ensures PeriodIs(e, g, period, gaps) && period > 0
  {
    if e.period == 0 {
      period, gaps := g, e.longGaps;
    } else if g <= 2 * e.period {
      period := LargestExists(3 * e.period + g + 2, 4);
      gaps := 0;
    } else if e.longGaps >= 2 {
      period, gaps := g, 0;
    } else {
      period, gaps := e.period, e.longGaps + 1;
    }
  }

  /** A cycle of sliding readings, in step with the period: the same over the time each
      of the window's readings averages over. */
  lemma SlidingCycle(
    e: Est, log: seq<Entry>, c: Input, time: nat, share: nat, gap: int, n: int, used: nat, m: int, x: int)
    requires Keeps(e, log) && c.now == time % 0x1_0000_0000
    requires e.lastTs != 0 && e.winMs >= 0 && 0 < e.period == gap <= 10000 && 2 * c.avgMs > 3 * gap
    requires c.sampleTs == e.lastTs + gap && e.winMs + gap >= 500
    requires exists q :: Nearest(q, e.winMs + gap, gap) && n == Max(1, q)
    requires forall j :: 0 <= j < n ==>
      var log', hi := Logged(log, e.head, c, time, share), c.sampleTs - j * gap;
      Readable(log', hi - c.avgMs) && Used(log', hi - c.avgMs, hi, used)
    requires Seen(Logged(log, e.head, c, time, share), c.sampleTs - c.avgMs, c.sampleTs)
    requires used > 0 && 1 <= c.reading.target < 100
    requires Largest(m, e.winReading + gap * c.reading.util, e.winMs + gap) && m >= 1
    requires Nearest(x, used * c.reading.target, m)
    ensures var d := EstControl(e, c, share).1;
      d.share == Min(x, Min(65536 * c.tuning.total, INT64_MAX)) && d.drain == (c.reading.bucket > d.share)
  {
    hide WindowClosed, BetweenSamples, EstControl, Keeps, Logged, Widened, Readable, Used, Seen;
    var log' := Logged(log, e.head, c, time, share);
    ClosesExactly(e, log, c, time, share, gap, gap, 0);
    KeepsSize(e, log);
    var e2 := Widened(e, c, share, gap, gap, 0);
    WidenedIs(e, c, share, gap, gap, 0);
    SlidingWindow(e2, c, log', n, share, used, m, x);
  }
}
