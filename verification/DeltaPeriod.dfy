/** The estimator's sample period: smoothed, wary of silences, and provably found. */
module DeltaPeriod {
  import opened Arith
  import opened DeltaControl
  import opened DeltaEstimate
  import opened DeltaEstimateRuns

  /** The estimator after `n` samples a constant `p` apart. */
  function SampledEvery(e: Est, p: int, n: nat): Est
    decreases n
  {
    if n == 0 then e else SampledEvery(PeriodTaken(e, p), p, n - 1)
  }

  predicate Near(period: int, p: int) { p - 1 <= period <= p + 2 }

  /** How far off the period may be to be near the gap after `k` samples: each takes a
      quarter of the error away. */
  function Reach(k: nat): nat {
    if k == 0 then 0 else (4 * Reach(k - 1) + 3) / 3
  }

  lemma OneMore(k: nat)
    ensures 3 * Reach(k + 1) >= 4 * Reach(k) + 1
  {
  }

  lemma FiveMore(k: nat)
    ensures Reach(k + 5) >= 4 * Reach(k) + 3
  {
    hide Reach;
    OneMore(k);
    OneMore(k + 1);
    OneMore(k + 2);
    OneMore(k + 3);
    OneMore(k + 4);
  }

  /** 34 samples are enough for the largest period there is. */
  const FIND_SAMPLES := 34

  lemma ReachEnough()
    ensures Reach(FIND_SAMPLES) >= MAX_PERIOD_MS
  {
    hide Reach;
    FiveMore(0);
    FiveMore(5);
    FiveMore(10);
    FiveMore(15);
    FiveMore(20);
    FiveMore(25);
    OneMore(30);
    OneMore(31);
    OneMore(32);
    OneMore(33);
  }

  lemma {:induction false} StaysNear(e: Est, p: int, n: nat)
    requires p >= 1 && e.period >= 1 && Near(e.period, p)
    ensures Near(SampledEvery(e, p, n).period, p)
    decreases n
  {
    if n > 0 { StaysNear(PeriodTaken(e, p), p, n - 1); }
  }

  /** Once within twice of it, the smoothed period closes in on the true one
      geometrically, without ever overshooting. */
  lemma {:induction false} PeriodClosesIn(e: Est, p: int, k: nat, n: nat)
    requires p >= 1 && e.period >= 1 && p <= 2 * e.period && n >= k
    requires e.period - p <= Reach(k) + 2 && p - e.period <= Reach(k) + 1
    ensures Near(SampledEvery(e, p, n).period, p)
    decreases k
  {
    if k == 0 {
      StaysNear(e, p, n);
    } else {
      PeriodClosesIn(PeriodTaken(e, p), p, k - 1, n - 1);
    }
  }

  /** From any state, a part that samples every `p` ms is recognised: after 34 samples
      the smoothed period is within two milliseconds of it and stays there, three of
      them being enough to tell a new period from a silence. */
  lemma PeriodIsFound(e: Est, p: int, n: nat, most: nat)
    requires Inv(e, most) && 1 <= p <= MAX_PERIOD_MS && n >= FIND_SAMPLES
    ensures Near(SampledEvery(e, p, n).period, p)
  {
    if e.period == 0 {
      StaysNear(PeriodTaken(e, p), p, n - 1);
    } else if p <= 2 * e.period {
      ReachEnough();
      PeriodClosesIn(e, p, FIND_SAMPLES, n);
    } else {
      Readopts(e, p, n);
    }
  }

  lemma {:induction false} Readopts(e: Est, p: int, n: nat)
    requires 1 <= e.period && p > 2 * e.period && 0 <= e.longGaps < PERIOD_READOPT && n >= PERIOD_READOPT - e.longGaps
    ensures Near(SampledEvery(e, p, n).period, p)
    decreases n
  {
    var e' := PeriodTaken(e, p);
    if e.longGaps + 1 >= PERIOD_READOPT {
      StaysNear(e', p, n - 1);
    } else {
      Readopts(e', p, n - 1);
    }
  }

  /** Two milliseconds of slack are real: three quarters of an error of two, rounded,
      is two again. */
  lemma PeriodCanStayOff()
    ensures PeriodTaken(Fresh0.(period := 202), 200).period == 202
  {
  }

  /** Cycles that see the last sample again, or one `p` ms later. */
  ghost predicate Paced(last: nat, inputs: seq<Input>, p: int)
    decreases |inputs|
  {
    inputs == [] ||
    ((inputs[0].sampleTs == last || inputs[0].sampleTs == last + p) && Paced(inputs[0].sampleTs, inputs[1..], p))
  }

  function FreshSamples(last: nat, inputs: seq<Input>): nat
    decreases |inputs|
  {
    if inputs == [] then 0
    else (if inputs[0].sampleTs == last then 0 else 1) + FreshSamples(inputs[0].sampleTs, inputs[1..])
  }

  ghost predicate SamePeriod(a: Est, b: Est) {
    a.period == b.period && a.longGaps == b.longGaps
  }

  /** A cycle touches the period only through a fresh sample. */
  lemma PacedCycle(e: Est, c: Input, share: nat, p: int)
    requires |e.ring| == RING && e.lastTs > 0 && 1 <= p <= MAX_PERIOD_MS
    requires c.sampleTs == e.lastTs || c.sampleTs == e.lastTs + p
    ensures var e' := EstControl(e, c, share).0;
      && e'.lastTs == c.sampleTs
      && SamePeriod(e', if c.sampleTs == e.lastTs then e else PeriodTaken(e, p))
  {
    hide WindowSums, Estimated, Control;
    var e1 := Recorded(e, c, share);
    assert e1 == e.(ring := e1.ring, head := e1.head);
    if Fresh(e1, c) {
      assert SamplePeriod(e1, c) == p;
      var e2 := SampleTaken(e1, c);
      assert SamePeriod(e2, PeriodTaken(e, p)) && e2.lastTs == c.sampleTs;
      ClosingKeepsPeriod(e2, c, share);
    } else {
      ClosingKeepsPeriod(e1, c, share);
    }
  }

  lemma ClosingKeepsPeriod(e: Est, c: Input, share: nat)
    requires |e.ring| == RING
    ensures SamePeriod(WindowClosed(e, c, share).0, e) && WindowClosed(e, c, share).0.lastTs == e.lastTs
    ensures SamePeriod(BetweenSamples(e, c, share).0, e) && BetweenSamples(e, c, share).0.lastTs == e.lastTs
  {
    hide WindowSums, Estimated, Control;
  }

  lemma {:induction false} SampledDepends(a: Est, b: Est, p: int, n: nat)
    requires SamePeriod(a, b)
    ensures SamePeriod(SampledEvery(a, p, n), SampledEvery(b, p, n))
    decreases n
  {
    if n > 0 { SampledDepends(PeriodTaken(a, p), PeriodTaken(b, p), p, n - 1); }
  }

  lemma {:induction false} PacedRun(e: Est, share: nat, inputs: seq<Input>, p: int)
    requires |e.ring| == RING && e.lastTs > 0 && 1 <= p <= MAX_PERIOD_MS && Paced(e.lastTs, inputs, p)
    ensures SamePeriod(EstRun(e, share, inputs).0, SampledEvery(e, p, FreshSamples(e.lastTs, inputs)))
    decreases |inputs|
  {
    hide EstControl, PeriodTaken;
    if inputs != [] {
      var c := inputs[0];
      var (e', d) := EstControl(e, c, share);
      PacedCycle(e, c, share, p);
      PacedRun(e', d.share, inputs[1..], p);
      var n := FreshSamples(c.sampleTs, inputs[1..]);
      SampledDepends(e', if c.sampleTs == e.lastTs then e else PeriodTaken(e, p), p, n);
    }
  }

  /** The sample period is detected, not assumed: over any run whose samples come `p`
      ms apart, however often each is seen and whatever else the cycles do, 34 of them
      bring the smoothed period to within two milliseconds. */
  lemma RunFindsPeriod(e: Est, share: nat, inputs: seq<Input>, p: int, most: nat)
    requires Inv(e, most) && e.lastTs > 0 && 1 <= p <= MAX_PERIOD_MS && Paced(e.lastTs, inputs, p)
    requires FreshSamples(e.lastTs, inputs) >= FIND_SAMPLES
    ensures Near(EstRun(e, share, inputs).0.period, p)
  {
    PacedRun(e, share, inputs, p);
    PeriodIsFound(e, p, FreshSamples(e.lastTs, inputs), most);
  }
}
