/** The estimator as it ships: sm_delta_est_t updated in place, its ring an array,
    its averages accumulated by nested loops, proved against DeltaEstimate. */
module DeltaEstimator {
  import opened Arith
  import opened DeltaStep
  import opened DeltaControl
  import opened DeltaEstimate
  import opened DeltaEstimateRuns

  class Estimator {
    var lastTs: nat
    var winTs: nat
    var winReading: int
    var winMs: int
    var refConsumed: int
    var haveEst: bool
    var zeroStarved: bool
    var dropCycles: int
    var period: int
    var longGaps: int
    var head: u32
    const ring: array<Record>

    ghost function State(): Est
      reads this, ring
    {
      Est(lastTs, winTs, winReading, winMs, refConsumed, haveEst, zeroStarved, dropCycles, period, longGaps, head,
          ring[..])
    }

    /** Valid for readings of at most `most`. */
    ghost predicate Valid(most: nat)
      reads this, ring
    {
      ring.Length == RING && Inv(State(), most)
    }

    /** A zero-initialised estimator is valid. */
    constructor ()
      ensures fresh(ring) && State() == Fresh0 && forall most: nat :: Valid(most)
    {
      lastTs, winTs, winReading, winMs, refConsumed := 0, 0, 0, 0, 0;
      haveEst, zeroStarved, dropCycles, period, longGaps, head := false, false, 0, 0, 0, 0;
      ring := new Record[RING](_ => Record(0, 0, false));
      new;
      assert ring[..] == Fresh0.ring;
    }

    method NoteCycle(c: Input, share: nat)
      requires ring.Length == RING
      modifies this`head, ring
      ensures State() == Recorded(old(State()), c, share)
    {
      var demand := c.reading.bucket <= 0 || (c.consumed >= 0 && c.consumed >= share - share / 8);
      if c.consumed >= 0 {
        ring[head % RING] := Record(c.now, c.consumed, demand);
        head := (head + 1) % WORD32;
      }
    }

    method NoteSample(c: Input)
      modifies this`lastTs, this`winTs, this`winReading, this`winMs, this`period, this`longGaps
      ensures State() == SampleTaken(old(State()), c)
    {
      hide Wrap32;
      var prev := lastTs;
      lastTs := c.sampleTs;
      if prev == 0 {
        winTs := c.sampleTs;
      } else {
        var p := Wrap32(c.sampleTs - prev);
        if p > MAX_PERIOD_MS {
          p := MAX_PERIOD_MS;
        }
        if p > 0 {
          winReading := winReading + c.reading.util * p;
          winMs := winMs + p;
          if period == 0 {
            period := p;
          } else if p <= 2 * period {
            period := (3 * period + p + 2) / 4;
            longGaps := 0;
          } else {
            longGaps := longGaps + 1;
            if longGaps >= PERIOD_READOPT {
              period := p;
              longGaps := 0;
            }
          }
        }
      }
    }

    /** One span: walk the ring backwards, stopping at the first record that ended
        before the span began and skipping the ones that do not overlap it. */
    method AddSpan(from: int, end: int, s0: Sums) returns (s: Sums)
      requires ring.Length == RING
      ensures s == SpanSums(State(), from, end, 0, s0)
    {
      hide Wrap32, Weight;
      var num, den := s0.num, s0.den;
      var starvedNum, starvedDen, activeDen := s0.starvedNum, s0.starvedDen, s0.activeDen;
      var i := 0;
      ghost var e := State();
      while i + 1 < RING && i + 1 < head
        invariant 0 <= i < RING
        invariant SpanSums(e, from, end, i, Sums(num, den, starvedNum, starvedDen, activeDen))
          == SpanSums(e, from, end, 0, s0)
      {
        var k, kp := (head - 1 - i) % RING, (head - 2 - i) % RING;
        var t1 := Wrap32(ring[k].at - from);
        var t0 := Wrap32(ring[kp].at - from);
        assert RingAt(e, i + 1) == ring[k] && RingAt(e, i + 2) == ring[kp];
        if t1 <= 0 {
          break;
        }
        var lo, hi, len := if t0 > 0 then t0 else 0, if t1 < end then t1 else end, Wrap32(t1 - t0);
        ghost var s1 := Sums(num, den, starvedNum, starvedDen, activeDen);
        AddedNothing(s1, ring[k]);
        WeightIs(t0, t1, end);
        i := i + 1;
        if hi <= lo || len <= 0 {
          continue;
        }
        var w := (hi - lo) * 1000 / len;
        num := num + ring[k].consumed * w;
        den := den + w;
        if ring[k].consumed > 0 || ring[k].starved {
          activeDen := activeDen + w;
        }
        if ring[k].starved {
          starvedNum := starvedNum + ring[k].consumed * w;
          starvedDen := starvedDen + w;
        }
        assert Sums(num, den, starvedNum, starvedDen, activeDen) == Added(s1, ring[k], w);
      }
      s := Sums(num, den, starvedNum, starvedDen, activeDen);
    }

    /** The sums over every span of the window. */
    method AddWindow(c: Input) returns (s: Sums)
      requires ring.Length == RING
      ensures s == WindowSums(State(), c, 0, NoSums)
    {
      hide SpanSums, Wrap32;
      var avg := if c.avgMs > period then c.avgMs else period;
      var sliding := period > 0 && avg * 2 > period * 3;
      var spans := 1;
      if sliding {
        spans := (winMs + period / 2) / period;
        if spans < 1 {
          spans := 1;
        }
      }
      s := NoSums;
      ghost var e := State();
      var j := 0;
      while j < spans
        invariant 0 <= j <= spans
        invariant WindowSums(e, c, j, s) == WindowSums(e, c, 0, NoSums)
      {
        var from, end := winTs as int, Wrap32(c.sampleTs - winTs);
        if sliding {
          from := c.sampleTs - j * period - avg;
          end := avg;
        }
        s := AddSpan(from, end, s);
        j := j + 1;
      }
    }

    /** Close the window and size a new share from it, if its sums carry one. */
    method CloseWindow(c: Input, share: nat) returns (sized: bool, d: Decision)
      requires ring.Length == RING && winMs > 0
      modifies this`winTs, this`winReading, this`winMs, this`zeroStarved
      modifies this`haveEst, this`refConsumed, this`dropCycles
      ensures sized ==> (State(), d) == WindowClosed(old(State()), c, share)
      ensures !sized ==> BetweenSamples(State(), c, share) == WindowClosed(old(State()), c, share)
    {
      hide WindowSums, BetweenSamples, Estimated, Mean, Limit;
      var reading := winReading / winMs;
      var s := AddWindow(c);
      winTs, winReading, winMs := c.sampleTs, 0, 0;
      zeroStarved := reading < MIN_READING && s.den > 0 && 2 * s.starvedDen >= s.den;
      var m := if reading >= MIN_READING then reading else if zeroStarved then 1 else 0;
      var cbar := MeanOf(s);
      if m >= 1 && cbar > 0 && c.reading.target >= 1 && c.reading.target < 100 {
        var next := SizeShare(c.tuning.total, c.reading.target, m, s, cbar);
        haveEst, refConsumed, dropCycles := true, cbar, 0;
        return true, Decision(next, c.reading.bucket > next);
      }
      return false, Decision(share, false);
    }

    /** The demand-drop guard, then hold or step. */
    method Between(c: Input, share: nat) returns (d: Decision)
      modifies this`dropCycles, this`refConsumed
      ensures (State(), d) == BetweenSamples(old(State()), c, share)
    {
      hide Control;
      if haveEst && c.consumed > 0 && c.reading.bucket > 0 && 1 <= c.reading.target < 100
        && c.consumed * DROP_FACTOR < refConsumed {
        dropCycles := dropCycles + 1;
        if dropCycles >= DROP_CYCLES {
          var next := (c.consumed * c.reading.target + 50) / 100;
          if next < 1 {
            next := 1;
          }
          dropCycles, refConsumed := 0, c.consumed;
          return Decision(Min(next, share), c.reading.bucket > next);
        }
      } else {
        dropCycles := 0;
      }
      if c.reading.target < 100 && lastTs != 0 && ((haveEst && !zeroStarved) || !Demand(c, share)) {
        return Decision(share, false);
      }
      d := Control(c.tuning, share, c.reading, c.consumed);
    }

    /** sm_delta_est_control_avg: one cycle, in place. */
    method ControlAvg(c: Input, share: nat, ghost most: nat) returns (d: Decision)
      requires Valid(most) && InputOk(c, c.tuning.total, most) && share <= Limit(c.tuning.total)
      modifies this, ring
      ensures Valid(most) && d.share <= Limit(c.tuning.total)
      ensures (State(), d) == EstControl(old(State()), c, share)
    {
      hide Recorded, SampleTaken, WindowClosed, BetweenSamples, Inv;
      EstControlKeeps(State(), c, share, c.tuning.total, most);
      NoteCycle(c, share);
      if c.sampleTs != 0 && c.sampleTs != lastTs {
        var prev := lastTs;
        NoteSample(c);
        var avg := if c.avgMs > period then c.avgMs else period;
        var sliding := period > 0 && avg * 2 > period * 3;
        var zeroNow := sliding && winMs > 0 && c.reading.util < MIN_READING && c.deviceUtil < MIN_READING
          && head > 0 && ring[(head - 1) % RING].starved;
        if prev != 0 && (zeroNow || winMs >= MIN_WINDOW_MS) {
          var sized;
          sized, d := CloseWindow(c, share);
          if sized {
            return;
          }
        }
      }
      d := Between(c, share);
    }
  }

  /** The rounded mean consumption of the window. */
  method MeanOf(s: Sums) returns (cbar: int)
    ensures cbar == Mean(s.num, s.den)
  {
    cbar := if s.den > 0 then (s.num + s.den / 2) / s.den else 0;
  }

  /** The share that holds the target: by the mean, or in a constrained window by the
      cycles that hit the share against the reading over active time. */
  method SizeShare(total: nat, target: int, m: int, s: Sums, cbar: int) returns (next: nat)
    requires m >= 1 && cbar == Mean(s.num, s.den)
    ensures next == Max(0, Min(Estimated(target, m, s), Limit(total)))
  {
    var lim := if total > INT64_MAX / HEADROOM_POOLS then INT64_MAX else total * HEADROOM_POOLS;
    var est := (cbar * target + m / 2) / m;
    var constrained := s.activeDen > 0 && 4 * s.starvedDen >= s.activeDen;
    if constrained && s.starvedDen > 0 {
      var active := m * s.den / s.activeDen;
      if active < 1 {
        active := 1;
      }
      est := ((s.starvedNum + s.starvedDen / 2) / s.starvedDen * target + active / 2) / active;
    }
    next := if est > lim then lim else if est < 0 then 0 else est;
  }

  lemma AddedNothing(s: Sums, r: Record)
    ensures Added(s, r, 0) == s
  {
  }

  lemma WeightIs(t0: int, t1: int, end: int)
    ensures var lo, hi, len := Max(t0, 0), Min(t1, end), Wrap32(t1 - t0);
      Weight(t0, t1, end) == if hi <= lo || len <= 0 then 0 else (hi - lo) * 1000 / len
  {
  }
}
