/** The share-update step of library/include/sm_delta.h over unbounded integers:
    the grow, boot, escape, blowout and mild-cut branches, the headroom cap and
    the consumption-observed cut. Module DeltaMachine shows when the 64-bit code
    computes the same values. */
module DeltaStep {
  import opened Arith
  import opened IntegerRoot

  const INT64_MAX := 0x7FFF_FFFF_FFFF_FFFF
  const MIN_INCREMENT := 5
  const INCREMENT_DIVISOR_DEFAULT := 1310720
  const GROW_CAP_DIVISOR := 10
  const REL_DAMPING := 6
  const STARVED_DAMPING := 4
  const BOOT_JUMP_DIVISOR := 6400
  const HEADROOM_POOLS := 65536
  const OBS_MIN_CONSUMED := 100
  const OBS_MIN_OVERSHOOT := 10
  const OBS_BACKLOG_TICKS := 8
  const OBS_DEEP_BACKLOG_TENTHS := 15

  /** What stays the same from cycle to cycle: the pool and the tuning divisors. */
  datatype Tuning = Tuning(total: nat, incDivisor: int, rampDivisor: int)

  /** One reading of the device against a target. */
  datatype Reading = Reading(target: int, util: int, bucket: int, boot: bool)

  function Target1(target: int): (r: int)
    ensures r >= 1
  {
    if target > 0 then target else 1
  }

  function Seed(t: Tuning): (r: int)
    ensures r >= 1
  {
    var divisor := if t.incDivisor <= 0 then INCREMENT_DIVISOR_DEFAULT else t.incDivisor;
    Max(1, t.total * MIN_INCREMENT / divisor)
  }

  function Jump(t: Tuning, target: int): int {
    Min(t.total * Target1(target) / BOOT_JUMP_DIVISOR, t.total / 64)
  }

  /** share * err / (damp * target): the proportional core of every branch. */
  function Proportional(share: nat, err: nat, damp: int, target: int): (r: int)
    requires damp > 0
  {
    MulPositive(damp, Target1(target));
    share * err / (damp * Target1(target))
  }

  lemma MulPositive(a: int, b: int)
    requires a > 0 && b > 0
    ensures a * b > 0
  {
  }

  function Escape(t: Tuning, share: nat): nat {
    Isqrt(Min(2 * Seed(t) * share, INT64_MAX))
  }

  function GrowStep(t: Tuning, share: nat, r: Reading): int {
    var damp := if r.bucket <= 0 then STARVED_DAMPING else REL_DAMPING;
    var base := Max(Proportional(share, Abs(r.target - r.util), damp, r.target), Seed(t));
    var step := if r.util == 0 && r.bucket <= 0 then Max(base, Escape(t, share)) else base;
    Min(step, Max(share, t.total) / GROW_CAP_DIVISOR)
  }

  /** Util beyond twice the target. */
  predicate Blowout(r: Reading) {
    Abs(r.target - r.util) > r.target && Abs(r.target - r.util) >= MIN_INCREMENT
  }

  function RampFloor(t: Tuning, r: Reading): int {
    if t.rampDivisor <= 0 then 0
    else
      MulPositive(Target1(r.target), t.rampDivisor);
      t.total * Abs(r.target - r.util) / (Target1(r.target) * t.rampDivisor)
  }

  function BlowoutStep(t: Tuning, cap: int, share: nat, r: Reading): int {
    var base := Max(Proportional(share, Abs(r.target - r.util), REL_DAMPING, r.target), Seed(t));
    Min(Max(base, RampFloor(t, r)), cap)
  }

  function Backlog(bucket: int): nat { if bucket > 0 then bucket else 0 }

  function MildStep(share: nat, r: Reading): int {
    var err := Abs(r.target - r.util);
    var prop := Proportional(share, err, REL_DAMPING, r.target);
    var byCause := prop * share / (share + Backlog(r.bucket) + 1);
    var step := Max(byCause, prop * err / 100);
    if step < 1 && Backlog(r.bucket) < share then 1 else step
  }

  /** sm_delta_step_cap. */
  function Step(t: Tuning, cap: int, share: nat, r: Reading): int {
    if r.target >= 100 then cap
    else if r.util <= r.target then
      if r.boot && share < Jump(t, r.target) then Jump(t, r.target)
      else Min(cap, share + GrowStep(t, share, r))
    else if Blowout(r) then Max(0, share - BlowoutStep(t, cap, share, r))
    else Max(0, share - MildStep(share, r))
  }

  // ------------------------------------------------------------ output range

  lemma ProportionalMono(share: nat, e1: nat, e2: nat, damp1: int, damp2: int, target: int)
    requires e1 <= e2 && 0 < damp2 <= damp1
    ensures 0 <= Proportional(share, e1, damp1, target) <= Proportional(share, e2, damp2, target)
  {
    var up := Target1(target);
    MulPositive(damp1, up);
    MulPositive(damp2, up);
    MulMono(e1, e2, share);
    MulMono(0, e1, share);
    MulMono(damp2, damp1, up);
    QuotientNonNegative(share * e1, damp1 * up);
    QuotientMono(share * e1, share * e2, damp1 * up);
    QuotientAntitone(share * e2, damp2 * up, damp1 * up);
  }

  lemma GrowStepBounds(t: Tuning, share: nat, r: Reading)
    ensures 0 <= GrowStep(t, share, r) <= Max(share, t.total) / GROW_CAP_DIVISOR
  {
    ProportionalMono(share, 0, Abs(r.target - r.util), REL_DAMPING, REL_DAMPING, r.target);
  }

  lemma JumpBounds(t: Tuning, target: int)
    ensures 0 <= Jump(t, target) <= t.total / 64
  {
    MulMono(0, t.total, Target1(target));
  }

  /** A mild cut takes at most the proportional part of share, or one token. */
  lemma MildStepBounds(share: nat, r: Reading)
    requires Abs(r.target - r.util) <= 100
    ensures 0 <= MildStep(share, r) <= Max(1, Proportional(share, Abs(r.target - r.util), REL_DAMPING, r.target))
  {
    var err := Abs(r.target - r.util);
    var prop := Proportional(share, err, REL_DAMPING, r.target);
    ProportionalMono(share, 0, err, REL_DAMPING, REL_DAMPING, r.target);
    FractionAtMost(prop, share, share + Backlog(r.bucket) + 1);
    FractionAtMost(prop, err, 100);
  }

  lemma BlowoutStepBounds(t: Tuning, cap: int, share: nat, r: Reading)
    requires cap >= 0
    ensures 0 <= BlowoutStep(t, cap, share, r) <= cap
    ensures BlowoutStep(t, cap, share, r) == cap
      || BlowoutStep(t, cap, share, r) >= Max(1, Proportional(share, Abs(r.target - r.util), REL_DAMPING, r.target))
  {
  }

  /** In a mild overshoot the error is below 100: the target is. */
  lemma MildError(r: Reading)
    requires r.target < 100 && r.util > r.target && !Blowout(r)
    ensures 0 < Abs(r.target - r.util) < 100
  {
  }

  /** Every branch at once: growing never takes share away, adds at most a tenth of
      the larger of pool and share (or jumps to at most a 64th of the pool), and
      cutting never adds. */
  lemma StepDirection(t: Tuning, cap: int, share: nat, r: Reading)
    requires share <= cap && r.target < 100
    ensures r.util <= r.target ==>
      share <= Step(t, cap, share, r) <= Max(t.total / 64, share + Max(share, t.total) / GROW_CAP_DIVISOR)
    ensures r.util > r.target ==> 0 <= Step(t, cap, share, r) <= share
  {
    GrowStepBounds(t, share, r);
    JumpBounds(t, r.target);
    if r.util > r.target {
      if Blowout(r) {
        BlowoutStepBounds(t, cap, share, r);
      } else {
        MildError(r);
        MildStepBounds(share, r);
      }
    }
  }

  /** The output contract: from any share within its cap, to a share within it. */
  lemma StepInRange(t: Tuning, cap: int, share: nat, r: Reading)
    requires share <= cap && t.total <= cap
    ensures 0 <= Step(t, cap, share, r) <= cap
  {
    if r.target < 100 {
      StepDirection(t, cap, share, r);
      JumpBounds(t, r.target);
    }
  }

  /** From share 0 an under-target reading makes progress exactly when the pool is
      at least ten tokens: below that the growth cap rounds every step down to 0. */
  lemma NoBootstrapDeadlock(t: Tuning, cap: int, r: Reading)
    requires t.total <= cap && cap >= 1 && r.util <= r.target < 100
    ensures Step(t, cap, 0, r) > 0 <==> t.total >= GROW_CAP_DIVISOR
  {
    JumpBounds(t, r.target);
    GrowStepBounds(t, 0, r);
  }

  // ------------------------------------------------------------- monotonicity

  /** A larger error never means a smaller mild cut. */
  lemma MildStepMono(share: nat, r1: Reading, r2: Reading)
    requires r1.target == r2.target && r1.bucket == r2.bucket
    requires Abs(r1.target - r1.util) <= Abs(r2.target - r2.util)
    ensures MildStep(share, r1) <= MildStep(share, r2)
  {
    var e1, e2 := Abs(r1.target - r1.util), Abs(r2.target - r2.util);
    var p1 := Proportional(share, e1, REL_DAMPING, r1.target);
    var p2 := Proportional(share, e2, REL_DAMPING, r1.target);
    ProportionalMono(share, e1, e2, REL_DAMPING, REL_DAMPING, r1.target);
    MulMono(p1, p2, share);
    MulMono(p1, p2, e1);
    MulMono(e1, e2, p2);
    QuotientMono(p1 * share, p2 * share, share + Backlog(r1.bucket) + 1);
    QuotientMono(p1 * e1, p2 * e2, 100);
  }

  lemma BlowoutStepMono(t: Tuning, cap: int, share: nat, r1: Reading, r2: Reading)
    requires r1.target == r2.target && Abs(r1.target - r1.util) <= Abs(r2.target - r2.util)
    ensures BlowoutStep(t, cap, share, r1) <= BlowoutStep(t, cap, share, r2)
  {
    var e1, e2 := Abs(r1.target - r1.util), Abs(r2.target - r2.util);
    ProportionalMono(share, e1, e2, REL_DAMPING, REL_DAMPING, r1.target);
    if t.rampDivisor > 0 {
      MulMono(e1, e2, t.total);
      MulPositive(Target1(r1.target), t.rampDivisor);
      QuotientMono(t.total * e1, t.total * e2, Target1(r1.target) * t.rampDivisor);
    }
  }

  lemma GrowStepAntitone(t: Tuning, share: nat, r1: Reading, r2: Reading)
    requires r1.target == r2.target && r1.util <= r2.util <= r1.target && r1.bucket <= r2.bucket
    requires r1.util >= 0 || r2.util != 0 || r2.bucket > 0
    ensures GrowStep(t, share, r1) >= GrowStep(t, share, r2)
  {
    var damp1 := if r1.bucket <= 0 then STARVED_DAMPING else REL_DAMPING;
    var damp2 := if r2.bucket <= 0 then STARVED_DAMPING else REL_DAMPING;
    ProportionalMono(share, r2.target - r2.util, r1.target - r1.util, damp2, damp1, r1.target);
  }

  /** The step is antitone in utilization across all its branches: a higher reading
      never yields a larger next share. Any two readings will do, short of a negative
      one against a starved zero. */
  lemma StepAntitone(t: Tuning, cap: int, share: nat, r: Reading, util: int)
    requires share <= cap && r.util <= util && (r.util >= 0 || util != 0 || r.bucket > 0)
    ensures Step(t, cap, share, r.(util := util)) <= Step(t, cap, share, r)
  {
    var r2 := r.(util := util);
    if r.target < 100 {
      StepDirection(t, cap, share, r);
      StepDirection(t, cap, share, r2);
      if util <= r.target {
        GrowStepAntitone(t, share, r, r2);
      } else if r.util > r.target {
        if Blowout(r) {
          BlowoutStepMono(t, cap, share, r, r2);
        } else if Blowout(r2) {
          MildError(r);
          MildStepBounds(share, r);
          BlowoutStepBounds(t, cap, share, r2);
          ProportionalMono(share, r.util - r.target, util - r.target, REL_DAMPING, REL_DAMPING, r.target);
        } else {
          MildStepMono(share, r, r2);
        }
      }
    }
  }

  /** There it breaks: the escape opens at zero and not below. */
  lemma StepNotAntitoneBelowZero()
    ensures var t, r := Tuning(13107200, 0, 64), Reading(50, -1, 0, false);
      Step(t, 13107200, 200, r.(util := 0)) > Step(t, 13107200, 200, r)
  {
    hide Isqrt;
    var t := Tuning(13107200, 0, 64);
    assert Seed(t) == 50;
    assert Escape(t, 200) == Isqrt(20000);
    RootIs(20000, 141);
    assert GrowStep(t, 200, Reading(50, -1, 0, false)) == 51;
    assert GrowStep(t, 200, Reading(50, 0, 0, false)) == 141;
  }

  /** A fuller bucket never enlarges a grow and never deepens a cut. */
  lemma BucketDamps(t: Tuning, cap: int, share: nat, r: Reading, bucket: int)
    requires share <= cap && r.bucket <= bucket
    ensures r.util <= r.target ==> Step(t, cap, share, r.(bucket := bucket)) <= Step(t, cap, share, r)
    ensures r.util > r.target ==> Step(t, cap, share, r.(bucket := bucket)) >= Step(t, cap, share, r)
  {
    var r2 := r.(bucket := bucket);
    if r.target < 100 {
      if r.util <= r.target {
        GrowStepAntitone(t, share, r, r2);
      } else if !Blowout(r) {
        var prop := Proportional(share, r.util - r.target, REL_DAMPING, r.target);
        ProportionalMono(share, 0, r.util - r.target, REL_DAMPING, REL_DAMPING, r.target);
        MulMono(0, prop, share);
        QuotientAntitone(prop * share, share + Backlog(r.bucket) + 1, share + Backlog(bucket) + 1);
      }
    }
  }
}
