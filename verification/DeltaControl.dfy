/** The whole delta cycle of library/include/sm_delta.h: the step under a
    demand-driven headroom cap, then the consumption-observed cut. */
module DeltaControl {
  import opened Arith
  import opened DeltaStep

  datatype Decision = Decision(share: nat, drain: bool)

  /** The most share may ever become: DELTA_HEADROOM_POOLS pools. */
  function Limit(total: nat): (r: nat)
    ensures total <= INT64_MAX ==> total <= r <= INT64_MAX
  {
    if total > INT64_MAX / HEADROOM_POOLS then INT64_MAX else total * HEADROOM_POOLS
  }

  /** sm_delta_share_cap. */
  function ShareCap(total: nat, share: nat, consumed: int): (r: nat) {
    var lim := Limit(total);
    var cap := if consumed > total / 2 then if consumed < lim / 2 then 2 * consumed else lim else total;
    if share > cap then Min(share, lim) else cap
  }

  /** The pool is so large that the limit saturates, and consumption is half of it. */
  predicate Saturated(total: nat, share: nat, consumed: int) {
    INT64_MAX / HEADROOM_POOLS < total <= INT64_MAX - 2 && consumed == INT64_MAX / 2 && share < INT64_MAX
  }

  /** The headroom is justified by demand: past the pool and the share already held
      it is at most twice the last cycle's consumption -- except by one token. */
  lemma CapFollowsDemand(total: nat, share: nat, consumed: int)
    requires total <= INT64_MAX && share <= INT64_MAX && consumed <= INT64_MAX
    ensures ShareCap(total, share, consumed) <= Max(Max(total, share), 2 * consumed) <==>
      !Saturated(total, share, consumed)
    ensures Saturated(total, share, consumed) ==> ShareCap(total, share, consumed) == INT64_MAX
  {
  }

  /** An idle cycle neither raises the cap past the pool nor pushes an established
      share down. */
  lemma CapKeepsShare(total: nat, share: nat, consumed: int)
    requires total <= INT64_MAX && share <= Limit(total)
    ensures Max(share, total) <= ShareCap(total, share, consumed) <= Limit(total)
    ensures consumed <= total / 2 ==> ShareCap(total, share, consumed) == Max(share, total)
  {
  }

  function BacklogGate(total: nat, share: nat): nat {
    if share > total then share / 10 * OBS_DEEP_BACKLOG_TENTHS else OBS_BACKLOG_TICKS * share
  }

  function Overshoot(target: int): int {
    if 100 - target < OBS_MIN_OVERSHOOT then Max(100 - target, MIN_INCREMENT) else OBS_MIN_OVERSHOOT
  }

  /** The cycle was over-supplied while utilization ran over the target. */
  predicate Oversupplied(total: nat, share: nat, r: Reading, consumed: int) {
    && 1 <= r.target < 100
    && consumed >= OBS_MIN_CONSUMED
    && r.util - r.target >= Overshoot(r.target)
    && consumed < share
    && r.bucket > BacklogGate(total, share)
  }

  /** sm_delta_observe. */
  function Observe(total: nat, share: nat, r: Reading, next: nat, consumed: int): Decision {
    if Oversupplied(total, share, r, consumed) then
      MulMono(0, consumed, r.target);
      QuotientNonNegative(consumed * r.target, r.util);
      Decision(Min(next, consumed * r.target / r.util), true)
    else Decision(next, false)
  }

  /** sm_delta_control. A negative `consumed` means no refill yet. */
  function Control(t: Tuning, share: nat, r: Reading, consumed: int): Decision {
    var cap := ShareCap(t.total, share, consumed);
    StepNonNegative(t, cap, share, r);
    Observe(t.total, share, r, Step(t, cap, share, r), consumed)
  }

  lemma StepNonNegative(t: Tuning, cap: nat, share: nat, r: Reading)
    ensures Step(t, cap, share, r) >= 0
  {
    GrowStepBounds(t, share, r);
    JumpBounds(t, r.target);
  }

  /** An observed cut drains the bucket and leaves at most the share that, at the
      rate just measured, would have held the target: below what was consumed. */
  lemma ObservedCut(t: Tuning, share: nat, r: Reading, consumed: int)
    requires Control(t, share, r, consumed).drain
    ensures var next := Control(t, share, r, consumed).share;
      next * r.util <= consumed * r.target && next < consumed < share
  {
    hide Step, ShareCap;
    RatioBelow(consumed, r.target, r.util);
    MulMono(Control(t, share, r, consumed).share, consumed * r.target / r.util, r.util);
  }

  lemma RatioBelow(c: int, target: int, util: int)
    requires c > 0 && 0 < target < util
    ensures 0 <= c * target / util < c && c * target / util * util <= c * target
  {
    MulMono(target + 1, util, c);
    QuotientAtLeast(c * target, util, 0);
    QuotientAtLeast(c * target, util, c);
    assert util * (c * target / util) + c * target % util == c * target;
  }

  /** Share stays within the headroom limit. */
  lemma ControlInRange(t: Tuning, share: nat, r: Reading, consumed: int)
    requires t.total <= INT64_MAX && share <= Limit(t.total)
    ensures Control(t, share, r, consumed).share <= Limit(t.total)
  {
    CapKeepsShare(t.total, share, consumed);
    StepInRange(t, ShareCap(t.total, share, consumed), share, r);
  }

  /** One cycle never lifts share past the pool, the share it had and twice what it
      consumed, on any pool -- except by one token, when the cap is saturated and the
      step reaches it: at full target, or growing onto it. */
  lemma ControlFollowsDemand(t: Tuning, share: nat, r: Reading, consumed: int)
    requires t.total <= INT64_MAX && share <= Limit(t.total) && consumed <= INT64_MAX
    ensures Control(t, share, r, consumed).share <= Max(Max(t.total, share), 2 * consumed) <==>
      !(Saturated(t.total, share, consumed)
        && (r.target >= 100 || (r.util <= r.target && share + GrowStep(t, share, r) >= INT64_MAX)))
  {
    hide GrowStep, Jump, BlowoutStep, MildStep;
    CapFollowsDemand(t.total, share, consumed);
    CapKeepsShare(t.total, share, consumed);
    var cap := ShareCap(t.total, share, consumed);
    StepInRange(t, cap, share, r);
    if r.target < 100 {
      StepDirection(t, cap, share, r);
      GrowStepBounds(t, share, r);
      JumpBounds(t, r.target);
    }
  }

  /** The whole cycle is antitone in utilization, observed cut included. */
  lemma ControlAntitone(t: Tuning, share: nat, r: Reading, util: int, consumed: int)
    requires t.total <= INT64_MAX && share <= Limit(t.total) && r.util <= util
    requires r.util >= 0 || util != 0 || r.bucket > 0
    ensures Control(t, share, r.(util := util), consumed).share <= Control(t, share, r, consumed).share
    ensures Control(t, share, r, consumed).drain ==> Control(t, share, r.(util := util), consumed).drain
  {
    CapKeepsShare(t.total, share, consumed);
    StepAntitone(t, ShareCap(t.total, share, consumed), share, r, util);
    if Oversupplied(t.total, share, r, consumed) {
      MulMono(0, consumed, r.target);
      QuotientAntitone(consumed * r.target, r.util, util);
    }
  }

  // -------------------------------------------------------------- whole runs

  datatype Cycle = Cycle(reading: Reading, consumed: int)

  function ControlRun(t: Tuning, share: nat, cycles: seq<Cycle>): nat
    decreases |cycles|
  {
    if cycles == [] then share
    else ControlRun(t, Control(t, share, cycles[0].reading, cycles[0].consumed).share, cycles[1..])
  }

  lemma {:induction false} RunInRange(t: Tuning, share: nat, cycles: seq<Cycle>)
    requires t.total <= INT64_MAX && share <= Limit(t.total)
    ensures ControlRun(t, share, cycles) <= Limit(t.total)
    decreases |cycles|
  {
    hide Control;
    if cycles != [] {
      var c := cycles[0];
      ControlInRange(t, share, c.reading, c.consumed);
      RunInRange(t, Control(t, share, c.reading, c.consumed).share, cycles[1..]);
    }
  }

  /** Over any run on any pool, share never exceeds the pool, the share it started
      with and twice the largest consumption of a cycle, short of the saturated cap. */
  lemma {:induction false} RunFollowsDemand(t: Tuning, share: nat, cycles: seq<Cycle>, most: int)
    requires t.total <= INT64_MAX && share <= Limit(t.total) && !Saturated(t.total, share, most)
    requires forall c :: c in cycles ==> c.consumed <= most <= INT64_MAX
    ensures ControlRun(t, share, cycles) <= Max(Max(t.total, share), 2 * most)
    decreases |cycles|
  {
    hide Control;
    RunInRange(t, share, cycles);
    if cycles != [] && share < INT64_MAX {
      var c := cycles[0];
      var next := Control(t, share, c.reading, c.consumed).share;
      ControlInRange(t, share, c.reading, c.consumed);
      ControlFollowsDemand(t, share, c.reading, c.consumed);
      RunFollowsDemand(t, next, cycles[1..], most);
    }
  }

  /** At the saturated cap one cycle is enough to exceed it, by the one token that is
      left up to the largest 64-bit value. */
  lemma SaturatedRunExceeds(t: Tuning, share: nat, most: int)
    requires t.total <= INT64_MAX && share <= Limit(t.total) && Saturated(t.total, share, most)
    ensures ControlRun(t, share, [Cycle(Reading(100, 0, 0, false), most)]) == Max(Max(t.total, share), 2 * most) + 1
  {
    var run := [Cycle(Reading(100, 0, 0, false), most)];
    CapFollowsDemand(t.total, share, most);
    assert run[1..] == [];
  }

  /** A run whose cycles each consume at most half a pool never winds share up past
      the pool, on any pool and whatever utilization, the bucket and the target do. */
  lemma {:induction false} IdleRunStaysInPool(t: Tuning, share: nat, cycles: seq<Cycle>)
    requires t.total <= INT64_MAX && share <= Limit(t.total)
    requires forall c :: c in cycles ==> c.consumed <= t.total / 2
    ensures ControlRun(t, share, cycles) <= Max(t.total, share)
    decreases |cycles|
  {
    if cycles != [] {
      var c := cycles[0];
      CapKeepsShare(t.total, share, c.consumed);
      StepInRange(t, ShareCap(t.total, share, c.consumed), share, c.reading);
      ControlInRange(t, share, c.reading, c.consumed);
      IdleRunStaysInPool(t, Control(t, share, c.reading, c.consumed).share, cycles[1..]);
    }
  }

  // ------------------------------------------------------- progress over runs

  /** A reading at or under the target never takes share away, and below the pool it
      adds at least one token. */
  lemma GrowProgress(t: Tuning, share: nat, r: Reading, consumed: int)
    requires GROW_CAP_DIVISOR <= t.total <= INT64_MAX && share <= Limit(t.total) && r.util <= r.target
    ensures Control(t, share, r, consumed).share >= Max(share, Min(t.total, share + 1))
  {
    var cap := ShareCap(t.total, share, consumed);
    CapKeepsShare(t.total, share, consumed);
    if r.target < 100 { StepDirection(t, cap, share, r); }
  }

  /** No under-target run can leave the controller stuck: after n cycles share has
      grown by n tokens or reached the pool, whatever the bucket and the divisors. */
  lemma {:induction false} GrowRun(t: Tuning, share: nat, cycles: seq<Cycle>)
    requires GROW_CAP_DIVISOR <= t.total <= INT64_MAX && share <= Limit(t.total)
    requires forall c :: c in cycles ==> c.reading.util <= c.reading.target
    ensures ControlRun(t, share, cycles) >= Max(share, Min(t.total, share + |cycles|))
    decreases |cycles|
  {
    hide Control;
    if cycles != [] {
      var c := cycles[0];
      GrowProgress(t, share, c.reading, c.consumed);
      ControlInRange(t, share, c.reading, c.consumed);
      GrowRun(t, Control(t, share, c.reading, c.consumed).share, cycles[1..]);
    }
  }

  /** Something in an over-target cycle takes at least one token: a blowout, a backlog
      too small to explain the overshoot, a proportional part that survives the scaling
      by cause or by error, or the observed cut. */
  predicate Cuts(t: Tuning, share: nat, r: Reading, consumed: int) {
    var err := Abs(r.target - r.util);
    var prop := Proportional(share, err, REL_DAMPING, r.target);
    || Blowout(r)
    || Backlog(r.bucket) < share
    || prop * share >= share + Backlog(r.bucket) + 1
    || prop * err >= 100
    || Oversupplied(t.total, share, r, consumed)
  }

  /** An over-target cycle lowers share exactly then, and otherwise holds it: the dead
      zone left near the target is the one a backlog explains, and no other. */
  lemma CutsExactly(t: Tuning, share: nat, r: Reading, consumed: int)
    requires t.total <= INT64_MAX && 0 < share <= Limit(t.total) && r.target < 100 && r.util > r.target
    ensures Control(t, share, r, consumed).share < share <==> Cuts(t, share, r, consumed)
    ensures !Cuts(t, share, r, consumed) ==> Control(t, share, r, consumed) == Decision(share, false)
  {
    hide Proportional, ShareCap;
    var cap := ShareCap(t.total, share, consumed);
    CapKeepsShare(t.total, share, consumed);
    StepCuts(t, cap, share, r);
    if Oversupplied(t.total, share, r, consumed) {
      ObservedCut(t, share, r, consumed);
    }
  }

  lemma StepCuts(t: Tuning, cap: nat, share: nat, r: Reading)
    requires 0 < share <= cap && r.target < 100 && r.util > r.target
    ensures var err := Abs(r.target - r.util); var prop := Proportional(share, err, REL_DAMPING, r.target);
      0 <= Step(t, cap, share, r) <= share
      && (Step(t, cap, share, r) < share <==>
        Blowout(r) || Backlog(r.bucket) < share || prop * share >= share + Backlog(r.bucket) + 1 || prop * err >= 100)
  {
    hide Proportional;
    StepDirection(t, cap, share, r);
    if Blowout(r) {
      BlowoutStepBounds(t, cap, share, r);
    } else {
      var err := Abs(r.target - r.util);
      var prop := Proportional(share, err, REL_DAMPING, r.target);
      QuotientAtLeast(prop * share, share + Backlog(r.bucket) + 1, 1);
      QuotientAtLeast(prop * err, 100, 1);
    }
  }

  lemma StarvedCut(t: Tuning, share: nat, r: Reading, consumed: int)
    requires t.total <= INT64_MAX && share <= Limit(t.total)
    requires r.target < 100 && r.util > r.target && r.bucket <= 0
    ensures Control(t, share, r, consumed).share <= Max(0, share - 1)
  {
    if share > 0 {
      CutsExactly(t, share, r, consumed);
    } else {
      CapKeepsShare(t.total, 0, consumed);
      StepDirection(t, ShareCap(t.total, 0, consumed), 0, r);
    }
  }

  /** A starved over-target run drains share one token a cycle at least, down to 0. */
  lemma {:induction false} CutRun(t: Tuning, share: nat, cycles: seq<Cycle>)
    requires t.total <= INT64_MAX && share <= Limit(t.total)
    requires forall c :: c in cycles ==>
      c.reading.target < 100 && c.reading.util > c.reading.target && c.reading.bucket <= 0
    ensures ControlRun(t, share, cycles) <= Max(0, share - |cycles|)
    decreases |cycles|
  {
    hide Control;
    if cycles != [] {
      var c := cycles[0];
      StarvedCut(t, share, c.reading, c.consumed);
      ControlInRange(t, share, c.reading, c.consumed);
      CutRun(t, Control(t, share, c.reading, c.consumed).share, cycles[1..]);
    }
  }
}
