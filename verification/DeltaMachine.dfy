/** The delta cycle in the 64-bit arithmetic it ships in. Every intermediate is
    checked against its C type, so a result of `Ok` means that nothing overflowed. */
module DeltaMachine {
  import opened Arith
  import opened IntegerRoot
  import opened DeltaStep
  import opened DeltaControl

  datatype Checked<+T> = Overflow | Ok(value: T) {
    predicate IsFailure() { Overflow? }

    function PropagateFailure<U>(): Checked<U>
      requires Overflow?
    {
      Overflow
    }

    function Extract(): T
      requires Ok?
    {
      value
    }
  }

  const INT64_MIN := -0x8000_0000_0000_0000
  const INT128_MAX := 0x7FFF_FFFF_FFFF_FFFF_FFFF_FFFF_FFFF_FFFF

  function I32(x: int): Checked<int> {
    if -0x8000_0000 <= x <= 0x7FFF_FFFF then Ok(x) else Overflow
  }

  function I64(x: int): Checked<int> {
    if INT64_MIN <= x <= INT64_MAX then Ok(x) else Overflow
  }

  function I128(x: int): Checked<int> {
    if -INT128_MAX - 1 <= x <= INT128_MAX then Ok(x) else Overflow
  }

  /** C division truncates toward zero. */
  function CDiv(a: int, b: int): int
    requires b != 0
  {
    if a >= 0 then a / b else -((-a) / b)
  }

  /** share * raw / (damp * up), each product in 64 bits; the divisor cannot be 0. */
  function ProportionalM(share: int, raw: int, damp: int, up: int): Checked<int> {
    var product :- I64(share * raw);
    var divisor :- I64(damp * up);
    if divisor == 0 then Overflow else Ok(CDiv(product, divisor))
  }

  function GrowM(
    total: int, cap: int, share: int, raw: int, up: int, util: int, bucket: int, boot: bool, seed: int): Checked<int>
  {
    var jumpProduct :- I64(if boot then total * up else 0);
    var jump := Min(CDiv(jumpProduct, BOOT_JUMP_DIVISOR), CDiv(total, 64));
    if boot && share < jump then Ok(jump)
    else
      var prop :- ProportionalM(share, raw, if bucket <= 0 then STARVED_DAMPING else REL_DAMPING, up);
      var base := Max(prop, seed);
      var q :- I128(if util == 0 && bucket <= 0 then 2 * seed * share else 0);
      var radicand := Min(q, INT64_MAX);
      if radicand < 0 then Overflow
      else
        var step := if util == 0 && bucket <= 0 then Max(base, Isqrt(radicand)) else base;
        var growCap := CDiv(if share > total then share else total, GROW_CAP_DIVISOR);
        var sum :- I64(share + Min(step, growCap));
        Ok(if sum > cap then cap else sum)
  }

  function BlowoutM(total: int, cap: int, share: int, raw: int, up: int, seed: int, rampDivisor: int): Checked<int>
  {
    var prop :- ProportionalM(share, raw, REL_DAMPING, up);
    var product :- I64(if rampDivisor > 0 then total * raw else 0);
    var divisor :- I64(if rampDivisor > 0 then up * rampDivisor else 1);
    if divisor == 0 then Overflow
    else
      var step := Max(Max(prop, seed), if rampDivisor > 0 then CDiv(product, divisor) else 0);
      var diff :- I64(share - Min(step, cap));
      Ok(Max(0, diff))
  }

  function MildM(share: int, raw: int, up: int, bucket: int): Checked<int> {
    var backlog := if bucket > 0 then bucket else 0;
    var prop :- ProportionalM(share, raw, REL_DAMPING, up);
    var wide :- I128(prop * share);
    var half :- I64(share + backlog);
    var divisor :- I64(half + 1);
    if divisor == 0 then Overflow
    else
      var byCause :- I64(CDiv(wide, divisor));
      var errProduct :- I64(prop * raw);
      var step := Max(byCause, CDiv(errProduct, 100));
      var diff :- I64(share - (if step < 1 && backlog < share then 1 else step));
      Ok(Max(0, diff))
  }

  /** sm_delta_step_cap. */
  function StepM(
    total: int, cap: int, target: int, util: int, share: int, bucket: int, boot: bool, incDivisor: int,
    rampDivisor: int): Checked<int>
  {
    if target >= 100 then Ok(cap)
    else
      var diff :- I32(target - util);
      var raw :- I32(Abs(diff));
      var up := if target > 0 then target else 1;
      var seedProduct :- I64(total * MIN_INCREMENT);
      var seed := Max(1, CDiv(seedProduct, if incDivisor <= 0 then INCREMENT_DIVISOR_DEFAULT else incDivisor));
      if util <= target then GrowM(total, cap, share, raw, up, util, bucket, boot, seed)
      else if raw > target && raw >= MIN_INCREMENT then BlowoutM(total, cap, share, raw, up, seed, rampDivisor)
      else MildM(share, raw, up, bucket)
  }

  /** sm_delta_share_cap. */
  function ShareCapM(total: int, share: int, consumed: int): Checked<int> {
    var lim :- I64(if total > INT64_MAX / HEADROOM_POOLS then INT64_MAX else total * HEADROOM_POOLS);
    var doubled :- I64(if consumed > CDiv(total, 2) && consumed < CDiv(lim, 2) then 2 * consumed else lim);
    var cap := if consumed > CDiv(total, 2) then doubled else total;
    Ok(if share > cap then Min(share, lim) else cap)
  }

  /** sm_delta_observe: share and drain flag. */
  function ObserveM(
    total: int, target: int, util: int, share: int, next: int, bucket: int, consumed: int): Checked<(int, bool)>
  {
    var gate :- I64(if share > total then CDiv(share, 10) * OBS_DEEP_BACKLOG_TENTHS else OBS_BACKLOG_TICKS * share);
    var room :- I32(100 - target);
    var need := if room < OBS_MIN_OVERSHOOT then Max(room, MIN_INCREMENT) else OBS_MIN_OVERSHOOT;
    var unread := target >= 100 || target < 1 || consumed < OBS_MIN_CONSUMED;
    var over :- I32(if unread then 0 else util - target);
    if unread || over < need || consumed >= share || bucket <= gate then Ok((next, false))
    else
      var product :- I64(consumed * target);
      if util == 0 then Overflow
      else Ok((Min(next, CDiv(product, util)), true))
  }

  /** sm_delta_control. */
  function ControlM(
    total: int, target: int, util: int, share: int, bucket: int, boot: bool, consumed: int, incDivisor: int,
    rampDivisor: int): Checked<(int, bool)>
  {
    var cap :- ShareCapM(total, share, consumed);
    var next :- StepM(total, cap, target, util, share, bucket, boot, incDivisor, rampDivisor);
    ObserveM(total, target, util, share, next, bucket, consumed)
  }

  // ------------------------------------------------------------ the contract

  const POOL_BOUND := 0x100_0000_0000        // 2^40
  const SHARE_BOUND := 0x100_0000_0000_0000  // 2^56, the headroom limit of such a pool

  const INT32_MAX := 0x7FFF_FFFF

  /** What the code is written for: a pool below 2^40 tokens, share within the headroom,
      a reading that is not negative, and any values of their C types elsewhere. A
      reading sums several engines of several processes, so it may well pass 100. */
  ghost predicate Domain(t: Tuning, share: nat, r: Reading, consumed: int) {
    && t.total < POOL_BOUND
    && share <= Limit(t.total)
    && 0 <= r.util <= INT32_MAX
    && -INT32_MAX - 1 <= r.target <= INT32_MAX
    && t.rampDivisor <= INT32_MAX
    && INT64_MIN <= r.bucket <= INT64_MAX
    && INT64_MIN <= consumed <= INT64_MAX
  }

  /** share + backlog + 1 in a mild cut, against a bucket within a share of the largest
      64-bit value. */
  predicate BacklogWraps(share: nat, r: Reading) {
    r.target < 100 && r.util > r.target && !Blowout(r) && share + Backlog(r.bucket) + 1 > INT64_MAX
  }

  /** share * |target - util| or, with a ramp, pool * |target - util| leaves 64 bits, or
      the error itself leaves 32. */
  predicate ErrorWraps(t: Tuning, share: nat, r: Reading) {
    var raw := r.util - r.target;
    && r.target < 100 && r.util > r.target
    && (raw > INT32_MAX || share * raw > INT64_MAX || (t.rampDivisor > 0 && t.total * raw > INT64_MAX))
  }

  /** 100 - target leaves 32 bits. */
  predicate RoomWraps(r: Reading) { 100 - r.target > INT32_MAX }

  predicate CycleWraps(t: Tuning, share: nat, r: Reading) {
    BacklogWraps(share, r) || ErrorWraps(t, share, r) || RoomWraps(r)
  }

  lemma ProportionalFits(share: nat, raw: nat, damp: int, target: int)
    requires (damp == 4 || damp == 6) && target < 100
    ensures ProportionalM(share, raw, damp, Target1(target))
      == if share * raw > INT64_MAX then Overflow else Ok(Proportional(share, raw, damp, target))
    ensures 0 <= Proportional(share, raw, damp, target) <= share * raw
  {
    MulMono(0, share, raw);
    QuotientNonNegative(share * raw, damp * Target1(target));
  }

  lemma SmallErrorFits(share: nat, raw: nat)
    requires share <= SHARE_BOUND && raw <= 127
    ensures share * raw <= SHARE_BOUND * 127
  {
    MulMono(share, SHARE_BOUND, raw);
    MulMono(raw, 127, SHARE_BOUND);
  }

  lemma GrowFits(t: Tuning, cap: nat, share: nat, r: Reading)
    requires t.total < POOL_BOUND && share <= SHARE_BOUND && 0 <= r.util <= r.target < 100
    ensures GrowM(t.total, cap, share, r.target - r.util, Target1(r.target), r.util, r.bucket, r.boot, Seed(t))
      == Ok(Step(t, cap, share, r))
  {
    hide Proportional, Isqrt, ProportionalM, Seed;
    MulMono(t.total, POOL_BOUND, Target1(r.target));
    MulMono(0, t.total, Target1(r.target));
    SmallErrorFits(share, r.target - r.util);
    ProportionalFits(share, r.target - r.util, if r.bucket <= 0 then STARVED_DAMPING else REL_DAMPING, r.target);
    EscapeFits(t, share);
  }

  lemma EscapeFits(t: Tuning, share: nat)
    requires t.total < POOL_BOUND && share <= SHARE_BOUND
    ensures 0 <= 2 * Seed(t) * share <= INT128_MAX
  {
    MulMono(share, SHARE_BOUND, 2 * Seed(t));
    MulMono(0, share, 2 * Seed(t));
    MulMono(2 * Seed(t), 2 * (1 + POOL_BOUND * MIN_INCREMENT), SHARE_BOUND);
  }

  lemma BlowoutFits(t: Tuning, cap: nat, share: nat, r: Reading)
    requires t.total < POOL_BOUND && share <= SHARE_BOUND && cap <= SHARE_BOUND
    requires r.target < r.util && r.target < 100 && r.util - r.target <= INT32_MAX
    requires Blowout(r) && t.rampDivisor <= INT32_MAX
    ensures BlowoutM(t.total, cap, share, r.util - r.target, Target1(r.target), Seed(t), t.rampDivisor)
      == if ErrorWraps(t, share, r) then Overflow else Ok(Step(t, cap, share, r))
  {
    hide Proportional, ProportionalM;
    var raw, up := r.util - r.target, Target1(r.target);
    ProportionalFits(share, raw, REL_DAMPING, r.target);
    MulMono(0, t.total, raw);
    if t.rampDivisor > 0 {
      MulMono(up, 100, t.rampDivisor);
      MulPositive(up, t.rampDivisor);
      QuotientNonNegative(t.total * raw, up * t.rampDivisor);
    }
  }

  lemma MildFits(t: Tuning, cap: nat, share: nat, r: Reading)
    requires share <= SHARE_BOUND && r.bucket <= INT64_MAX
    requires r.target < r.util && r.target < 100 && !Blowout(r)
    ensures MildM(share, r.util - r.target, Target1(r.target), r.bucket)
      == if BacklogWraps(share, r) then Overflow else Ok(Step(t, cap, share, r))
  {
    hide Proportional, ProportionalM;
    var raw := r.util - r.target;
    var prop := Proportional(share, raw, REL_DAMPING, r.target);
    SmallErrorFits(share, raw);
    ProportionalFits(share, raw, REL_DAMPING, r.target);
    MildProductsFit(share, raw, r.target);
    FractionAtMost(prop, share, share + Backlog(r.bucket) + 1);
  }

  /** In a mild overshoot the error is below 100, so neither product with it wraps. */
  lemma MildErrorFits(t: Tuning, share: nat, r: Reading)
    requires t.total < POOL_BOUND && share <= SHARE_BOUND
    requires r.target < r.util && r.target < 100 && !Blowout(r)
    ensures !ErrorWraps(t, share, r)
  {
    SmallErrorFits(share, r.util - r.target);
    SmallErrorFits(t.total, r.util - r.target);
  }

  lemma MildProductsFit(share: nat, raw: nat, target: int)
    requires share <= SHARE_BOUND && raw <= 127 && (raw <= target || raw < MIN_INCREMENT)
    ensures var prop := Proportional(share, raw, REL_DAMPING, target);
      0 <= prop <= share && 0 <= prop * share <= INT128_MAX && 0 <= prop * raw <= SHARE_BOUND * 127
  {
    var prop := Proportional(share, raw, REL_DAMPING, target);
    MildPropAtMost(share, raw, target);
    ProportionalMono(share, 0, raw, REL_DAMPING, REL_DAMPING, target);
    MulMono(prop, SHARE_BOUND, share);
    MulMono(share, SHARE_BOUND, SHARE_BOUND);
    MulMono(0, prop, share);
    MulMono(0, prop, raw);
    MulMono(prop, SHARE_BOUND, raw);
  }

  /** In a mild overshoot the proportional part is at most share. */
  lemma MildPropAtMost(share: nat, raw: nat, target: int)
    requires raw <= target || raw < MIN_INCREMENT
    ensures Proportional(share, raw, REL_DAMPING, target) <= share
  {
    FractionAtMost(share, raw, REL_DAMPING * Target1(target));
  }

  /** The 64-bit step computes the unbounded one, unless the backlog sum or a product
      with the error wraps. */
  lemma StepFits(t: Tuning, cap: nat, share: nat, r: Reading, consumed: int)
    requires Domain(t, share, r, consumed) && cap <= SHARE_BOUND
    ensures StepM(t.total, cap, r.target, r.util, share, r.bucket, r.boot, t.incDivisor, t.rampDivisor)
      == if BacklogWraps(share, r) || ErrorWraps(t, share, r) then Overflow else Ok(Step(t, cap, share, r))
  {
    hide GrowM, BlowoutM, MildM, Step;
    if r.target >= 100 {
      StepAtFull(t, cap, share, r);
    } else if r.util <= r.target {
      GrowFits(t, cap, share, r);
    } else if r.util - r.target <= INT32_MAX {
      if Blowout(r) {
        BlowoutFits(t, cap, share, r);
      } else {
        MildFits(t, cap, share, r);
        MildErrorFits(t, share, r);
      }
    }
  }

  lemma StepAtFull(t: Tuning, cap: nat, share: nat, r: Reading)
    requires r.target >= 100
    ensures Step(t, cap, share, r) == cap
  {
  }

  /** The whole 64-bit cycle computes the unbounded one, unless the backlog sum, a
      product with the error or the room above the target wraps: no other product, sum,
      quotient or conversion can. */
  lemma ControlFits(t: Tuning, share: nat, r: Reading, consumed: int)
    requires Domain(t, share, r, consumed)
    ensures ControlM(t.total, r.target, r.util, share, r.bucket, r.boot, consumed, t.incDivisor, t.rampDivisor)
      == if CycleWraps(t, share, r) then Overflow
         else Ok((Control(t, share, r, consumed).share, Control(t, share, r, consumed).drain))
  {
    hide StepM, Step, ShareCapM, ShareCap, ObserveM, Observe;
    var cap := ShareCap(t.total, share, consumed);
    ShareCapFits(t.total, share, consumed);
    CapKeepsShare(t.total, share, consumed);
    StepFits(t, cap, share, r, consumed);
    StepNonNegative(t, cap, share, r);
    ObserveFits(t, share, r, Step(t, cap, share, r), consumed);
  }

  lemma ShareCapFits(total: nat, share: nat, consumed: int)
    requires total < POOL_BOUND && share <= Limit(total) && INT64_MIN <= consumed <= INT64_MAX
    ensures ShareCapM(total, share, consumed) == Ok(ShareCap(total, share, consumed))
  {
  }

  lemma ObserveFits(t: Tuning, share: nat, r: Reading, next: nat, consumed: int)
    requires Domain(t, share, r, consumed)
    ensures var d := Observe(t.total, share, r, next, consumed);
      ObserveM(t.total, r.target, r.util, share, next, r.bucket, consumed)
        == if RoomWraps(r) then Overflow else Ok((d.share, d.drain))
  {
    if Oversupplied(t.total, share, r, consumed) {
      MulMono(consumed, SHARE_BOUND, r.target);
      MulMono(0, consumed, r.target);
    }
  }

  /** The wrap is reachable: 80 per cent target, full utilization, and a bucket at
      the largest 64-bit value. */
  lemma BacklogCanWrap()
    ensures Domain(Tuning(1000, 0, 64), 100, Reading(80, 100, INT64_MAX, false), 0)
    ensures ControlM(1000, 80, 100, 100, INT64_MAX, false, 0, 0, 64) == Overflow
  {
    ControlFits(Tuning(1000, 0, 64), 100, Reading(80, 100, INT64_MAX, false), 0);
  }

  /** So is the product: a pool just under 2^40 with share at its limit, against a
      reading of 145 that two engines of two processes can add up to. */
  lemma ErrorCanWrap()
    ensures var t, r := Tuning(POOL_BOUND - 1, 0, 64), Reading(10, 145, 0, false);
      && Domain(t, Limit(t.total), r, 0) && !BacklogWraps(Limit(t.total), r)
      && ControlM(t.total, 10, 145, Limit(t.total), 0, false, 0, 0, 64) == Overflow
  {
    ControlFits(Tuning(POOL_BOUND - 1, 0, 64), Limit(POOL_BOUND - 1), Reading(10, 145, 0, false), 0);
  }

  /** What keeps the products in range: an error that the headroom limit of the pool
      still has room for. On a pool under 2^40 that is any error up to 127, and so any
      reading in per cent against a target of -27 or more. */
  lemma PoolRulesOutWrap(t: Tuning, share: nat, r: Reading, most: nat)
    requires t.total < POOL_BOUND && share <= Limit(t.total) && r.util - r.target <= most <= INT32_MAX
    requires t.total * HEADROOM_POOLS * most <= INT64_MAX || most <= 127
    ensures !ErrorWraps(t, share, r)
  {
    if r.util > r.target {
      var raw := r.util - r.target;
      MulMono(share, t.total * HEADROOM_POOLS, raw);
      MulMono(raw, most, t.total * HEADROOM_POOLS);
      MulMono(t.total, t.total * HEADROOM_POOLS, raw);
      if most <= 127 {
        SmallErrorFits(t.total * HEADROOM_POOLS, raw);
      }
    }
  }

  /** A bucket the refill keeps under its own ceiling never wraps the step. */
  lemma CeilingRulesOutWrap(share: nat, r: Reading)
    requires share <= SHARE_BOUND && r.bucket <= BucketCeiling(share)
    ensures !BacklogWraps(share, r)
  {
  }

  // ------------------------------------------------------------- the bucket

  const LAUNCH_TOKENS_MAX := INT64_MAX / 4
  const DEBT_CYCLES := 100

  /** sm_delta_est_bucket_ceiling. */
  function BucketCeiling(share: nat): int {
    if share > INT64_MAX / 2 then INT64_MAX else Max(1, share * 2)
  }

  /** sm_delta_debt_floor. */
  function DebtFloor(share: nat, ceiling: int): int {
    var debt := if share > INT64_MAX / 2 / DEBT_CYCLES then INT64_MAX / 2 else share * DEBT_CYCLES;
    -Max(debt, ceiling)
  }

  /** The bucket holds two cycles of share, at least a token and at most what 64 bits do. */
  lemma CeilingLaw(share: nat)
    requires share <= INT64_MAX
    ensures BucketCeiling(share) == Max(1, Min(2 * share, INT64_MAX))
  {
  }

  /** A launch may overdraw it by a hundred cycles of share, while those take at most half
      the 64-bit range; then by that half, or by the ceiling if it is more. */
  lemma DebtLaw(share: nat)
    requires share <= INT64_MAX
    ensures DebtFloor(share, BucketCeiling(share)) ==
      if 100 * share <= INT64_MAX / 2 then -Max(1, 100 * share) else -Max(INT64_MAX / 2, Min(2 * share, INT64_MAX))
  {
  }

  /** Charging the dearest possible launch to the deepest possible debt stays in 64
      bits exactly while twice share leaves room for that launch. */
  lemma LaunchNeverWraps(share: nat)
    requires share <= INT64_MAX
    ensures DebtFloor(share, BucketCeiling(share)) - INT64_MAX / 4 >= INT64_MIN
      <==> 2 * share <= -INT64_MIN - INT64_MAX / 4
  {
  }

  /** sm_launch_tokens: the thread count of a launch, saturating. */
  function LaunchTokens(gx: nat, gy: nat, gz: nat, tx: nat, ty: nat, tz: nat): nat {
    var grid := Times(Times(gx, gy), gz);
    var rows := Times(grid, tx);
    var slices := Times(rows, ty);
    if grid > LAUNCH_TOKENS_MAX || rows > LAUNCH_TOKENS_MAX || slices > LAUNCH_TOKENS_MAX then LAUNCH_TOKENS_MAX
    else Min(Times(slices, tz), LAUNCH_TOKENS_MAX)
  }

  function Times(a: nat, b: nat): nat { a * b }

  /** The charge is the thread count capped at the maximum, unless a partial product
      saturates before a zero dimension is reached. */
  lemma LaunchTokensExact(gx: nat, gy: nat, gz: nat, tx: nat, ty: nat, tz: nat)
    ensures var grid := gx * gy * gz;
      LaunchTokens(gx, gy, gz, tx, ty, tz) == Min(grid * tx * ty * tz, INT64_MAX / 4)
      <==> grid * tx * ty * tz != 0 || Max(Max(grid, grid * tx), grid * tx * ty) <= INT64_MAX / 4
    ensures var grid := gx * gy * gz;
      LaunchTokens(gx, gy, gz, tx, ty, tz) in {Min(grid * tx * ty * tz, INT64_MAX / 4), INT64_MAX / 4}
  {
    var grid := Times(Times(gx, gy), gz);
    NonZeroGrows(grid, tx);
    NonZeroGrows(grid * tx, ty);
    NonZeroGrows(grid * tx * ty, tz);
  }

  /** With dimensions of 32 bits no partial product leaves 128. */
  lemma LaunchProductsFit(gx: nat, gy: nat, gz: nat, t: nat)
    requires gx < 0x1_0000_0000 && gy < 0x1_0000_0000 && gz < 0x1_0000_0000 && t < 0x1_0000_0000
    ensures gx * gy * gz <= INT128_MAX
    ensures forall part: nat :: part <= LAUNCH_TOKENS_MAX ==> part * t <= INT128_MAX
  {
    MulMono(gx, 0x1_0000_0000, gy);
    MulMono(gy, 0x1_0000_0000, 0x1_0000_0000);
    MulMono(gx * gy, 0x1_0000_0000 * 0x1_0000_0000, gz);
    forall part: nat | part <= LAUNCH_TOKENS_MAX ensures part * t <= INT128_MAX {
      MulMono(part, LAUNCH_TOKENS_MAX, t);
    }
  }

  lemma NonZeroGrows(a: nat, b: nat)
    ensures a * b != 0 ==> a != 0 && b != 0 && a * b >= a
  {
    if b >= 1 { MulMono(1, b, a); }
  }
}
