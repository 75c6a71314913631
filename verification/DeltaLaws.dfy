/** What a delta cycle computes, said without its own subroutines: every quotient is
    given by the two inequalities that fix it, every constant by its value. */
module DeltaLaws {
  import opened Arith
  import opened IntegerRoot
  import opened DeltaStep
  import opened DeltaControl

  /** `k` is the largest number with k * d <= n. */
  ghost predicate Largest(k: int, n: int, d: int) {
    d > 0 && k * d <= n < k * d + d
  }

  lemma LargestIs(k: int, n: int, d: int)
    requires Largest(k, n, d)
    ensures n / d == k
  {
    QuotientIs(n, d, k);
  }

  /** Always there is one. */
  lemma LargestExists(n: int, d: int) returns (k: int)
    requires d > 0
    ensures Largest(k, n, d)
  {
    k := n / d;
    assert d * (n / d) + n % d == n;
  }

  /** `q` is the whole number nearest to n / d, the larger of two. */
  ghost predicate Nearest(q: int, n: int, d: int) {
    d > 0 && -d <= 2 * (n - d * q) < d
  }

  lemma NearestIs(q: int, n: int, d: int)
    requires Nearest(q, n, d)
    ensures (n + d / 2) / d == q
  {
    QuotientIs(n + d / 2, d, q);
  }

  /** A divisor of 0 or less stands for 1310720. */
  ghost predicate SeedIs(seed: int, t: Tuning) {
    exists k :: Largest(k, 5 * t.total, if t.incDivisor <= 0 then 1310720 else t.incDivisor) && seed == Max(1, k)
  }

  lemma SeedLaw(t: Tuning, seed: int)
    requires SeedIs(seed, t)
    ensures Seed(t) == seed
  {
    var d := if t.incDivisor <= 0 then 1310720 else t.incDivisor;
    var k :| Largest(k, 5 * t.total, d) && seed == Max(1, k);
    LargestIs(k, 5 * t.total, d);
  }

  /** The target a ratio divides by. */
  function Positive(target: int): int { if target >= 1 then target else 1 }

  lemma ProportionalLaw(share: nat, err: nat, damp: int, target: int, k: int)
    requires damp > 0 && Largest(k, share * err, damp * Positive(target))
    ensures Proportional(share, err, damp, target) == k
  {
    LargestIs(k, share * err, damp * Positive(target));
  }

  // -------------------------------------------------------------------- growth

  /** A first-cycles jump: to the 6400th of pool times target, at most a 64th of the
      pool, and only from below it. */
  ghost predicate JumpIs(jump: int, t: Tuning, target: int) {
    exists k, m :: Largest(k, t.total * Positive(target), 6400) && Largest(m, t.total, 64) && jump == Min(k, m)
  }

  lemma BootLaw(t: Tuning, cap: int, share: nat, r: Reading, jump: int)
    requires r.boot && r.util <= r.target < 100 && JumpIs(jump, t, r.target) && share < jump
    ensures Step(t, cap, share, r) == jump
  {
    JumpLaw(t, r.target, jump);
  }

  lemma JumpLaw(t: Tuning, target: int, jump: int)
    requires JumpIs(jump, t, target)
    ensures Jump(t, target) == jump
  {
    var k, m :| Largest(k, t.total * Positive(target), 6400) && Largest(m, t.total, 64) && jump == Min(k, m);
    LargestIs(k, t.total * Positive(target), 6400);
    LargestIs(m, t.total, 64);
  }

  /** A grow adds the share of the error, a sixth of it or off a dry bucket a quarter,
      but at least the seed; off a dry bucket at a zero reading at least the root of
      twice seed times share; and never more than a tenth of the larger of pool and
      share, nor past the cap. */
  lemma GrowLaw(t: Tuning, cap: int, share: nat, r: Reading, k: int, seed: int, root: nat, tenth: int, jump: int)
    requires r.util <= r.target < 100
    requires r.boot ==> JumpIs(jump, t, r.target) && share >= jump
    requires Largest(k, share * (r.target - r.util), (if r.bucket <= 0 then 4 else 6) * Positive(r.target))
    requires SeedIs(seed, t) && Largest(tenth, Max(share, t.total), 10)
    requires root * root <= Min(2 * seed * share, INT64_MAX) < (root + 1) * (root + 1)
    ensures Step(t, cap, share, r)
      == Min(cap, share + Min(Max(Max(k, seed), if r.util == 0 && r.bucket <= 0 then root else 0), tenth))
  {
    hide Proportional, Isqrt, Seed, Jump, SeedIs, JumpIs;
    if r.boot { JumpLaw(t, r.target, jump); }
    SeedLaw(t, seed);
    ProportionalLaw(share, r.target - r.util, if r.bucket <= 0 then 4 else 6, r.target, k);
    LargestIs(tenth, Max(share, t.total), 10);
    RootIs(Min(2 * seed * share, INT64_MAX), root);
  }

  // ---------------------------------------------------------------------- cuts

  /** Beyond twice the target, by five points at least. */
  ghost predicate FarOver(r: Reading) {
    r.util > 2 * r.target && r.util - r.target >= 5
  }

  /** A blowout cuts the share of the error, a sixth of it, but at least the seed and
      with a ramp at least its part of the pool, and never more than the cap. */
  lemma BlowoutLaw(t: Tuning, cap: int, share: nat, r: Reading, k: int, seed: int, ramp: int)
    requires r.target < 100 && r.util > r.target && FarOver(r)
    requires Largest(k, share * (r.util - r.target), 6 * Positive(r.target)) && SeedIs(seed, t)
    requires if t.rampDivisor > 0 then Largest(ramp, t.total * (r.util - r.target), Positive(r.target) * t.rampDivisor)
             else ramp == 0
    ensures Step(t, cap, share, r) == Max(0, share - Min(Max(Max(k, seed), ramp), cap))
  {
    hide Proportional, Seed, SeedIs;
    SeedLaw(t, seed);
    ProportionalLaw(share, r.util - r.target, 6, r.target, k);
    if t.rampDivisor > 0 {
      LargestIs(ramp, t.total * (r.util - r.target), Positive(r.target) * t.rampDivisor);
    }
  }

  /** A mild cut scales that part by how much of the overshoot share explains against
      the backlog, or by the error in per cent, whichever is more; it takes one token
      if both vanish and the backlog is below share. */
  lemma MildLaw(t: Tuning, cap: int, share: nat, r: Reading, k: int, byCause: int, byError: int)
    requires r.target < 100 && r.util > r.target && !FarOver(r)
    requires Largest(k, share * (r.util - r.target), 6 * Positive(r.target))
    requires Largest(byCause, k * share, share + Max(0, r.bucket) + 1) && Largest(byError, k * (r.util - r.target), 100)
    ensures Step(t, cap, share, r)
      == Max(0, share - if Max(byCause, byError) < 1 && Max(0, r.bucket) < share then 1 else Max(byCause, byError))
  {
    hide Proportional;
    ProportionalLaw(share, r.util - r.target, 6, r.target, k);
    LargestIs(byCause, k * share, share + Max(0, r.bucket) + 1);
    LargestIs(byError, k * (r.util - r.target), 100);
  }

  /** A target of 100 is no limit: share goes to the cap. */
  lemma FullLaw(t: Tuning, cap: int, share: nat, r: Reading)
    requires r.target >= 100
    ensures Step(t, cap, share, r) == cap
  {
  }

  // ------------------------------------------------------------------ headroom

  /** 65536 pools, or the largest 64-bit value. */
  lemma LimitLaw(total: nat)
    ensures Limit(total) == Min(65536 * total, INT64_MAX)
  {
  }

  /** The cap is the largest of pool, share and twice the consumption, within the limit
      -- one token more at the saturated limit and half of it consumed. */
  lemma CapLaw(total: nat, share: nat, consumed: int)
    requires total <= INT64_MAX && share <= Min(65536 * total, INT64_MAX)
    ensures ShareCap(total, share, consumed) ==
      if INT64_MAX / 65536 < total <= INT64_MAX - 2 && consumed == INT64_MAX / 2 then INT64_MAX
      else Max(Max(total, share), Min(2 * consumed, Min(65536 * total, INT64_MAX)))
  {
  }

  // -------------------------------------------------------------- observed cut

  /** The gates of the observed cut: a target below 100, a hundred tokens consumed, ten
      points over the target (above 90 all that is left, but five at least), less
      consumed than supplied, and a bucket of more than eight shares, or past the pool
      fifteen tenths. */
  ghost predicate Surplus(total: nat, share: nat, r: Reading, consumed: int) {
    && 1 <= r.target <= 99
    && 100 <= consumed < share
    && r.util >= r.target + (if r.target <= 90 then 10 else if r.target <= 95 then 100 - r.target else 5)
    && (share <= total ==> r.bucket > 8 * share)
    && (share > total ==> forall tenth :: Largest(tenth, share, 10) ==> r.bucket > 15 * tenth)
  }

  lemma SurplusLaw(total: nat, share: nat, r: Reading, consumed: int)
    ensures Oversupplied(total, share, r, consumed) <==> Surplus(total, share, r, consumed)
  {
    var tenth := LargestExists(share, 10);
    LargestIs(tenth, share, 10);
    assert forall k {:trigger Largest(k, share, 10)} :: Largest(k, share, 10) ==> k == tenth;
  }

  /** The bucket is drained exactly then, and share becomes the largest one that at the
      measured rate would not have passed the target, or the step's own result if that
      is smaller. */
  lemma ObserveLaw(t: Tuning, share: nat, r: Reading, consumed: int, k: int)
    requires Surplus(t.total, share, r, consumed) ==> Largest(k, consumed * r.target, r.util)
    ensures var d := Control(t, share, r, consumed);
      var step := Step(t, ShareCap(t.total, share, consumed), share, r);
      && (d.drain <==> Surplus(t.total, share, r, consumed))
      && d.share == if d.drain then Min(step, k) else step
  {
    hide Step, ShareCap, Oversupplied, Surplus;
    SurplusLaw(t.total, share, r, consumed);
    if Surplus(t.total, share, r, consumed) {
      LargestIs(k, consumed * r.target, r.util);
    }
  }

  /** So an observed cut is no deeper than the rate just measured asks for. */
  lemma ObservedCutExact(t: Tuning, share: nat, r: Reading, consumed: int)
    requires Control(t, share, r, consumed).drain
    ensures var next := Control(t, share, r, consumed).share;
      && next * r.util <= consumed * r.target
      && (next == Step(t, ShareCap(t.total, share, consumed), share, r)
          || (next + 1) * r.util > consumed * r.target)
  {
    hide Step, ShareCap;
    var k := LargestExists(consumed * r.target, r.util);
    ObserveLaw(t, share, r, consumed, k);
    ObservedCut(t, share, r, consumed);
  }
}
