/** sm_delta_isqrt: the bit-by-bit integer square root, exact on 64 bits. */
module IntegerRoot {
  import opened Arith

  ghost predicate IsRoot(n: nat, r: nat) {
    r * r <= n < (r + 1) * (r + 1)
  }

  /** The integer square root, counted up one number at a time. */
  function Isqrt(n: nat): (r: nat)
    ensures IsRoot(n, r)
  {
    if n == 0 then 0
    else
      var r := Isqrt(n - 1);
      if (r + 1) * (r + 1) <= n then r + 1 else r
  }

  lemma RootUnique(n: nat, a: nat, b: nat)
    requires IsRoot(n, a) && IsRoot(n, b)
    ensures a == b
  {
    if a < b {
      SquareMono(a + 1, b);
    } else if b < a {
      SquareMono(b + 1, a);
    }
  }

  lemma RootIs(n: nat, r: nat)
    requires IsRoot(n, r)
    ensures Isqrt(n) == r
  {
    RootUnique(n, r, Isqrt(n));
  }

  newtype u64 = x: int | 0 <= x < 0x1_0000_0000_0000_0000

  /** The bit the loop tries next, when the remaining ones weigh less than 2^k. */
  function BitAt(k: nat): nat { if k == 0 then 0 else Pow2(k - 1) * Pow2(k - 1) }

  lemma BitAtQuarters(k: nat)
    requires BitAt(k) > 0
    ensures k > 0 && BitAt(k) == Pow2(k - 1) * Pow2(k - 1) && BitAt(k) / 4 == BitAt(k - 1)
  {
    if k >= 2 {
      var h := Pow2(k - 2);
      assert Pow2(k - 1) * Pow2(k - 1) == 4 * (h * h);
    }
  }

  lemma BitAtTop()
    ensures BitAt(32) == 0x4000_0000_0000_0000 && Pow2(32) == 0x1_0000_0000
  {
    Pow2Values();
  }

  /** Where the bit-by-bit loop stands: `p` is the root found so far and what is
      left to add to it weighs less than 2^k. */
  ghost predicate RootLoop(start: nat, n: int, r: int, bit: int, p: nat, k: nat) {
    && p * p <= start < (p + Pow2(k)) * (p + Pow2(k))
    && p + Pow2(k) <= 0x1_0000_0000
    && n == start - p * p
    && r == p * Pow2(k)
    && bit == BitAt(k)
  }

  lemma RootLoopStarts(start: nat, k: nat)
    requires k <= 32 && start < Pow2(k) * Pow2(k)
    ensures RootLoop(start, start, 0, BitAt(k), 0, k)
  {
    BitAtTop();
    Pow2Grows(k, 32);
  }

  lemma RootLoopStep(start: nat, n: int, r: int, bit: int, p: nat, k: nat)
    requires RootLoop(start, n, r, bit, p, k) && bit > 0
    ensures k > 0 && 0 <= r + bit < 0x1_0000_0000_0000_0000
    ensures n >= r + bit ==> RootLoop(start, n - (r + bit), r / 2 + bit, bit / 4, p + Pow2(k - 1), k - 1)
    ensures n < r + bit ==> RootLoop(start, n, r / 2, bit / 4, p, k - 1)
  {
    BitAtQuarters(k);
    RootArith(start, n, r, p, Pow2(k - 1));
  }

  lemma RootArith(start: nat, n: int, r: int, p: nat, h: nat)
    requires h >= 1 && p + 2 * h <= 0x1_0000_0000 && n == start - p * p && r == p * (2 * h)
    ensures 0 <= r + h * h < 0x1_0000_0000_0000_0000 && r / 2 == p * h
    ensures n >= r + h * h <==> (p + h) * (p + h) <= start
    ensures n - (r + h * h) == start - (p + h) * (p + h) && r / 2 + h * h == (p + h) * h
  {
    assert (p + h) * (p + h) == p * p + (p * (2 * h) + h * h);
    assert p * (2 * h) == 2 * (p * h);
    assert (p + h) * h == p * h + h * h;
    SquareMono(p + h, 0xFFFF_FFFF);
  }

  lemma RootLoopEnds(start: nat, n: int, r: int, p: nat, k: nat)
    requires RootLoop(start, n, r, 0, p, k)
    ensures r == Isqrt(start)
  {
    if k > 0 {
      SquareMono(1, Pow2(k - 1));
    } else {
      RootUnique(start, p, Isqrt(start));
    }
  }

  /** sm_delta_isqrt: exact for every 64-bit value. That every intermediate is a
      u64 is what rules out wrap-around. */
  method IsqrtBits(n0: u64) returns (root: u64)
    ensures root as int == Isqrt(n0 as int)
  {
    hide BitAt, Pow2, RootLoop, IsRoot, Isqrt;
    var n, r, bit: u64 := n0, 0, 0x4000_0000_0000_0000;
    ghost var k: nat := 32;
    BitAtTop();
    while bit > n
      invariant 0 <= k <= 32 && bit as int == BitAt(k) && n as int < Pow2(k) * Pow2(k)
      decreases k
    {
      BitAtQuarters(k);
      k := k - 1;
      bit := bit / 4;
    }
    RootLoopStarts(n0 as int, k);
    ghost var p: nat := 0;
    while bit != 0
      invariant RootLoop(n0 as int, n as int, r as int, bit as int, p, k)
      decreases k
    {
      RootLoopStep(n0 as int, n as int, r as int, bit as int, p, k);
      if n >= r + bit {
        n := n - (r + bit);
        r := r / 2 + bit;
        p := p + Pow2(k - 1);
      } else {
        r := r / 2;
      }
      bit := bit / 4;
      k := k - 1;
    }
    RootLoopEnds(n0 as int, n as int, r as int, p, k);
    root := r;
  }
}
