/** Integer facts the verifier does not find on its own. */
module Arith {

  function Max(a: int, b: int): (r: int)
    ensures r >= a && r >= b && (r == a || r == b)
  {
    if a < b then b else a
  }

  function Min(a: int, b: int): (r: int)
    ensures r <= a && r <= b && (r == a || r == b)
  {
    if a < b then a else b
  }

  function Abs(x: int): nat { if x < 0 then -x else x }

  lemma MulMono(a: int, b: int, k: int)
    requires a <= b && k >= 0
    ensures a * k <= b * k && k * a <= k * b
  {
  }

  lemma SquareMono(a: nat, b: nat)
    requires a <= b
    ensures a * a <= b * b
  {
    MulMono(a, b, a);
    MulMono(a, b, b);
  }

  lemma Magnitude(n: int, d: int)
    requires n > 0
    ensures d >= 1 ==> n * d >= n
    ensures d <= -1 ==> n * d <= -n
  {
  }

  /** `x / n` is the only quotient that leaves a remainder below `n`. */
  lemma QuotientIs(x: int, n: int, q: int)
    requires n > 0 && n * q <= x < n * q + n
    ensures x / n == q
  {
    assert n * (x / n - q) == x - x % n - n * q;
    Magnitude(n, x / n - q);
  }

  lemma QuotientOfMultiple(x: int, q: int, n: int)
    requires n > 0 && x == q * n
    ensures x / n == q
  {
    QuotientIs(x, n, q);
  }

  /** A quotient is at least `q` exactly when the dividend is at least `n * q`. */
  lemma QuotientAtLeast(x: int, n: int, q: int)
    requires n > 0
    ensures x / n >= q <==> x >= n * q
  {
    assert n * (x / n - q) == x - x % n - n * q;
    Magnitude(n, x / n - q);
    Magnitude(n, q - x / n);
  }

  lemma QuotientMono(x: int, y: int, n: int)
    requires n > 0 && x <= y
    ensures x / n <= y / n
  {
    QuotientAtLeast(y, n, x / n);
    QuotientAtLeast(x, n, x / n);
  }

  /** A larger divisor gives no larger a quotient. */
  lemma QuotientAntitone(x: int, m: int, n: int)
    requires x >= 0 && 0 < m <= n
    ensures x / n <= x / m
  {
    QuotientAtLeast(x, n, 0);
    QuotientAtLeast(x, n, x / n);
    QuotientAtLeast(x, m, x / n);
    MulMono(m, n, x / n);
  }

  lemma QuotientNonNegative(x: int, n: int)
    requires x >= 0 && n > 0
    ensures 0 <= x / n <= x
  {
    QuotientAtLeast(x, n, 0);
    QuotientAntitone(x, 1, n);
  }

  /** A fraction a/n of p is at most p. */
  lemma FractionAtMost(p: int, a: int, n: int)
    requires p >= 0 && 0 <= a <= n && n > 0
    ensures 0 <= p * a / n <= p
  {
    MulMono(0, p, a);
    MulMono(a, n, p);
    QuotientAtLeast(p * a, n, 0);
    QuotientMono(p * a, p * n, n);
    QuotientOfMultiple(p * n, p, n);
  }

  function Pow2(e: nat): (r: nat)
    ensures r >= 1
  {
    if e == 0 then 1 else 2 * Pow2(e - 1)
  }

  lemma {:induction false} Pow2Adds(a: nat, b: nat)
    ensures Pow2(a) * Pow2(b) == Pow2(a + b)
  {
    if a > 0 {
      Pow2Adds(a - 1, b);
      assert Pow2(a) * Pow2(b) == 2 * (Pow2(a - 1) * Pow2(b));
    }
  }

  lemma {:induction false} Pow2Grows(a: nat, b: nat)
    requires a <= b
    ensures Pow2(a) <= Pow2(b)
  {
    if a < b { Pow2Grows(a, b - 1); }
  }

  lemma Pow2Square(e: nat, v: nat)
    requires Pow2(e) == v
    ensures Pow2(2 * e) == v * v
  {
    Pow2Adds(e, e);
  }

  lemma Pow2Values()
    ensures Pow2(31) == 0x8000_0000 && Pow2(32) == 0x1_0000_0000 && Pow2(64) == 0x1_0000_0000_0000_0000
  {
    assert Pow2(1) == 2 && Pow2(32) == 2 * Pow2(31);
    hide Pow2;
    Pow2Square(1, 2);
    Pow2Square(2, 4);
    Pow2Square(4, 16);
    Pow2Square(8, 256);
    Pow2Square(16, 65536);
    Pow2Square(32, 0x1_0000_0000);
  }
}
