/** The shipped hash of the slot table: Fibonacci hashing keeping the high bits. */
module SlotHash {
  import opened Arith
  import opened Common
  import opened SlotCells

  ghost predicate IsPow2(n: nat) {
    exists e: nat :: n == Pow2(e)
  }

  lemma DoubleIsPow2(n: nat)
    requires IsPow2(n)
    ensures IsPow2(2 * n)
  {
    var e: nat :| n == Pow2(e);
    assert 2 * n == Pow2(e + 1);
  }

  /** How a table hashes: the first cell a key is looked for, per capacity. */
  type Hash = (nat, Key) -> nat

  function HomeOf(hash: Hash, capacity: nat): Key -> nat {
    k => hash(capacity, k)
  }

  /** All the table asks of its hash. */
  ghost predicate InRange(hash: Hash) {
    forall capacity: nat :: IsPow2(capacity) && 2 <= capacity <= WORD_LIMIT ==>
      HomeInRange(capacity, HomeOf(hash, capacity))
  }

  function Xor(a: nat, b: nat): (r: nat) {
    if a == 0 && b == 0 then 0 else 2 * Xor(a / 2, b / 2) + (a + b) % 2
  }

  /** Both products wrap at 64 bits. */
  function Mix(k: Key): (r: Word) {
    Xor(k.key, k.key2 * 0xC2B2AE3D27D4EB4F % WORD_LIMIT) * 0x9E3779B97F4A7C15 % WORD_LIMIT
  }

  /** The top bits: a shift right by 64 - log2(capacity) is a division by 2^64 / capacity. */
  function TopBits(mixed: Word, unit: nat): nat {
    if unit == 0 then 0 else mixed / unit
  }

  function Home(capacity: nat, k: Key): nat {
    if capacity == 0 then 0 else TopBits(Mix(k), WORD_LIMIT / capacity)
  }

  /** A power of two no larger than 2^64 divides it. */
  lemma WordSplits(n: nat)
    requires IsPow2(n) && n <= WORD_LIMIT
    ensures WORD_LIMIT / n > 0 && WORD_LIMIT / n * n == WORD_LIMIT
  {
    var e: nat :| n == Pow2(e);
    Pow2Values();
    if e > 64 {
      Pow2Grows(65, e);
    } else {
      Pow2Adds(64 - e, e);
      QuotientOfMultiple(WORD_LIMIT, Pow2(64 - e), n);
    }
  }

  lemma TopBitsBelow(mixed: Word, unit: nat, n: nat)
    requires unit > 0 && unit * n == WORD_LIMIT
    ensures TopBits(mixed, unit) < n
  {
    var t := mixed / unit;
    assert unit * t <= mixed;
    assert t >= n ==> unit * t >= unit * n;
  }

  /** The shipped hash stays inside every table. */
  lemma HomeInsideTable()
    ensures InRange(Home)
  {
    forall capacity: nat | IsPow2(capacity) && 2 <= capacity <= WORD_LIMIT
      ensures HomeInRange(capacity, HomeOf(Home, capacity))
    {
      WordSplits(capacity);
      forall k ensures HomeOf(Home, capacity)(k) < capacity {
        assert HomeOf(Home, capacity)(k) == Home(capacity, k);
        TopBitsBelow(Mix(k), WORD_LIMIT / capacity, capacity);
      }
    }
  }
}
