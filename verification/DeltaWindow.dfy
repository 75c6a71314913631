/** Which cycles a sample is paired with, in absolute time. The estimator keeps 32-bit
    stamps in a ring and walks it backwards; here the same cycles are a list of entries
    with unbounded times, and a window is a set of intervals on the same clock. */
module DeltaWindow {
  import opened Arith
  import opened DeltaStep
  import opened DeltaControl
  import opened DeltaEstimate
  import opened DeltaEstimateRuns
  import opened DeltaLaws

  const HALF := 0x8000_0000   // 2^31: stamps further apart than this read as reversed

  /** A watcher cycle: it covers the time since the entry before it. */
  datatype Entry = Entry(time: nat, consumed: nat, starved: bool)

  /** The ring holds `log`, oldest first: the last sixteen cycles, or all there were. */
  ghost predicate Keeps(e: Est, log: seq<Entry>) {
    && |e.ring| == 16
    && |log| == Min(16, e.head)
    && forall k :: 0 <= k < |log| ==>
      var r := e.ring[(e.head - |log| + k) % 16];
      r.at == log[k].time % 0x1_0000_0000 && r.consumed == log[k].consumed && r.starved == log[k].starved
  }

  /** Stamps of the log can be told apart around `from`. */
  ghost predicate Readable(log: seq<Entry>, from: int) {
    && (forall k :: 0 <= k < |log| ==> from - HALF <= log[k].time < from + HALF)
    && (forall k :: 0 < k < |log| ==> log[k - 1].time <= log[k].time < log[k - 1].time + HALF)
  }

  // ------------------------------------------------------------ the reference

  /** Length of what (a, b] and (lo, hi] have in common. */
  function Common(a: int, b: int, lo: int, hi: int): nat {
    Max(0, Min(b, hi) - Max(a, lo))
  }

  /** Thousandths of entry `k` that lie in (lo, hi]. */
  ghost function Inside(log: seq<Entry>, k: int, lo: int, hi: int): int
    requires 0 < k < |log|
  {
    var a, b := log[k - 1].time, log[k].time;
    if b <= a then 0 else 1000 * Common(a, b, lo, hi) / (b - a)
  }

  ghost function Plus(s: Sums, t: Sums): Sums {
    Sums(s.num + t.num, s.den + t.den, s.starvedNum + t.starvedNum, s.starvedDen + t.starvedDen,
         s.activeDen + t.activeDen)
  }

  /** What one entry contributes: to the mean; if it ran dry, to the starved mean too;
      and to active time unless it was idle with tokens left. */
  ghost function Part(x: Entry, w: int): Sums {
    Sums(x.consumed * w, w, if x.starved then x.consumed * w else 0, if x.starved then w else 0,
         if x.consumed == 0 && !x.starved then 0 else w)
  }

  /** The entries up to `k`, each weighted by how much of it lies in (lo, hi]. */
  ghost function Over(log: seq<Entry>, lo: int, hi: int, k: int): Sums
    requires k < |log|
    decreases k
  {
    if k <= 0 then NoSums else Plus(Over(log, lo, hi, k - 1), Part(log[k], Inside(log, k, lo, hi)))
  }

  /** The whole log over (lo, hi]. */
  ghost function Whole(log: seq<Entry>, lo: int, hi: int): Sums {
    Over(log, lo, hi, |log| - 1)
  }

  /** The spans of a sliding window from the `j`-th sample back to the `n`-th. */
  ghost function Spans(log: seq<Entry>, last: int, period: int, avg: int, j: int, n: int): Sums
    decreases n - j
  {
    if j >= n then NoSums
    else Plus(Whole(log, last - j * period - avg, last - j * period), Spans(log, last, period, avg, j + 1, n))
  }

  lemma KeepsSize(e: Est, log: seq<Entry>)
    requires Keeps(e, log)
    ensures |e.ring| == RING && |log| == Min(RING, e.head)
  {
  }

  lemma ReadableAt(log: seq<Entry>, from: int, k: int)
    requires Readable(log, from) && 0 < k < |log|
    ensures 0 <= log[k].time - log[k - 1].time < HALF
  {
  }

  // ------------------------------------------------------ stamps tell the time

  lemma WrapIs(x: int, d: int)
    requires (x - d) % WORD32 == 0 && -HALF <= d < HALF
    ensures Wrap32(x) == d
  {
    var q := (x - d) / WORD32;
    assert x == d + WORD32 * q;
    if d >= 0 {
      QuotientIs(x, WORD32, q);
    } else {
      QuotientIs(x, WORD32, q - 1);
    }
  }

  lemma StampIs(time: nat, from: int)
    requires from - HALF <= time < from + HALF
    ensures Wrap32(time % WORD32 - from) == time - from
  {
    var x, d := time % WORD32 - from, time - from;
    assert x - d == WORD32 * -(time / WORD32);
    assert (x - d) % WORD32 == 0 by { MultipleOf(-(time / WORD32)); }
    WrapIs(x, d);
  }

  lemma MultipleOf(q: int)
    ensures WORD32 * q % WORD32 == 0
  {
  }

  /** The walk sees record `i` back from the newest as entry |log| - 1 - i, its times
      relative to the start of the span. */
  lemma WalkSees(e: Est, log: seq<Entry>, from: int, i: nat)
    requires Keeps(e, log) && Readable(log, from) && i + 1 < |log|
    ensures var k := |log| - 1 - i;
      && RingAt(e, i + 1).consumed == log[k].consumed && RingAt(e, i + 1).starved == log[k].starved
      && End(e, from, i) == log[k].time - from && Start(e, from, i) == log[k - 1].time - from
  {
    hide Wrap32;
    var k := |log| - 1 - i;
    assert e.head - (i + 1) == e.head - |log| + k && e.head - (i + 2) == e.head - |log| + (k - 1);
    StampIs(log[k].time, from);
    StampIs(log[k - 1].time, from);
  }

  lemma WeightLaw(t0: int, t1: int, from: int, end: int)
    requires 0 <= t1 - t0 < HALF
    ensures Weight(t0 - from, t1 - from, end)
      == if t1 <= t0 then 0 else 1000 * Common(t0, t1, from, from + end) / (t1 - t0)
  {
    hide Wrap32;
    MultipleOf(0);
    WrapIs(t1 - from - (t0 - from), t1 - t0);
  }

  // ------------------------------------------------- the walk is the reference

  /** Entries that end by `lo` contribute nothing, so stopping there is sound. */
  lemma {:induction false} NothingBefore(log: seq<Entry>, from: int, lo: int, hi: int, k: int)
    requires Readable(log, from) && k < |log| && (k >= 0 ==> log[k].time <= lo)
    ensures Over(log, lo, hi, k) == NoSums
    decreases k
  {
    hide Inside, Part, Plus;
    if k > 0 {
      ReadableAt(log, from, k);
      NothingBefore(log, from, lo, hi, k - 1);
      NothingInside(log, k, lo, hi);
      PlusNone(NoSums);
    }
  }

  lemma NothingInside(log: seq<Entry>, k: int, lo: int, hi: int)
    requires 0 < k < |log| && log[k].time <= lo
    ensures Part(log[k], Inside(log, k, lo, hi)) == NoSums
  {
    assert Common(log[k - 1].time, log[k].time, lo, hi) == 0;
  }

  lemma PlusAdded(s: Sums, r: Record, x: Entry, w: int, t: Sums)
    requires r.consumed == x.consumed && r.starved == x.starved
    ensures Plus(Added(s, r, w), t) == Plus(s, Plus(t, Part(x, w)))
  {
  }

  lemma PlusNone(s: Sums)
    ensures Plus(s, NoSums) == s && Plus(NoSums, s) == s
  {
  }

  /** One span: the backward walk over wrapped stamps, stopping early, adds exactly what
      the log holds in (from, from + end]. */
  lemma {:induction false} SpanIsOver(e: Est, log: seq<Entry>, from: int, end: int, i: nat, s: Sums)
    requires Keeps(e, log) && Readable(log, from) && i <= |log|
    ensures SpanSums(e, from, end, i, s) == Plus(s, Over(log, from, from + end, |log| - 1 - i))
    decreases RING - i
  {
    hide Wrap32, Weight, Added, Keeps, Readable, Start, End, Plus, Part;
    var k := |log| - 1 - i;
    PlusNone(s);
    KeepsSize(e, log);
    if i + 1 < |log| {
      WalkSees(e, log, from, i);
      ReadableAt(log, from, k);
      if log[k].time <= from {
        NothingBefore(log, from, from, from + end, k);
      } else {
        WeightLaw(log[k - 1].time, log[k].time, from, end);
        var w, r := Inside(log, k, from, from + end), RingAt(e, i + 1);
        SpanIsOver(e, log, from, end, i + 1, Added(s, r, w));
        PlusAdded(s, r, log[k], w, Over(log, from, from + end, k - 1));
      }
    }
  }

  // ----------------------------------------------------------------- windows

  /** A reading that averages over one and a half sample periods or less is paired with
      the time since the window opened, (winTs, sampleTs]. */
  lemma DiscreteSums(e: Est, c: Input, log: seq<Entry>)
    requires Keeps(e, log) && Readable(log, e.winTs) && -HALF <= c.sampleTs - e.winTs < HALF
    requires e.period <= 0 || 2 * c.avgMs <= 3 * e.period
    ensures WindowSums(e, c, 0, NoSums) == Whole(log, e.winTs, c.sampleTs)
  {
    hide SpanSums, Wrap32, Over, Keeps, Readable;
    MultipleOf(0);
    WrapIs(c.sampleTs - e.winTs, c.sampleTs - e.winTs);
    KeepsSize(e, log);
    SpanIsOver(e, log, e.winTs, c.sampleTs - e.winTs, 0, NoSums);
    PlusNone(Whole(log, e.winTs, c.sampleTs));
    var s := Whole(log, e.winTs, c.sampleTs);
    assert SpanCount(e, c) == 1 && WindowSums(e, c, 1, s) == s;
  }

  /** A reading averaged over longer is paired, sample by sample of the window, with the
      time it averages over: for the nearest whole number of periods that the window
      spans, and at least one. */
  lemma SlidingSums(e: Est, c: Input, log: seq<Entry>, n: int)
    requires Keeps(e, log) && e.period > 0 && 2 * c.avgMs > 3 * e.period
    requires exists q :: Nearest(q, e.winMs, e.period) && n == Max(1, q)
    requires forall j :: 0 <= j < n ==> Readable(log, c.sampleTs - j * e.period - c.avgMs)
    ensures WindowSums(e, c, 0, NoSums) == Spans(log, c.sampleTs, e.period, c.avgMs, 0, n)
  {
    hide WindowSums, Readable, Keeps, Spans;
    var q :| Nearest(q, e.winMs, e.period) && n == Max(1, q);
    NearestIs(q, e.winMs, e.period);
    KeepsSize(e, log);
    SpansFrom(e, c, log, n, 0, NoSums);
    PlusNone(Spans(log, c.sampleTs, e.period, c.avgMs, 0, n));
  }

  lemma {:induction false} SpansFrom(e: Est, c: Input, log: seq<Entry>, n: int, j: nat, s: Sums)
    requires Keeps(e, log) && e.period > 0 && 2 * c.avgMs > 3 * e.period && |e.ring| == RING
    requires n == SpanCount(e, c) && j <= n
    requires forall i :: 0 <= i < n ==> Readable(log, c.sampleTs - i * e.period - c.avgMs)
    ensures WindowSums(e, c, j, s) == Plus(s, Spans(log, c.sampleTs, e.period, c.avgMs, j, n))
    decreases n - j
  {
    hide SpanSums, Wrap32, Over, Keeps, Readable, SpanCount, Plus;
    PlusNone(s);
    if j < n {
      var from := c.sampleTs - j * e.period - c.avgMs;
      var part := Whole(log, from, from + c.avgMs);
      SpanIsOver(e, log, from, c.avgMs, 0, s);
      SpansFrom(e, c, log, n, j + 1, Plus(s, part));
      PlusAssoc(s, part, Spans(log, c.sampleTs, e.period, c.avgMs, j + 1, n));
    }
  }

  lemma PlusAssoc(s: Sums, t: Sums, u: Sums)
    ensures Plus(Plus(s, t), u) == Plus(s, Plus(t, u))
  {
  }

  // -------------------------------------------------- windows of one consumption

  /** Every entry that reaches into (lo, hi] consumed `used`; the others, anything. */
  ghost predicate Used(log: seq<Entry>, lo: int, hi: int, used: nat) {
    forall k :: 0 < k < |log| && Common(log[k - 1].time, log[k].time, lo, hi) > 0 ==> log[k].consumed == used
  }

  /** Entry `k` has at least a thousandth of its length in (lo, hi]. */
  ghost predicate SeenAt(log: seq<Entry>, lo: int, hi: int, k: int) {
    && 0 < k < |log| && log[k - 1].time < log[k].time
    && 1000 * Common(log[k - 1].time, log[k].time, lo, hi) >= log[k].time - log[k - 1].time
  }

  /** Some entry has. */
  ghost predicate Seen(log: seq<Entry>, lo: int, hi: int) {
    exists k :: SeenAt(log, lo, hi, k)
  }

  lemma InsideBounds(log: seq<Entry>, k: int, lo: int, hi: int)
    requires 0 < k < |log|
    ensures 0 <= Inside(log, k, lo, hi)
    ensures Inside(log, k, lo, hi) > 0 ==> Common(log[k - 1].time, log[k].time, lo, hi) > 0
    ensures log[k - 1].time < log[k].time ==>
      (Inside(log, k, lo, hi) > 0 <==>
        1000 * Common(log[k - 1].time, log[k].time, lo, hi) >= log[k].time - log[k - 1].time)
  {
    var a, b := log[k - 1].time, log[k].time;
    if a < b {
      QuotientAtLeast(1000 * Common(a, b, lo, hi), b - a, 0);
      QuotientAtLeast(1000 * Common(a, b, lo, hi), b - a, 1);
    }
  }

  lemma PartWithin(s: Sums, x: Entry, w: int, used: nat)
    requires SumsWithin(s, used, used) && w >= 0 && (w > 0 ==> x.consumed == used)
    ensures SumsWithin(Plus(s, Part(x, w)), used, used)
  {
    AddedWithin(s, Record(0, x.consumed, x.starved), w, used, used);
    assert Plus(s, Part(x, w)) == Added(s, Record(0, x.consumed, x.starved), w);
  }

  lemma {:induction false} OverWithin(log: seq<Entry>, lo: int, hi: int, k: int, used: nat)
    requires k < |log| && Used(log, lo, hi, used)
    ensures SumsWithin(Over(log, lo, hi, k), used, used)
    decreases k
  {
    hide SumsWithin, Plus, Part, Inside;
    NoSumsWithin(used);
    if k > 0 {
      OverWithin(log, lo, hi, k - 1, used);
      InsideBounds(log, k, lo, hi);
      PartWithin(Over(log, lo, hi, k - 1), log[k], Inside(log, k, lo, hi), used);
    }
  }

  lemma PlusDen(s: Sums, x: Entry, w: int)
    ensures Plus(s, Part(x, w)).den == s.den + w
  {
  }

  lemma SeenInside(log: seq<Entry>, lo: int, hi: int, k: int)
    requires SeenAt(log, lo, hi, k)
    ensures Inside(log, k, lo, hi) > 0
  {
    InsideBounds(log, k, lo, hi);
  }

  lemma {:induction false} OverSeen(log: seq<Entry>, lo: int, hi: int, k: int, seen: int)
    requires k < |log|
    ensures Over(log, lo, hi, k).den >= 0
    ensures seen <= k && SeenAt(log, lo, hi, seen) ==> Over(log, lo, hi, k).den > 0
    decreases k
  {
    hide Inside, Plus, Part, SeenAt;
    if k > 0 {
      OverSeen(log, lo, hi, k - 1, seen);
      InsideBounds(log, k, lo, hi);
      PlusDen(Over(log, lo, hi, k - 1), log[k], Inside(log, k, lo, hi));
      if seen == k && SeenAt(log, lo, hi, seen) { SeenInside(log, lo, hi, k); }
    } else if seen <= k {
      NotSeen(log, lo, hi, seen);
    }
  }

  lemma NotSeen(log: seq<Entry>, lo: int, hi: int, k: int)
    requires k <= 0
    ensures !SeenAt(log, lo, hi, k)
  {
  }

  lemma SeenCounts(log: seq<Entry>, lo: int, hi: int)
    ensures Whole(log, lo, hi).den >= 0 && (Seen(log, lo, hi) ==> Whole(log, lo, hi).den > 0)
  {
    hide Over, SeenAt;
    if Seen(log, lo, hi) {
      var k :| SeenAt(log, lo, hi, k);
      SeenInLog(log, lo, hi, k);
      OverSeen(log, lo, hi, |log| - 1, k);
    } else {
      OverSeen(log, lo, hi, |log| - 1, 0);
    }
  }

  lemma SeenInLog(log: seq<Entry>, lo: int, hi: int, k: int)
    requires SeenAt(log, lo, hi, k)
    ensures k < |log|
  {
  }

  lemma PlusWithin(s: Sums, t: Sums, used: nat)
    requires SumsWithin(s, used, used) && SumsWithin(t, used, used)
    ensures SumsWithin(Plus(s, t), used, used)
  {
    OneRate(used, s.num, s.den, t.num, t.den);
    OneRate(used, s.starvedNum, s.starvedDen, t.starvedNum, t.starvedDen);
  }

  lemma OneRate(used: int, n1: int, d1: int, n2: int, d2: int)
    requires used * d1 <= n1 <= used * d1 && used * d2 <= n2 <= used * d2
    ensures used * (d1 + d2) <= n1 + n2 <= used * (d1 + d2)
  {
    assert used * (d1 + d2) == used * d1 + used * d2;
  }

  /** The same over the spans of a sliding window, the first of which is seen. */
  lemma {:induction false} SpansWithin(log: seq<Entry>, last: int, period: int, avg: int, j: int, n: int, used: nat)
    requires forall i :: j <= i < n ==> Used(log, last - i * period - avg, last - i * period, used)
    ensures SumsWithin(Spans(log, last, period, avg, j, n), used, used)
    ensures j < n && Seen(log, last - j * period - avg, last - j * period)
      ==> Spans(log, last, period, avg, j, n).den > 0
    decreases n - j
  {
    hide SumsWithin, Used, Over;
    NoSumsWithin(used);
    if j < n {
      var lo, hi := last - j * period - avg, last - j * period;
      OverWithin(log, lo, hi, |log| - 1, used);
      SeenCounts(log, lo, hi);
      SpansWithin(log, last, period, avg, j + 1, n, used);
      PlusWithin(Whole(log, lo, hi), Spans(log, last, period, avg, j + 1, n), used);
      DenAtLeast(Spans(log, last, period, avg, j + 1, n), used);
    }
  }

  lemma DenAtLeast(s: Sums, used: nat)
    requires SumsWithin(s, used, used)
    ensures s.den >= 0
  {
  }

  // ------------------------------------------------------------- what is sized

  /** A window whose sums are those of one consumption is answered by used * target /
      reading, to the nearest token, within the limit. */
  lemma OneConsumption(e: Est, c: Input, share: nat, used: nat, m: int, x: int)
    requires |e.ring| == RING && SumsWithin(WindowSums(e, c, 0, NoSums), used, used) && used > 0
    requires WindowSums(e, c, 0, NoSums).den > 0
    requires Largest(m, e.winReading, e.winMs) && m >= 1 && 1 <= c.reading.target < 100
    requires Nearest(x, used * c.reading.target, m)
    ensures var (e', d) := WindowClosed(e, c, share);
      && d.share == Min(x, Min(65536 * c.tuning.total, INT64_MAX))
      && d.drain == (c.reading.bucket > d.share)
      && e'.winTs == c.sampleTs && e'.winMs == 0 && e'.winReading == 0 && e'.haveEst && e'.refConsumed == used
  {
    var s := WindowSums(e, c, 0, NoSums);
    LargestIs(m, e.winReading, e.winMs);
    LimitLaw(c.tuning.total);
    UniformEstimate(c.reading.target, m, s, used);
    UniformMean(s, used);
    NearestTarget(used, c.reading.target, m, x);
    hide WindowSums, SumsWithin, Estimated, Mean, Rounded, BetweenSamples, Limit;
  }

  lemma NearestTarget(used: nat, target: nat, m: int, x: int)
    requires m >= 1 && Nearest(x, used * target, m)
    ensures Rounded(used * target, m) == x >= 0
  {
    NearestIs(x, used * target, m);
    MulMono(0, target, used);
    QuotientAtLeast(used * target + m / 2, m, 0);
  }

  /** A discrete window: if every cycle that reaches into (winTs, sampleTs] consumed
      `used`, whatever the others did, share is what holds the target at the reading. */
  lemma DiscreteWindow(e: Est, c: Input, log: seq<Entry>, share: nat, used: nat, m: int, x: int)
    requires Keeps(e, log) && Readable(log, e.winTs) && -HALF <= c.sampleTs - e.winTs < HALF
    requires e.period <= 0 || 2 * c.avgMs <= 3 * e.period
    requires Used(log, e.winTs, c.sampleTs, used) && Seen(log, e.winTs, c.sampleTs) && used > 0
    requires Largest(m, e.winReading, e.winMs) && m >= 1 && 1 <= c.reading.target < 100
    requires Nearest(x, used * c.reading.target, m)
    ensures var (e', d) := WindowClosed(e, c, share);
      && d.share == Min(x, Min(65536 * c.tuning.total, INT64_MAX))
      && d.drain == (c.reading.bucket > d.share)
      && e'.winTs == c.sampleTs && e'.winMs == 0 && e'.winReading == 0 && e'.haveEst && e'.refConsumed == used
  {
    hide WindowSums, SumsWithin, Keeps, Readable, Used, Seen, WindowClosed, Over;
    KeepsSize(e, log);
    DiscreteSums(e, c, log);
    OverWithin(log, e.winTs, c.sampleTs, |log| - 1, used);
    SeenCounts(log, e.winTs, c.sampleTs);
    OneConsumption(e, c, share, used, m, x);
  }

  /** A sliding window: the same with the spans its samples average over. */
  lemma SlidingWindow(e: Est, c: Input, log: seq<Entry>, n: int, share: nat, used: nat, m: int, x: int)
    requires Keeps(e, log) && e.period > 0 && 2 * c.avgMs > 3 * e.period
    requires exists q :: Nearest(q, e.winMs, e.period) && n == Max(1, q)
    requires forall j :: 0 <= j < n ==>
      var hi := c.sampleTs - j * e.period; Readable(log, hi - c.avgMs) && Used(log, hi - c.avgMs, hi, used)
    requires Seen(log, c.sampleTs - c.avgMs, c.sampleTs) && used > 0
    requires Largest(m, e.winReading, e.winMs) && m >= 1 && 1 <= c.reading.target < 100
    requires Nearest(x, used * c.reading.target, m)
    ensures var (e', d) := WindowClosed(e, c, share);
      && d.share == Min(x, Min(65536 * c.tuning.total, INT64_MAX))
      && d.drain == (c.reading.bucket > d.share)
      && e'.winTs == c.sampleTs && e'.winMs == 0 && e'.winReading == 0 && e'.haveEst && e'.refConsumed == used
  {
    hide WindowSums, SumsWithin, Keeps, Readable, Used, Seen, WindowClosed, Spans;
    KeepsSize(e, log);
    SlidingSums(e, c, log, n);
    assert c.sampleTs - 0 * e.period - c.avgMs == c.sampleTs - c.avgMs && c.sampleTs - 0 * e.period == c.sampleTs;
    SpansWithin(log, c.sampleTs, e.period, c.avgMs, 0, n, used);
    OneConsumption(e, c, share, used, m, x);
  }
}
