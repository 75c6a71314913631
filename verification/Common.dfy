/** Types and facts shared by several components. */
module Common {

  datatype Option<+T> = None | Some(value: T)

  const WORD_LIMIT := 0x1_0000_0000_0000_0000

  /** A 64-bit machine word. */
  type Word = x: int | 0 <= x < WORD_LIMIT

  /** Position of the first `c`, or the length. */
  function IndexOf(s: string, c: char): (n: nat)
    ensures n <= |s| && (n < |s| ==> s[n] == c) && forall i :: 0 <= i < n ==> s[i] != c
  {
    if s == "" || s[0] == c then 0 else 1 + IndexOf(s[1..], c)
  }

  lemma MinusOne<K, V>(m: map<K, V>, k: K)
    requires k in m
    ensures |m - {k}| == |m| - 1
  {
    assert (m - {k}).Keys == m.Keys - {k};
    assert |m| == |m.Keys| && |m - {k}| == |(m - {k}).Keys|;
  }

  lemma SubmapSize<K, V>(a: map<K, V>, b: map<K, V>)
    requires a.Keys <= b.Keys
    ensures |a| <= |b|
  {
    assert b.Keys == a.Keys + (b.Keys - a.Keys);
    assert |a| == |a.Keys| && |b| == |b.Keys|;
  }

  // ------------------------------------------------ sweeping a map by predicate

  /** The entries a sweep leaves. */
  ghost function Kept<K, V>(m: map<K, V>, retire: (K, V) -> bool): map<K, V> {
    map k | k in m && !retire(k, m[k]) :: m[k]
  }

  /** A sweep under way: only entries it selects have gone. */
  ghost predicate Thinned<K, V>(before: map<K, V>, after: map<K, V>, retire: (K, V) -> bool) {
    && after.Keys <= before.Keys
    && (forall k :: k in after ==> after[k] == before[k])
    && (forall k :: k in before && k !in after ==> retire(k, before[k]))
  }

  lemma ThinnedNot<K, V>(m: map<K, V>, retire: (K, V) -> bool)
    ensures Thinned(m, m, retire)
  {
  }

  lemma ThinnedBy<K, V>(before: map<K, V>, after: map<K, V>, retire: (K, V) -> bool, k: K)
    requires Thinned(before, after, retire) && k in after && retire(k, after[k])
    ensures Thinned(before, after - {k}, retire)
  {
  }

  /** A sweep is over when nothing it selects is left. */
  lemma ThinnedFully<K, V>(before: map<K, V>, after: map<K, V>, retire: (K, V) -> bool)
    requires Thinned(before, after, retire) && forall k :: k in after ==> !retire(k, after[k])
    ensures after == Kept(before, retire)
  {
  }
}
