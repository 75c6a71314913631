/** The cells of an open-addressing table, as values: the probe discipline that
    linear probing relies on, and the lemmas that placing a record and shifting
    cells back into a hole keep it.

    The hash is a parameter `home`, so everything here holds for every hash. */
module SlotCells {
  import opened Common

  datatype Key = Key(key: Word, key2: Word)

  /** One cell: the header and the rest of the record. A zero key marks it empty. */
  datatype Cell<V> = Cell(key: Word, key2: Word, value: V)

  predicate Used<V>(c: Cell<V>) { c.key != 0 }

  function KeyOf<V>(c: Cell<V>): Key { Key(c.key, c.key2) }

  /** Steps from `a` to `b` around a ring of `n` cells: `(b - a) & mask`. */
  function Dist(n: nat, a: nat, b: nat): (d: nat)
    requires a < n && b < n
    ensures d < n
  {
    if a <= b then b - a else b + n - a
  }

  function Next(n: nat, i: nat): (j: nat)
    requires i < n
    ensures j < n
  {
    if i + 1 == n then 0 else i + 1
  }

  ghost predicate HomeInRange(n: nat, home: Key -> nat) {
    forall k :: home(k) < n
  }

  /** `p` is examined before `i` by a probe that starts at `h`. */
  ghost predicate Passes(n: nat, h: nat, p: nat, i: nat)
    requires h < n && p < n && i < n
  {
    Dist(n, h, p) < Dist(n, h, i)
  }

  /** Every record is reached from its home with no empty cell in between. */
  ghost predicate Probed<V>(s: seq<Cell<V>>, home: Key -> nat)
    requires HomeInRange(|s|, home)
  {
    forall i, p :: 0 <= i < |s| && 0 <= p < |s| && Used(s[i]) && Passes(|s|, home(KeyOf(s[i])), p, i) ==> Used(s[p])
  }

  ghost predicate UniqueKeys<V>(s: seq<Cell<V>>) {
    forall i, j :: 0 <= i < |s| && 0 <= j < |s| && Used(s[i]) && Used(s[j]) && KeyOf(s[i]) == KeyOf(s[j]) ==> i == j
  }

  ghost predicate Holds<V>(s: seq<Cell<V>>, k: Key) {
    exists i :: 0 <= i < |s| && Used(s[i]) && KeyOf(s[i]) == k
  }

  /** The used cells are exactly the entries of `m`. */
  ghost predicate Represents<V>(s: seq<Cell<V>>, m: map<Key, V>) {
    && (forall i :: 0 <= i < |s| && Used(s[i]) ==> KeyOf(s[i]) in m && m[KeyOf(s[i])] == s[i].value)
    && (forall k :: k in m ==> Holds(s, k))
  }

  ghost function UsedSet<V>(s: seq<Cell<V>>): set<int> {
    set i | 0 <= i < |s| && Used(s[i])
  }

  ghost predicate Blank<V>(s: seq<Cell<V>>, zero: V) {
    forall i :: 0 <= i < |s| && !Used(s[i]) ==> s[i] == Cell(0, 0, zero)
  }

  /** The cells hold the records of `m`, once each, and nothing else. */
  ghost predicate Consistent<V>(s: seq<Cell<V>>, zero: V, m: map<Key, V>) {
    UniqueKeys(s) && Represents(s, m) && Blank(s, zero)
  }

  ghost predicate LaidOut<V>(s: seq<Cell<V>>, home: Key -> nat, zero: V, m: map<Key, V>) {
    HomeInRange(|s|, home) && Probed(s, home) && Consistent(s, zero, m)
  }

  /** The invariant of an allocated table: one cell always stays empty. */
  ghost predicate WellFormed<V>(s: seq<Cell<V>>, home: Key -> nat, zero: V, m: map<Key, V>) {
    LaidOut(s, home, zero, m) && |m| < |s|
  }

  // ---------------------------------------------------------------- counting

  ghost function KeysAt<V>(s: seq<Cell<V>>, at: set<int>): set<Key>
    requires forall i :: i in at ==> 0 <= i < |s|
  {
    set i | i in at :: KeyOf(s[i])
  }

  lemma {:induction false} KeysAtSize<V>(s: seq<Cell<V>>, at: set<int>)
    requires UniqueKeys(s) && at <= UsedSet(s)
    ensures |KeysAt(s, at)| == |at|
  {
    if at == {} {
      assert KeysAt(s, at) == {};
    } else {
      var i :| i in at;
      KeysAtSize(s, at - {i});
      assert KeysAt(s, at) == KeysAt(s, at - {i}) + {KeyOf(s[i])};
    }
  }

  /** `count` counts records: as many used cells as entries in the abstract map. */
  lemma UsedSetSize<V>(s: seq<Cell<V>>, m: map<Key, V>)
    requires UniqueKeys(s) && Represents(s, m)
    ensures |UsedSet(s)| == |m|
  {
    KeysAtSize(s, UsedSet(s));
    forall k | k in m ensures k in KeysAt(s, UsedSet(s)) {
      assert Holds(s, k);
    }
    assert KeysAt(s, UsedSet(s)) == m.Keys;
  }

  lemma {:induction false} AllUsedSize<V>(s: seq<Cell<V>>)
    requires forall i :: 0 <= i < |s| ==> Used(s[i])
    ensures |UsedSet(s)| == |s|
  {
    if s == [] {
      assert UsedSet(s) == {};
    } else {
      var t := s[..|s| - 1];
      AllUsedSize(t);
      assert UsedSet(s) == UsedSet(t) + {|t|};
    }
  }

  /** Fewer records than cells leaves an empty cell: it is what ends a probe, and,
      during a removal, the second empty cell that ends the shift. */
  lemma EmptyCellExists<V>(s: seq<Cell<V>>, zero: V, m: map<Key, V>) returns (e: nat)
    requires Consistent(s, zero, m) && |m| < |s|
    ensures e < |s| && !Used(s[e])
  {
    UsedSetSize(s, m);
    if forall i :: 0 <= i < |s| ==> Used(s[i]) {
      AllUsedSize(s);
      assert false;
    }
    e :| 0 <= e < |s| && !Used(s[e]);
  }

  // ------------------------------------------------------------------ lookup

  lemma UsedIsStored<V>(s: seq<Cell<V>>, zero: V, m: map<Key, V>, i: nat)
    requires Consistent(s, zero, m) && i < |s| && Used(s[i])
    ensures KeyOf(s[i]) in m && m[KeyOf(s[i])] == s[i].value && KeyOf(s[i]).key != 0
  {
  }

  lemma StoredIsUsed<V>(s: seq<Cell<V>>, zero: V, m: map<Key, V>, k: Key) returns (i: nat)
    requires Consistent(s, zero, m) && k in m
    ensures i < |s| && Used(s[i]) && KeyOf(s[i]) == k && s[i].value == m[k]
  {
    assert Holds(s, k);
    i :| 0 <= i < |s| && Used(s[i]) && KeyOf(s[i]) == k;
  }

  /** Reaching an empty cell settles a lookup: the key is nowhere in the table. */
  lemma ProbeMiss<V>(s: seq<Cell<V>>, home: Key -> nat, zero: V, m: map<Key, V>, k: Key, i: nat)
    requires LaidOut(s, home, zero, m)
    requires i < |s| && !Used(s[i])
    requires forall p :: 0 <= p < |s| && Passes(|s|, home(k), p, i) ==> Used(s[p]) && KeyOf(s[p]) != k
    ensures k !in m
  {
    if k in m { var _ := StoredIsUsed(s, zero, m, k); }
  }

  lemma NoRecords<V>(s: seq<Cell<V>>, zero: V)
    requires forall i :: 0 <= i < |s| ==> s[i] == Cell(0, 0, zero)
    ensures Consistent(s, zero, map[])
  {
  }

  lemma NothingPlaced<V>(s: seq<Cell<V>>, home: Key -> nat, zero: V)
    requires HomeInRange(|s|, home) && forall i :: 0 <= i < |s| ==> s[i] == Cell(0, 0, zero)
    ensures LaidOut(s, home, zero, map[])
  {
  }

  /** Placing a new record in the first empty cell of its probe keeps the invariant. */
  lemma PlaceKeeps<V>(s: seq<Cell<V>>, home: Key -> nat, zero: V, m: map<Key, V>, i: nat, c: Cell<V>)
    requires LaidOut(s, home, zero, m)
    requires Used(c) && KeyOf(c) !in m
    requires i < |s| && !Used(s[i])
    requires forall p :: 0 <= p < |s| && Passes(|s|, home(KeyOf(c)), p, i) ==> Used(s[p])
    ensures LaidOut(s[i := c], home, zero, m[KeyOf(c) := c.value])
  {
    var t, m' := s[i := c], m[KeyOf(c) := c.value];
    forall k | k in m' ensures Holds(t, k) {
      if k == KeyOf(c) {
        assert Used(t[i]);
      } else {
        var j := StoredIsUsed(s, zero, m, k);
        assert t[j] == s[j];
      }
    }
  }

  /** Overwriting a payload changes that entry alone. */
  lemma StoreKeeps<V>(s: seq<Cell<V>>, zero: V, m: map<Key, V>, i: nat, v: V)
    requires Consistent(s, zero, m) && i < |s| && Used(s[i])
    ensures Consistent(s[i := s[i].(value := v)], zero, m[KeyOf(s[i]) := v])
    ensures |m[KeyOf(s[i]) := v]| == |m|
  {
    hide Holds, UniqueKeys, Blank;
    StoreKeepsKeys(s, zero, i, v);
    var t, m' := s[i := s[i].(value := v)], m[KeyOf(s[i]) := v];
    assert KeyOf(s[i]) in m by { UsedIsStored(s, zero, m, i); }
    assert m'.Keys == m.Keys;
    assert |m'| == |m'.Keys| && |m| == |m.Keys|;
    forall j | 0 <= j < |t| && Used(t[j]) ensures KeyOf(t[j]) in m' && m'[KeyOf(t[j])] == t[j].value {
      UsedIsStored(s, zero, m, j);
      if j != i { OneCell(s, i, j); }
    }
    forall k | k in m' ensures Holds(t, k) {
      var j := StoredIsUsed(s, zero, m, k);
      HeldAt(t, k, j);
    }
  }

  lemma StoreKeepsKeys<V>(s: seq<Cell<V>>, zero: V, i: nat, v: V)
    requires UniqueKeys(s) && Blank(s, zero) && i < |s| && Used(s[i])
    ensures UniqueKeys(s[i := s[i].(value := v)]) && Blank(s[i := s[i].(value := v)], zero)
  {
  }

  lemma OneCell<V>(s: seq<Cell<V>>, i: nat, j: nat)
    requires UniqueKeys(s) && i < |s| && j < |s| && i != j && Used(s[i]) && Used(s[j])
    ensures KeyOf(s[i]) != KeyOf(s[j])
  {
  }

  lemma HeldAt<V>(s: seq<Cell<V>>, k: Key, i: nat)
    requires i < |s| && Used(s[i]) && KeyOf(s[i]) == k
    ensures Holds(s, k)
  {
  }

  lemma StoreKeepsProbes<V>(s: seq<Cell<V>>, home: Key -> nat, i: nat, v: V)
    requires HomeInRange(|s|, home) && Probed(s, home) && i < |s|
    ensures Probed(s[i := s[i].(value := v)], home)
  {
  }

  // ---------------------------------------------------------------- removal

  /** Between steps of a removal: `hole` is empty, every cell from it up to the
      scan position `j` is used and its probe no longer passes the hole; a record
      at or past `j` may still have the hole, and no other empty cell, in its probe. */
  ghost predicate Shifting<V>(s: seq<Cell<V>>, home: Key -> nat, hole: nat, j: nat)
  {
    && HomeInRange(|s|, home)
    && hole < |s| && j < |s| && hole != j
    && !Used(s[hole])
    && (forall p :: 0 <= p < |s| && p != hole && Passes(|s|, hole, p, j) ==> Used(s[p]))
    && (forall i, p :: 0 <= i < |s| && 0 <= p < |s| && Used(s[i])
          && Passes(|s|, home(KeyOf(s[i])), p, i) && !Used(s[p])
          ==> p == hole && !Passes(|s|, hole, i, j))
  }

  lemma ShiftingBounds<V>(s: seq<Cell<V>>, home: Key -> nat, hole: nat, j: nat)
    requires Shifting(s, home, hole, j)
    ensures HomeInRange(|s|, home) && hole < |s| && j < |s| && hole != j && !Used(s[hole])
  {
  }

  lemma ShiftingStarts<V>(s: seq<Cell<V>>, home: Key -> nat, zero: V, m: map<Key, V>, i: nat)
    requires WellFormed(s, home, zero, m) && i < |s| && Used(s[i]) && |s| > 1
    ensures var t := s[i := Cell(0, 0, zero)];
      Shifting(t, home, i, Next(|s|, i)) && Consistent(t, zero, m - {KeyOf(s[i])})
  {
    var t := s[i := Cell(0, 0, zero)];
    forall k | k in m - {KeyOf(s[i])} ensures Holds(t, k) {
      var j := StoredIsUsed(s, zero, m, k);
      assert t[j] == s[j];
    }
  }

  /** The record at `j` keeps its place when its home lies past the hole. */
  lemma ShiftingSkips<V>(s: seq<Cell<V>>, home: Key -> nat, hole: nat, j: nat)
    requires Shifting(s, home, hole, j) && Used(s[j])
    requires Dist(|s|, home(KeyOf(s[j])), j) < Dist(|s|, hole, j)
    requires Next(|s|, j) != hole
    ensures Shifting(s, home, hole, Next(|s|, j))
  {
  }

  /** Moving the record at `j` into the hole opens the hole at `j` instead. */
  lemma ShiftingMoves<V>(s: seq<Cell<V>>, home: Key -> nat, zero: V, hole: nat, j: nat)
    requires Shifting(s, home, hole, j) && Used(s[j])
    requires Dist(|s|, home(KeyOf(s[j])), j) >= Dist(|s|, hole, j)
    ensures Shifting(s[hole := s[j]][j := Cell(0, 0, zero)], home, j, Next(|s|, j))
  {
  }

  /** ... and loses, changes or duplicates no record. */
  lemma MoveKeepsRecords<V>(s: seq<Cell<V>>, zero: V, m: map<Key, V>, hole: nat, j: nat)
    requires hole < |s| && j < |s| && hole != j && !Used(s[hole]) && Used(s[j])
    requires Consistent(s, zero, m)
    ensures Consistent(s[hole := s[j]][j := Cell(0, 0, zero)], zero, m)
  {
    var t := s[hole := s[j]][j := Cell(0, 0, zero)];
    forall k | k in m ensures Holds(t, k) {
      var i := StoredIsUsed(s, zero, m, k);
      if i == j { assert t[hole] == s[i]; } else { assert t[i] == s[i]; }
    }
  }

  /** An empty cell at the scan position ends the removal with no probe broken. */
  lemma ShiftingEnds<V>(s: seq<Cell<V>>, home: Key -> nat, hole: nat, j: nat)
    requires Shifting(s, home, hole, j) && !Used(s[j])
    ensures Probed(s, home)
  {
  }
}
