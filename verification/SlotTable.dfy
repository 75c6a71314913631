/** The growable handle -> record table of library/include/slot_table.h, in place
    on an array of cells, proved to refine a finite map. */
module SlotTable {
  import opened Common
  import opened SlotCells
  import opened SlotHash

  // ---------------------------------------------------------- specification

  /** What a table holds, and how many cells it has. */
  datatype View<V> = View(contents: map<Key, V>, capacity: nat)

  datatype Config = Config(initial: nat, max: nat)

  /** Doubling, refused past the maximum or when the allocation fails. */
  function Grown(cfg: Config, capacity: nat, allocates: bool): nat {
    var wanted := if capacity == 0 then cfg.initial else 2 * capacity;
    if wanted > cfg.max || !allocates then capacity else wanted
  }

  function RoomFor<V>(cfg: Config, t: View<V>, allocates: bool): nat {
    if (|t.contents| + 1) * 10 > t.capacity * 7 then Grown(cfg, t.capacity, allocates) else t.capacity
  }

  /** Insert-if-absent: a new record is zero-filled, and is refused only when the
      table, grown if it could be, is one cell short of full. */
  function Inserted<V>(cfg: Config, zero: V, t: View<V>, k: Key, allocates: bool): View<V> {
    if k.key == 0 || k in t.contents then t
    else
      var capacity := RoomFor(cfg, t, allocates);
      if |t.contents| + 1 >= capacity then t.(capacity := capacity)
      else View(t.contents[k := zero], capacity)
  }

  /** Growth is the only thing an insert can lack: a key stays out exactly when it
      was out, growth was needed and refused, and one empty cell was left. */
  lemma RefusedOnlyWhenFull<V>(cfg: Config, zero: V, t: View<V>, k: Key, allocates: bool)
    requires k.key != 0 && cfg.initial >= 2
    requires if t.capacity == 0 then t.contents == map[] else |t.contents| < t.capacity && t.capacity >= 2
    ensures k !in Inserted(cfg, zero, t, k, allocates).contents <==>
      && k !in t.contents
      && |t.contents| + 1 >= t.capacity
      && (!allocates || (if t.capacity == 0 then cfg.initial else 2 * t.capacity) > cfg.max)
  {
  }

  /** Exactly what an insert does: the cells double, or are first allocated, if and only
      if the key is new, would take the load past 70 per cent, and the doubling is within
      the maximum and gets its memory; the key comes in, zero-filled, if and only if it
      is new and a cell then stays empty beside it. Nothing else changes. */
  lemma InsertLaw<V>(cfg: Config, zero: V, t: View<V>, k: Key, allocates: bool)
    ensures var u, n := Inserted(cfg, zero, t, k, allocates), |t.contents|;
      var wanted := if t.capacity == 0 then cfg.initial else 2 * t.capacity;
      && u.capacity == (if k.key != 0 && k !in t.contents && 10 * (n + 1) > 7 * t.capacity && allocates
                           && wanted <= cfg.max then wanted else t.capacity)
      && u.contents == (if k.key != 0 && k !in t.contents && n + 1 < u.capacity then t.contents[k := zero]
                        else t.contents)
  {
  }

  /** While growth is never refused the load stays at or below 70 per cent. */
  lemma LoadStaysLow<V>(cfg: Config, zero: V, t: View<V>, k: Key)
    requires cfg.initial >= 2 && t.capacity != 1 && |t.contents| * 10 <= t.capacity * 7
    requires (if t.capacity == 0 then cfg.initial else 2 * t.capacity) <= cfg.max
    ensures var u := Inserted(cfg, zero, t, k, true);
      |u.contents| * 10 <= u.capacity * 7 && (k.key != 0 ==> k in u.contents)
  {
    if k !in t.contents {
      assert t.contents[k := zero].Keys == t.contents.Keys + {k};
      assert |t.contents[k := zero]| == |t.contents| + 1;
    }
  }

  // ---- what a sweep has done so far

  ghost predicate Declined<V>(s: seq<Cell<V>>, retire: (Key, V) -> bool) {
    forall q :: 0 <= q < |s| && Used(s[q]) ==> !retire(KeyOf(s[q]), s[q].value)
  }

  lemma DeclinedNone<V>(retire: (Key, V) -> bool)
    ensures Declined<V>([], retire)
  {
  }

  lemma StillDeclined<V>(s: seq<Cell<V>>, t: seq<Cell<V>>, retire: (Key, V) -> bool)
    requires Declined(s, retire) && forall q :: 0 <= q < |t| && Used(t[q]) ==> t[q] in s
    ensures Declined(t, retire)
  {
  }

  lemma DeclinedNext<V>(s: seq<Cell<V>>, retire: (Key, V) -> bool, i: nat)
    requires i < |s| && Declined(s[..i], retire)
    requires Used(s[i]) ==> !retire(KeyOf(s[i]), s[i].value)
    ensures Declined(s[..i + 1], retire)
  {
    assert s[..i + 1] == s[..i] + [s[i]];
  }

  lemma SweepDone<V>(before: map<Key, V>, after: map<Key, V>, s: seq<Cell<V>>, zero: V, retire: (Key, V) -> bool)
    requires Thinned(before, after, retire) && Declined(s, retire)
    requires if s == [] then after == map[] else Consistent(s, zero, after)
    ensures after == Kept(before, retire)
  {
    forall k | k in after ensures !retire(k, after[k]) {
      var _ := StoredIsUsed(s, zero, after, k);
    }
    ThinnedFully(before, after, retire);
  }

  // ----------------------------------------------------------------- helpers

  /** First empty cell of a probe that starts at `start`. */
  method FirstEmpty<V>(cells: array<Cell<V>>, start: nat, ghost e: nat) returns (i: nat)
    requires start < cells.Length && e < cells.Length && !Used(cells[e])
    ensures i < cells.Length && !Used(cells[i])
    ensures forall p :: 0 <= p < cells.Length && Passes(cells.Length, start, p, i) ==> Used(cells[p])
  {
    i := start;
    while Used(cells[i])
      invariant i < cells.Length
      invariant Dist(cells.Length, start, i) <= Dist(cells.Length, start, e)
      invariant forall p :: 0 <= p < cells.Length && Passes(cells.Length, start, p, i) ==> Used(cells[p])
      decreases Dist(cells.Length, start, e) - Dist(cells.Length, start, i)
    {
      i := Next(cells.Length, i);
    }
  }

  /** The cell a probe for `k` stops at: the one holding it, or the first empty one. */
  method Lookup<V>(cells: array<Cell<V>>, start: nat, k: Key, ghost e: nat) returns (i: nat)
    requires start < cells.Length && e < cells.Length && !Used(cells[e])
    ensures i < cells.Length && (Used(cells[i]) ==> KeyOf(cells[i]) == k)
    ensures forall p :: 0 <= p < cells.Length && Passes(cells.Length, start, p, i) ==>
      Used(cells[p]) && KeyOf(cells[p]) != k
  {
    i := start;
    while Used(cells[i]) && KeyOf(cells[i]) != k
      invariant i < cells.Length
      invariant Dist(cells.Length, start, i) <= Dist(cells.Length, start, e)
      invariant forall p :: 0 <= p < cells.Length && Passes(cells.Length, start, p, i) ==>
        Used(cells[p]) && KeyOf(cells[p]) != k
      decreases Dist(cells.Length, start, e) - Dist(cells.Length, start, i)
    {
      i := Next(cells.Length, i);
    }
  }

  /** The records `v` has below `i` were below `i` in `s`. */
  ghost predicate Below<V>(v: seq<Cell<V>>, s: seq<Cell<V>>, i: nat) {
    |v| == |s| && i < |s| && forall q :: 0 <= q < i && Used(v[q]) ==> v[q] in s[..i]
  }

  lemma BelowIs<V>(v: seq<Cell<V>>, s: seq<Cell<V>>, i: nat)
    requires Below(v, s, i)
    ensures |v| == |s| && i < |s| && forall q :: 0 <= q < i && Used(v[q]) ==> v[q] in s[..i]
  {
  }

  lemma BelowStarts<V>(s: seq<Cell<V>>, i: nat, blank: Cell<V>)
    requires i < |s|
    ensures Below(s[i := blank], s, i)
  {
    assert forall q :: 0 <= q < i ==> s[i := blank][q] == s[..i][q];
  }

  /** A move never carries a record from `i` or above to below it: the scan meets the
      cells in cyclic order from `i`, so the hole is behind it. */
  lemma BelowMoves<V>(v: seq<Cell<V>>, s: seq<Cell<V>>, i: nat, hole: nat, j: nat, blank: Cell<V>)
    requires Below(v, s, i) && hole < |v| && j < |v| && !Used(blank)
    requires Dist(|v|, i, hole) < Dist(|v|, i, j)
    ensures Below(v[hole := v[j]][j := blank], s, i)
  {
  }

  /** Scanning on from `i`, a step brings the end one nearer and stays short of it. */
  lemma NextDist(n: nat, i: nat, j: nat, e: nat)
    requires i < n && j < n && e < n && Dist(n, i, j) < Dist(n, i, e)
    ensures Dist(n, i, Next(n, j)) == Dist(n, i, j) + 1 <= Dist(n, i, e)
  {
  }

  lemma DistApart(n: nat, i: nat, j: nat)
    requires i < n && j < n
    ensures Dist(n, i, i) == 0 && (i != j ==> Dist(n, i, j) > 0)
  {
  }

  lemma DistSame(n: nat, i: nat, j: nat, e: nat)
    requires i < n && j < n && e < n && Dist(n, i, j) == Dist(n, i, e)
    ensures j == e
  {
  }

  /** Close the hole at `i` by pulling later records of the run into it, each leaving a
      new hole behind, until an empty cell ends the run; the last hole is zeroed.
      Positions below `i` only ever receive records from below `i`. */
  method ShiftBack<V>(cells: array<Cell<V>>, home: Key -> nat, zero: V, i: nat, ghost m: map<Key, V>, ghost e: nat)
    requires i < cells.Length && e < cells.Length && e != i && !Used(cells[e])
    requires var t := cells[..][i := Cell(0, 0, zero)];
      Shifting(t, home, i, Next(|t|, i)) && Consistent(t, zero, m)
    modifies cells
    ensures LaidOut(cells[..], home, zero, m)
    ensures forall q :: 0 <= q < i && Used(cells[q]) ==> cells[q] in old(cells[..i])
  {
    hide Consistent, Probed, Shifting, Below, Next, Dist;
    var n, blank := cells.Length, Cell(0, 0, zero);
    ghost var s, v := cells[..], cells[..][i := blank];
    var hole: nat, j: nat := i, Next(n, i);
    ShiftingBounds(v, home, hole, j);
    BelowStarts(s, i, blank);
    DistApart(n, i, e);
    NextDist(n, i, i, e);
    while Used(cells[j])
      invariant hole < n && j < n
      invariant |v| == n && v == cells[..][hole := blank]
      invariant Shifting(v, home, hole, j) && Consistent(v, zero, m)
      invariant !Used(v[e]) && e != hole && Dist(n, i, hole) < Dist(n, i, j) <= Dist(n, i, e)
      invariant Below(v, s, i)
      decreases Dist(n, i, e) - Dist(n, i, j)
    {
      assert cells[j] == v[j] && j != e;
      if Dist(n, i, j) == Dist(n, i, e) { DistSame(n, i, j, e); }
      NextDist(n, i, j, e);
      ShiftingBounds(v, home, hole, j);
      if Dist(n, home(KeyOf(cells[j])), j) >= Dist(n, hole, j) {
        ShiftingMoves(v, home, zero, hole, j);
        MoveKeepsRecords(v, zero, m, hole, j);
        BelowMoves(v, s, i, hole, j, blank);
        ghost var moved := v[hole := v[j]][j := blank];
        cells[hole] := cells[j];
        assert moved == cells[..][j := blank];
        v, hole := moved, j;
      } else {
        ShiftingSkips(v, home, hole, j);
      }
      j := Next(n, j);
    }
    ShiftingBounds(v, home, hole, j);
    ShiftingEnds(v, home, hole, j);
    cells[hole] := blank;
    assert cells[..] == v;
    BelowIs(v, s, i);
  }

  class Table<V(==)> {
    var cells: array<Cell<V>>
    var capacity: nat
    var count: nat
    const zero: V
    const cfg: Config
    const hash: Hash
    ghost var contents: map<Key, V>

    ghost predicate Valid()
      reads this, cells
    {
      && InRange(hash)
      && IsPow2(cfg.initial) && IsPow2(cfg.max) && 2 <= cfg.initial && cfg.max <= 0x1000_0000_0000_0000
      && cells.Length == capacity
      && count == |contents|
      && (capacity == 0 ==> contents == map[])
      && (capacity > 0 ==>
            && IsPow2(capacity) && 2 <= capacity <= WORD_LIMIT
            && WellFormed(cells[..], HomeOf(hash, capacity), zero, contents))
    }

    ghost function Abstract(): View<V>
      reads this
    {
      View(contents, capacity)
    }

    /** Valid and empty, with no cells as yet. */
    constructor (initial: nat, max: nat, zero: V, hash: Hash)
      requires InRange(hash)
      requires IsPow2(initial) && IsPow2(max) && 2 <= initial && max <= 0x1000_0000_0000_0000
      ensures Valid() && fresh(cells)
      ensures Abstract() == View(map[], 0) && cfg == Config(initial, max) && this.zero == zero && this.hash == hash
    {
      cells := new Cell<V>[0];
      capacity, count := 0, 0;
      this.zero := zero;
      this.hash := hash;
      cfg := Config(initial, max);
      contents := map[];
    }

    /** Index of the record for `k`: lookup in the abstract map. */
    method Find(k: Key) returns (r: Option<nat>)
      requires Valid()
      ensures r.Some? <==> k in contents
      ensures r.Some? ==> r.value < capacity && Used(cells[r.value]) && KeyOf(cells[r.value]) == k
      ensures r.Some? ==> cells[r.value].value == contents[k]
    {
      if capacity == 0 || k.key == 0 {
        if k in contents { var _ := StoredIsUsed(cells[..], zero, contents, k); }
        return None;
      }
      hide Probed, Consistent, InRange, IsPow2;
      ghost var s := cells[..];
      ghost var e := EmptyCellExists(s, zero, contents);
      var start := hash(capacity, k);
      assert start == HomeOf(hash, capacity)(k) < capacity;
      var i := Lookup(cells, start, k, e);
      if Used(cells[i]) {
        UsedIsStored(s, zero, contents, i);
        return Some(i);
      }
      ProbeMiss(s, HomeOf(hash, capacity), zero, contents, k, i);
      return None;
    }

    /** Double the cells and rehash every record; refused growth changes nothing. */
    method Grow(allocates: bool) returns (grew: bool)
      requires Valid()
      modifies this`cells, this`capacity
      ensures Valid() && (cells == old(cells) || fresh(cells))
      ensures Abstract() == old(Abstract()).(capacity := Grown(cfg, old(capacity), allocates))
      ensures grew <==> capacity != old(capacity)
      ensures !grew ==> cells == old(cells)
    {
      var wanted := if capacity == 0 then cfg.initial else capacity * 2;
      if wanted > cfg.max || !allocates {
        return false;
      }
      assert IsPow2(wanted) by {
        if capacity > 0 { DoubleIsPow2(capacity); }
      }
      var next := Rehash(wanted);
      cells := next;
      capacity := wanted;
      grew := true;
    }

    /** The same records laid out afresh in `wanted` zeroed cells. */
    method Rehash(wanted: nat) returns (next: array<Cell<V>>)
      requires Valid() && IsPow2(wanted) && capacity < wanted
      requires HomeInRange(wanted, HomeOf(hash, wanted))
      ensures fresh(next) && next.Length == wanted
      ensures WellFormed(next[..], HomeOf(hash, wanted), zero, contents)
    {
      hide Probed, Consistent, InRange, IsPow2;
      var blank := Cell(0, 0, zero);
      next := new Cell<V>[wanted](_ => blank);
      ghost var placed: map<Key, V> := map[];
      ghost var s := cells[..];
      NothingPlaced(next[..], HomeOf(hash, wanted), zero);
      NoRecords(s[..0], zero);
      var i := 0;
      while i < capacity
        invariant i <= capacity && cells[..] == s
        invariant LaidOut(next[..], HomeOf(hash, wanted), zero, placed)
        invariant Consistent(s[..i], zero, placed)
      {
        var c := cells[i];
        assert s[..i + 1] == s[..i] + [c];
        if Used(c) {
          PrefixStep(s, zero, contents, placed, i);
          ghost var e := EmptyCellExists(next[..], zero, placed);
          assert HomeOf(hash, wanted)(KeyOf(c)) == hash(wanted, KeyOf(c));
          var j := FirstEmpty(next, hash(wanted, KeyOf(c)), e);
          PlaceKeeps(next[..], HomeOf(hash, wanted), zero, placed, j, c);
          ghost var before := next[..];
          next[j] := c;
          assert next[..] == before[j := c];
          placed := placed[KeyOf(c) := c.value];
        } else {
          BlankWhenUnused(s, zero, contents, i);
          PrefixSkip(s, zero, placed, i);
        }
        i := i + 1;
      }
      assert s[..i] == s;
      SameMap(s, zero, placed, contents);
    }

    /** The record for `k`, created zero-filled if absent; None when there is no room. */
    method Insert(k: Key, allocates: bool) returns (r: Option<nat>, created: bool)
      requires Valid()
      modifies this, cells
      ensures Valid() && (cells == old(cells) || fresh(cells))
      ensures Abstract() == Inserted(cfg, zero, old(Abstract()), k, allocates)
      ensures r.Some? <==> k in contents
      ensures r.Some? ==> r.value < capacity && Used(cells[r.value]) && KeyOf(cells[r.value]) == k
                          && cells[r.value].value == contents[k]
      ensures created <==> k in contents && k !in old(contents)
    {
      hide Probed, Consistent, InRange, IsPow2;
      created := false;
      r := Find(k);
      if k.key == 0 || r.Some? {
        return;
      }
      if (count + 1) * 10 > capacity * 7 {
        var _ := Grow(allocates);
      }
      if count + 1 >= capacity {
        return;
      }
      var i := Place(k);
      return Some(i), true;
    }

    /** Write the key of a new record into the first empty cell of its probe. */
    method Place(k: Key) returns (i: nat)
      requires Valid() && k.key != 0 && k !in contents && count + 1 < capacity
      modifies cells, this`count, this`contents
      ensures Valid() && Abstract() == old(View(contents[k := zero], capacity))
      ensures i < capacity && Used(cells[i]) && KeyOf(cells[i]) == k && cells[i].value == zero
    {
      hide Probed, Consistent, InRange, IsPow2;
      ghost var s := cells[..];
      ghost var e := EmptyCellExists(s, zero, contents);
      assert HomeOf(hash, capacity)(k) == hash(capacity, k);
      i := FirstEmpty(cells, hash(capacity, k), e);
      ghost var c := Cell(k.key, k.key2, zero);
      PlaceKeeps(s, HomeOf(hash, capacity), zero, contents, i, c);
      BlankWhenUnused(s, zero, contents, i);
      cells[i] := cells[i].(key := k.key, key2 := k.key2);
      assert cells[..] == s[i := c];
      contents := contents[k := zero];
      count := count + 1;
    }

    /** Overwrite the payload of a record a lookup returned. */
    method Store(i: nat, v: V)
      requires Valid() && i < capacity && Used(cells[i])
      modifies cells, this`contents
      ensures Valid() && Abstract() == old(View(contents[KeyOf(cells[i]) := v], capacity))
    {
      ghost var s := cells[..];
      ghost var k := KeyOf(cells[i]);
      cells[i] := cells[i].(value := v);
      assert cells[..] == s[i := s[i].(value := v)];
      contents := contents[k := v];
      StoreKeeps(s, zero, old(contents), i, v);
      StoreKeepsProbes(s, HomeOf(hash, capacity), i, v);
    }

    /** Remove the record in cell `i`, shifting back every later cell whose probe
        passes through the hole. Cells below `i` only ever receive records that
        were below `i`, which is what lets a sweep go on from `i`. */
    method Remove(i: nat)
      requires Valid() && i < capacity && Used(cells[i])
      modifies cells, this`count, this`contents
      ensures Valid()
      ensures Abstract() == old(View(contents - {KeyOf(cells[i])}, capacity))
      ensures forall q :: 0 <= q < i && Used(cells[q]) ==> cells[q] in old(cells[..i])
    {
      hide Probed, Consistent, Shifting, InRange, IsPow2;
      ghost var s, k := cells[..], KeyOf(cells[i]);
      var home := HomeOf(hash, capacity);
      ghost var e := EmptyCellExists(s, zero, contents);
      UsedIsStored(s, zero, contents, i);
      ShiftingStarts(s, home, zero, contents, i);
      MinusOne(contents, k);
      contents := contents - {k};
      ShiftBack(cells, home, zero, i, contents, e);
      count := count - 1;
    }

    /** Remove every record `retire` selects and only those. A removal may carry an
        already declined record past the sweep, where it is looked at again. */
    method RetireIf(retire: (Key, V) -> bool) returns (retired: nat)
      requires Valid()
      modifies cells, this`count, this`contents
      ensures Valid()
      ensures Abstract() == View(Kept(old(contents), retire), old(capacity))
      ensures forall k :: k in contents <==> k in old(contents) && !retire(k, old(contents)[k])
      ensures retired == |old(contents)| - |contents|
    {
      hide Probed, Consistent, InRange, IsPow2, Thinned, Declined;
      retired := 0;
      var i := 0;
      ThinnedNot(contents, retire);
      DeclinedNone(retire);
      while i < capacity
        invariant i <= capacity == old(capacity) && Valid()
        invariant retired + count == old(count)
        invariant Thinned(old(contents), contents, retire)
        invariant Declined(cells[..i], retire)
        decreases count, capacity - i
      {
        ghost var s := cells[..];
        if Used(cells[i]) && retire(KeyOf(cells[i]), cells[i].value) {
          UsedIsStored(s, zero, contents, i);
          ThinnedBy(old(contents), contents, retire, KeyOf(cells[i]));
          Remove(i);
          assert forall q :: 0 <= q < i && Used(cells[..i][q]) ==> cells[..i][q] in s[..i];
          StillDeclined(s[..i], cells[..i], retire);
          retired := retired + 1;
          continue;
        }
        DeclinedNext(s, retire, i);
        i := i + 1;
      }
      assert cells[..i] == cells[..];
      SweepDone(old(contents), contents, cells[..], zero, retire);
    }

    /** What the child of a fork does: drop the parent's cells unread. */
    method Abandon()
      requires Valid()
      modifies this`cells, this`capacity, this`count, this`contents
      ensures Valid() && fresh(cells) && Abstract() == View(map[], 0)
    {
      cells := new Cell<V>[0];
      capacity, count := 0, 0;
      contents := map[];
    }
  }

  /** SLOT_TABLE_INIT with the shipped hash. */
  method Create<V(==)>(initial: nat, max: nat, zero: V) returns (t: Table<V>)
    requires IsPow2(initial) && IsPow2(max) && 2 <= initial && max <= 0x1000_0000_0000_0000
    ensures fresh(t) && fresh(t.cells) && t.Valid() && t.hash == Home
    ensures t.Abstract() == View(map[], 0) && t.cfg == Config(initial, max) && t.zero == zero
  {
    HomeInsideTable();
    hide InRange, IsPow2;
    t := new Table(initial, max, zero, Home);
  }

  // ------------------------------------------------- lemmas used by the class

  lemma PrefixStep<V>(s: seq<Cell<V>>, zero: V, m: map<Key, V>, placed: map<Key, V>, i: nat)
    requires Consistent(s, zero, m) && i < |s| && Used(s[i])
    requires Consistent(s[..i], zero, placed)
    ensures KeyOf(s[i]) !in placed && |placed| <= |m|
    ensures Consistent(s[..i + 1], zero, placed[KeyOf(s[i]) := s[i].value])
  {
    hide UniqueKeys, Blank, Holds;
    PrefixKeys(s, zero, i + 1);
    var k, t := KeyOf(s[i]), s[..i + 1];
    forall k' | k' in placed ensures k' != k && k' in m && Holds(t, k') {
      var j := StoredIsUsed(s[..i], zero, placed, k');
      assert t[j] == s[j] == s[..i][j];
      UsedIsStored(s, zero, m, j);
      OneCell(s, i, j);
      HeldAt(t, k', j);
    }
    SubmapSize(placed, m);
    HeldAt(t, k, i);
    assert forall j :: 0 <= j < i ==> t[j] == s[..i][j];
  }

  lemma PrefixKeys<V>(s: seq<Cell<V>>, zero: V, i: nat)
    requires UniqueKeys(s) && Blank(s, zero) && i <= |s|
    ensures UniqueKeys(s[..i]) && Blank(s[..i], zero)
  {
  }

  lemma BlankWhenUnused<V>(s: seq<Cell<V>>, zero: V, m: map<Key, V>, i: nat)
    requires Consistent(s, zero, m) && i < |s| && !Used(s[i])
    ensures s[i] == Cell(0, 0, zero)
  {
  }

  lemma PrefixSkip<V>(s: seq<Cell<V>>, zero: V, placed: map<Key, V>, i: nat)
    requires i < |s| && s[i] == Cell(0, 0, zero) && Consistent(s[..i], zero, placed)
    ensures Consistent(s[..i + 1], zero, placed)
  {
    var t := s[..i + 1];
    forall k | k in placed ensures Holds(t, k) {
      var j := StoredIsUsed(s[..i], zero, placed, k);
      assert t[j] == s[..i][j];
    }
    assert forall j :: 0 <= j < i ==> t[j] == s[..i][j];
  }

  /** The cells determine the map. */
  lemma SameMap<V>(s: seq<Cell<V>>, zero: V, a: map<Key, V>, b: map<Key, V>)
    requires Consistent(s, zero, a) && Consistent(s, zero, b)
    ensures a == b
  {
    forall k | k in a ensures k in b && a[k] == b[k] { var _ := StoredIsUsed(s, zero, a, k); }
    forall k | k in b ensures k in a { var _ := StoredIsUsed(s, zero, b, k); }
  }

  // ---------------------------------------------------------------- all runs

  datatype Op<!V> =
    | Put(k: Key, v: V, allocates: bool)
    | Drop(k: Key)
    | Sweep(retire: (Key, V) -> bool)
    | Forget

  ghost function Applied<V>(cfg: Config, zero: V, t: View<V>, op: Op<V>): View<V> {
    match op
    case Put(k, v, allocates) =>
      var u := Inserted(cfg, zero, t, k, allocates);
      if k in u.contents then u.(contents := u.contents[k := v]) else u
    case Drop(k) => t.(contents := t.contents - {k})
    case Sweep(retire) => t.(contents := Kept(t.contents, retire))
    case Forget => View(map[], 0)
  }

  ghost function AppliedAll<V>(cfg: Config, zero: V, t: View<V>, ops: seq<Op<V>>): View<V>
    decreases |ops|
  {
    if ops == [] then t else AppliedAll(cfg, zero, Applied(cfg, zero, t, ops[0]), ops[1..])
  }

  method Apply<V(==)>(t: Table<V>, op: Op<V>)
    requires t.Valid()
    modifies t, t.cells
    ensures t.Valid() && (t.cells == old(t.cells) || fresh(t.cells))
    ensures t.Abstract() == Applied(t.cfg, t.zero, old(t.Abstract()), op)
  {
    hide WellFormed, InRange, IsPow2;
    match op
    case Put(k, v, allocates) =>
      var r, _ := t.Insert(k, allocates);
      if r.Some? { t.Store(r.value, v); }
    case Drop(k) =>
      var r := t.Find(k);
      if r.Some? { t.Remove(r.value); } else { assert t.contents - {k} == t.contents; }
    case Sweep(retire) =>
      var _ := t.RetireIf(retire);
    case Forget =>
      t.Abandon();
  }

  /** Every run of operations, with every pattern of allocation failures, keeps the
      table valid and in step with the abstract map. */
  method Run<V(==)>(t: Table<V>, ops: seq<Op<V>>)
    requires t.Valid()
    modifies t, t.cells
    ensures t.Valid() && (t.cells == old(t.cells) || fresh(t.cells))
    ensures t.Abstract() == AppliedAll(t.cfg, t.zero, old(t.Abstract()), ops)
    decreases |ops|
  {
    if ops != [] {
      Apply(t, ops[0]);
      Run(t, ops[1..]);
    }
  }
}
