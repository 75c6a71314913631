/** The virtual-memory record table of library/include/vmem_table.h: a fixed bucket
    array of intrusive singly linked chains, relinked in place, refining a map. */
module VmemTable {
  import opened Common

  const BUCKETS := 4096

  /** What a record holds besides its key: size, kind, owner and charged device. */
  datatype Charge = Charge(bytes: nat, kind: int, graph: Word, ctx: Word, hostIndex: int)

  /** The top 12 bits of the 64-bit product with 2^64 / phi. */
  function Hash(dptr: Word): (b: nat)
    ensures b < BUCKETS
  {
    dptr * 0x9E3779B97F4A7C15 % WORD_LIMIT / 0x10_0000_0000_0000
  }

  class Node {
    const dptr: Word
    var charge: Charge
    var hnext: Node?

    constructor (dptr: Word, charge: Charge)
      ensures this.dptr == dptr && this.charge == charge && hnext == null
    {
      this.dptr, this.charge, hnext := dptr, charge, null;
    }
  }

  // --------------------------------------------- chains, as sequences of nodes

  type Chains = seq<seq<Node>>

  /** What a link after position `i` of the chain points at; -1 is the bucket itself. */
  ghost function Succ(chain: seq<Node>, i: int): Node?
    requires -1 <= i < |chain|
  {
    if i + 1 < |chain| then chain[i + 1] else null
  }

  ghost function Without(chain: seq<Node>, k: nat): (r: seq<Node>)
    requires k < |chain|
    ensures |r| == |chain| - 1
  {
    chain[..k] + chain[k + 1..]
  }

  lemma SuccIs(chain: seq<Node>, i: int)
    requires -1 <= i < |chain|
    ensures if Succ(chain, i) == null then i + 1 == |chain| else i + 1 < |chain| && Succ(chain, i) == chain[i + 1]
  {
  }

  /** Links of a chain that lost position `k`: only the one before it changed. */
  lemma WithoutLinks(chain: seq<Node>, k: nat, i: int)
    requires k < |chain| && -1 <= i < |chain| - 1
    ensures i >= 0 ==> Without(chain, k)[i] == chain[if i < k then i else i + 1]
    ensures Succ(Without(chain, k), i) == if i < k - 1 then Succ(chain, i) else Succ(chain, i + 1)
  {
  }

  lemma WithoutPrefix(chain: seq<Node>, k: nat)
    requires k < |chain|
    ensures Without(chain, k)[..k] == chain[..k]
  {
  }

  lemma PrependLinks(node: Node, chain: seq<Node>, i: int)
    requires -1 <= i <= |chain|
    ensures Succ([node] + chain, i) == if i == -1 then node else Succ(chain, i - 1)
  {
  }

  ghost predicate Has(chain: seq<Node>, d: Word) {
    exists i :: 0 <= i < |chain| && chain[i].dptr == d
  }

  /** Nodes are filed by the hash of their key, and no key is filed twice. */
  ghost predicate Filed(chains: Chains) {
    && (forall b, i :: 0 <= b < |chains| && 0 <= i < |chains[b]| ==> Hash(chains[b][i].dptr) == b)
    && (forall b, i, j :: 0 <= b < |chains| && 0 <= i < j < |chains[b]| ==> chains[b][i].dptr != chains[b][j].dptr)
  }

  /** The keys on the chains are exactly the keys of `m`. */
  ghost predicate Covers(chains: Chains, m: map<Word, Charge>) {
    && |chains| == BUCKETS
    && (forall b, i :: 0 <= b < |chains| && 0 <= i < |chains[b]| ==> chains[b][i].dptr in m)
    && (forall d :: d in m ==> Has(chains[Hash(d)], d))
  }

  ghost function NodesOf(chains: Chains): set<Node> {
    set b, i | 0 <= b < |chains| && 0 <= i < |chains[b]| :: chains[b][i]
  }

  ghost function Total(chains: Chains): nat {
    if chains == [] then 0 else |chains[0]| + Total(chains[1..])
  }

  /** The chains index `m`: every node in its bucket, every key once, and `count`
      the number of nodes and of records alike. */
  ghost predicate Indexes(chains: Chains, m: map<Word, Charge>, count: nat) {
    Filed(chains) && Covers(chains, m) && count == Total(chains) == |m|
  }

  lemma {:induction false} TotalUpdate(chains: Chains, b: nat, c: seq<Node>)
    requires b < |chains|
    ensures Total(chains[b := c]) == Total(chains) - |chains[b]| + |c|
  {
    if b == 0 {
      assert chains[b := c][1..] == chains[1..];
    } else {
      assert chains[b := c][1..] == chains[1..][b - 1 := c];
      TotalUpdate(chains[1..], b - 1, c);
    }
  }

  lemma {:induction false} EmptyTotal(chains: Chains)
    requires forall b :: 0 <= b < |chains| ==> chains[b] == []
    ensures Total(chains) == 0
  {
    if chains != [] { EmptyTotal(chains[1..]); }
  }

  ghost function Prepended(chains: Chains, node: Node): Chains
    requires |chains| == BUCKETS
  {
    var b := Hash(node.dptr);
    chains[b := [node] + chains[b]]
  }

  lemma PrependFiled(chains: Chains, node: Node)
    requires Filed(chains) && |chains| == BUCKETS && !Has(chains[Hash(node.dptr)], node.dptr)
    ensures Filed(Prepended(chains, node)) && Total(Prepended(chains, node)) == Total(chains) + 1
  {
    hide Hash, Total;
    var b, t := Hash(node.dptr), Prepended(chains, node);
    TotalUpdate(chains, b, [node] + chains[b]);
    assert t[b][0] == node && forall i :: 0 < i < |t[b]| ==> t[b][i] == chains[b][i - 1];
  }

  /** Filing a node under a key that was absent. */
  lemma PrependKeeps(chains: Chains, m: map<Word, Charge>, count: nat, node: Node, c: Charge)
    requires Indexes(chains, m, count) && node.dptr !in m
    ensures Indexes(Prepended(chains, node), m[node.dptr := c], count + 1)
  {
    hide Hash, Total, Filed;
    var b, t := Hash(node.dptr), Prepended(chains, node);
    PrependFiled(chains, node);
    assert |m[node.dptr := c]| == |m| + 1;
    assert t[b][0] == node;
    forall d | d in m ensures Has(t[Hash(d)], d) {
      var i :| 0 <= i < |chains[Hash(d)]| && chains[Hash(d)][i].dptr == d;
      assert t[Hash(d)][if Hash(d) == b then i + 1 else i].dptr == d;
    }
  }

  lemma PrependNodes(chains: Chains, m: map<Word, Charge>, count: nat, node: Node)
    requires Indexes(chains, m, count) && node.dptr !in m
    ensures NodesOf(Prepended(chains, node)) == NodesOf(chains) + {node} && node !in NodesOf(chains)
  {
    hide Hash, Total, Filed;
    var b, t := Hash(node.dptr), Prepended(chains, node);
    forall n | n in NodesOf(chains) ensures n in NodesOf(t) {
      var e, i :| 0 <= e < |chains| && 0 <= i < |chains[e]| && chains[e][i] == n;
      assert t[e][if e == b then i + 1 else i] == n;
    }
    assert t[b][0] == node;
  }

  ghost function Unfiled(chains: Chains, b: nat, k: nat): Chains
    requires b < |chains| && k < |chains[b]|
  {
    chains[b := Without(chains[b], k)]
  }

  lemma UnfileFiled(chains: Chains, b: nat, k: nat)
    requires Filed(chains) && b < |chains| && k < |chains[b]|
    ensures Filed(Unfiled(chains, b, k)) && Total(Unfiled(chains, b, k)) == Total(chains) - 1
    ensures forall c, i :: 0 <= c < |chains| && 0 <= i < |Unfiled(chains, b, k)[c]| ==>
      Unfiled(chains, b, k)[c][i] in NodesOf(chains) && Unfiled(chains, b, k)[c][i].dptr != chains[b][k].dptr
  {
    hide Hash;
    var t := Unfiled(chains, b, k);
    TotalUpdate(chains, b, t[b]);
    assert forall i :: 0 <= i < |t[b]| ==> t[b][i] == chains[b][if i < k then i else i + 1];
  }

  /** Unfiling one node takes exactly its key away ... */
  lemma UnfileKeeps(chains: Chains, m: map<Word, Charge>, count: nat, b: nat, k: nat)
    requires Indexes(chains, m, count) && b < BUCKETS && k < |chains[b]|
    ensures count > 0 && Indexes(Unfiled(chains, b, k), m - {chains[b][k].dptr}, count - 1)
  {
    hide Hash, Filed, Total, Without;
    var t, node := Unfiled(chains, b, k), chains[b][k];
    MinusOne(m, node.dptr);
    UnfileFiled(chains, b, k);
    forall d | d in m - {node.dptr} ensures Has(t[Hash(d)], d) {
      var i := KeyOnTable(chains, m, count, d);
      if Hash(d) == b { WithoutLinks(chains[b], k, if i > k then i - 1 else i); }
      assert t[Hash(d)][if Hash(d) == b && i > k then i - 1 else i].dptr == d;
    }
  }

  /** ... and exactly that node off the table. */
  lemma UnfileNodes(chains: Chains, m: map<Word, Charge>, count: nat, b: nat, k: nat)
    requires Indexes(chains, m, count) && b < |chains| && k < |chains[b]|
    ensures NodesOf(Unfiled(chains, b, k)) == NodesOf(chains) - {chains[b][k]}
  {
    hide Hash;
    var t, node := Unfiled(chains, b, k), chains[b][k];
    assert forall i :: 0 <= i < |t[b]| ==> t[b][i] == chains[b][if i < k then i else i + 1];
    forall n | n in NodesOf(chains) - {node} ensures n in NodesOf(t) {
      var e, i :| 0 <= e < |chains| && 0 <= i < |chains[e]| && chains[e][i] == n;
      if e == b && i > k { assert t[b][i - 1] == n; } else { assert t[e][i] == n; }
    }
    forall n | n in NodesOf(t) ensures n in NodesOf(chains) && n != node {
      var e, i :| 0 <= e < |t| && 0 <= i < |t[e]| && t[e][i] == n;
      if e == b { assert n == chains[b][if i < k then i else i + 1]; } else { assert n == chains[e][i]; }
    }
  }

  lemma OnTable(chains: Chains, m: map<Word, Charge>, count: nat, b: nat, i: nat)
    requires b < |chains| && i < |chains[b]| && Indexes(chains, m, count)
    ensures chains[b][i] in NodesOf(chains) && chains[b][i].dptr in m
  {
  }

  lemma NodesCovered(chains: Chains, m: map<Word, Charge>, count: nat)
    requires Indexes(chains, m, count)
    ensures forall n :: n in NodesOf(chains) ==> n.dptr in m
  {
  }

  lemma AllOnTable(chains: Chains)
    ensures forall b, i :: 0 <= b < |chains| && 0 <= i < |chains[b]| ==> chains[b][i] in NodesOf(chains)
  {
  }

  lemma KeyOnTable(chains: Chains, m: map<Word, Charge>, count: nat, d: Word) returns (i: nat)
    requires Indexes(chains, m, count) && d in m
    ensures i < |chains[Hash(d)]| && chains[Hash(d)][i].dptr == d
  {
    i :| 0 <= i < |chains[Hash(d)]| && chains[Hash(d)][i].dptr == d;
  }

  class Table {
    const buckets: array<Node?>
    var count: nat
    ghost var chains: Chains
    ghost var contents: map<Word, Charge>

    ghost var nodes: set<Node>

    /** The links in memory spell out the chains, and the nodes carry their charges. */
    ghost predicate Wired()
      reads this, buckets, nodes
    {
      && buckets.Length == BUCKETS == |chains| && nodes == NodesOf(chains)
      && (forall b :: 0 <= b < BUCKETS ==> buckets[b] == Succ(chains[b], -1))
      && (forall b, i :: 0 <= b < BUCKETS && 0 <= i < |chains[b]| ==> chains[b][i].hnext == Succ(chains[b], i))
      && (forall n :: n in nodes ==> n.dptr in contents && n.charge == contents[n.dptr])
    }

    ghost predicate Valid()
      reads this, buckets, nodes
    {
      Wired() && Indexes(chains, contents, count)
    }

    /** Zero-initialised buckets are a valid empty table. */
    constructor ()
      ensures Valid() && fresh(buckets) && contents == map[] && count == 0 && nodes == {}
    {
      buckets := new Node?[BUCKETS](_ => null);
      count := 0;
      chains := seq(BUCKETS, _ => []);
      contents, nodes := map[], {};
      new;
      EmptyTotal(chains);
    }

    /** The record for `d`, or null: lookup in the abstract map. */
    method Find(d: Word) returns (node: Node?)
      requires Valid()
      ensures node == null <==> d !in contents
      ensures node != null ==> node in nodes && node.dptr == d && node.charge == contents[d]
    {
      hide Hash, Indexes, NodesOf;
      ghost var b := Hash(d);
      ghost var k := 0;
      node := buckets[Hash(d)];
      while node != null
        invariant 0 <= k <= |chains[b]| && node == Succ(chains[b], k - 1)
        invariant forall i :: 0 <= i < k ==> chains[b][i].dptr != d
        decreases |chains[b]| - k
      {
        OnTable(chains, contents, count, b, k);
        if node.dptr == d {
          return;
        }
        assert chains[b][k].hnext == Succ(chains[b], k);
        node := node.hnext;
        k := k + 1;
      }
      if d in contents { var _ := KeyOnTable(chains, contents, count, d); }
    }

    /** Link in a node whose key the caller has found absent. */
    method Insert(node: Node)
      requires Valid() && node.dptr !in contents
      modifies this`count, this`chains, this`contents, this`nodes, buckets, node`hnext
      ensures Valid() && contents == old(contents)[node.dptr := node.charge] && count == old(count) + 1
      ensures nodes == old(nodes) + {node}
    {
      hide Hash, Indexes, NodesOf, Succ;
      PrependKeeps(chains, contents, count, node, node.charge);
      PrependNodes(chains, contents, count, node);
      AllOnTable(chains);
      var b := Hash(node.dptr);
      node.hnext := buckets[b];
      buckets[b] := node;
      count := count + 1;
      chains := Prepended(chains, node);
      contents, nodes := contents[node.dptr := node.charge], nodes + {node};
      PrependLinks(node, old(chains)[b], -1);
      forall c, i | 0 <= c < BUCKETS && 0 <= i < |chains[c]| ensures chains[c][i].hnext == Succ(chains[c], i) {
        if c == b {
          PrependLinks(node, old(chains)[b], i);
          assert i > 0 ==> chains[b][i] == old(chains)[b][i - 1];
        }
      }
    }

    /** Update in place the record a lookup returned. */
    method Recharge(node: Node, charge: Charge)
      requires Valid() && node in nodes
      modifies this`contents, node`charge
      ensures Valid() && contents == old(contents)[node.dptr := charge]
    {
      hide Hash, Indexes, NodesOf, Succ;
      RechargeKeeps(chains, contents, count, node, charge);
      node.charge := charge;
      contents := contents[node.dptr := charge];
    }

    /** Take the node at position `k` of bucket `b` off its chain, through the link
        that points at it. */
    method Unlink(b: nat, prev: Node?, node: Node, ghost k: nat)
      requires Valid() && b < BUCKETS && k < |chains[b]| && node == chains[b][k]
      requires prev == if k == 0 then null else chains[b][k - 1]
      modifies this`count, this`chains, this`contents, this`nodes, buckets, nodes`hnext
      ensures Valid() && chains == Unfiled(old(chains), b, k)
      ensures contents == old(contents) - {node.dptr} && count == old(count) - 1
      ensures nodes == old(nodes) - {node} && node.hnext == old(node.hnext)
    {
      hide Hash, Indexes, NodesOf, Succ, Without;
      UnfileKeeps(chains, contents, count, b, k);
      UnfileNodes(chains, contents, count, b, k);
      assert node.hnext == Succ(chains[b], k);
      if prev == null {
        buckets[b] := node.hnext;
      } else {
        OnePlace(chains, contents, count, b, k - 1);
        OnTable(chains, contents, count, b, k - 1);
        prev.hnext := node.hnext;
      }
      chains, count := Unfiled(chains, b, k), count - 1;
      contents, nodes := contents - {node.dptr}, nodes - {node};
      NodesCovered(chains, contents, count);
      WithoutLinks(old(chains)[b], k, -1);
      forall c, i | 0 <= c < BUCKETS && 0 <= i < |chains[c]| ensures chains[c][i].hnext == Succ(chains[c], i) {
        if c == b { WithoutLinks(old(chains)[b], k, i); }
      }
    }

    /** Walk bucket Hash(d) for the record of `d`, keeping the link that points at it. */
    method Seek(d: Word) returns (prev: Node?, node: Node?, ghost k: nat)
      requires Valid()
      ensures node == null <==> d !in contents
      ensures node != null ==> var chain := chains[Hash(d)];
        && k < |chain| && node == chain[k] && prev == (if k == 0 then null else chain[k - 1])
        && node in nodes && node.dptr == d
    {
      hide Hash, Indexes, NodesOf;
      ghost var b := Hash(d);
      k := 0;
      prev := null;
      node := buckets[Hash(d)];
      while node != null && node.dptr != d
        invariant 0 <= k <= |chains[b]| && node == Succ(chains[b], k - 1)
        invariant prev == if k == 0 then null else chains[b][k - 1]
        invariant forall i :: 0 <= i < k ==> chains[b][i].dptr != d
        decreases |chains[b]| - k
      {
        assert chains[b][k].hnext == Succ(chains[b], k);
        prev, node, k := node, node.hnext, k + 1;
      }
      if node != null {
        OnTable(chains, contents, count, b, k);
      } else if d in contents {
        var _ := KeyOnTable(chains, contents, count, d);
      }
    }

    /** Unlink the record for `d` and hand it back intact, or null. */
    method Remove(d: Word) returns (node: Node?)
      requires Valid()
      modifies this`count, this`chains, this`contents, this`nodes, buckets, nodes`hnext
      ensures Valid() && contents == old(contents) - {d}
      ensures node == null <==> d !in old(contents)
      ensures node == null ==> count == old(count) && nodes == old(nodes)
      ensures node != null ==> node.dptr == d && node.charge == old(contents)[d] && node.hnext == null
      ensures node != null ==> count == old(count) - 1 && node in old(nodes) && nodes == old(nodes) - {node}
    {
      hide Hash, Indexes, NodesOf;
      var prev;
      ghost var k;
      prev, node, k := Seek(d);
      if node != null {
        Unlink(Hash(d), prev, node, k);
        node.hnext := null;
      }
    }

    /** Retire what `select` picks in bucket `b`. The link stays put after an unlink
        and moves on otherwise, so every node of the bucket is looked at once. */
    method RetireBucket(
      b: nat, select: Predicate, ghost before: map<Word, Charge>, ghost all: set<Node>, ghost freed0: seq<Node>)
      returns (retired: nat, ghost freed: seq<Node>)
      requires Valid() && b < BUCKETS
      requires Thinned(before, contents, select) && SparedUpTo(chains, contents, select, b) && Freed(all, nodes, freed0)
      modifies this`count, this`chains, this`contents, this`nodes, buckets, nodes`hnext
      ensures Valid() && nodes <= old(nodes)
      ensures Thinned(before, contents, select) && SparedUpTo(chains, contents, select, b + 1)
      ensures Freed(all, nodes, freed)
      ensures |freed| == |freed0| + retired && count + retired == old(count)
    {
      hide Hash, Indexes, NodesOf, Thinned, SparedUpTo, Spared, Freed, Succ, Without;
      retired, freed := 0, freed0;
      var prev: Node? := null;
      var node := buckets[b];
      ghost var k := 0;
      SparedNone(contents, select);
      while node != null
        invariant Valid() && nodes <= old(nodes) && 0 <= k <= |chains[b]|
        invariant node == Succ(chains[b], k - 1) && prev == if k == 0 then null else chains[b][k - 1]
        invariant Thinned(before, contents, select) && SparedUpTo(chains, contents, select, b)
        invariant Freed(all, nodes, freed)
        invariant Spared(chains[b][..k], contents, select)
        invariant |freed| == |freed0| + retired && count + retired == old(count)
        decreases |chains[b]| - k
      {
        SuccIs(chains[b], k - 1);
        OnTable(chains, contents, count, b, k);
        assert chains[b][k].hnext == Succ(chains[b], k);
        if select(node.dptr, node.charge) {
          var next := node.hnext;
          ghost var chain := chains[b];
          ThinnedBy(before, contents, select, node.dptr);
          SparedLess(chains, contents, select, b, k);
          FreedMore(all, nodes, freed, node);
          WithoutLinks(chain, k, k - 1);
          Unlink(b, prev, node, k);
          WithoutPrefix(chain, k);
          retired, freed := retired + 1, freed + [node];
          node := next;
        } else {
          SparedMore(chains[b], contents, select, k);
          prev, node, k := node, node.hnext, k + 1;
        }
      }
      SuccIs(chains[b], k - 1);
      assert chains[b][..k] == chains[b];
      SparedNext(chains, contents, select, b);
    }

    /** Retire every record the predicate selects -- all of them when it is null --
        freeing each exactly once, and no other. */
    method RetireIf(shouldRetire: Option<Predicate>) returns (retired: nat, ghost freed: seq<Node>)
      requires Valid()
      modifies this`count, this`chains, this`contents, this`nodes, buckets, nodes`hnext
      ensures Valid() && contents == Kept(old(contents), Selection(shouldRetire))
      ensures forall d :: d in contents <==>
        d in old(contents) && shouldRetire.Some? && !shouldRetire.value(d, old(contents)[d])
      ensures retired == |freed| == old(count) - count
      ensures forall i, j :: 0 <= i < j < |freed| ==> freed[i] != freed[j]
      ensures nodes <= old(nodes) && (set n | n in freed) == old(nodes) - nodes
    {
      hide Hash, Indexes, NodesOf, Wired, Thinned, SparedUpTo;
      var select := Selection(shouldRetire);
      retired, freed := 0, [];
      ThinnedNot(contents, select);
      NoneSpared(chains, contents, select);
      var b := 0;
      while b < BUCKETS
        invariant 0 <= b <= BUCKETS && Valid() && nodes <= old(nodes)
        invariant Thinned(old(contents), contents, select) && SparedUpTo(chains, contents, select, b)
        invariant Freed(old(nodes), nodes, freed) && retired == |freed| && count + retired == old(count)
      {
        var n;
        n, freed := RetireBucket(b, select, old(contents), old(nodes), freed);
        retired := retired + n;
        b := b + 1;
      }
      AllSpared(chains, contents, count, select);
      ThinnedFully(old(contents), contents, select);
    }
  }

  /** A new charge for a filed key changes neither the keys nor the count. */
  lemma RechargeKeeps(chains: Chains, m: map<Word, Charge>, count: nat, node: Node, charge: Charge)
    requires Indexes(chains, m, count) && node in NodesOf(chains)
    ensures Indexes(chains, m[node.dptr := charge], count)
    ensures forall n :: n in NodesOf(chains) && n.dptr == node.dptr ==> n == node
  {
    hide Hash, Total;
    var m' := m[node.dptr := charge];
    assert m'.Keys == m.Keys;
    assert |m'| == |m'.Keys| && |m| == |m.Keys|;
    assert forall d :: d in m' ==> d in m;
  }

  // ---------------------------------------------------------------- every run

  /** What the callers do: record an allocation or update the record it re-issued,
      discharge one, or retire by predicate. */
  datatype Op =
    | Record(d: Word, charge: Charge)
    | Discharge(d: Word)
    | Retire(shouldRetire: Option<Predicate>)

  ghost function Applied(m: map<Word, Charge>, op: Op): map<Word, Charge> {
    match op
    case Record(d, charge) => m[d := charge]
    case Discharge(d) => m - {d}
    case Retire(shouldRetire) => Kept(m, Selection(shouldRetire))
  }

  ghost function AppliedAll(m: map<Word, Charge>, ops: seq<Op>): map<Word, Charge>
    decreases |ops|
  {
    if ops == [] then m else AppliedAll(Applied(m, ops[0]), ops[1..])
  }

  method Apply(t: Table, op: Op)
    requires t.Valid()
    modifies t, t.buckets, t.nodes
    ensures t.Valid() && fresh(t.nodes - old(t.nodes)) && t.contents == Applied(old(t.contents), op)
  {
    hide Hash, Indexes, NodesOf, Table.Wired;
    match op
    case Record(d, charge) =>
      var node := t.Find(d);
      if node == null {
        var n := new Node(d, charge);
        t.Insert(n);
      } else {
        t.Recharge(node, charge);
      }
    case Discharge(d) =>
      var _ := t.Remove(d);
    case Retire(shouldRetire) =>
      var _, _ := t.RetireIf(shouldRetire);
  }

  /** Every run of operations keeps the table valid and in step with the map, and
      `count` equal to its size. */
  method Run(t: Table, ops: seq<Op>)
    requires t.Valid()
    modifies t, t.buckets, t.nodes
    ensures t.Valid() && fresh(t.nodes - old(t.nodes)) && t.contents == AppliedAll(old(t.contents), ops)
    ensures t.count == |AppliedAll(old(t.contents), ops)|
    decreases |ops|
  {
    hide Hash, NodesOf, Table.Wired, Filed, Covers;
    if ops != [] {
      Apply(t, ops[0]);
      Run(t, ops[1..]);
    }
  }

  // ------------------------------------------------- what a sweep has done so far

  type Predicate = (Word, Charge) -> bool

  /** What a possibly null should_retire selects: null retires everything. */
  function Selection(shouldRetire: Option<Predicate>): Predicate {
    if shouldRetire.Some? then shouldRetire.value else (d, c) => true
  }

  /** A null predicate empties the table. */
  lemma NullKeepsNothing(m: map<Word, Charge>)
    ensures Kept(m, Selection(None)) == map[]
  {
  }

  ghost predicate Spared(chain: seq<Node>, m: map<Word, Charge>, select: Predicate) {
    forall i :: 0 <= i < |chain| && chain[i].dptr in m ==> !select(chain[i].dptr, m[chain[i].dptr])
  }

  ghost predicate SparedUpTo(chains: Chains, m: map<Word, Charge>, select: Predicate, n: nat) {
    n <= |chains| && forall b :: 0 <= b < n ==> Spared(chains[b], m, select)
  }

  lemma SparedNone(m: map<Word, Charge>, select: Predicate)
    ensures Spared([], m, select)
  {
  }

  lemma NoneSpared(chains: Chains, m: map<Word, Charge>, select: Predicate)
    ensures SparedUpTo(chains, m, select, 0)
  {
  }

  lemma SparedMore(chain: seq<Node>, m: map<Word, Charge>, select: Predicate, k: nat)
    requires k < |chain| && Spared(chain[..k], m, select)
    requires chain[k].dptr in m && !select(chain[k].dptr, m[chain[k].dptr])
    ensures Spared(chain[..k + 1], m, select)
  {
    assert chain[..k + 1] == chain[..k] + [chain[k]];
  }

  lemma SparedNext(chains: Chains, m: map<Word, Charge>, select: Predicate, b: nat)
    requires b < |chains| && SparedUpTo(chains, m, select, b) && Spared(chains[b], m, select)
    ensures SparedUpTo(chains, m, select, b + 1)
  {
  }

  lemma SparedLess(chains: Chains, m: map<Word, Charge>, select: Predicate, b: nat, k: nat)
    requires b < |chains| && k < |chains[b]|
    requires SparedUpTo(chains, m, select, b) && Spared(chains[b][..k], m, select)
    ensures var m' := m - {chains[b][k].dptr};
      SparedUpTo(Unfiled(chains, b, k), m', select, b) && Spared(chains[b][..k], m', select)
  {
  }

  lemma AllSpared(chains: Chains, m: map<Word, Charge>, count: nat, select: Predicate)
    requires Indexes(chains, m, count) && SparedUpTo(chains, m, select, BUCKETS)
    ensures forall d :: d in m ==> !select(d, m[d])
  {
    forall d | d in m ensures !select(d, m[d]) {
      var i := KeyOnTable(chains, m, count, d);
      assert Spared(chains[Hash(d)], m, select);
    }
  }

  /** `freed` lists each node of `all` that has left the table, once. */
  ghost predicate Freed(all: set<Node>, nodes: set<Node>, freed: seq<Node>) {
    && nodes <= all && (set n | n in freed) == all - nodes
    && (forall i, j :: 0 <= i < j < |freed| ==> freed[i] != freed[j])
  }

  lemma FreedMore(all: set<Node>, nodes: set<Node>, freed: seq<Node>, node: Node)
    requires Freed(all, nodes, freed) && node in nodes
    ensures Freed(all, nodes - {node}, freed + [node])
  {
    assert (set n | n in freed + [node]) == (set n | n in freed) + {node};
  }

  /** No node is filed twice. */
  lemma OnePlace(chains: Chains, m: map<Word, Charge>, count: nat, b: nat, i: nat)
    requires Indexes(chains, m, count) && b < |chains| && i < |chains[b]|
    ensures forall c, j :: 0 <= c < |chains| && 0 <= j < |chains[c]| && chains[c][j] == chains[b][i] ==>
      c == b && j == i
  {
    hide Hash;
  }
}
