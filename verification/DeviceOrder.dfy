/** The container's device numbering of library/src/config_io.c, over a config whose
    activate flags do not change during the call. */
module DeviceOrder {

  const MAX_DEVICE_COUNT := 16

  /** Host indexes of the activated devices among those from `i` on. */
  function Activated(active: seq<bool>, i: nat): seq<int>
    requires i <= |active|
    decreases |active| - i
  {
    if i == |active| then []
    else (if active[i] then [i] else []) + Activated(active, i + 1)
  }

  lemma {:induction false} ActivatedMembers(active: seq<bool>, i: nat)
    requires i <= |active|
    ensures |Activated(active, i)| <= |active| - i
    ensures forall h :: h in Activated(active, i) <==> i <= h < |active| && active[h]
    decreases |active| - i
  {
    if i < |active| { ActivatedMembers(active, i + 1); }
  }

  predicate Ascends(a: seq<int>) { forall x, y :: 0 <= x < y < |a| ==> a[x] < a[y] }

  lemma ConsAscends(x: int, a: seq<int>)
    requires Ascends(a) && forall y :: 0 <= y < |a| ==> x < a[y]
    ensures Ascends([x] + a)
  {
  }

  lemma {:induction false} ActivatedAscends(active: seq<bool>, i: nat)
    requires i <= |active|
    ensures Ascends(Activated(active, i))
    decreases |active| - i
  {
    hide Ascends;
    if i < |active| {
      var rest := Activated(active, i + 1);
      ActivatedAscends(active, i + 1);
      if active[i] {
        forall y | 0 <= y < |rest| ensures i < rest[y] {
          ActivatedMembers(active, i + 1);
          assert rest[y] in rest;
        }
        ConsAscends(i, rest);
      } else {
        assert Activated(active, i) == rest;
      }
    } else {
      AscendsNone();
    }
  }

  lemma AscendsNone()
    ensures Ascends([])
  {
  }

  /** The visible order is strictly ascending and lists exactly the active devices. */
  lemma ActivatedExactly(active: seq<bool>)
    ensures var a := Activated(active, 0);
      && |a| <= |active|
      && Ascends(a)
      && (forall h :: h in a <==> 0 <= h < |active| && active[h])
  {
    ActivatedMembers(active, 0);
    ActivatedAscends(active, 0);
  }

  lemma {:induction false} ActivatedSplits(active: seq<bool>, i: nat)
    requires i <= |active|
    ensures Activated(active, 0) == Activated(active[..i], 0) + Activated(active, i)
    decreases i
  {
    if i == 0 {
      assert active[..0] == [];
    } else {
      ActivatedSplits(active, i - 1);
      ActivatedSnoc(active[..i], 0);
      assert active[..i][..i - 1] == active[..i - 1];
    }
  }

  lemma {:induction false} ActivatedSnoc(active: seq<bool>, i: nat)
    requires i < |active|
    ensures var n := |active| - 1;
      Activated(active, i) == Activated(active[..n], i) + if active[n] then [n] else []
    decreases |active| - i
  {
    var n := |active| - 1;
    if i < n {
      ActivatedSnoc(active, i + 1);
    }
  }

  lemma ActivatedNone()
    ensures Activated([], 0) == []
  {
  }

  lemma ActivatedEnd(active: seq<bool>)
    ensures Activated(active, |active|) == []
  {
  }

  /** config_allowed_devices: compact the active indexes, stamp the tail with -1. */
  method AllowedDevices(active: seq<bool>, hosts: array<int>, max: int) returns (count: int)
    requires |active| == MAX_DEVICE_COUNT && max <= hosts.Length
    modifies hosts
    ensures var a := Activated(active, 0);
      && 0 <= count <= hosts.Length
      && count == (if max < 0 then 0 else if |a| < max then |a| else max)
      && hosts[..count] == a[..count]
      && (forall i :: count <= i < hosts.Length ==>
            hosts[i] == if i < max && i < MAX_DEVICE_COUNT then -1 else old(hosts[i]))
  {
    hide Activated;
    count := 0;
    var i := 0;
    ActivatedMembers(active, 0);
    ActivatedNone();
    assert active[..0] == [] && hosts[..0] == [];
    while i < MAX_DEVICE_COUNT && count < max
      invariant 0 <= i <= MAX_DEVICE_COUNT && 0 <= count <= hosts.Length
      invariant if max < 0 then count == 0 else count <= max
      invariant hosts[..count] == Activated(active[..i], 0)
      invariant forall k :: count <= k < hosts.Length ==> hosts[k] == old(hosts[k])
    {
      assert active[..i + 1][..i] == active[..i];
      ActivatedSnoc(active[..i + 1], 0);
      if active[i] {
        hosts[count] := i;
        count := count + 1;
      }
      i := i + 1;
    }
    ActivatedSplits(active, i);
    ActivatedEnd(active);
    ghost var a := Activated(active, 0);
    assert hosts[..count] == a[..count];
    var j := count;
    while j < max && j < MAX_DEVICE_COUNT
      invariant count <= j <= hosts.Length && (count < j ==> j <= MAX_DEVICE_COUNT && j <= max)
      invariant hosts[..count] == a[..count]
      invariant forall k :: count <= k < j ==> hosts[k] == -1
      invariant forall k :: j <= k < hosts.Length ==> hosts[k] == old(hosts[k])
    {
      hosts[j] := -1;
      j := j + 1;
    }
  }

  /** Host index of the `visible`-th allowed device, or -1. */
  function DeviceAt(active: seq<bool>, visible: nat): int {
    var a := Activated(active, 0);
    if visible < |a| then a[visible] else -1
  }

  /** Where `host` sits in the visible order, or -1. */
  function VisibleIndex(active: seq<bool>, host: int): int {
    IndexIn(Activated(active, 0), host, 0)
  }

  function IndexIn(a: seq<int>, x: int, i: nat): int
    requires i <= |a|
    decreases |a| - i
  {
    if i == |a| then -1 else if a[i] == x then i else IndexIn(a, x, i + 1)
  }

  lemma {:induction false} IndexInFinds(a: seq<int>, x: int, i: nat)
    requires i <= |a|
    ensures var k := IndexIn(a, x, i);
      if x in a[i..] then i <= k < |a| && a[k] == x && x !in a[i..k] else k == -1
    decreases |a| - i
  {
    if i < |a| {
      IndexInFinds(a, x, i + 1);
      assert a[i..] == [a[i]] + a[i + 1..];
      var k := IndexIn(a, x, i + 1);
      if k >= 0 { assert a[i..k] == [a[i]] + a[i + 1..k]; }
    }
  }

  /** config_allowed_device_at. */
  method AllowedDeviceAt(active: seq<bool>, visible: nat) returns (host: int)
    requires |active| == MAX_DEVICE_COUNT
    ensures host == DeviceAt(active, visible)
  {
    var hosts := new int[MAX_DEVICE_COUNT];
    ActivatedExactly(active);
    var count := AllowedDevices(active, hosts, MAX_DEVICE_COUNT);
    if visible >= count {
      return -1;
    }
    assert hosts[visible] == hosts[..count][visible];
    return hosts[visible];
  }

  /** config_visible_index_of. */
  method VisibleIndexOf(active: seq<bool>, host: int) returns (visible: int)
    requires |active| == MAX_DEVICE_COUNT
    ensures visible == VisibleIndex(active, host)
  {
    var a := Activated(active, 0);
    ActivatedExactly(active);
    if host < 0 {
      IndexInFinds(a, host, 0);
      return -1;
    }
    var hosts := new int[MAX_DEVICE_COUNT];
    var count := AllowedDevices(active, hosts, MAX_DEVICE_COUNT);
    assert hosts[..count] == a;
    var i := 0;
    while i < count
      invariant 0 <= i <= count
      invariant hosts[..count] == a && IndexIn(a, host, i) == VisibleIndex(active, host)
    {
      assert hosts[i] == a[i];
      if hosts[i] == host {
        return i;
      }
      i := i + 1;
    }
    return -1;
  }

  lemma IndexInAll(a: seq<int>, x: int)
    ensures var k := IndexIn(a, x, 0); if x in a then 0 <= k < |a| && a[k] == x else k == -1
  {
    IndexInFinds(a, x, 0);
    assert a[0..] == a;
  }

  lemma AscendsDistinct(a: seq<int>, i: nat, j: nat)
    requires Ascends(a) && i < |a| && j < |a| && a[i] == a[j]
    ensures i == j
  {
  }

  /** The two numberings are mutual inverses on the active devices and answer -1
      everywhere else. */
  lemma NumberingsInverse(active: seq<bool>, host: int, visible: nat)
    ensures VisibleIndex(active, host) != -1 <==> 0 <= host < |active| && active[host]
    ensures VisibleIndex(active, host) >= 0 ==> DeviceAt(active, VisibleIndex(active, host)) == host
    ensures DeviceAt(active, visible) != -1 <==> visible < |Activated(active, 0)|
    ensures DeviceAt(active, visible) != -1 ==> VisibleIndex(active, DeviceAt(active, visible)) == visible
  {
    hide Activated, IndexIn, Ascends;
    var a := Activated(active, 0);
    ActivatedExactly(active);
    IndexInAll(a, host);
    if visible < |a| {
      IndexInAll(a, a[visible]);
      AscendsDistinct(a, visible, IndexIn(a, a[visible], 0));
    }
  }
}
