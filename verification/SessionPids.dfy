/** The session pid list of library/src/checkpoint_provider.c: prune, insert and
    sort under the lock, then write and shrink. */
module SessionPids {
  import opened Arith
  import opened Common
  import opened PidText

  const PIDS_MAX := 256
  const FILE_MAX := 1048576
  const BUFFER := PIDS_MAX * 12

  // -------------------------------------------------------------------- sort

  predicate Ascending(s: seq<int>) { forall i, j :: 0 <= i < j < |s| ==> s[i] <= s[j] }

  predicate StrictlyAscending(s: seq<int>) { forall i, j :: 0 <= i < j < |s| ==> s[i] < s[j] }

  function Insert(x: int, s: seq<int>): seq<int> {
    if s == [] || x <= s[0] then [x] + s else [s[0]] + Insert(x, s[1..])
  }

  /** qsort with pid_compare; see SortIsUnique. */
  function Sorted(s: seq<int>): seq<int> {
    if s == [] then [] else Insert(s[0], Sorted(s[1..]))
  }

  lemma {:induction false} InsertAdds(x: int, s: seq<int>)
    ensures multiset(Insert(x, s)) == multiset(s) + multiset{x} && |Insert(x, s)| == |s| + 1
  {
    if s != [] && x > s[0] {
      InsertAdds(x, s[1..]);
      assert s == [s[0]] + s[1..];
    }
  }

  lemma {:induction false} InsertAscends(x: int, s: seq<int>)
    requires Ascending(s)
    ensures Ascending(Insert(x, s))
  {
    if s != [] && x > s[0] {
      InsertAscends(x, s[1..]);
      var t := Insert(x, s[1..]);
      InsertAdds(x, s[1..]);
      forall k | 0 <= k < |t| ensures s[0] <= t[k] {
        assert t[k] in multiset(s[1..]) + multiset{x};
      }
    }
  }

  lemma SortedNone()
    ensures Sorted([]) == [] && Ascending([])
  {
  }

  lemma {:induction false} SortedAscends(s: seq<int>)
    ensures Ascending(Sorted(s)) && multiset(Sorted(s)) == multiset(s) && |Sorted(s)| == |s|
  {
    if s != [] {
      assert Sorted(s) == Insert(s[0], Sorted(s[1..]));
      hide Insert, Ascending, Sorted;
      SortedAscends(s[1..]);
      InsertAscends(s[0], Sorted(s[1..]));
      InsertAdds(s[0], Sorted(s[1..]));
      assert s == [s[0]] + s[1..];
    } else {
      SortedNone();
    }
  }

  /** Whatever algorithm sorts, an ascending permutation is this one. */
  lemma {:induction false} SortIsUnique(a: seq<int>, b: seq<int>)
    requires Ascending(a) && Ascending(b) && multiset(a) == multiset(b)
    ensures a == b
    decreases |a|
  {
    assert |a| == |multiset(a)| == |multiset(b)| == |b|;
    if a != [] {
      FirstAtMost(a, b);
      FirstAtMost(b, a);
      assert a == [a[0]] + a[1..] && b == [b[0]] + b[1..];
      assert multiset(a[1..]) == multiset(a) - multiset{a[0]};
      assert multiset(b[1..]) == multiset(b) - multiset{b[0]};
      SortIsUnique(a[1..], b[1..]);
    }
  }

  lemma FirstAtMost(a: seq<int>, b: seq<int>)
    requires Ascending(a) && a != [] && b != [] && multiset(a) == multiset(b)
    ensures a[0] <= b[0]
  {
    assert b[0] in multiset(b);
    assert b[0] in a;
  }

  /** pid_compare subtracts: on pids it cannot overflow an int and orders them. */
  lemma CompareFits(a: int, b: int)
    requires IsPid(a) && IsPid(b)
    ensures -INT_MAX - 1 <= a - b <= INT_MAX && (a - b < 0 <==> a < b) && (a - b == 0 <==> a == b)
  {
  }

  // -------------------------------------------------------------------- read

  /** The C string in a buffer: up to the first NUL. */
  function CString(text: string): string {
    if text == "" || text[0] == '\0' then "" else [text[0]] + CString(text[1..])
  }

  lemma {:induction false} CStringEnds(s: string, rest: string)
    requires forall i :: 0 <= i < |s| ==> s[i] != '\0'
    ensures CString(s + "\0" + rest) == s
  {
    if s != "" {
      assert (s + "\0" + rest)[1..] == s[1..] + "\0" + rest;
      CStringEnds(s[1..], rest);
    }
  }

  function Take(s: seq<int>, max: nat): seq<int> {
    if |s| <= max then s else s[..max]
  }

  /** read_pids on the whole file: an oversized one reads as empty. */
  function ReadBack(text: string): seq<int> {
    if |text| > FILE_MAX then [] else Take(Parse(CString(text)), PIDS_MAX)
  }

  lemma ParseSplits(text: string)
    requires text != ""
    ensures Parse(text) == Token(text[..LineLength(text)]) + Parse(AfterLine(text))
    ensures |Token(text[..LineLength(text)])| <= 1 && |AfterLine(text)| < |text|
  {
  }

  lemma ParseNothing()
    ensures Parse("") == [] && CString("") == ""
  {
  }

  /** read_pids: token by token into a caller's array, stopping when it is full. */
  method ReadPids(text: string, pids: array<int>, max: nat) returns (count: nat)
    requires max <= pids.Length
    modifies pids
    ensures count <= max
    ensures pids[..count] == if |text| > FILE_MAX then [] else Take(Parse(CString(text)), max)
  {
    hide Parse, Token, AfterLine, CString;
    count := 0;
    ParseNothing();
    if |text| == 0 || |text| > FILE_MAX {
      return;
    }
    var rest := CString(text);
    ghost var all := Parse(rest);
    while rest != "" && count < max
      invariant count <= max
      invariant all == pids[..count] + Parse(rest)
      decreases |rest|
    {
      ParseSplits(rest);
      var token := Token(rest[..LineLength(rest)]);
      ghost var before := pids[..count];
      if token != [] {
        pids[count] := token[0];
        count := count + 1;
        assert pids[..count] == before + token;
      }
      Assoc(before, token, Parse(AfterLine(rest)));
      rest := AfterLine(rest);
    }
  }

  // ------------------------------------------------------------------- write

  /** The text buffer of write_pids: refused when an entry and its NUL do not fit. */
  method Render(pids: seq<int>) returns (ok: bool, text: string)
    ensures ok <==> |Print(pids)| < BUFFER || pids == []
    ensures ok ==> text == Print(pids)
  {
    text := "";
    var i := 0;
    while i < |pids|
      invariant 0 <= i <= |pids| && Print(pids) == text + Print(pids[i..]) && (i > 0 ==> |text| < BUFFER)
    {
      var line := Line(pids[i]);
      assert pids[i..][1..] == pids[i + 1..];
      Assoc(text, line, Print(pids[i + 1..]));
      if |line| >= BUFFER - |text| {
        return false, text;
      }
      text := text + line;
      i := i + 1;
    }
    assert pids[i..] == [] && text + "" == text;
    return true, text;
  }

  lemma {:induction false} DigitsLength(n: nat, k: nat)
    requires n < Pow10(k) && k >= 1
    ensures |Digits(n)| <= k
  {
    if n >= 10 { DigitsLength(n / 10, k - 1); }
  }

  lemma TenDigits(n: nat)
    requires n <= 0x8000_0000
    ensures |Digits(n)| <= 10
  {
    assert Pow10(5) == 100000;
    assert Pow10(10) == 10000000000;
    DigitsLength(n, 10);
  }

  lemma {:induction false} PrintLength(pids: seq<int>, most: nat)
    requires forall i :: 0 <= i < |pids| ==> |Line(pids[i])| <= most
    ensures |Print(pids)| <= |pids| * most
    ensures |Print(pids)| == |pids| * most ==> forall i :: 0 <= i < |pids| ==> |Line(pids[i])| == most
    ensures (forall i :: 0 <= i < |pids| ==> |Line(pids[i])| == most) ==> |Print(pids)| == |pids| * most
    decreases |pids|
  {
    hide Line;
    if pids != [] {
      PrintLength(pids[1..], most);
      Distribute(|pids| - 1, most);
      assert forall i :: 1 <= i < |pids| ==> pids[i] == pids[1..][i - 1];
    }
  }

  lemma Distribute(n: int, k: int)
    ensures (n + 1) * k == n * k + k
  {
  }

  /** The buffer never overflows on a list of pids. */
  lemma RenderFits(pids: seq<int>)
    requires ArePids(pids) && |pids| <= 256
    ensures |Print(pids)| < BUFFER == 3072
  {
    forall i | 0 <= i < |pids| ensures |Line(pids[i])| <= 11 { TenDigits(pids[i]); }
    PrintLength(pids, 11);
    MulMono(|pids|, PIDS_MAX, 11);
  }

  /** On arbitrary 32-bit entries twelve bytes each leave no room for the final NUL:
      a full list of eleven-character numbers, and only that, is refused. */
  lemma RenderRefusesOnly(pids: seq<int>)
    requires |pids| <= PIDS_MAX && forall i :: 0 <= i < |pids| ==> -0x8000_0000 <= pids[i] <= INT_MAX
    ensures |Print(pids)| >= BUFFER <==> |pids| == PIDS_MAX && forall i :: 0 <= i < |pids| ==> |PrintInt(pids[i])| == 11
  {
    hide Digits;
    forall i | 0 <= i < |pids| ensures |Line(pids[i])| <= 12 && |Line(pids[i])| == |PrintInt(pids[i])| + 1 {
      TenDigits(Abs(pids[i]));
    }
    PrintLength(pids, 12);
    MulMono(|pids|, PIDS_MAX, 12);
  }

  // ------------------------------------------------------------------ update

  /** The live pids of the list other than `pid`. */
  function Survivors(pids: seq<int>, pid: int, alive: int -> bool): seq<int> {
    if pids == [] then []
    else (if pids[0] != pid && alive(pids[0]) then [pids[0]] else []) + Survivors(pids[1..], pid, alive)
  }

  lemma {:induction false} SurvivorsSnoc(pids: seq<int>, x: int, pid: int, alive: int -> bool)
    ensures Survivors(pids + [x], pid, alive) ==
      Survivors(pids, pid, alive) + if x != pid && alive(x) then [x] else []
    decreases |pids|
  {
    if pids != [] {
      SurvivorsSnoc(pids[1..], x, pid, alive);
      assert (pids + [x])[1..] == pids[1..] + [x];
    }
  }

  lemma SurvivorsNone(pid: int, alive: int -> bool)
    ensures Survivors([], pid, alive) == []
  {
  }

  /** The pruning loop of session_pids_update: compaction in place. */
  method Prune(pids: array<int>, count: nat, pid: int, alive: int -> bool) returns (kept: nat)
    requires count <= pids.Length
    modifies pids
    ensures kept <= count && pids[..kept] == Survivors(old(pids[..count]), pid, alive)
  {
    SurvivorsNone(pid, alive);
    hide Survivors;
    kept := 0;
    var i := 0;
    ghost var all := pids[..count];
    assert all[..0] == [] && pids[..0] == [];
    while i < count
      invariant kept <= i <= count && pids[..kept] == Survivors(all[..i], pid, alive)
      invariant forall k :: i <= k < count ==> pids[k] == all[k]
    {
      SurvivorsSnoc(all[..i], all[i], pid, alive);
      assert all[..i + 1] == all[..i] + [all[i]];
      ghost var before := pids[..kept];
      if pids[i] != pid && alive(pids[i]) {
        pids[kept] := pids[i];
        kept := kept + 1;
        assert pids[..kept] == before + [all[i]];
      }
      i := i + 1;
    }
    assert all[..count] == all;
  }

  /** The list an update leaves: None when the session is full. */
  function Updated(pids: seq<int>, pid: int, add: bool, alive: int -> bool): Option<seq<int>> {
    var kept := Survivors(pids, pid, alive);
    if add && |kept| >= PIDS_MAX then None else Some(Sorted(if add then kept + [pid] else kept))
  }

  class SessionFile {
    var present: bool
    var text: string

    constructor ()
      ensures !present && text == ""
    {
      present, text := false, "";
    }

    /** session_pids_update, when no system call fails. */
    method Update(pid: int, add: bool, alive: int -> bool) returns (ok: bool)
      modifies this
      ensures !old(present) && !add ==> ok && !present && text == old(text)
      ensures old(present) || add ==> present
      ensures old(present) || add ==>
        var was := if old(present) then old(text) else "";
        var next := Updated(ReadBack(was), pid, add, alive);
        if next.Some? && (|Print(next.value)| < BUFFER || next.value == [])
        then ok && text == Print(next.value)
        else !ok && text == was
    {
      hide Survivors, Sorted, Parse, CString, Print;
      if !present {
        if !add {
          return true;
        }
        present, text := true, "";
      }
      var pids := new int[PIDS_MAX];
      var count := ReadPids(text, pids, PIDS_MAX);
      ghost var was := pids[..count];
      assert was == ReadBack(text);
      var kept := Prune(pids, count, pid, alive);
      if add {
        if kept >= PIDS_MAX {
          return false;
        }
        ghost var survivors := pids[..kept];
        pids[kept] := pid;
        kept := kept + 1;
        assert pids[..kept] == survivors + [pid];
      }
      var sorted := Sorted(pids[..kept]);
      var rendered;
      ok, rendered := Render(sorted);
      if ok {
        text := Overlay(rendered, text);
        text := text[..|rendered|];
      }
    }
  }

  // -------------------------------------------------------------- every run

  /** A list as the file keeps it. */
  predicate WellKept(pids: seq<int>) {
    ArePids(pids) && StrictlyAscending(pids) && |pids| <= PIDS_MAX
  }

  lemma {:induction false} PrintHasNoNul(pids: seq<int>)
    ensures forall i :: 0 <= i < |Print(pids)| ==> Print(pids)[i] != '\0'
  {
    if pids != [] {
      PrintHasNoNul(pids[1..]);
      var s := PrintInt(pids[0]);
      assert forall i :: 0 <= i < |s| ==> s[i] == '-' || IsDigit(s[i]);
    }
  }

  lemma {:induction false} CStringWhole(text: string)
    requires forall i :: 0 <= i < |text| ==> text[i] != '\0'
    ensures CString(text) == text
  {
    if text != "" { CStringWhole(text[1..]); }
  }

  /** A kept list survives the trip through the file. */
  lemma ReadBackPrint(pids: seq<int>)
    requires ArePids(pids) && |pids| <= PIDS_MAX
    ensures ReadBack(Print(pids)) == pids
  {
    RenderFits(pids);
    PrintHasNoNul(pids);
    CStringWhole(Print(pids));
    ParsePrint(pids);
  }

  lemma {:induction false} SurvivorsMembers(pids: seq<int>, pid: int, alive: int -> bool)
    ensures forall p :: p in Survivors(pids, pid, alive) <==> p in pids && p != pid && alive(p)
    decreases |pids|
  {
    if pids != [] {
      SurvivorsMembers(pids[1..], pid, alive);
      assert pids == [pids[0]] + pids[1..];
    }
  }

  lemma {:induction false} SurvivorsKept(pids: seq<int>, pid: int, alive: int -> bool)
    requires StrictlyAscending(pids)
    ensures StrictlyAscending(Survivors(pids, pid, alive)) && |Survivors(pids, pid, alive)| <= |pids|
    decreases |pids|
  {
    if pids != [] {
      SurvivorsKept(pids[1..], pid, alive);
      SurvivorsMembers(pids[1..], pid, alive);
      var s := Survivors(pids[1..], pid, alive);
      forall k | 0 <= k < |s| ensures pids[0] < s[k] {
        assert s[k] in pids[1..];
      }
    }
  }

  /** Sorting a list without repetitions. */
  lemma SortedKept(s: seq<int>)
    requires ArePids(s) && forall i, j :: 0 <= i < j < |s| ==> s[i] != s[j]
    ensures StrictlyAscending(Sorted(s)) && ArePids(Sorted(s)) && |Sorted(s)| == |s|
    ensures forall p :: p in Sorted(s) <==> p in s
  {
    SortedAscends(s);
    var t := Sorted(s);
    forall p ensures p in t <==> p in s {
      assert p in t <==> p in multiset(t);
      assert p in s <==> p in multiset(s);
    }
    DistinctCounts(s);
    forall i, j | 0 <= i < j < |t| ensures t[i] < t[j] {
      if t[i] == t[j] {
        TwiceCounts(t, i, j);
        assert false;
      }
    }
    forall i | 0 <= i < |t| ensures IsPid(t[i]) { assert t[i] in s; }
  }

  lemma {:induction false} DistinctCounts(s: seq<int>)
    requires forall i, j :: 0 <= i < j < |s| ==> s[i] != s[j]
    ensures forall p :: p in s ==> multiset(s)[p] == 1
  {
    if s != [] {
      var r := s[..|s| - 1];
      DistinctCounts(r);
      assert s == r + [s[|s| - 1]];
    }
  }

  lemma TwiceCounts(t: seq<int>, i: nat, j: nat)
    requires i < j < |t| && t[i] == t[j]
    ensures multiset(t)[t[i]] >= 2
  {
    assert t == t[..i] + [t[i]] + t[i + 1..j] + [t[j]] + t[j + 1..];
  }

  /** One update of a kept list: the live pids it held, minus `pid`, plus `pid` when
      adding -- kept again, and refused only when that would be 257. */
  lemma UpdateKeeps(pids: seq<int>, pid: int, add: bool, alive: int -> bool)
    requires WellKept(pids) && IsPid(pid)
    ensures var next := Updated(pids, pid, add, alive);
      && (next.None? <==> add && pid !in pids && |pids| == 256 && forall p :: p in pids ==> alive(p))
      && (next.Some? ==>
            && WellKept(next.value)
            && forall p :: p in next.value <==> (p in pids && p != pid && alive(p)) || (add && p == pid))
  {
    hide Survivors, Sorted;
    SurvivorsKept(pids, pid, alive);
    SurvivorsMembers(pids, pid, alive);
    var s := Survivors(pids, pid, alive);
    assert forall i :: 0 <= i < |s| ==> s[i] in s;
    if !add {
      SortedKept(s);
    } else if |s| < PIDS_MAX {
      forall i | 0 <= i < |s| ensures s[i] != pid { assert s[i] in s; }
      SortedKept(s + [pid]);
      if pid !in pids && forall p :: p in pids ==> alive(p) {
        assert forall i :: 0 <= i < |pids| ==> pids[i] in pids;
        NoneLost(pids, pid, alive);
      }
    } else {
      AllSurvive(pids, pid, alive);
    }
  }

  lemma {:induction false} AllSurvive(pids: seq<int>, pid: int, alive: int -> bool)
    requires |Survivors(pids, pid, alive)| == |pids|
    ensures forall p :: p in pids ==> p != pid && alive(p)
    decreases |pids|
  {
    if pids != [] {
      SurvivorsAtMost(pids[1..], pid, alive);
      AllSurvive(pids[1..], pid, alive);
      assert pids == [pids[0]] + pids[1..];
    }
  }

  lemma {:induction false} NoneLost(pids: seq<int>, pid: int, alive: int -> bool)
    requires forall i :: 0 <= i < |pids| ==> pids[i] != pid && alive(pids[i])
    ensures Survivors(pids, pid, alive) == pids
    decreases |pids|
  {
    if pids != [] {
      NoneLost(pids[1..], pid, alive);
    }
  }

  lemma {:induction false} SurvivorsAtMost(pids: seq<int>, pid: int, alive: int -> bool)
    ensures |Survivors(pids, pid, alive)| <= |pids|
    decreases |pids|
  {
    if pids != [] { SurvivorsAtMost(pids[1..], pid, alive); }
  }

  datatype Request = Request(pid: int, add: bool, alive: int -> bool)

  /** The list after a run of requests; a refused one changes nothing. */
  function AfterAll(pids: seq<int>, requests: seq<Request>): seq<int>
    decreases |requests|
  {
    if requests == [] then pids
    else
      var r := requests[0];
      var next := Updated(pids, r.pid, r.add, r.alive);
      AfterAll(if next.Some? then next.value else pids, requests[1..])
  }

  /** Every run of requests on a fresh session leaves the file holding exactly the
      printed list, strictly ascending and of at most 256 pids. */
  method RunAll(f: SessionFile, ghost pids: seq<int>, requests: seq<Request>)
    requires WellKept(pids) && if f.present then f.text == Print(pids) else pids == [] && f.text == ""
    requires forall r :: r in requests ==> IsPid(r.pid)
    modifies f
    ensures WellKept(AfterAll(pids, requests)) && f.text == Print(AfterAll(pids, requests))
    decreases |requests|
  {
    if requests != [] {
      var r := requests[0];
      UpdateKeeps(pids, r.pid, r.add, r.alive);
      ReadBackPrint(pids);
      ghost var next := Updated(pids, r.pid, r.add, r.alive);
      if next.Some? { RenderFits(next.value); }
      var _ := f.Update(r.pid, r.add, r.alive);
      RunAll(f, if next.Some? then next.value else pids, requests[1..]);
    }
  }
}
