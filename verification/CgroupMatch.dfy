/** "Is this pid's cgroup ours?", library/include/cgroup_match.h: scanning
    characters to answer a question about path components. */
module CgroupMatch {
  import opened Common

  datatype Match = Foreign | Ours | NeedsMode

  // -------------------------------------------------------------- components

  function FirstSlash(s: string): nat { IndexOf(s, '/') }

  /** The parts of a path between its slashes; an absolute path starts with "". */
  function Split(s: string): (parts: seq<string>)
    ensures |parts| >= 1 && parts[0] == s[..FirstSlash(s)]
    decreases |s|
  {
    var n := FirstSlash(s);
    if n == |s| then [s] else [s[..n]] + Split(s[n + 1..])
  }

  function Join(parts: seq<string>): string
    requires |parts| >= 1
  {
    if |parts| == 1 then parts[0] else parts[0] + "/" + Join(parts[1..])
  }

  lemma JoinOne(s: string)
    ensures Join([s]) == s
  {
  }

  lemma JoinCons(head: string, parts: seq<string>)
    requires |parts| >= 1
    ensures Join([head] + parts) == head + "/" + Join(parts)
  {
    assert ([head] + parts)[1..] == parts;
  }

  /** Splitting loses nothing. */
  lemma {:induction false} JoinSplit(s: string)
    ensures Join(Split(s)) == s
    decreases |s|
  {
    hide IndexOf, Join, Split;
    var n := FirstSlash(s);
    SplitIs(s);
    if n < |s| {
      JoinSplit(s[n + 1..]);
      JoinCons(s[..n], Split(s[n + 1..]));
      CutAt(s, n);
    } else {
      JoinOne(s);
    }
  }

  // ------------------------------------------------------------------ escape

  /** "/.." stands at `i`. */
  predicate DotsAt(s: string, i: nat) {
    i + 3 <= |s| && s[i] == '/' && s[i + 1] == '.' && s[i + 2] == '.'
  }

  /** ... and ends a component. */
  predicate EscapeAt(s: string, i: nat) {
    DotsAt(s, i) && (i + 3 == |s| || s[i + 3] == '/')
  }

  /** strstr(s + p, "/.."). */
  method NextDots(s: string, p: nat) returns (r: Option<nat>)
    requires p <= |s|
    ensures r.Some? ==> p <= r.value && DotsAt(s, r.value) && forall i :: p <= i < r.value ==> !DotsAt(s, i)
    ensures r.None? ==> forall i :: p <= i < |s| ==> !DotsAt(s, i)
  {
    var i := p;
    while i < |s|
      invariant p <= i <= |s| && forall k :: p <= k < i ==> !DotsAt(s, k)
    {
      if DotsAt(s, i) {
        return Some(i);
      }
      i := i + 1;
    }
    return None;
  }

  ghost predicate Escapes(s: string) {
    exists i :: 0 <= i < |s| && EscapeAt(s, i)
  }

  /** Past its first slash a path escapes there, or in what follows. */
  lemma EscapesFrom(s: string)
    requires FirstSlash(s) < |s|
    ensures var n := FirstSlash(s); Escapes(s) <==> EscapeAt(s, n) || Escapes(s[n + 1..])
  {
    hide IndexOf;
    var n := FirstSlash(s);
    var rest := s[n + 1..];
    if Escapes(s) {
      var i :| 0 <= i < |s| && EscapeAt(s, i);
      assert i == n || EscapeAt(rest, i - n - 1);
    }
    if Escapes(rest) {
      var i :| 0 <= i < |rest| && EscapeAt(rest, i);
      assert EscapeAt(s, i + n + 1);
    }
  }

  /** The scan of the characters meets an escape exactly when a component past the
      first is "..". */
  lemma {:induction false} EscapeIsComponent(s: string)
    ensures Escapes(s) <==> ".." in Split(s)[1..]
    decreases |s|
  {
    hide Split, Escapes;
    var n := FirstSlash(s);
    SplitIs(s);
    if n == |s| {
      NoSlashNoEscape(s);
    } else {
      var rest := s[n + 1..];
      EscapeIsComponent(rest);
      EscapesFrom(s);
      FirstIsDots(s, n);
      assert Split(s)[1..] == Split(rest) == [Split(rest)[0]] + Split(rest)[1..];
    }
  }

  lemma NoSlashNoEscape(s: string)
    requires FirstSlash(s) == |s|
    ensures !Escapes(s)
  {
  }

  lemma FirstIsDots(s: string, n: nat)
    requires n < |s| && s[n] == '/'
    ensures EscapeAt(s, n) <==> Split(s[n + 1..])[0] == ".."
  {
    var rest := s[n + 1..];
    var k := FirstSlash(rest);
    assert Split(rest)[0] == rest[..k];
    if EscapeAt(s, n) {
      assert rest[0] == '.' && rest[1] == '.';
      assert k == 2;
    }
    if rest[..k] == ".." {
      assert rest[0] == rest[..k][0] && rest[1] == rest[..k][1];
    }
  }

  lemma NoEscape(s: string)
    requires forall i :: 0 <= i < |s| ==> !EscapeAt(s, i)
    ensures !Escapes(s)
  {
  }

  lemma AnEscape(s: string, i: nat)
    requires EscapeAt(s, i)
    ensures Escapes(s)
  {
  }

  /** cgroup_path_escapes_root. Jumping three characters past a non-escape misses
      nothing: no occurrence can start inside another. */
  method EscapesRoot(path: string) returns (r: bool)
    ensures r <==> ".." in Split(path)[1..]
  {
    hide Split, Escapes;
    EscapeIsComponent(path);
    var p := 0;
    while true
      invariant 0 <= p <= |path| && forall i :: 0 <= i < p ==> !EscapeAt(path, i)
      decreases |path| - p
    {
      var next := NextDots(path, p);
      if next.None? {
        NoEscape(path);
        return false;
      }
      p := next.value;
      if p + 3 == |path| || path[p + 3] == '/' {
        AnEscape(path, p);
        return true;
      }
      p := p + 3;
    }
  }

  // ------------------------------------------------------------------ prefix

  /** `self` is a prefix of `pid` that ends at a separator or at the end. */
  predicate PrefixOnBoundary(self: string, pid: string) {
    self <= pid && (|pid| == |self| || pid[|self|] == '/')
  }

  lemma SplitIs(s: string)
    ensures var n := FirstSlash(s);
      Split(s) == if n == |s| then [s] else [s[..n]] + Split(s[n + 1..])
  {
    hide IndexOf;
  }

  lemma PrefixCons<T>(a: T, x: seq<T>, b: T, y: seq<T>)
    ensures [a] + x <= [b] + y <==> a == b && x <= y
  {
    var p, q := [a] + x, [b] + y;
    assert p[1..] == x && q[1..] == y;
    if a == b && x <= y {
      assert y == x + y[|x|..];
      assert q == p + y[|x|..];
    }
    if p <= q {
      assert q == p + q[|p|..];
      assert p[0] == q[0];
      assert y == x + q[|p|..];
    }
  }

  lemma BoundaryAfter(h: string, a: string, b: string)
    ensures PrefixOnBoundary(h + a, h + b) <==> PrefixOnBoundary(a, b)
  {
    assert |a| < |b| ==> (h + b)[|h + a|] == b[|a|];
    if a <= b {
      assert b == a + b[|a|..];
      assert h + b == h + a + b[|a|..];
    }
    if h + a <= h + b {
      assert a == (h + a)[|h|..] && b == (h + b)[|h|..];
      assert forall i :: 0 <= i < |a| ==> a[i] == (h + a)[|h| + i] == (h + b)[|h| + i] == b[i];
    }
  }

  lemma HeadOfPrefix(self: string, pid: string)
    requires PrefixOnBoundary(self, pid) && FirstSlash(self) < |self|
    ensures var n := FirstSlash(self); FirstSlash(pid) == n && self[..n] == pid[..n]
  {
    var n := FirstSlash(self);
    assert forall i :: 0 <= i < |self| ==> self[i] == pid[i];
    assert pid[n] == '/';
  }

  lemma CutAt(s: string, n: nat)
    requires n < |s| && s[n] == '/'
    ensures s == s[..n] + "/" + s[n + 1..]
  {
  }

  /** One component of either path at a time. */
  lemma BoundaryCons(self: string, pid: string)
    requires FirstSlash(self) < |self| && FirstSlash(pid) < |pid|
    ensures var n, m := FirstSlash(self), FirstSlash(pid);
      PrefixOnBoundary(self, pid) <==> self[..n] == pid[..m] && PrefixOnBoundary(self[n + 1..], pid[m + 1..])
  {
    hide PrefixOnBoundary, IndexOf;
    var n, m := FirstSlash(self), FirstSlash(pid);
    CutAt(self, n);
    CutAt(pid, m);
    if PrefixOnBoundary(self, pid) { HeadOfPrefix(self, pid); }
    if self[..n] == pid[..m] {
      BoundaryAfter(self[..n] + "/", self[n + 1..], pid[m + 1..]);
    }
  }

  lemma BoundaryLast(self: string, pid: string)
    requires FirstSlash(self) == |self|
    ensures PrefixOnBoundary(self, pid) <==> self == pid[..FirstSlash(pid)]
  {
    var m := FirstSlash(pid);
    if PrefixOnBoundary(self, pid) {
      assert forall i :: 0 <= i < |self| ==> self[i] == pid[i];
      assert m == |self|;
    }
  }

  lemma BoundaryTooDeep(self: string, pid: string)
    requires FirstSlash(self) < |self| && FirstSlash(pid) == |pid|
    ensures !PrefixOnBoundary(self, pid)
  {
  }

  /** Character prefixes on a boundary are component prefixes: "/a/bc" is not under
      "/a/b". */
  lemma {:induction false} BoundaryIsComponents(self: string, pid: string)
    ensures PrefixOnBoundary(self, pid) <==> Split(self) <= Split(pid)
    decreases |self|
  {
    hide Split, PrefixOnBoundary;
    var n, m := FirstSlash(self), FirstSlash(pid);
    SplitIs(self);
    SplitIs(pid);
    if n == |self| {
      BoundaryLast(self, pid);
      PrefixCons(self, [], Split(pid)[0], Split(pid)[1..]);
      assert [self] + [] == [self] && Split(pid) == [Split(pid)[0]] + Split(pid)[1..];
    } else if m == |pid| {
      BoundaryTooDeep(self, pid);
    } else {
      BoundaryCons(self, pid);
      BoundaryIsComponents(self[n + 1..], pid[m + 1..]);
      PrefixCons(self[..n], Split(self[n + 1..]), pid[..m], Split(pid[m + 1..]));
    }
  }

  // ---------------------------------------------------------------- decision

  /** At the namespace root everything absolute is at or below us. */
  function Anchor(self: string): seq<string> {
    if self == "/" then [""] else Split(self)
  }

  /** The answer, over components. */
  function Decision(self: Option<string>, pid: Option<string>): Match {
    if self.None? || pid.None? || self.value == "" || !("/" <= pid.value) then Foreign
    else if self == pid then Ours
    else if ".." in Split(pid.value) then Foreign
    else if Anchor(self.value) <= Split(pid.value) then Ours
    else NeedsMode
  }

  /** cgroup_path_match: decides over characters what Decision says over components,
      for every pair of strings. */
  method PathMatch(self: Option<string>, pid: Option<string>) returns (r: Match)
    ensures r == Decision(self, pid)
  {
    if self.None? || pid.None? || self.value == "" {
      return Foreign;
    }
    if pid.value == "" || pid.value[0] != '/' {
      return Foreign;
    }
    if self.value == pid.value {
      return Ours;
    }
    AbsoluteStartsEmpty(pid.value);
    BoundaryIsComponents(self.value, pid.value);
    var escapes := EscapesRoot(pid.value);
    if escapes {
      return Foreign;
    }
    if self.value == "/" {
      return Ours;
    }
    if PrefixOnBoundary(self.value, pid.value) {
      return Ours;
    }
    return NeedsMode;
  }

  lemma AbsoluteStartsEmpty(s: string)
    requires "/" <= s
    ensures Split(s)[0] == "" && Split(s) == [""] + Split(s)[1..]
    ensures ".." in Split(s) <==> ".." in Split(s)[1..]
  {
    assert s[0] == '/';
    assert FirstSlash(s) == 0;
  }

  /** What a verdict means: ours is exactly equal, or free of ".." and at or below
      our own components; a settled "not ours" of an absolute path is exactly one
      that leaves the namespace root. */
  lemma VerdictMeaning(self: string, pid: string)
    requires self != "" && "/" <= pid
    ensures Decision(Some(self), Some(pid)) == Ours <==>
      self == pid || (".." !in Split(pid) && (self == "/" || Split(self) <= Split(pid)))
    ensures Decision(Some(self), Some(pid)) == Foreign <==> self != pid && ".." in Split(pid)
  {
    AbsoluteStartsEmpty(pid);
  }

  /** A path that is missing, our own being empty, or one that is not absolute is never
      ours; and nothing but a path that leaves the root is settled against us. */
  lemma MissingIsForeign(self: Option<string>, pid: Option<string>)
    requires self.None? || pid.None? || self.value == "" || pid.value == "" || pid.value[0] != '/'
    ensures Decision(self, pid) == Foreign
  {
  }

  /** Ours is inherited downwards: what lies below a cgroup of ours is ours. */
  lemma OursBelow(self: string, pid: string, below: string)
    requires self != "" && "/" <= pid && ".." !in Split(below)
    requires Decision(Some(self), Some(pid)) == Ours && PrefixOnBoundary(pid, below)
    ensures Decision(Some(self), Some(below)) == Ours
  {
    BoundaryIsComponents(pid, below);
    VerdictMeaning(self, pid);
    AbsoluteStartsEmpty(below);
    VerdictMeaning(self, below);
  }
}
