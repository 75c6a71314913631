/** The accounting path's reader of pids.config, get_container_pids_by_filepath in
    library/src/util.c: it gives up on the lock after a millisecond and may read while
    the list is being rewritten. What it reads then, and exactly when that is no more
    than old pids after the new ones. */
module PidReader {
  import opened Arith
  import opened Common
  import opened PidText
  import opened SessionPids

  // --------------------------------------------------------- the line reader

  const LINE_CHARS := 31   // a buffer of 32 bytes less its NUL

  /** What fgets takes: a line with its newline, or as much as the buffer holds. */
  function PieceLength(text: string): (n: nat)
    requires text != ""
    ensures 1 <= n <= |text|
  {
    Min(Min(LineLength(text) + 1, |text|), LINE_CHARS)
  }

  /** The text strtol leaves at endptr; all of it when no digit was read. */
  function StrtolRest(s: string): string {
    var t := SkipSpaces(s);
    var d := if t != "" && (t[0] == '-' || t[0] == '+') then t[1..] else t;
    var n := DigitRun(d);
    if n == 0 then s else d[n..]
  }

  /** A piece counts only if its number runs to the newline or the end of the string. */
  function Accepted(piece: string): seq<int> {
    var s := CString(piece);
    var rest := StrtolRest(s);
    var v := Strtol(s);
    if v.Some? && (rest == "" || rest[0] == '\n') && IsPid(v.value) then [v.value] else []
  }

  /** Every pid the reader takes from the text, in order. */
  function ReadLines(text: string): seq<int>
    decreases |text|
  {
    if text == "" then []
    else Accepted(text[..PieceLength(text)]) + ReadLines(text[PieceLength(text)..])
  }

  /** The fgets loop: the pids of the text, as many as the caller has room for. */
  method ContainerPids(text: string, pids: array<int>) returns (count: nat)
    modifies pids
    ensures count <= pids.Length && pids[..count] == Take(ReadLines(text), pids.Length)
  {
    hide Accepted, PieceLength;
    count := 0;
    var rest := text;
    ghost var all := ReadLines(text);
    while rest != "" && count < pids.Length
      invariant count <= pids.Length
      invariant all == pids[..count] + ReadLines(rest)
      decreases |rest|
    {
      var n := PieceLength(rest);
      var piece := rest[..n];
      AtMostOne(piece);
      ghost var done := pids[..count];
      ghost var more := ReadLines(rest[n..]);
      Assoc(done, Accepted(piece), more);
      rest := rest[n..];
      var s := CString(piece);
      var left, v := StrtolRest(s), Strtol(s);
      AcceptedIs(piece);
      if v.None? || (left != "" && left[0] != '\n') {
        assert done + [] == done;
        continue;
      }
      if v.value <= 0 || v.value > INT_MAX {
        assert done + [] == done;
        continue;
      }
      pids[count] := v.value;
      count := count + 1;
      assert pids[..count] == done + [v.value];
    }
  }

  lemma AtMostOne(piece: string)
    ensures |Accepted(piece)| <= 1
  {
  }

  lemma AcceptedIs(piece: string)
    ensures var s := CString(piece); var left, v := StrtolRest(s), Strtol(s);
      Accepted(piece) == if v.None? || (left != "" && left[0] != '\n') || !IsPid(v.value) then [] else [v.value]
  {
  }

  // ------------------------------------------------------- the readers agree

  /** Lines of at most thirty digits, each ended by a newline. */
  predicate ShortLines(text: string)
    decreases |text|
  {
    text == "" ||
    var n := LineLength(text);
    n < |text| && n < LINE_CHARS && AllDigits(text[..n]) && ShortLines(text[n + 1..])
  }

  lemma LineLonger(p: int)
    requires p >= 0
    ensures |Line(p)| == |Digits(p)| + 1
  {
  }

  lemma AcceptedDigits(s: string)
    requires AllDigits(s)
    ensures Accepted(s + "\n") == if s != "" && IsPid(Value(s)) then [Value(s)] else []
  {
    var t := s + "\n";
    CStringWhole(t);
    if s == "" {
      assert t[1..] == "" && SkipSpaces(t) == SkipSpaces("") == "";
    } else {
      assert IsDigit(s[0]) && t[0] == s[0];
      assert SkipSpaces(t) == t;
      DigitRunStops(s, "\n");
      assert t[..|s|] == s && t[|s|..] == "\n";
    }
  }

  /** In general: blanks, one sign and digits count if nothing but a newline follows them,
      and only for a pid. */
  lemma AcceptedReads(spaces: string, sign: string, d: string, rest: string)
    requires (forall i :: 0 <= i < |spaces| ==> IsSpace(spaces[i])) && sign in {"", "+", "-"}
    requires AllDigits(d) && (rest != "" ==> !IsDigit(rest[0])) && d != ""
    requires forall i :: 0 <= i < |rest| ==> rest[i] != '\0'
    ensures Accepted(spaces + (sign + (d + rest))) ==
      if (rest == "" || rest[0] == '\n') && sign != "-" && IsPid(Value(d)) then [Value(d)] else []
  {
    hide Strtol, Value, CString;
    var t := sign + (d + rest);
    assert forall i :: 0 <= i < |d| ==> IsDigit(d[i]);
    CStringWhole(spaces + t);
    StrtolReads(spaces, sign, d, rest);
    RestReads(spaces, sign, d, rest);
  }

  lemma RestReads(spaces: string, sign: string, d: string, rest: string)
    requires (forall i :: 0 <= i < |spaces| ==> IsSpace(spaces[i])) && sign in {"", "+", "-"}
    requires AllDigits(d) && (rest != "" ==> !IsDigit(rest[0])) && d != ""
    ensures StrtolRest(spaces + (sign + (d + rest))) == rest
  {
    hide SkipSpaces, DigitRun;
    var t := sign + (d + rest);
    assert IsDigit(d[0]);
    SkipSpacesAll(spaces, t);
    DigitRunStops(d, rest);
    Unsigned(sign, d + rest);
    Dropped(d, rest);
  }

  lemma Unsigned(sign: string, s: string)
    requires sign in {"", "+", "-"} && s != "" && IsDigit(s[0])
    ensures var t := sign + s; (if t != "" && (t[0] == '-' || t[0] == '+') then t[1..] else t) == s
  {
    assert sign == "" ==> sign + s == s;
    assert sign != "" ==> (sign + s)[1..] == s;
  }

  lemma Dropped(d: string, rest: string)
    ensures (d + rest)[|d|..] == rest
  {
  }

  /** A line too long for the buffer is read 31 characters at a time. */
  lemma LongLine(text: string)
    requires |text| > 31 && forall i :: 0 <= i < 31 ==> text[i] != '\n'
    ensures ReadLines(text) == Accepted(text[..31]) + ReadLines(text[31..])
  {
    hide Accepted;
  }

  lemma ReadsLine(s: string, rest: string)
    requires AllDigits(s) && |s| < LINE_CHARS
    ensures ReadLines(s + "\n" + rest) == (if s != "" && IsPid(Value(s)) then [Value(s)] else []) + ReadLines(rest)
  {
    hide Accepted, Value, IndexOf;
    var text := s + "\n" + rest;
    assert forall i :: 0 <= i < |s| ==> IsDigit(s[i]);
    LineLengthAt(s, rest);
    AcceptedDigits(s);
    assert text[..|s| + 1] == s + "\n" && text[|s| + 1..] == rest;
  }

  /** On such text the lenient reader and the locked one see the same pids. */
  lemma {:induction false} ReadersAgree(text: string)
    requires ShortLines(text)
    ensures ReadLines(text) == Parse(text)
    decreases |text|
  {
    if text != "" {
      var n := LineLength(text);
      var s, rest := text[..n], text[n + 1..];
      assert text == s + "\n" + rest;
      hide ReadLines, Parse, IndexOf, Value, ShortLines;
      ReadsLine(s, rest);
      ParseDigitsLine(s, rest);
      ReadersAgree(rest);
    }
  }

  lemma ShortLine(s: string, rest: string)
    requires AllDigits(s) && |s| < LINE_CHARS && ShortLines(rest)
    ensures ShortLines(s + "\n" + rest)
  {
    var text := s + "\n" + rest;
    assert forall i :: 0 <= i < |s| ==> IsDigit(s[i]);
    LineLengthAt(s, rest);
    assert text[..|s|] == s && text[|s| + 1..] == rest;
  }

  lemma {:induction false} ShortPrint(pids: seq<int>, rest: string)
    requires ArePids(pids) && ShortLines(rest)
    ensures ShortLines(Print(pids) + rest)
    decreases |pids|
  {
    hide ShortLines, Digits;
    if pids == [] {
      assert Print(pids) + rest == rest;
    } else {
      ShortPrint(pids[1..], rest);
      TenDigits(pids[0]);
      ShortLine(Digits(pids[0]), Print(pids[1..]) + rest);
      Assoc(Line(pids[0]), Print(pids[1..]), rest);
    }
  }

  lemma ShortEmpty()
    ensures ShortLines("")
  {
  }

  lemma {:induction false} ShortLeftover(pids: seq<int>, at: nat)
    requires ArePids(pids) && at <= |Print(pids)|
    ensures ShortLines(Print(pids)[at..])
    decreases |pids|
  {
    hide ShortLines, Digits;
    if at == 0 {
      ShortEmpty();
      ShortPrint(pids, "");
      assert Print(pids)[0..] == Print(pids) + "";
    } else {
      var p, more := pids[0], Print(pids[1..]);
      LineLonger(p);
      if at >= |Line(p)| {
        assert Print(pids)[at..] == more[at - |Line(p)|..];
        ShortLeftover(pids[1..], at - |Line(p)|);
      } else {
        var s := Digits(p)[at..];
        assert Print(pids)[at..] == s + "\n" + more;
        TenDigits(p);
        ShortEmpty();
        ShortPrint(pids[1..], "");
        assert more + "" == more;
        ShortLine(s, more);
      }
    }
  }

  /** Between the write and the truncation too. */
  lemma ReadersAgreeMidWrite(now: seq<int>, before: seq<int>)
    requires ArePids(now) && ArePids(before)
    ensures ReadLines(Overlay(Print(now), Print(before))) == Parse(Overlay(Print(now), Print(before)))
  {
    hide ShortLines, ReadLines, Parse;
    ShortEmpty();
    if |Print(now)| < |Print(before)| {
      ShortLeftover(before, |Print(now)|);
      ShortPrint(now, Print(before)[|Print(now)|..]);
    } else {
      ShortPrint(now, "");
      assert Print(now) + "" == Print(now);
    }
    ReadersAgree(Overlay(Print(now), Print(before)));
  }

  // ------------------------------------------------------- reading mid-write

  /** The trailing digits of a pid whose first `r` characters were overwritten. */
  function Fragment(p: int, r: nat): seq<int>
    requires IsPid(p) && r <= |Digits(p)|
  {
    var v := p % Pow10(|Digits(p)| - r);
    if v > 0 then [v] else []
  }

  /** What reading the old list from character `at` on yields. */
  function Leftover(pids: seq<int>, at: nat): seq<int>
    requires ArePids(pids) && at <= |Print(pids)|
    decreases |pids|
  {
    if pids == [] || at == 0 then pids
    else if at >= |Line(pids[0])| then Leftover(pids[1..], at - |Line(pids[0])|)
    else Fragment(pids[0], at) + pids[1..]
  }

  lemma {:induction false} ParseLeftover(pids: seq<int>, at: nat)
    requires ArePids(pids) && at <= |Print(pids)|
    ensures Parse(Print(pids)[at..]) == Leftover(pids, at)
    decreases |pids|
  {
    hide Parse, Line, Fragment;
    if pids == [] || at == 0 {
      ParsePrint(pids);
      assert at == 0 ==> Print(pids)[at..] == Print(pids);
    } else {
      var p, more := pids[0], Print(pids[1..]);
      LineLonger(p);
      if at >= |Line(p)| {
        assert Print(pids)[at..] == more[at - |Line(p)|..];
        ParseLeftover(pids[1..], at - |Line(p)|);
      } else {
        assert Print(pids)[at..] == Line(p)[at..] + more;
        ParseFragment(p, at, more);
        ParsePrint(pids[1..]);
      }
    }
  }

  lemma ParseFragment(p: int, at: nat, more: string)
    requires IsPid(p) && at <= |Digits(p)|
    ensures Parse(Line(p)[at..] + more) == Fragment(p, at) + Parse(more)
  {
    hide Digits, Parse, Value;
    var s := Digits(p)[at..];
    assert Line(p)[at..] + more == s + "\n" + more;
    SuffixValue(p, at);
    ModAtMost(p, Pow10(|Digits(p)| - at));
    assert s == "" ==> Pow10(|Digits(p)| - at) == 1;
    ParseDigitsLine(s, more);
  }

  lemma ModAtMost(n: nat, d: nat)
    requires d > 0
    ensures n % d <= n
  {
    QuotientAtLeast(n, d, 0);
    assert d * (n / d) + n % d == n;
    MulMono(0, n / d, d);
  }

  /** What is left of the old list while the new one is in place. */
  function Stale(now: seq<int>, before: seq<int>): seq<int>
    requires ArePids(now) && ArePids(before)
  {
    if |Print(now)| < |Print(before)| then Leftover(before, |Print(now)|) else []
  }

  lemma ParseMidWrite(now: seq<int>, before: seq<int>)
    requires ArePids(now) && ArePids(before)
    ensures Parse(Overlay(Print(now), Print(before))) == now + Stale(now, before)
  {
    ParsePrint(now);
    if |Print(now)| < |Print(before)| {
      ParsePrintThen(now, Print(before)[|Print(now)|..]);
      ParseLeftover(before, |Print(now)|);
    } else {
      assert now + [] == now;
    }
  }

  /** A reader that lands between the write and the truncation gets the whole new
      list, followed by what is left of the old one: a number made of the last
      digits of the pid the cut fell in, if it fell in one, and the pids after it. */
  lemma ReadMidWrite(now: seq<int>, before: seq<int>)
    requires ArePids(now) && ArePids(before)
    ensures ReadLines(Overlay(Print(now), Print(before))) == now + Stale(now, before)
  {
    ReadersAgreeMidWrite(now, before);
    ParseMidWrite(now, before);
  }

  /** At least the new list is never short. */
  lemma NeverShort(now: seq<int>, before: seq<int>)
    requires ArePids(now) && ArePids(before)
    ensures now <= ReadLines(Overlay(Print(now), Print(before)))
  {
    ReadMidWrite(now, before);
  }

  // ------------------------------------------------- when only old pids follow

  /** The number spelt by what is left of the pid a cut at `at` falls in; 0 when it
      falls between two lines, after a pid's last digit, or before zeros only. */
  function CutDigits(pids: seq<int>, at: nat): nat
    requires ArePids(pids) && at <= |Print(pids)|
    decreases |pids|
  {
    if pids == [] || at == 0 then 0
    else if at >= |Line(pids[0])| then CutDigits(pids[1..], at - |Line(pids[0])|)
    else pids[0] % Pow10(|Digits(pids[0])| - at)
  }

  ghost predicate IsSuffix(a: seq<int>, b: seq<int>) {
    |a| <= |b| && a == b[|b| - |a|..]
  }

  /** What is left of a pid after losing its first digit is a smaller number. */
  lemma CutIsSmaller(p: int, at: nat)
    requires IsPid(p) && 1 <= at <= |Digits(p)|
    ensures p % Pow10(|Digits(p)| - at) < p
  {
    DigitsBelow(p);
    var len := |Digits(p)|;
    PowMono(len - at, len - 1);
    if p < 10 {
      assert len == 1 && Pow10(0) == 1;
    }
  }

  lemma {:induction false} PowMono(a: nat, b: nat)
    requires a <= b
    ensures Pow10(a) <= Pow10(b)
  {
    if a < b { PowMono(a, b - 1); }
  }

  lemma {:induction false} LeftoverIsOld(pids: seq<int>, at: nat)
    requires ArePids(pids) && at <= |Print(pids)|
    ensures |Leftover(pids, at)| <= |pids|
    ensures IsSuffix(Leftover(pids, at), pids) <==> CutDigits(pids, at) == 0
    decreases |pids|
  {
    hide Line, Pow10, Digits;
    if pids != [] && at > 0 {
      var p, left := pids[0], Leftover(pids, at);
      LineLonger(p);
      if at >= |Line(p)| {
        LeftoverIsOld(pids[1..], at - |Line(p)|);
        assert pids[|pids| - |left|..] == pids[1..][|pids[1..]| - |left|..];
      } else {
        CutIsSmaller(p, at);
        if CutDigits(pids, at) > 0 {
          assert left[0] < p && |left| == |pids|;
        } else {
          assert left == pids[1..];
        }
      }
    }
  }

  /** The promise that only old pids follow the new list holds exactly when the list
      did not shrink, or the new text does not end inside the digits of an old pid
      (trailing zeros aside). */
  lemma StaleIsOld(now: seq<int>, before: seq<int>)
    requires ArePids(now) && ArePids(before)
    ensures (exists rest: seq<int> :: IsSuffix(rest, before)
              && ReadLines(Overlay(Print(now), Print(before))) == now + rest)
      <==> |Print(now)| >= |Print(before)| || CutDigits(before, |Print(now)|) == 0
  {
    hide ReadLines, Print, Leftover, CutDigits;
    ReadMidWrite(now, before);
    var stale := Stale(now, before);
    if |Print(now)| < |Print(before)| {
      LeftoverIsOld(before, |Print(now)|);
    } else {
      assert IsSuffix([], before);
    }
    assert IsSuffix(stale, before) <==> |Print(now)| >= |Print(before)| || CutDigits(before, |Print(now)|) == 0;
    forall rest: seq<int> | now + rest == now + stale ensures rest == stale {
      assert (now + rest)[|now|..] == rest && (now + stale)[|now|..] == stale;
    }
  }

  /** It can fail: dropping 7 from [7, 123] lets a reader see 3. */
  lemma LeftoverCanInvent()
    ensures ReadLines(Overlay(Print([123]), Print([7, 123]))) == [123, 3]
  {
    hide Digits, ReadLines, Overlay;
    DigitCounts();
    assert [123][1..] == [] && [7, 123][1..] == [123];
    assert |Line(7)| == 2 && |Line(123)| == 4;
    assert |Print([])| == 0 && |Print([123])| == 4 && |Print([7, 123])| == 6;
    ReadMidWrite([123], [7, 123]);
    LeftoverHere();
  }

  lemma LeftoverHere()
    requires |Print([123])| == 4 && |Print([7, 123])| == 6
    ensures Leftover([7, 123], 4) == [3]
  {
    DigitCounts();
    hide Digits;
    assert [123][1..] == [] && [7, 123][1..] == [123];
    assert |Line(7)| == 2 && |Line(123)| == 4;
    assert Pow10(1) == 10 && Fragment(123, 2) == [3];
    assert Leftover([7, 123], 4) == Leftover([123], 2) == Fragment(123, 2) + [];
  }

  lemma DigitCounts()
    ensures |Digits(7)| == 1 && |Digits(123)| == 3
  {
    assert |Digits(1)| == 1 && |Digits(12)| == 2;
  }
}
