/** The text of pids.config: printing a list of pids one per line, and reading it
    back the way strtok_r and strtol do. */
module PidText {
  import opened Arith
  import opened Common

  const INT_MAX := 0x7FFF_FFFF

  // ----------------------------------------------------------------- decimal

  function DigitChar(d: nat): (c: char)
    requires d < 10
    ensures IsDigit(c) && DigitValue(c) == d
  {
    ['0', '1', '2', '3', '4', '5', '6', '7', '8', '9'][d]
  }

  predicate IsDigit(c: char) { '0' <= c <= '9' }

  function DigitValue(c: char): nat
    requires IsDigit(c)
  {
    c as int - '0' as int
  }

  predicate AllDigits(s: string) { forall i :: 0 <= i < |s| ==> IsDigit(s[i]) }

  function Digits(n: nat): (s: string)
    ensures s != "" && AllDigits(s)
  {
    if n < 10 then [DigitChar(n)] else Digits(n / 10) + [DigitChar(n % 10)]
  }

  function Value(s: string): nat
    requires AllDigits(s)
  {
    if s == "" then 0 else Value(s[..|s| - 1]) * 10 + DigitValue(s[|s| - 1])
  }

  function Pow10(k: nat): (r: nat)
    ensures r >= 1
  {
    if k == 0 then 1 else 10 * Pow10(k - 1)
  }

  /** The last k digits of n spell n mod 10^k. */
  lemma {:induction false} SuffixValue(n: nat, r: nat)
    requires r <= |Digits(n)|
    ensures Value(Digits(n)[r..]) == n % Pow10(|Digits(n)| - r)
    decreases n
  {
    var s := Digits(n);
    if r < |s| {
      var k := |s| - r;
      assert s[r..][..k - 1] == s[r..|s| - 1] && s[r..][k - 1] == s[|s| - 1];
      if n < 10 {
        assert s[r..] == s;
      } else {
        assert s[r..|s| - 1] == Digits(n / 10)[r..];
        SuffixValue(n / 10, r);
        ModStep(n, Pow10(k - 1));
      }
    }
  }

  lemma ModStep(n: nat, p: nat)
    requires p >= 1
    ensures n / 10 % p * 10 + n % 10 == n % (10 * p)
  {
    var q, t := n / 10 / p, n / 10 % p;
    assert n == 10 * (q * p + t) + n % 10;
    assert n == q * (10 * p) + (t * 10 + n % 10);
    ModIs(n, 10 * p, q, t * 10 + n % 10);
  }

  lemma ModIs(n: int, d: int, q: int, r: int)
    requires d > 0 && n == q * d + r && 0 <= r < d
    ensures n % d == r
  {
    QuotientIs(n, d, q);
  }

  lemma {:induction false} DigitsBelow(n: nat)
    ensures n < Pow10(|Digits(n)|) && (n >= 10 ==> Pow10(|Digits(n)| - 1) <= n)
  {
    if n >= 10 {
      DigitsBelow(n / 10);
    }
  }

  /** Printing and reading a number back. */
  lemma ValueOfDigits(n: nat)
    ensures Value(Digits(n)) == n
  {
    SuffixValue(n, 0);
    DigitsBelow(n);
    assert Digits(n)[0..] == Digits(n);
  }

  // ---------------------------------------------------------------- printing

  /** "%d". */
  function PrintInt(p: int): (s: string)
    ensures s != ""
  {
    if p < 0 then "-" + Digits(-p) else Digits(p)
  }

  function Line(p: int): string { PrintInt(p) + "\n" }

  function Print(pids: seq<int>): string {
    if pids == [] then "" else Line(pids[0]) + Print(pids[1..])
  }

  // ----------------------------------------------------------------- reading

  predicate IsSpace(c: char) { c == ' ' || '\t' <= c <= '\r' }

  function SkipSpaces(s: string): string {
    if s != "" && IsSpace(s[0]) then SkipSpaces(s[1..]) else s
  }

  function DigitRun(s: string): (n: nat)
    ensures n <= |s| && AllDigits(s[..n])
  {
    if s != "" && IsDigit(s[0]) then 1 + DigitRun(s[1..]) else 0
  }

  /** strtol in base 10: None when no digit was read. The value is not clamped to a
      long, which no caller here can tell: anything over INT_MAX is refused. */
  function Strtol(s: string): Option<int> {
    var t := SkipSpaces(s);
    var signed := t != "" && (t[0] == '-' || t[0] == '+');
    var d := if signed then t[1..] else t;
    var n := DigitRun(d);
    var v: int := Value(d[..n]);
    if n == 0 then None else Some(if signed && t[0] == '-' then -v else v)
  }

  lemma {:induction false} SkipSpacesAll(spaces: string, rest: string)
    requires (forall i :: 0 <= i < |spaces| ==> IsSpace(spaces[i])) && (rest != "" ==> !IsSpace(rest[0]))
    ensures SkipSpaces(spaces + rest) == rest
  {
    if spaces == "" {
      assert spaces + rest == rest;
    } else {
      assert (spaces + rest)[1..] == spaces[1..] + rest;
      SkipSpacesAll(spaces[1..], rest);
    }
  }

  lemma {:induction false} DigitRunStops(d: string, rest: string)
    requires AllDigits(d) && (rest != "" ==> !IsDigit(rest[0]))
    ensures DigitRun(d + rest) == |d|
  {
    if d == "" {
      assert d + rest == rest;
    } else {
      assert (d + rest)[1..] == d[1..] + rest;
      DigitRunStops(d[1..], rest);
    }
  }

  /** What strtol reads: leading blanks, one optional sign, digits, and then it stops
      wherever the digits do. */
  lemma StrtolReads(spaces: string, sign: string, d: string, rest: string)
    requires (forall i :: 0 <= i < |spaces| ==> IsSpace(spaces[i])) && sign in {"", "+", "-"}
    requires AllDigits(d) && (rest != "" ==> !IsDigit(rest[0]))
    requires d == "" && sign == "" ==> rest == "" || (!IsSpace(rest[0]) && rest[0] != '+' && rest[0] != '-')
    ensures Strtol(spaces + (sign + (d + rest))) ==
      if d == "" then None else Some(if sign == "-" then 0 - Value(d) else Value(d) + 0)
  {
    hide SkipSpaces, DigitRun, Value;
    var t := sign + (d + rest);
    SkipSpacesAll(spaces, t);
    DigitRunStops(d, rest);
    assert (d + rest)[..|d|] == d;
    if sign == "" {
      assert t == d + rest;
      assert t == "" || (t[0] != '-' && t[0] != '+');
    } else {
      assert t[1..] == d + rest && t[0] == sign[0];
    }
  }

  /** What a line of the file contributes: a pid in 1..INT_MAX, or nothing. */
  function Token(line: string): seq<int> {
    match Strtol(line)
    case Some(v) => if 0 < v <= INT_MAX then [v] else []
    case None => []
  }

  function LineLength(text: string): nat { IndexOf(text, '\n') }

  function AfterLine(text: string): string {
    var n := LineLength(text);
    if n < |text| then text[n + 1..] else ""
  }

  /** Every pid of the text, in order. Empty lines contribute nothing, which is how
      strtok_r skips them. */
  function Parse(text: string): seq<int>
    decreases |text|
  {
    if text == "" then [] else Token(text[..LineLength(text)]) + Parse(AfterLine(text))
  }

  // -------------------------------------------------------------- round trip

  predicate IsPid(p: int) { 0 < p <= INT_MAX }

  predicate ArePids(pids: seq<int>) { forall i :: 0 <= i < |pids| ==> IsPid(pids[i]) }

  lemma {:induction false} DigitRunAll(s: string)
    requires AllDigits(s)
    ensures DigitRun(s) == |s|
  {
    if s != "" { DigitRunAll(s[1..]); }
  }

  lemma TokenOfDigits(s: string)
    requires AllDigits(s)
    ensures Token(s) == if s != "" && IsPid(Value(s)) then [Value(s)] else []
  {
    DigitRunAll(s);
    assert s[..|s|] == s;
    assert SkipSpaces(s) == s;
  }

  lemma {:induction false} LineLengthAt(line: string, rest: string)
    requires forall i :: 0 <= i < |line| ==> line[i] != '\n'
    ensures LineLength(line + "\n" + rest) == |line|
  {
    if line != "" {
      assert (line + "\n" + rest)[1..] == line[1..] + "\n" + rest;
      LineLengthAt(line[1..], rest);
    }
  }

  /** Reading a line of digits, then the rest. */
  lemma ParseDigitsLine(s: string, rest: string)
    requires AllDigits(s)
    ensures Parse(s + "\n" + rest) == (if s != "" && IsPid(Value(s)) then [Value(s)] else []) + Parse(rest)
  {
    var text := s + "\n" + rest;
    assert forall i :: 0 <= i < |s| ==> IsDigit(s[i]);
    LineLengthAt(s, rest);
    TokenOfDigits(s);
    assert text[..|s|] == s && AfterLine(text) == rest;
  }

  /** Lines are read one by one, whatever is on them; the last needs no newline. */
  lemma ParseAnyLine(line: string, rest: string)
    requires forall i :: 0 <= i < |line| ==> line[i] != '\n'
    ensures Parse(line + "\n" + rest) == Token(line) + Parse(rest)
    ensures line != "" ==> Parse(line) == Token(line)
  {
    hide Token;
    var text := line + "\n" + rest;
    LineLengthAt(line, rest);
    assert text[..|line|] == line && AfterLine(text) == rest;
    assert LineLength(line) == |line| && line[..|line|] == line;
  }

  lemma ParseLine(p: int, rest: string)
    requires IsPid(p)
    ensures Parse(Line(p) + rest) == [p] + Parse(rest)
  {
    ParseDigitsLine(Digits(p), rest);
    ValueOfDigits(p);
  }

  lemma Assoc<T>(a: seq<T>, b: seq<T>, c: seq<T>)
    ensures a + b + c == a + (b + c)
  {
  }

  /** Reading what was printed, followed by any text at all. */
  lemma {:induction false} ParsePrintThen(pids: seq<int>, rest: string)
    requires ArePids(pids)
    ensures Parse(Print(pids) + rest) == pids + Parse(rest)
    decreases |pids|
  {
    if pids == [] {
      assert Print(pids) + rest == rest;
    } else {
      hide Line, Parse;
      Assoc(Line(pids[0]), Print(pids[1..]), rest);
      ParseLine(pids[0], Print(pids[1..]) + rest);
      ParsePrintThen(pids[1..], rest);
      Assoc([pids[0]], pids[1..], Parse(rest));
      assert pids == [pids[0]] + pids[1..];
    }
  }

  /** The round trip. */
  lemma ParsePrint(pids: seq<int>)
    requires ArePids(pids)
    ensures Parse(Print(pids)) == pids
  {
    ParsePrintThen(pids, "");
    assert Print(pids) + "" == Print(pids) && pids + [] == pids;
  }

  // ---------------------------------------------------------------- rewriting

  /** The file between the pwrite of `text` and the ftruncate that shrinks it. */
  function Overlay(text: string, before: string): string {
    if |text| < |before| then text + before[|text|..] else text
  }
}
