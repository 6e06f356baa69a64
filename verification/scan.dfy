/**
  * The part of `sscanf` the loaders use: `%d` conversions and literal characters,
  * matched left to right until the first failure, and the decimal text such a
  * conversion reads back.
  */
module Scan {
  import opened Wrappers

  predicate IsDigit(c: char)
  {
    '0' <= c <= '9'
  }

  /** `isspace` in the C locale. */
  predicate IsSpace(c: char)
  {
    c == ' ' || c == '\t' || c == '\n' || c == '\r' || c == '\U{000B}' || c == '\U{000C}'
  }

  predicate AllDigits(s: string)
  {
    forall k :: 0 <= k < |s| ==> IsDigit(s[k])
  }

  /** The value of a string of decimal digits, most significant first. */
  function Value(ds: string): nat
    requires AllDigits(ds)
  {
    if ds == [] then 0 else 10 * Value(ds[..|ds| - 1]) + (ds[|ds| - 1] as int - '0' as int)
  }

  /** The decimal digits of n without leading zeros ("0" for zero). */
  function Digits(n: nat): (ds: string)
    ensures ds != [] && AllDigits(ds)
    ensures Value(ds) == n
  {
    var last := [('0' as int + n % 10) as char];
    if n < 10 then
      assert last[..0] == [];
      last
    else
      var init := Digits(n / 10);
      var ds := init + last;
      assert ds[..|ds| - 1] == init;
      ds
  }

  /** `printf("%d")`: an optional minus sign and the digits of the magnitude. */
  function Render(x: int): (s: string)
    ensures s != [] && (IsDigit(s[0]) || s[0] == '-')
    ensures forall k :: 0 <= k < |s| ==> IsDigit(s[k]) || (k == 0 && s[k] == '-')
  {
    if x < 0 then "-" + Digits(-x) else Digits(x)
  }

  /** The length of the run of leading characters satisfying the class. */
  function DigitRun(s: string): (n: nat)
    ensures n <= |s| && AllDigits(s[..n]) && (n < |s| ==> !IsDigit(s[n]))
  {
    if s == [] || !IsDigit(s[0]) then 0
    else
      var n := 1 + DigitRun(s[1..]);
      assert forall k :: 1 <= k < n ==> s[..n][k] == s[1..][..n - 1][k - 1];
      n
  }

  function SpaceRun(s: string): (n: nat)
    ensures n <= |s| && (n < |s| ==> !IsSpace(s[n]))
    ensures forall k :: 0 <= k < n ==> IsSpace(s[k])
  {
    if s == [] || !IsSpace(s[0]) then 0 else 1 + SpaceRun(s[1..])
  }

  /**
    * One `%d` conversion at the start of s: white space is skipped, an optional sign
    * read, then at least one digit is required. The result is the value and the
    * number of characters consumed.
    */
  function ScanInt(s: string): (r: Option<(int, nat)>)
    ensures r.Some? ==> 0 < r.value.1 <= |s|
    ensures r.Some? ==> r.value.1 == |s| || !IsDigit(s[r.value.1])
  {
    var j := SpaceRun(s);
    var k := if j < |s| && (s[j] == '-' || s[j] == '+') then j + 1 else j;
    var n := DigitRun(s[k..]);
    if n == 0 then None
    else
      var magnitude: int := Value(s[k..][..n]);
      var v: int := if k > j && s[j] == '-' then -magnitude else magnitude;
      Some((v, k + n))
  }

  lemma {:induction false} DigitRunOf(ds: string, rest: string)
    requires AllDigits(ds) && (rest == [] || !IsDigit(rest[0]))
    ensures DigitRun(ds + rest) == |ds|
  {
    if ds != [] {
      assert (ds + rest)[1..] == ds[1..] + rest;
      DigitRunOf(ds[1..], rest);
    }
  }

  /** A rendered number followed by a non-digit scans back to itself, consuming exactly its text. */
  lemma ScanRendered(x: int, rest: string)
    requires rest == [] || !IsDigit(rest[0])
    ensures ScanInt(Render(x) + rest) == Some((x, |Render(x)|))
  {
    var s := Render(x) + rest;
    var ds := if x < 0 then Digits(-x) else Digits(x);
    assert SpaceRun(s) == 0;
    if x < 0 {
      assert s[1..] == ds + rest;
      DigitRunOf(ds, rest);
      assert s[1..][..|ds|] == ds;
    } else {
      assert s == ds + rest;
      DigitRunOf(ds, rest);
      assert s[..|ds|] == ds;
    }
  }

  /** An item of a `sscanf` format: a `%d` conversion or a character that must match. */
  datatype Item = Int | Lit(c: char)

  function Conversions(p: seq<Item>): nat
  {
    if p == [] then 0 else (if p[0].Int? then 1 else 0) + Conversions(p[1..])
  }

  /**
    * `sscanf(s, format)`: the values converted before the first item that fails to
    * match. Its return value is the number of these values.
    */
  function Sscanf(s: string, p: seq<Item>): (vals: seq<int>)
    ensures |vals| <= Conversions(p)
  {
    if p == [] then []
    else
      match p[0]
      case Int =>
        (match ScanInt(s)
         case None => []
         case Some(x) => [x.0] + Sscanf(s[x.1..], p[1..]))
      case Lit(c) =>
        if s != [] && s[0] == c then Sscanf(s[1..], p[1..]) else []
  }

  /** The text `printf` would produce for the format with these values. */
  function Print(p: seq<Item>, vals: seq<int>): string
    requires |vals| == Conversions(p)
  {
    if p == [] then []
    else
      match p[0]
      case Int => Render(vals[0]) + Print(p[1..], vals[1..])
      case Lit(c) => [c] + Print(p[1..], vals)
  }

  /** Every conversion is followed by a non-digit literal, so printed numbers do not run together. */
  predicate Separated(p: seq<Item>)
  {
    forall k :: 0 <= k < |p| && p[k].Int? ==> k + 1 == |p| || (p[k + 1].Lit? && !IsDigit(p[k + 1].c))
  }

  lemma SeparatedTail(p: seq<Item>)
    requires p != [] && Separated(p)
    ensures Separated(p[1..])
  {
    forall k | 0 <= k < |p[1..]| && p[1..][k].Int?
      ensures k + 1 == |p[1..]| || (p[1..][k + 1].Lit? && !IsDigit(p[1..][k + 1].c))
    {
      assert p[1..][k] == p[k + 1];
    }
  }

  /** The text after a printed conversion does not start with a digit. */
  lemma AfterConversion(p: seq<Item>, vals: seq<int>, rest: string)
    requires |vals| == Conversions(p) && p != [] && p[0].Int? && Separated(p)
    requires p[|p| - 1].Int? ==> rest == [] || !IsDigit(rest[0])
    ensures var tail := Print(p[1..], vals[1..]) + rest; tail == [] || !IsDigit(tail[0])
  {
    if |p| > 1 {
      assert p[1].Lit?;
      assert p[1..][0] == p[1];
    }
  }

  /** A literal at the head of the format consumes the matching character. */
  lemma SscanfLiteral(c: char, t: string, q: seq<Item>)
    ensures Sscanf([c] + t, [Lit(c)] + q) == Sscanf(t, q)
  {
    assert ([c] + t)[1..] == t;
    assert ([Lit(c)] + q)[1..] == q;
  }

  /** A conversion at the head of the format reads a rendered number followed by a non-digit. */
  lemma SscanfConversion(x: int, t: string, q: seq<Item>)
    requires t == [] || !IsDigit(t[0])
    ensures Sscanf(Render(x) + t, [Int] + q) == [x] + Sscanf(t, q)
  {
    ScanRendered(x, t);
    assert (Render(x) + t)[|Render(x)|..] == t;
    assert ([Int] + q)[1..] == q;
  }

  /** What `sscanf` reads back from a printed format is the values printed. */
  lemma {:induction false} SscanfPrint(p: seq<Item>, vals: seq<int>, rest: string)
    requires |vals| == Conversions(p) && Separated(p)
    requires p != [] && p[|p| - 1].Int? ==> rest == [] || !IsDigit(rest[0])
    ensures Sscanf(Print(p, vals) + rest, p) == vals
  {
    if p != [] {
      SeparatedTail(p);
      assert p[1..] != [] ==> p[1..][|p[1..]| - 1] == p[|p| - 1];
      assert p == [p[0]] + p[1..];
      if p[0].Int? {
        var tail := Print(p[1..], vals[1..]) + rest;
        assert Print(p, vals) + rest == Render(vals[0]) + tail;
        AfterConversion(p, vals, rest);
        SscanfPrint(p[1..], vals[1..], rest);
        SscanfConversion(vals[0], tail, p[1..]);
        assert vals == [vals[0]] + vals[1..];
      } else {
        assert Print(p, vals) + rest == [p[0].c] + (Print(p[1..], vals) + rest);
        SscanfPrint(p[1..], vals, rest);
        SscanfLiteral(p[0].c, Print(p[1..], vals) + rest, p[1..]);
      }
    }
  }
}
