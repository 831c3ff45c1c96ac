/** The two pieces of Python text handling the merge script relies on:
    `str.strip()` with no argument, which removes leading and trailing
    whitespace as `str.isspace` defines it, and `str()` of an integer,
    which the f-string that builds an award's detail URL applies to the
    award id. */
module PyText {

  /** Python's `str.isspace` for one character: the ASCII whitespace and
      separator controls, NEXT LINE, and the Unicode space separators and
      line/paragraph separators. */
  predicate IsSpace(c: char) {
    || ('\U{9}' <= c <= '\U{d}')
    || ('\U{1c}' <= c <= '\U{20}')
    || c == '\U{85}' || c == '\U{a0}' || c == '\U{1680}'
    || ('\U{2000}' <= c <= '\U{200a}')
    || c == '\U{2028}' || c == '\U{2029}' || c == '\U{202f}'
    || c == '\U{205f}' || c == '\U{3000}'
  }

  /** Every character of `s` is whitespace (true of the empty text). */
  ghost predicate AllSpace(s: string) {
    forall k :: 0 <= k < |s| ==> IsSpace(s[k])
  }

  /** `s` neither begins nor ends with whitespace. */
  ghost predicate Trimmed(s: string) {
    s == [] || (!IsSpace(s[0]) && !IsSpace(s[|s| - 1]))
  }

  /** `s.lstrip()`: `s` without its leading whitespace. */
  function TrimStart(s: string): string {
    if s != [] && IsSpace(s[0]) then TrimStart(s[1..]) else s
  }

  /** `s.rstrip()`: `s` without its trailing whitespace. */
  function TrimEnd(s: string): string {
    if s != [] && IsSpace(s[|s| - 1]) then TrimEnd(s[..|s| - 1]) else s
  }

  /** `lstrip()` keeps the longest suffix that does not start with
      whitespace: everything it cuts off is whitespace. */
  lemma {:induction false} TrimStartShape(s: string)
    ensures var r := TrimStart(s);
      && |r| <= |s| && r == s[|s| - |r|..]
      && (r == [] || !IsSpace(r[0]))
      && AllSpace(s[..|s| - |r|])
  {
    if s != [] && IsSpace(s[0]) {
      TrimStartShape(s[1..]);
      var r := TrimStart(s);
      assert s[..|s| - |r|] == [s[0]] + s[1..][..|s| - 1 - |r|];
    }
  }

  /** `rstrip()` keeps the longest prefix that does not end with
      whitespace: everything it cuts off is whitespace. */
  lemma {:induction false} TrimEndShape(s: string)
    ensures var r := TrimEnd(s);
      && |r| <= |s| && r == s[..|r|]
      && (r == [] || !IsSpace(r[|r| - 1]))
      && AllSpace(s[|r|..])
  {
    if s != [] && IsSpace(s[|s| - 1]) {
      TrimEndShape(s[..|s| - 1]);
      var r := TrimEnd(s);
      assert s[|r|..] == s[..|s| - 1][|r|..] + [s[|s| - 1]];
    }
  }

  /** `s.strip()`: `s` with its leading and its trailing whitespace removed. */
  function Strip(s: string): (r: string)
  {
    TrimEnd(TrimStart(s))
  }

  /** How many whitespace characters `s.strip()` removes from the front of `s`. */
  function LeadingSpaceCount(s: string): (n: nat)
    ensures n <= |s|
  {
    TrimStartShape(s);
    |s| - |TrimStart(s)|
  }

  /** The result of `strip()` is a contiguous slice of the input that neither
      begins nor ends with whitespace, and only whitespace was cut off on
      either side. */
  lemma StripShape(s: string)
    ensures LeadingSpaceCount(s) + |Strip(s)| <= |s|
    ensures Strip(s) == s[LeadingSpaceCount(s)..LeadingSpaceCount(s) + |Strip(s)|]
    ensures AllSpace(s[..LeadingSpaceCount(s)])
    ensures AllSpace(s[LeadingSpaceCount(s) + |Strip(s)|..])
    ensures Trimmed(Strip(s))
  {
    var t := TrimStart(s);
    var r := TrimEnd(t);
    TrimStartShape(s);
    TrimEndShape(t);
    var lead := |s| - |t|;
    assert t == s[lead..];
    assert r == t[..|r|];
    assert t[|r|..] == s[lead + |r|..];
    if r != [] {
      assert r[0] == t[0];
    }
  }

  /** Stripping twice is stripping once. */
  lemma StripIdempotent(s: string)
    ensures Strip(Strip(s)) == Strip(s)
  {
    var r := Strip(s);
    StripShape(s);
    assert TrimStart(r) == r;
    assert TrimEnd(r) == r;
  }

  /** A text strips to the empty text exactly when it is all whitespace. */
  lemma StripBlank(s: string)
    ensures Strip(s) == [] <==> AllSpace(s)
  {
    StripShape(s);
    var lead := LeadingSpaceCount(s);
    if Strip(s) == [] {
      assert s == s[..lead] + s[lead..];
    }
  }

  /** A text that is already stripped is left as it is. */
  lemma StripTrimmed(s: string)
    requires Trimmed(s)
    ensures Strip(s) == s
  {
    assert TrimStart(s) == s;
  }

  /** The decimal digit character for `d`. */
  function DigitChar(d: nat): (c: char)
    requires d < 10
    ensures '0' <= c <= '9'
  {
    (48 + d) as char
  }

  /** `s` is a non-empty run of decimal digits. */
  predicate IsDigits(s: string) {
    |s| >= 1 && forall k :: 0 <= k < |s| ==> '0' <= s[k] <= '9'
  }

  /** `str(n)` for a non-negative integer: its decimal digits, most
      significant first, with no leading zero. */
  function NatText(n: nat): (r: string)
    ensures IsDigits(r)
    ensures r[0] == '0' ==> n == 0
  {
    if n < 10 then [DigitChar(n)] else NatText(n / 10) + [DigitChar(n % 10)]
  }

  /** `str(n)` for any integer: a minus sign before the digits of a negative one. */
  function IntText(n: int): string {
    if n < 0 then "-" + NatText(-n) else NatText(n)
  }

  /** The value of a run of decimal digits (the inverse of `NatText`). */
  function ParseNat(s: string): nat
    requires IsDigits(s) || s == []
  {
    if s == [] then 0
    else 10 * ParseNat(s[..|s| - 1]) + (s[|s| - 1] as int - 48)
  }

  /** The value of an integer's text (the inverse of `IntText`). */
  function ParseInt(s: string): int
    requires IsDigits(s) || (|s| >= 2 && s[0] == '-' && IsDigits(s[1..]))
  {
    if s[0] == '-' then -(ParseNat(s[1..]) as int) else ParseNat(s)
  }

  /** Reading back the decimal text of a non-negative integer gives the integer. */
  lemma {:induction false} NatTextRoundTrip(n: nat)
    ensures ParseNat(NatText(n)) == n
  {
    if n >= 10 {
      var r := NatText(n);
      assert r[..|r| - 1] == NatText(n / 10);
      NatTextRoundTrip(n / 10);
    }
  }

  /** Reading back the text of any integer gives the integer, so distinct
      ids render as distinct texts. */
  lemma IntTextRoundTrip(n: int)
    ensures var r := IntText(n);
      (IsDigits(r) || (|r| >= 2 && r[0] == '-' && IsDigits(r[1..]))) && ParseInt(r) == n
  {
    if n < 0 {
      var d := NatText(-n);
      assert IntText(n) == "-" + d;
      assert ("-" + d)[1..] == d;
      NatTextRoundTrip(-n);
    } else {
      NatTextRoundTrip(n);
    }
  }
}
