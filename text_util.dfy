/** The Python string operations the core relies on: `strip`, `splitlines`, `join`, `str(int)`. */
module TextUtil {

  /** The characters Python's `str.isspace()` accepts; `str.strip()` with no argument removes these. */
  const Whitespace: set<char> := {
    ' ', '\t', '\n', '\r', '\U{0B}', '\U{0C}', '\U{1C}', '\U{1D}', '\U{1E}', '\U{1F}',
    '\U{85}', '\U{A0}', '\U{1680}',
    '\U{2000}', '\U{2001}', '\U{2002}', '\U{2003}', '\U{2004}', '\U{2005}',
    '\U{2006}', '\U{2007}', '\U{2008}', '\U{2009}', '\U{200A}',
    '\U{2028}', '\U{2029}', '\U{202F}', '\U{205F}', '\U{3000}'
  }

  /** The line boundaries of Python's `str.splitlines()` ("\r\n" counts as one boundary). */
  const LineBreaks: set<char> := {
    '\n', '\r', '\U{0B}', '\U{0C}', '\U{1C}', '\U{1D}', '\U{1E}', '\U{85}', '\U{2028}', '\U{2029}'
  }

  /** Drops the leading characters of `s` that belong to `cs`. */
  function TrimStart(s: string, cs: set<char>): (r: string)
    ensures |r| <= |s|
    decreases |s|
  {
    if s != [] && s[0] in cs then TrimStart(s[1..], cs) else s
  }

  /** Drops the trailing characters of `s` that belong to `cs`. */
  function TrimEnd(s: string, cs: set<char>): (r: string)
    ensures |r| <= |s|
    decreases |s|
  {
    if s != [] && s[|s| - 1] in cs then TrimEnd(s[..|s| - 1], cs) else s
  }

  /** Python's `s.strip(chars)`: removes the leading and trailing characters that are in `cs`. */
  function StripChars(s: string, cs: set<char>): (r: string)
    ensures |r| <= |s|
  {
    TrimEnd(TrimStart(s, cs), cs)
  }

  /** Python's `s.strip()`. */
  function Strip(s: string): string
  {
    StripChars(s, Whitespace)
  }

  /** `TrimStart` removes a prefix made of characters of `cs`, and stops at one outside it. */
  lemma {:induction false} TrimStartSpec(s: string, cs: set<char>)
    ensures TrimStart(s, cs) == s[|s| - |TrimStart(s, cs)|..]
    ensures TrimStart(s, cs) == [] || TrimStart(s, cs)[0] !in cs
    ensures forall k :: 0 <= k < |s| - |TrimStart(s, cs)| ==> s[k] in cs
    decreases |s|
  {
    if s != [] && s[0] in cs {
      TrimStartSpec(s[1..], cs);
    }
  }

  /** `TrimEnd` removes a suffix made of characters of `cs`, and stops at one outside it. */
  lemma {:induction false} TrimEndSpec(s: string, cs: set<char>)
    ensures TrimEnd(s, cs) == s[..|TrimEnd(s, cs)|]
    ensures TrimEnd(s, cs) == [] || TrimEnd(s, cs)[|TrimEnd(s, cs)| - 1] !in cs
    ensures forall k :: |TrimEnd(s, cs)| <= k < |s| ==> s[k] in cs
    decreases |s|
  {
    if s != [] && s[|s| - 1] in cs {
      TrimEndSpec(s[..|s| - 1], cs);
    }
  }

  /** How many characters `strip(chars)` removes from the front. */
  function StripOffset(s: string, cs: set<char>): nat
  {
    |s| - |TrimStart(s, cs)|
  }

  /** What `strip(chars)` returns is the slice of its input at `StripOffset`; it neither begins
      nor ends with a character of `cs`, and everything cut off around it is in `cs`. */
  lemma StripCharsSpec(s: string, cs: set<char>)
    ensures StripOffset(s, cs) + |StripChars(s, cs)| <= |s|
    ensures StripChars(s, cs) == s[StripOffset(s, cs)..StripOffset(s, cs) + |StripChars(s, cs)|]
    ensures forall k :: 0 <= k < StripOffset(s, cs) ==> s[k] in cs
    ensures forall k :: StripOffset(s, cs) + |StripChars(s, cs)| <= k < |s| ==> s[k] in cs
    ensures StripChars(s, cs) == [] || StripChars(s, cs)[0] !in cs
    ensures StripChars(s, cs) == [] || StripChars(s, cs)[|StripChars(s, cs)| - 1] !in cs
  {
    var t := TrimStart(s, cs);
    TrimStartSpec(s, cs);
    TrimEndSpec(t, cs);
    var r := TrimEnd(t, cs);
    var i := |s| - |t|;
    assert t == s[i..];
    assert r == s[i..i + |r|];
    forall k | i + |r| <= k < |s|
      ensures s[k] in cs
    {
      assert s[k] == t[k - i];
    }
    assert forall k :: 0 <= k < i ==> s[k] in cs;
  }

  /** `strip(chars)` leaves nothing exactly when every character is in `cs`. */
  lemma StripCharsEmpty(s: string, cs: set<char>)
    ensures StripChars(s, cs) == [] <==> forall k :: 0 <= k < |s| ==> s[k] in cs
  {
    StripCharsSpec(s, cs);
  }

  /** A string whose ends are outside `cs` is left alone by `StripChars`. */
  lemma StripCharsKeeps(s: string, cs: set<char>)
    requires s == [] || (s[0] !in cs && s[|s| - 1] !in cs)
    ensures StripChars(s, cs) == s
  {
  }

  /** Stripping twice is stripping once. */
  lemma StripCharsIdempotent(s: string, cs: set<char>)
    ensures StripChars(StripChars(s, cs), cs) == StripChars(s, cs)
  {
    StripCharsSpec(s, cs);
    StripCharsKeeps(StripChars(s, cs), cs);
  }

  /** No character of `s` is a line boundary. */
  predicate NoLineBreak(s: string)
  {
    forall k :: 0 <= k < |s| ==> s[k] !in LineBreaks
  }

  /** The index of the first line boundary in `s`, or `|s|` when there is none. */
  function LineEnd(s: string): (k: nat)
    ensures k <= |s| && NoLineBreak(s[..k])
    ensures k < |s| ==> s[k] in LineBreaks
    decreases |s|
  {
    if s == [] || s[0] in LineBreaks then 0 else 1 + LineEnd(s[1..])
  }

  /** Python's `s.splitlines()`: the lines of `s` without their boundaries; no empty last line
      is produced for a trailing boundary, and the empty string has no lines. */
  function SplitLines(s: string): (lines: seq<string>)
    ensures forall i :: 0 <= i < |lines| ==> NoLineBreak(lines[i])
    ensures |lines| <= |s|
    decreases |s|
  {
    if s == [] then []
    else
      var k := LineEnd(s);
      if k == |s| then [s]
      else
        var next := if s[k] == '\r' && k + 1 < |s| && s[k + 1] == '\n' then k + 2 else k + 1;
        [s[..k]] + SplitLines(s[next..])
  }

  /** Python's `sep.join(parts)`. */
  function Join(parts: seq<string>, sep: string): string
    decreases |parts|
  {
    if parts == [] then ""
    else if |parts| == 1 then parts[0]
    else parts[0] + sep + Join(parts[1..], sep)
  }

  /** Text without a line boundary followed by more text: the first boundary comes after it. */
  lemma {:induction false} LineEndAfter(a: string, b: string)
    requires NoLineBreak(a)
    ensures LineEnd(a + b) == |a| + LineEnd(b)
    decreases |a|
  {
    if a != [] {
      assert (a + b)[0] == a[0];
      assert (a + b)[1..] == a[1..] + b;
      LineEndAfter(a[1..], b);
    } else {
      assert a + b == b;
    }
  }

  /** `splitlines` undoes `"\n".join` when no part holds a line boundary and the last part is
      not empty (Python drops an empty final line). */
  lemma {:induction false} SplitLinesJoin(parts: seq<string>)
    requires parts != [] && parts[|parts| - 1] != []
    requires forall i :: 0 <= i < |parts| ==> NoLineBreak(parts[i])
    ensures SplitLines(Join(parts, "\n")) == parts
    decreases |parts|
  {
    var p := parts[0];
    if |parts| == 1 {
      LineEndAfter(p, "");
      assert p + "" == p;
    } else {
      var rest := Join(parts[1..], "\n");
      var s := p + "\n" + rest;
      assert Join(parts, "\n") == s;
      assert s == p + ("\n" + rest);
      LineEndAfter(p, "\n" + rest);
      assert LineEnd(s) == |p|;
      assert s[..|p|] == p;
      assert s[|p|] == '\n';
      assert s[|p| + 1..] == rest;
      SplitLinesJoin(parts[1..]);
      assert parts == [p] + parts[1..];
    }
  }

  /** The decimal digit character for `d`. */
  function DigitChar(d: nat): (c: char)
    requires d < 10
    ensures '0' <= c <= '9' && c as int - '0' as int == d
  {
    (('0' as int) + d) as char
  }

  /** Every character of `s` is a decimal digit. */
  predicate IsDigits(s: string)
  {
    forall k :: 0 <= k < |s| ==> '0' <= s[k] <= '9'
  }

  /** Python's `str(n)` for a non-negative integer: its decimal digits without leading zeros. */
  function NatToString(n: nat): (s: string)
    ensures |s| > 0 && IsDigits(s)
    ensures s[0] == '0' ==> n == 0
    decreases n
  {
    if n < 10 then [DigitChar(n)] else NatToString(n / 10) + [DigitChar(n % 10)]
  }

  /** The number a string of decimal digits denotes. */
  function DigitsValue(s: string): nat
    requires IsDigits(s)
    decreases |s|
  {
    if s == [] then 0 else DigitsValue(s[..|s| - 1]) * 10 + (s[|s| - 1] as int - '0' as int)
  }

  /** Reading the decimal rendering back gives the number. */
  lemma {:induction false} NatToStringRoundTrip(n: nat)
    ensures DigitsValue(NatToString(n)) == n
    decreases n
  {
    if n >= 10 {
      var s := NatToString(n);
      assert s[..|s| - 1] == NatToString(n / 10);
      NatToStringRoundTrip(n / 10);
    }
  }

  /** Different numbers have different renderings. */
  lemma NatToStringInjective(m: nat, n: nat)
    ensures NatToString(m) == NatToString(n) ==> m == n
  {
    NatToStringRoundTrip(m);
    NatToStringRoundTrip(n);
  }
}
