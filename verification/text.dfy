/**
 Character classes, decimal numerals, line splitting and the two string
 operations of Python 2 that the importer leans on: `unicode.replace` and
 `unicode.lower`. Strings are sequences of Unicode scalar values, as the
 `unicode` objects the importer receives from its XML parser.
 */
module Text {

  datatype Option<+T> = None | Some(value: T)

  predicate IsAsciiChar(c: char) {
    c as int < 128
  }

  predicate IsAscii(s: string) {
    forall k :: 0 <= k < |s| ==> IsAsciiChar(s[k])
  }

  lemma AsciiConcat(a: string, b: string)
    requires IsAscii(a) && IsAscii(b)
    ensures IsAscii(a + b)
  {
    forall k | 0 <= k < |a + b| ensures IsAsciiChar((a + b)[k]) {
      if k < |a| { assert (a + b)[k] == a[k]; } else { assert (a + b)[k] == b[k - |a|]; }
    }
  }

  predicate IsDigit(c: char) {
    '0' <= c <= '9'
  }

  predicate AllDigits(s: string) {
    forall k :: 0 <= k < |s| ==> IsDigit(s[k])
  }

  /** The ASCII whitespace that `\s` matches in a pattern compiled without re.UNICODE. */
  predicate IsSpace(c: char) {
    c == ' ' || c == '\t' || c == '\n' || c == '\r' || c == '\U{0b}' || c == '\U{0c}'
  }

  /** The class `[a-zA-Z0-9_]`. */
  predicate IsWordChar(c: char) {
    ('a' <= c <= 'z') || ('A' <= c <= 'Z') || IsDigit(c) || c == '_'
  }

  predicate HasPrefix(s: string, p: string) {
    |p| <= |s| && s[..|p|] == p
  }

  predicate HasSuffix(s: string, p: string) {
    |p| <= |s| && s[|s| - |p|..] == p
  }

  // ---------------------------------------------------------------------
  // Case mapping

  /** Lower-cases an ASCII letter and leaves every other character alone. */
  function AsciiLower(c: char): (r: char)
    ensures IsAsciiChar(c) <==> IsAsciiChar(r)
    ensures 'A' <= c <= 'Z' ==> r as int == c as int + 32
    ensures !('A' <= c <= 'Z') ==> r == c
  {
    if 'A' <= c <= 'Z' then (c as int + 32) as char else c
  }

  /**
   Python 2's `unicode.lower()` on one character: the simple (one-to-one)
   lower-case mapping. On ASCII it is exactly A-Z to a-z; for the rest the
   Unicode character database is taken as the table `caseMap`, a character
   absent from it being its own lower case.
   */
  function LowerChar(caseMap: map<char, char>, c: char): char {
    if IsAsciiChar(c) then AsciiLower(c)
    else if c in caseMap then caseMap[c]
    else c
  }

  function Lower(caseMap: map<char, char>, s: string): (r: string)
    ensures |r| == |s|
    ensures forall k :: 0 <= k < |s| ==> r[k] == LowerChar(caseMap, s[k])
  {
    seq(|s|, k requires 0 <= k < |s| => LowerChar(caseMap, s[k]))
  }

  // ---------------------------------------------------------------------
  // unicode.replace(old, new)

  /**
   Python's `s.replace(pat, rep)`: scan left to right, replace each
   occurrence of `pat` and resume the scan after it, so occurrences never
   overlap and replaced text is never rescanned.
   */
  function Replace(s: string, pat: string, rep: string): string
    requires |pat| > 0
    decreases |s|
  {
    if |s| < |pat| then s
    else if s[..|pat|] == pat then rep + Replace(s[|pat|..], pat, rep)
    else [s[0]] + Replace(s[1..], pat, rep)
  }

  /** Replacing one character by one character is a pointwise substitution. */
  lemma {:induction false} ReplaceCharByChar(s: string, a: char, b: char)
    ensures |Replace(s, [a], [b])| == |s|
    ensures forall k :: 0 <= k < |s| ==> Replace(s, [a], [b])[k] == (if s[k] == a then b else s[k])
    decreases |s|
  {
    if |s| > 0 {
      ReplaceCharByChar(s[1..], a, b);
      var tail := Replace(s[1..], [a], [b]);
      assert Replace(s, [a], [b]) == [if s[0] == a then b else s[0]] + tail by {
        assert s[..1] == [s[0]];
      }
    }
  }

  // ---------------------------------------------------------------------
  // Decimal numerals

  function DigitValue(c: char): nat
    requires IsDigit(c)
  {
    c as int - '0' as int
  }

  function DigitChar(d: nat): (c: char)
    requires d < 10
    ensures IsDigit(c) && DigitValue(c) == d
  {
    ('0' as int + d) as char
  }

  /** The value of a string of decimal digits, most significant first. */
  function DigitsValue(s: string): nat
    requires AllDigits(s)
    decreases |s|
  {
    if |s| == 0 then 0 else DigitsValue(s[..|s| - 1]) * 10 + DigitValue(s[|s| - 1])
  }

  /** Python's `'%d' % n` for a natural number: shortest decimal numeral. */
  function NatToString(n: nat): (r: string)
    ensures |r| > 0 && AllDigits(r)
    ensures r[0] == '0' ==> n == 0
    decreases n
  {
    if n < 10 then [DigitChar(n)] else NatToString(n / 10) + [DigitChar(n % 10)]
  }

  /** Python's `'%d' % n` for any integer: a minus sign before negative values. */
  function IntToString(n: int): (r: string)
    ensures |r| > 0 && '\n' !in r
  {
    if n < 0 then "-" + NatToString(-n) else NatToString(n)
  }

  /** Reads back a numeral: one or more decimal digits. */
  function ParseNat(s: string): Option<nat> {
    if |s| > 0 && AllDigits(s) then Some(DigitsValue(s)) else None
  }

  function ParseInt(s: string): Option<int> {
    var negative := |s| > 0 && s[0] == '-';
    var magnitude := ParseNat(if negative then s[1..] else s);
    if magnitude.None? then None
    else if negative then Some(-(magnitude.value as int))
    else Some(magnitude.value as int)
  }

  lemma {:induction false} NatToStringValue(n: nat)
    ensures DigitsValue(NatToString(n)) == n
    decreases n
  {
    if n >= 10 {
      NatToStringValue(n / 10);
      var s := NatToString(n);
      assert s[..|s| - 1] == NatToString(n / 10);
    }
  }

  /** Printing a natural number and reading it back gives the number. */
  lemma NatToStringRoundTrip(n: nat)
    ensures ParseNat(NatToString(n)) == Some(n)
  {
    NatToStringValue(n);
  }

  /** Printing an integer with `%d` and reading it back gives the integer. */
  lemma IntToStringRoundTrip(n: int)
    ensures ParseInt(IntToString(n)) == Some(n)
  {
    if n < 0 {
      NatToStringRoundTrip(-n);
      assert IntToString(n)[1..] == NatToString(-n);
    } else {
      NatToStringRoundTrip(n);
    }
  }

  // ---------------------------------------------------------------------
  // Lines

  /** The index of the first `c` in `s`, or `|s|` when there is none. */
  function FindFirst(s: string, c: char): (i: nat)
    ensures i <= |s|
    ensures i < |s| ==> s[i] == c
    ensures c !in s[..i]
    decreases |s|
  {
    if |s| == 0 then 0
    else if s[0] == c then 0
    else
      assert s[..1 + FindFirst(s[1..], c)] == [s[0]] + s[1..][..FindFirst(s[1..], c)];
      1 + FindFirst(s[1..], c)
  }

  /** The first `c` in `x + y` is where `y` starts, when `x` has none and `y` is empty or starts with one. */
  lemma {:induction false} FindFirstAt(x: string, y: string, c: char)
    requires c !in x
    requires |y| == 0 || y[0] == c
    ensures FindFirst(x + y, c) == |x|
    decreases |x|
  {
    if |x| > 0 {
      FindFirstAt(x[1..], y, c);
      assert (x + y)[1..] == x[1..] + y;
    } else {
      assert x + y == y;
    }
  }

  lemma FindFirstAfter(x: string, c: char, y: string)
    requires c !in x
    ensures FindFirst(x + [c] + y, c) == |x|
  {
    FindFirstAt(x, [c] + y, c);
    assert x + [c] + y == x + ([c] + y);
  }

  /** Splits off the first line: the text before the first newline, and the text after it. */
  function SplitLine(s: string): (r: Option<(string, string)>)
    ensures r.Some? <==> '\n' in s
    ensures r.Some? ==> '\n' !in r.value.0 && s == r.value.0 + "\n" + r.value.1
  {
    var i := FindFirst(s, '\n');
    if i == |s| then
      assert s[..i] == s;
      None
    else
      assert s == s[..i] + "\n" + s[i + 1..];
      Some((s[..i], s[i + 1..]))
  }

  lemma SplitLineAfter(x: string, y: string)
    requires '\n' !in x
    ensures SplitLine(x + "\n" + y) == Some((x, y))
  {
    FindFirstAfter(x, '\n', y);
    var s := x + "\n" + y;
    assert s[..|x|] == x;
    assert s[|x| + 1..] == y;
  }

  lemma HasPrefixOf(p: string, x: string)
    ensures HasPrefix(p + x, p) && (p + x)[|p|..] == x
  {
    assert (p + x)[..|p|] == p;
  }

  /** The middle of `s` between a known prefix and a known suffix, if it has both. */
  function Between(s: string, prefix: string, suffix: string): (r: Option<string>)
    ensures r.Some? ==> s == prefix + r.value + suffix
  {
    if |prefix| + |suffix| <= |s| && s[..|prefix|] == prefix && s[|s| - |suffix|..] == suffix then
      var mid := s[|prefix|..|s| - |suffix|];
      assert s == s[..|prefix|] + mid + s[|s| - |suffix|..];
      Some(mid)
    else None
  }

  lemma BetweenWraps(prefix: string, mid: string, suffix: string)
    ensures Between(prefix + mid + suffix, prefix, suffix) == Some(mid)
  {
    var s := prefix + mid + suffix;
    assert s[..|prefix|] == prefix;
    assert s[|s| - |suffix|..] == suffix;
    assert s[|prefix|..|s| - |suffix|] == mid;
  }
}
