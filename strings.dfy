/**
 * The string operations of Python that the attendance script relies on:
 * str.startswith, str.replace, str.lower, str.split('_')[1], int() of a
 * field, and the first match of the regular expression (\d+).
 * Characters are Unicode code points; digits are the ASCII digits.
 */
module Strings {
  import opened Wrappers

  predicate IsDigit(c: char) { '0' <= c <= '9' }

  /** The characters Python's str.isspace() treats as whitespace; \s in a str
      pattern (and so a space in a strptime format) matches them. */
  predicate IsSpace(c: char)
  {
    ('\U{9}' <= c <= '\U{D}') || ('\U{1C}' <= c <= '\U{20}') || c == '\U{85}' || c == '\U{A0}'
    || c == '\U{1680}' || ('\U{2000}' <= c <= '\U{200A}') || c == '\U{2028}' || c == '\U{2029}'
    || c == '\U{202F}' || c == '\U{205F}' || c == '\U{3000}'
  }

  /** The whitespace int() strips around its digits: every str.isspace()
      character except the ASCII separators U+001C to U+001F, which int()
      reads as ordinary characters and so rejects. */
  predicate IntSpace(c: char)
  {
    IsSpace(c) && !('\U{1C}' <= c <= '\U{1F}')
  }

  predicate AllSpaces(s: string) { forall i :: 0 <= i < |s| ==> IsSpace(s[i]) }

  predicate AllDigits(s: string) { forall i :: 0 <= i < |s| ==> IsDigit(s[i]) }

  predicate StartsWith(s: string, prefix: string)
  {
    |prefix| <= |s| && s[..|prefix|] == prefix
  }

  /** str.replace(old, new): every non-overlapping occurrence, scanning left to right. */
  function ReplaceAll(s: string, pat: string, rep: string): string
    requires |pat| > 0
    decreases |s|
  {
    if |s| < |pat| then s
    else if s[..|pat|] == pat then rep + ReplaceAll(s[|pat|..], pat, rep)
    else [s[0]] + ReplaceAll(s[1..], pat, rep)
  }

  /** Position of the first occurrence of c in s. */
  function IndexOf(s: string, c: char): (r: Option<nat>)
    ensures r.Some? ==> r.value < |s| && s[r.value] == c && c !in s[..r.value]
    ensures r.None? <==> c !in s
  {
    if s == [] then None
    else if s[0] == c then Some(0)
    else match IndexOf(s[1..], c)
      case None => None
      case Some(i) => Some(i + 1)
  }

  /** Position of the first whitespace character of s. */
  function IndexOfSpace(s: string): (r: Option<nat>)
    ensures r.Some? ==> r.value < |s| && IsSpace(s[r.value])
    ensures r.Some? ==> forall i :: 0 <= i < r.value ==> !IsSpace(s[i])
    ensures r.None? <==> forall i :: 0 <= i < |s| ==> !IsSpace(s[i])
  {
    if s == [] then None
    else if IsSpace(s[0]) then Some(0)
    else match IndexOfSpace(s[1..])
      case None => None
      case Some(i) => Some(i + 1)
  }

  /** The first c of s is at k when s[k] is c and no c comes before it. */
  lemma {:induction false} IndexOfAt(s: string, c: char, k: nat)
    requires k < |s| && s[k] == c && c !in s[..k]
    ensures IndexOf(s, c) == Some(k)
    decreases k
  {
    if k > 0 {
      assert s[0] == s[..k][0];
      assert s[1..][..k - 1] == s[1..k];
      IndexOfAt(s[1..], c, k - 1);
    }
  }

  /** The part of s before its first c (all of s when c does not occur). */
  function UpTo(s: string, c: char): (r: string)
    ensures c !in r
    ensures r <= s
    ensures |r| < |s| ==> s[|r|] == c
  {
    match IndexOf(s, c)
    case None => s
    case Some(i) => s[..i]
  }

  /** s.split(c)[1]: None when c does not occur (Python's IndexError). */
  function SecondField(s: string, c: char): (r: Option<string>)
    ensures r.Some? <==> c in s
  {
    match IndexOf(s, c)
    case None => None
    case Some(i) => Some(UpTo(s[i + 1..], c))
  }

  /** The end of the run of int() whitespace that starts at s[i]. */
  function SpacesFrom(s: string, i: nat): (n: nat)
    requires i <= |s|
    ensures i <= n <= |s|
    ensures forall k :: i <= k < n ==> IntSpace(s[k])
    ensures n < |s| ==> !IntSpace(s[n])
    decreases |s| - i
  {
    if i < |s| && IntSpace(s[i]) then SpacesFrom(s, i + 1) else i
  }

  /** The start of the run of int() whitespace that ends at s[j - 1], not going below lo. */
  function SpacesBefore(s: string, j: nat, lo: nat): (n: nat)
    requires lo <= j <= |s|
    ensures lo <= n <= j
    ensures forall k :: n <= k < j ==> IntSpace(s[k])
    ensures lo < n ==> !IntSpace(s[n - 1])
    decreases j
  {
    if lo < j && IntSpace(s[j - 1]) then SpacesBefore(s, j - 1, lo) else j
  }

  function DigitValue(c: char): (r: nat)
    requires IsDigit(c)
    ensures r < 10
  {
    c as int - '0' as int
  }

  /** The decimal value of a run of digits. */
  function DigitsValue(s: string): nat
    requires AllDigits(s)
  {
    if s == [] then 0 else 10 * DigitsValue(s[..|s| - 1]) + DigitValue(s[|s| - 1])
  }

  /** int(s) in Python for a field without underscores: optional surrounding
      whitespace, an optional sign, one or more digits. None is a ValueError. */
  function ParseInt(s: string): (r: Option<int>)
  {
    var first := SpacesFrom(s, 0);
    var u := s[first..SpacesBefore(s, |s|, first)];
    if |u| > 1 && (u[0] == '-' || u[0] == '+') && AllDigits(u[1..]) then
      var v: int := DigitsValue(u[1..]);
      Some(if u[0] == '-' then -v else v)
    else if |u| > 0 && AllDigits(u) then Some(DigitsValue(u))
    else None
  }

  /** The longest prefix of s made of digits. */
  function LeadingDigits(s: string): (r: string)
    ensures r <= s && AllDigits(r)
    ensures |r| < |s| ==> !IsDigit(s[|r|])
  {
    if s != [] && IsDigit(s[0]) then [s[0]] + LeadingDigits(s[1..]) else []
  }

  /** The value of the first match of (\d+) in s, as pandas' str.extract finds it. */
  function FirstDigitRun(s: string): (r: Option<nat>)
  {
    if s == [] then None
    else if IsDigit(s[0]) then Some(DigitsValue(LeadingDigits(s)))
    else FirstDigitRun(s[1..])
  }

  /** str.lower() on the ASCII letters. */
  function LowerChar(c: char): char
  {
    if 'A' <= c <= 'Z' then (c as int + 32) as char else c
  }

  function Lower(s: string): (r: string)
    ensures |r| == |s|
    ensures forall i :: 0 <= i < |s| ==> r[i] == LowerChar(s[i])
  {
    if s == [] then [] else [LowerChar(s[0])] + Lower(s[1..])
  }

  lemma SpaceIsNoDigit(c: char)
    requires IsSpace(c)
    ensures !IsDigit(c)
  {
  }

  /** A text int() accepts is whitespace, an optional sign, the digits of the
      magnitude at f[a..b], and whitespace again. */
  lemma ParseIntSpan(f: string) returns (a: nat, b: nat)
    requires ParseInt(f).Some?
    ensures a < b <= |f|
    ensures forall i :: 0 <= i < a ==> IntSpace(f[i]) || (i == a - 1 && (f[i] == '-' || f[i] == '+'))
    ensures forall i :: 0 <= i < a ==> !IsDigit(f[i])
    ensures AllDigits(f[a..b])
    ensures DigitsValue(f[a..b]) == if ParseInt(f).value < 0 then -ParseInt(f).value else ParseInt(f).value
    ensures forall i :: b <= i < |f| ==> IntSpace(f[i])
  {
    var first := SpacesFrom(f, 0);
    b := SpacesBefore(f, |f|, first);
    var u := f[first..b];
    forall i | 0 <= i < first ensures !IsDigit(f[i]) {
      SpaceIsNoDigit(f[i]);
    }
    if |u| > 1 && (u[0] == '-' || u[0] == '+') && AllDigits(u[1..]) {
      a := first + 1;
      assert f[a..b] == u[1..];
    } else {
      a := first;
    }
  }

  /** int() strips a space and a newline around the digits and reads a sign,
      but rejects a leading U+001C separator. */
  lemma IntWhitespace()
    ensures ParseInt(" 5\n") == Some(5)
    ensures ParseInt("-12") == Some(-12)
    ensures ParseInt("\U{1C}5") == None
  {
    assert SpacesFrom(" 5\n", 0) == 1;
    assert SpacesBefore(" 5\n", 3, 1) == 2;
    assert " 5\n"[1..2] == "5";
    assert SpacesFrom("-12", 0) == 0 && SpacesBefore("-12", 3, 0) == 3;
    assert "-12"[0..3][1..] == "12";
    assert DigitsValue("1") == 1;
    assert DigitsValue("12") == 12;
    assert SpacesFrom("\U{1C}5", 0) == 0;
  }

  /** Lowering twice is lowering once. */
  lemma LowerIdempotent(s: string)
    ensures Lower(Lower(s)) == Lower(s)
  {
    forall i | 0 <= i < |s| ensures Lower(Lower(s))[i] == Lower(s)[i] {
      assert Lower(s)[i] == LowerChar(s[i]);
    }
  }
}
