/**
  ASCII character classes and case mapping, standing in for Python's
  `str.isupper`, `str.islower`, `str.isalpha`, `str.isdigit`, `str.upper`,
  `str.lower` and `str.strip` on the characters a wordlist line holds.
  Only the ASCII range is classified: every other character is neither a
  letter, a digit nor whitespace, and case mapping leaves it unchanged.
 */
module Chars {

  predicate IsUpper(c: char) {
    'A' <= c <= 'Z'
  }

  predicate IsLower(c: char) {
    'a' <= c <= 'z'
  }

  predicate IsAlpha(c: char) {
    IsUpper(c) || IsLower(c)
  }

  predicate IsDigit(c: char) {
    '0' <= c <= '9'
  }

  /** The characters Python's `str.isspace` accepts within ASCII. */
  predicate IsSpace(c: char) {
    c == ' ' || 9 <= c as int <= 13 || 0x1c <= c as int <= 0x1f
  }

  /** `str.upper` on one character: the same letter of the alphabet in upper case. */
  function Upper(c: char): (u: char)
    ensures IsLower(c) ==> IsUpper(u) && u != c && Lower(u) == c
    ensures !IsLower(c) ==> u == c
    ensures IsAlpha(u) <==> IsAlpha(c)
  {
    if IsLower(c) then (c as int - 32) as char else c
  }

  /** `str.lower` on one character: the same letter of the alphabet in lower case. */
  function Lower(c: char): (l: char)
    ensures IsUpper(c) ==> IsLower(l) && l != c && l as int - 'a' as int == c as int - 'A' as int
    ensures !IsUpper(c) ==> l == c
    ensures IsAlpha(l) <==> IsAlpha(c)
  {
    if IsUpper(c) then (c as int + 32) as char else c
  }

  /** Upper and Lower are inverse to each other on letters. */
  lemma CaseRoundTrip(c: char)
    ensures IsLower(c) ==> Lower(Upper(c)) == c
    ensures IsUpper(c) ==> Upper(Lower(c)) == c
  {
  }

  /** `any(c.isupper() for c in s)` */
  predicate HasUpper(s: string) {
    exists i :: 0 <= i < |s| && IsUpper(s[i])
  }

  /** `any(c.islower() for c in s)` */
  predicate HasLower(s: string) {
    exists i :: 0 <= i < |s| && IsLower(s[i])
  }

  /** `any(ch.isalpha() for ch in s)` */
  predicate HasAlpha(s: string) {
    exists i :: 0 <= i < |s| && IsAlpha(s[i])
  }

  /** `s.isdigit()`: Python answers False for the empty string. */
  predicate IsDigits(s: string) {
    |s| > 0 && forall i :: 0 <= i < |s| ==> IsDigit(s[i])
  }

  /** Leading whitespace removed, as by `str.lstrip()`. */
  function TrimStart(s: string): (r: string)
    ensures |r| <= |s| && r == s[|s| - |r|..]
    ensures r == [] || !IsSpace(r[0])
    ensures forall k :: 0 <= k < |s| - |r| ==> IsSpace(s[k])
  {
    if s != [] && IsSpace(s[0]) then TrimStart(s[1..]) else s
  }

  /** Trailing whitespace removed, as by `str.rstrip()`. */
  function TrimEnd(s: string): (r: string)
    ensures |r| <= |s| && r == s[..|r|]
    ensures r == [] || !IsSpace(r[|r| - 1])
    ensures forall k :: |r| <= k < |s| ==> IsSpace(s[k])
  {
    if s != [] && IsSpace(s[|s| - 1]) then TrimEnd(s[..|s| - 1]) else s
  }

  /** `str.strip()`: the longest infix that neither starts nor ends with whitespace. */
  function Strip(s: string): (r: string)
  {
    TrimEnd(TrimStart(s))
  }

  /** Cutting a prefix and then a suffix off `s` leaves the slice between them. */
  lemma SliceOfSuffix(s: string, t: string, r: string, i: int)
    requires 0 <= i <= |s| && t == s[i..] && |r| <= |t| && r == t[..|r|]
    requires forall k :: |r| <= k < |t| ==> IsSpace(t[k])
    ensures r == s[i..i + |r|]
    ensures forall k :: i + |r| <= k < |s| ==> IsSpace(s[k])
  {
    forall k | i + |r| <= k < |s|
      ensures IsSpace(s[k])
    {
      assert s[k] == t[k - i];
    }
  }

  /** Where strip cuts: after the leading whitespace, and `|Strip(s)|` characters on. */
  lemma StripSlice(s: string, i: int, j: int)
    requires i == |s| - |TrimStart(s)| && j == i + |Strip(s)|
    ensures 0 <= i <= j <= |s| && Strip(s) == s[i..j]
    ensures forall k :: 0 <= k < i ==> IsSpace(s[k])
    ensures forall k :: j <= k < |s| ==> IsSpace(s[k])
  {
    SliceOfSuffix(s, TrimStart(s), Strip(s), i);
  }

  /** What strip returns: a slice of the input whose cut-off ends are all
      whitespace and whose own ends are not. */
  lemma StripIsInfix(s: string)
    ensures exists i, j :: 0 <= i <= j <= |s| && Strip(s) == s[i..j]
                           && (forall k :: 0 <= k < i ==> IsSpace(s[k]))
                           && (forall k :: j <= k < |s| ==> IsSpace(s[k]))
    ensures Strip(s) == [] || (!IsSpace(Strip(s)[0]) && !IsSpace(Strip(s)[|Strip(s)| - 1]))
  {
    var t := TrimStart(s);
    var i := |s| - |t|;
    StripSlice(s, i, i + |Strip(s)|);
    if Strip(s) != [] {
      assert Strip(s)[0] == t[0];
    }
  }

  /** A line strips to nothing exactly when every character is whitespace. */
  lemma {:induction false} StripEmptyIffBlank(s: string)
    ensures Strip(s) == [] <==> forall k :: 0 <= k < |s| ==> IsSpace(s[k])
  {
    var t := TrimStart(s);
    if t != [] {
      assert !IsSpace(t[0]);
      assert !IsSpace(s[|s| - |t|]);
    }
  }

  /** A line that neither starts nor ends with whitespace strips to itself. */
  lemma StripKeepsTrimmed(s: string)
    requires s != [] && !IsSpace(s[0]) && !IsSpace(s[|s| - 1])
    ensures Strip(s) == s
  {
    assert TrimStart(s) == s;
  }

  /** Stripping twice changes nothing more. */
  lemma StripIdempotent(s: string)
    ensures Strip(Strip(s)) == Strip(s)
  {
    StripIsInfix(s);
    if Strip(s) != [] {
      StripKeepsTrimmed(Strip(s));
    }
  }
}
