/** The few `java.lang.String` operations the services rely on, with the
    JDK's semantics written out: `equalsIgnoreCase` against an upper-case
    ASCII keyword, `trim().isEmpty()`, `length()` in UTF-16 units,
    decimal rendering of a `long`, and
    `replaceAll("\\s+", "_")`. */
module Text {

  // ---------------------------------------------------------------------
  // equalsIgnoreCase against an ASCII keyword
  // ---------------------------------------------------------------------

  /** The upper-case ASCII letter that `c` is case-insensitively equal to
      under `Character.toUpperCase`/`toLowerCase`, or `c` itself. Besides
      `a`..`z` the JDK also folds U+0131 and U+0130 onto `I`, U+017F onto
      `S`, and the Kelvin sign U+212A onto `K`. */
  function FoldToAsciiUpper(c: char): char {
    if 'a' <= c <= 'z' then (c as int - 32) as char
    else if c == '\U{131}' || c == '\U{130}' then 'I'
    else if c == '\U{17F}' then 'S'
    else if c == '\U{212A}' then 'K'
    else c
  }

  /** `keyword.equalsIgnoreCase(s)`; a null `s` (`None`) never matches. */
  predicate MatchesKeyword(s: string, keyword: string) {
    |s| == |keyword| && forall i :: 0 <= i < |s| ==> FoldToAsciiUpper(s[i]) == keyword[i]
  }

  // ---------------------------------------------------------------------
  // String.trim(): strips every leading and trailing char <= U+0020
  // ---------------------------------------------------------------------

  predicate IsTrimmable(c: char) {
    c <= ' '
  }

  function TrimStart(s: string): (r: string)
    ensures |r| <= |s| && r == s[|s| - |r|..]
    ensures |r| > 0 ==> !IsTrimmable(r[0])
    ensures forall i :: 0 <= i < |s| - |r| ==> IsTrimmable(s[i])
  {
    if |s| > 0 && IsTrimmable(s[0]) then
      var r := TrimStart(s[1..]);
      assert s[1..][|s| - 1 - |r|..] == s[|s| - |r|..];
      r
    else s
  }

  function TrimEnd(s: string): (r: string)
    ensures |r| <= |s| && r == s[..|r|]
    ensures |r| > 0 ==> !IsTrimmable(r[|r| - 1])
    ensures forall i :: |r| <= i < |s| ==> IsTrimmable(s[i])
  {
    if |s| > 0 && IsTrimmable(s[|s| - 1]) then
      var r := TrimEnd(s[..|s| - 1]);
      assert s[..|s| - 1][..|r|] == s[..|r|];
      r
    else s
  }

  /** `String.trim()`: the result is a slice of `s` that neither starts
      nor ends with a trimmable char, and a string without trimmable
      chars is returned unchanged. */
  function Trim(s: string): (r: string)
    ensures |r| <= |s|
    ensures |r| > 0 ==> !IsTrimmable(r[0]) && !IsTrimmable(r[|r| - 1])
    ensures (forall i :: 0 <= i < |s| ==> !IsTrimmable(s[i])) ==> r == s
  {
    var t := TrimStart(s);
    assert |t| > 0 ==> TrimEnd(t)[0] == t[0];
    TrimEnd(t)
  }

  /** `s.trim().isEmpty()` holds exactly when every char of `s` is a
      control char or a space; otherwise the trimmed string is a slice of
      `s` that begins and ends with a visible char. */
  lemma TrimBlankIff(s: string)
    ensures |Trim(s)| == 0 <==> forall i :: 0 <= i < |s| ==> IsTrimmable(s[i])
    ensures |Trim(s)| > 0 ==> !IsTrimmable(Trim(s)[0]) && !IsTrimmable(Trim(s)[|Trim(s)| - 1])
  {
    var t := TrimStart(s);
    if |Trim(s)| == 0 {
      assert |t| == 0;
    } else {
      assert Trim(s)[0] == t[0];
    }
  }

  // ---------------------------------------------------------------------
  // String.length(): UTF-16 code units, not characters
  // ---------------------------------------------------------------------

  /** A character outside the Basic Multilingual Plane, which a Java
      string holds as a surrogate pair. */
  predicate IsSupplementary(c: char) {
    c as int > 0xFFFF
  }

  /** `String.length()`: one unit per character of the Basic Multilingual
      Plane, two per supplementary character. */
  function Utf16Length(s: string): (n: nat)
    ensures |s| <= n <= 2 * |s|
    ensures n == |s| <==> forall i :: 0 <= i < |s| ==> !IsSupplementary(s[i])
  {
    if |s| == 0 then 0
    else (if IsSupplementary(s[0]) then 2 else 1) + Utf16Length(s[1..])
  }

  /** The length of a concatenation is the sum of the lengths, so the
      units of a string are counted one character at a time. */
  lemma {:induction false} Utf16LengthAppend(s: string, t: string)
    ensures Utf16Length(s + t) == Utf16Length(s) + Utf16Length(t)
  {
    if |s| == 0 {
      assert s + t == t;
    } else {
      assert (s + t)[0] == s[0] && (s + t)[1..] == s[1..] + t;
      Utf16LengthAppend(s[1..], t);
    }
  }

  // ---------------------------------------------------------------------
  // Decimal rendering of a non-negative long ("" + id), and its inverse
  // ---------------------------------------------------------------------

  predicate IsDigit(c: char) {
    '0' <= c <= '9'
  }

  function DigitChar(d: nat): (c: char)
    requires d < 10
    ensures IsDigit(c)
  {
    ('0' as int + d) as char
  }

  function DigitValue(c: char): (d: nat)
    requires IsDigit(c)
    ensures d < 10
  {
    c as int - '0' as int
  }

  function NatToString(n: nat): (r: string)
    ensures |r| > 0
    ensures forall i :: 0 <= i < |r| ==> IsDigit(r[i])
  {
    if n < 10 then [DigitChar(n)] else NatToString(n / 10) + [DigitChar(n % 10)]
  }

  function DigitsToNat(s: string): nat
    requires forall i :: 0 <= i < |s| ==> IsDigit(s[i])
  {
    if |s| == 0 then 0 else 10 * DigitsToNat(s[..|s| - 1]) + DigitValue(s[|s| - 1])
  }

  /** Parsing the decimal rendering gives the number back. */
  lemma {:induction false} NatToStringRoundTrip(n: nat)
    ensures DigitsToNat(NatToString(n)) == n
  {
    var r := NatToString(n);
    if n >= 10 {
      NatToStringRoundTrip(n / 10);
      assert r[..|r| - 1] == NatToString(n / 10);
    }
  }

  // ---------------------------------------------------------------------
  // replaceAll("\\s+", "_")
  // ---------------------------------------------------------------------

  /** Java's regex class `\s`: space, tab, newline, vertical tab, form feed, carriage return. */
  predicate IsRegexSpace(c: char) {
    c == ' ' || c == '\t' || c == '\n' || c == '\U{B}' || c == '\U{C}' || c == '\r'
  }

  function SkipSpaces(s: string): (r: string)
    ensures |r| <= |s| && r == s[|s| - |r|..]
    ensures |r| > 0 ==> !IsRegexSpace(r[0])
  {
    if |s| > 0 && IsRegexSpace(s[0]) then SkipSpaces(s[1..]) else s
  }

  /** Replaces every maximal run of `\s` chars by a single `_`. */
  function CollapseSpaces(s: string): (r: string)
    ensures |r| <= |s|
    decreases |s|
  {
    if |s| == 0 then ""
    else if IsRegexSpace(s[0]) then "_" + CollapseSpaces(SkipSpaces(s[1..]))
    else [s[0]] + CollapseSpaces(s[1..])
  }

  /** The result holds no `\s` char: every run was replaced. */
  lemma {:induction false} CollapseHasNoSpaces(s: string)
    ensures forall i :: 0 <= i < |CollapseSpaces(s)| ==> !IsRegexSpace(CollapseSpaces(s)[i])
    decreases |s|
  {
    if |s| > 0 {
      if IsRegexSpace(s[0]) {
        CollapseHasNoSpaces(SkipSpaces(s[1..]));
      } else {
        CollapseHasNoSpaces(s[1..]);
      }
    }
  }

  /** A string without `\s` chars is left as it is. */
  lemma {:induction false} CollapseIdentity(s: string)
    requires forall i :: 0 <= i < |s| ==> !IsRegexSpace(s[i])
    ensures CollapseSpaces(s) == s
    decreases |s|
  {
    if |s| > 0 {
      CollapseIdentity(s[1..]);
    }
  }

  /** No two underscores produced for one run: a run of spaces, however
      long, becomes exactly one `_`. */
  lemma {:induction false} CollapseRun(run: string, rest: string)
    requires |run| > 0
    requires forall i :: 0 <= i < |run| ==> IsRegexSpace(run[i])
    requires |rest| == 0 || !IsRegexSpace(rest[0])
    ensures CollapseSpaces(run + rest) == "_" + CollapseSpaces(rest)
  {
    SkipAll(run[1..], rest);
    assert (run + rest)[1..] == run[1..] + rest;
  }

  lemma {:induction false} SkipAll(run: string, rest: string)
    requires forall i :: 0 <= i < |run| ==> IsRegexSpace(run[i])
    requires |rest| == 0 || !IsRegexSpace(rest[0])
    ensures SkipSpaces(run + rest) == rest
    decreases |run|
  {
    if |run| > 0 {
      assert (run + rest)[1..] == run[1..] + rest;
      SkipAll(run[1..], rest);
    }
  }

  /** Two words and the whitespace run between them collapse to the words
      joined by one `_`. */
  lemma CollapseTwoWords(first: string, gap: string, last: string)
    requires forall i :: 0 <= i < |first| ==> !IsRegexSpace(first[i])
    requires |gap| > 0 && forall i :: 0 <= i < |gap| ==> IsRegexSpace(gap[i])
    requires forall i :: 0 <= i < |last| ==> !IsRegexSpace(last[i])
    ensures CollapseSpaces(first + (gap + last)) == first + ("_" + last)
  {
    CollapseRun(gap, last);
    CollapseIdentity(last);
    CollapsePrefix(first, gap + last);
  }

  /** A non-space character is copied. */
  lemma CollapseCons(c: char, t: string)
    requires !IsRegexSpace(c)
    ensures CollapseSpaces([c] + t) == [c] + CollapseSpaces(t)
  {
    assert ([c] + t)[1..] == t;
  }

  /** A prefix without `\s` chars passes through unchanged. */
  lemma {:induction false} CollapsePrefix(word: string, rest: string)
    requires forall i :: 0 <= i < |word| ==> !IsRegexSpace(word[i])
    ensures CollapseSpaces(word + rest) == word + CollapseSpaces(rest)
    decreases |word|
  {
    if |word| == 0 {
      assert word + rest == rest;
    } else {
      var tail := word[1..];
      CollapsePrefix(tail, rest);
      var collapsed := CollapseSpaces(rest);
      assert word + rest == [word[0]] + (tail + rest);
      CollapseCons(word[0], tail + rest);
      assert [word[0]] + (tail + collapsed) == word + collapsed;
    }
  }
}
