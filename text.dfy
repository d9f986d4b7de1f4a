/** The string operations the scraper applies to cell text: `str.strip()`,
    `str.isdigit()`, `str.lower()` and the substring test `pat in text`,
    restricted to ASCII (see README). */
module Text {

  /** Python's `str.isspace()` on the ASCII range: tab, line feed, vertical tab,
      form feed, carriage return, the four separators 0x1C-0x1F and space. */
  predicate IsSpace(c: char) {
    c == ' ' || (9 <= c as int <= 13) || (28 <= c as int <= 31)
  }

  predicate IsDigit(c: char) {
    '0' <= c <= '9'
  }

  /** Python's `str.isdigit()`: non-empty and every character a digit. */
  predicate IsDigits(s: string) {
    |s| > 0 && forall i :: 0 <= i < |s| ==> IsDigit(s[i])
  }

  /** Neither end of `s` is whitespace. */
  predicate Trimmed(s: string) {
    s == [] || (!IsSpace(s[0]) && !IsSpace(s[|s| - 1]))
  }

  /** `r` is the slice `s[i..i + |r|]` and everything outside it is whitespace. */
  predicate SliceWithSpaceMargins(s: string, r: string, i: int) {
    0 <= i && i + |r| <= |s| && r == s[i..i + |r|] &&
    (forall k :: 0 <= k < i ==> IsSpace(s[k])) &&
    (forall k :: i + |r| <= k < |s| ==> IsSpace(s[k]))
  }

  /** The number of whitespace characters at the start of `s`. */
  function LeadingSpaces(s: string): (n: nat)
    ensures n <= |s|
    decreases |s|
  {
    if s != [] && IsSpace(s[0]) then 1 + LeadingSpaces(s[1..]) else 0
  }

  /** The number of whitespace characters at the end of `s`. */
  function TrailingSpaces(s: string): (n: nat)
    ensures n <= |s|
    decreases |s|
  {
    if s != [] && IsSpace(s[|s| - 1]) then 1 + TrailingSpaces(s[..|s| - 1]) else 0
  }

  lemma {:induction false} LeadingSpacesAreSpaces(s: string)
    ensures forall k :: 0 <= k < LeadingSpaces(s) ==> IsSpace(s[k])
    ensures LeadingSpaces(s) < |s| ==> !IsSpace(s[LeadingSpaces(s)])
    decreases |s|
  {
    if s != [] && IsSpace(s[0]) {
      LeadingSpacesAreSpaces(s[1..]);
    }
  }

  lemma {:induction false} TrailingSpacesAreSpaces(s: string)
    ensures forall k :: |s| - TrailingSpaces(s) <= k < |s| ==> IsSpace(s[k])
    ensures TrailingSpaces(s) < |s| ==> !IsSpace(s[|s| - 1 - TrailingSpaces(s)])
    decreases |s|
  {
    if s != [] && IsSpace(s[|s| - 1]) {
      TrailingSpacesAreSpaces(s[..|s| - 1]);
    }
  }

  /** Python's `str.strip()`: the text with leading and trailing whitespace removed. */
  function Strip(s: string): (r: string)
    ensures |r| <= |s|
  {
    var a := s[LeadingSpaces(s)..];
    a[..|a| - TrailingSpaces(a)]
  }

  /** What `Strip` keeps has no whitespace at either end, and what it removes
      is whitespace, and only from the two ends. */
  lemma StripRemovesOnlyMargins(s: string)
    ensures Trimmed(Strip(s))
    ensures SliceWithSpaceMargins(s, Strip(s), LeadingSpaces(s))
  {
    var n := LeadingSpaces(s);
    var a := s[n..];
    var r := Strip(s);
    LeadingSpacesAreSpaces(s);
    TrailingSpacesAreSpaces(a);
    assert r == s[n..n + |r|];
    forall k | n + |r| <= k < |s| ensures IsSpace(s[k]) {
      assert s[k] == a[k - n];
    }
    if r != [] {
      assert r[0] == s[n];
      assert r[|r| - 1] == a[|a| - 1 - TrailingSpaces(a)];
    }
  }

  /** Stripping changes a string exactly when one of its ends is whitespace,
      so stripping twice is the same as stripping once. */
  lemma StripFixesExactlyTrimmed(s: string)
    ensures Strip(s) == s <==> Trimmed(s)
    ensures Strip(Strip(s)) == Strip(s)
  {
    StripRemovesOnlyMargins(s);
    if Trimmed(s) && s != [] {
      assert LeadingSpaces(s) == 0;
      assert TrailingSpaces(s) == 0;
    }
    var r := Strip(s);
    if r != [] {
      assert LeadingSpaces(r) == 0;
      assert TrailingSpaces(r[LeadingSpaces(r)..]) == 0;
    }
  }

  function LowerChar(c: char): char {
    if 'A' <= c <= 'Z' then (c as int + 32) as char else c
  }

  /** Python's `str.lower()` on ASCII letters; every other character is kept. */
  function Lower(s: string): string {
    seq(|s|, i requires 0 <= i < |s| => LowerChar(s[i]))
  }

  /** Lowering keeps the length, maps `A`-`Z` to `a`-`z` and keeps every
      other character; no capital is left, so lowering again changes nothing. */
  lemma LowerMapsCapitals(s: string)
    ensures |Lower(s)| == |s|
    ensures forall i :: 0 <= i < |s| && 'A' <= s[i] <= 'Z' ==> Lower(s)[i] as int == s[i] as int + 32
    ensures forall i :: 0 <= i < |s| && !('A' <= s[i] <= 'Z') ==> Lower(s)[i] == s[i]
    ensures forall i :: 0 <= i < |s| ==> !('A' <= Lower(s)[i] <= 'Z')
    ensures Lower(Lower(s)) == Lower(s)
  {
  }

  /** `pat` occurs in `text` starting at index `i`. */
  predicate OccursAt(text: string, pat: string, i: int) {
    0 <= i && i + |pat| <= |text| && text[i..i + |pat|] == pat
  }

  lemma OccursAtShift(text: string, pat: string)
    requires text != []
    ensures forall i :: 0 <= i ==> (OccursAt(text[1..], pat, i) <==> OccursAt(text, pat, i + 1))
  {
    forall i | 0 <= i
      ensures OccursAt(text[1..], pat, i) <==> OccursAt(text, pat, i + 1)
    {
      if 0 <= i && i + |pat| <= |text| - 1 {
        assert text[1..][i..i + |pat|] == text[i + 1..i + 1 + |pat|];
      }
    }
  }

  /** Python's `pat in text`: does `pat` occur somewhere inside `text`? */
  function Contains(text: string, pat: string): bool
    decreases |text|
  {
    if |pat| > |text| then false
    else if text[..|pat|] == pat then true
    else Contains(text[1..], pat)
  }

  /** `Contains` finds an occurrence exactly when there is one. */
  lemma {:induction false} ContainsIffOccurs(text: string, pat: string)
    ensures Contains(text, pat) <==> exists i :: OccursAt(text, pat, i)
    decreases |text|
  {
    if |pat| > |text| {
    } else if text[..|pat|] == pat {
      assert OccursAt(text, pat, 0);
    } else {
      OccursAtShift(text, pat);
      ContainsIffOccurs(text[1..], pat);
      if Contains(text[1..], pat) {
        var i :| OccursAt(text[1..], pat, i);
        assert OccursAt(text, pat, i + 1);
      }
      forall i | OccursAt(text, pat, i) ensures OccursAt(text[1..], pat, i - 1) {
      }
    }
  }

  lemma ContainsIsNoLonger(text: string, pat: string)
    requires Contains(text, pat)
    ensures |pat| <= |text|
  {
    ContainsIffOccurs(text, pat);
  }
}
