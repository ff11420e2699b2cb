/**
 The string operations the bot applies to URLs and message text, with the
 meaning Python's `str` methods give them: `lower()` (restricted to ASCII),
 `strip()` with no argument, `startswith` and the substring test `p in s`.
 */
module Text {

  /** ASCII upper-case letter. */
  predicate IsUpper(c: char) {
    'A' <= c <= 'Z'
  }

  /** Lower-cases one ASCII letter and leaves every other character alone. */
  function LowerChar(c: char): char {
    if IsUpper(c) then (c as int + 32) as char else c
  }

  /**
   `s.lower()` on ASCII text: no capital is left, and each character is
   kept unless it is a capital, which becomes its lower-case letter.
   */
  function Lower(s: string): (r: string)
    ensures |r| == |s|
    ensures forall i :: 0 <= i < |r| ==> !IsUpper(r[i])
    ensures forall i :: 0 <= i < |s| ==> r[i] == s[i] || (IsUpper(s[i]) && r[i] as int == s[i] as int + 32)
  {
    seq(|s|, i requires 0 <= i < |s| => LowerChar(s[i]))
  }

  /** Lower-casing twice is lower-casing once. */
  lemma LowerIdempotent(s: string)
    ensures Lower(Lower(s)) == Lower(s)
  {
  }

  /**
   Code points for which Python's `str.isspace()` holds: tab, line feed,
   vertical tab, form feed, carriage return, the information separators
   0x1C-0x1F, space, and the Unicode spaces and line/paragraph separators.
   */
  const SpaceCodes: set<int> :=
    {9, 10, 11, 12, 13, 28, 29, 30, 31, 32, 0x85, 0xA0, 0x1680,
     0x2000, 0x2001, 0x2002, 0x2003, 0x2004, 0x2005, 0x2006, 0x2007, 0x2008, 0x2009, 0x200A,
     0x2028, 0x2029, 0x202F, 0x205F, 0x3000}

  /** Whitespace as `str.strip()` with no argument removes it. */
  predicate IsSpace(c: char) {
    c as int in SpaceCodes
  }

  /**
   The first position at or after `i` that holds no whitespace, or `|s|`
   when there is none: where `s.lstrip()` begins.
   */
  function SkipSpace(s: string, i: nat): (n: nat)
    requires i <= |s|
    ensures i <= n <= |s|
    ensures forall k :: i <= k < n ==> IsSpace(s[k])
    ensures n == |s| || !IsSpace(s[n])
    decreases |s| - i
  {
    if i < |s| && IsSpace(s[i]) then SkipSpace(s, i + 1) else i
  }

  /**
   The smallest end `n`, no lower than `lo`, such that `s[n..j]` is all
   whitespace: where `s[..j].rstrip()` would end, stopping at `lo`.
   */
  function SkipSpaceBack(s: string, lo: nat, j: nat): (n: nat)
    requires lo <= j <= |s|
    ensures lo <= n <= j
    ensures forall k :: n <= k < j ==> IsSpace(s[k])
    ensures n == lo || !IsSpace(s[n - 1])
    decreases j
  {
    if lo < j && IsSpace(s[j - 1]) then SkipSpaceBack(s, lo, j - 1) else j
  }

  /** Where `s.strip()` begins: the first non-whitespace position. */
  function StripStart(s: string): nat {
    SkipSpace(s, 0)
  }

  /** Where `s.strip()` ends: just after the last non-whitespace character. */
  function StripEnd(s: string): nat {
    SkipSpaceBack(s, StripStart(s), |s|)
  }

  /** Every character outside `s[a..b]` is whitespace. */
  predicate SpaceOutside(s: string, a: int, b: int)
    requires 0 <= a <= b <= |s|
  {
    && (forall i :: 0 <= i < a ==> IsSpace(s[i]))
    && (forall i :: b <= i < |s| ==> IsSpace(s[i]))
  }

  /** `r` is `s[a..]` cut short, and everything cut away is whitespace. */
  predicate StrippedFrom(s: string, r: string, a: int) {
    0 <= a <= a + |r| <= |s| && r == s[a..a + |r|] && SpaceOutside(s, a, a + |r|)
  }

  /**
   `s.strip()`: the text with whitespace removed at both ends. The result
   is a slice of the text, everything cut away is whitespace, and the
   result neither starts nor ends with whitespace.
   */
  function Strip(s: string): (r: string)
    ensures exists a :: StrippedFrom(s, r, a)
    ensures r == [] || (!IsSpace(r[0]) && !IsSpace(r[|r| - 1]))
  {
    var a, b := StripStart(s), StripEnd(s);
    assert SpaceOutside(s, a, b);
    assert StrippedFrom(s, s[a..b], a);
    s[a..b]
  }

  /** `p` occurs in `s` starting at position `i`. */
  predicate OccursAt(s: string, p: string, i: int) {
    0 <= i <= |s| - |p| && s[i..i + |p|] == p
  }

  /** `p in s`: `p` occurs in `s` as a contiguous block. */
  predicate Contains(s: string, p: string) {
    exists i | 0 <= i <= |s| - |p| :: OccursAt(s, p, i)
  }

  /** Python's `any(p in s for p in patterns)`, checked pattern by pattern. */
  predicate ContainsAny(s: string, patterns: seq<string>)
    decreases |patterns|
  {
    |patterns| > 0 && (Contains(s, patterns[0]) || ContainsAny(s, patterns[1..]))
  }

  /** The pattern-by-pattern check holds exactly when some pattern occurs. */
  lemma {:induction false} ContainsAnyIff(s: string, patterns: seq<string>)
    ensures ContainsAny(s, patterns) <==> exists k :: 0 <= k < |patterns| && Contains(s, patterns[k])
    decreases |patterns|
  {
    if |patterns| > 0 {
      ContainsAnyIff(s, patterns[1..]);
      if exists k :: 0 <= k < |patterns| && Contains(s, patterns[k]) {
        var k :| 0 <= k < |patterns| && Contains(s, patterns[k]);
        if k > 0 {
          assert patterns[1..][k - 1] == patterns[k];
        }
      }
      if ContainsAny(s, patterns[1..]) {
        var k :| 0 <= k < |patterns| - 1 && Contains(s, patterns[1..][k]);
        assert patterns[1..][k] == patterns[k + 1];
      }
    }
  }

  /** No character of `p` is whitespace. */
  predicate NoSpace(p: string) {
    forall i :: 0 <= i < |p| ==> !IsSpace(p[i])
  }

  /** An occurrence inside a slice is an occurrence in the whole text. */
  lemma OccursInSlice(s: string, a: nat, b: nat, p: string, i: int)
    requires a <= b <= |s|
    requires OccursAt(s[a..b], p, i)
    ensures OccursAt(s, p, a + i)
  {
    forall t | 0 <= t < |p|
      ensures s[a + i + t] == p[t]
    {
      assert p[t] == s[a..b][i..i + |p|][t] == s[a..b][i + t];
    }
    assert s[a + i..a + i + |p|] == p;
  }

  /** An occurrence lying within a slice is an occurrence in that slice. */
  lemma OccursWithinSlice(s: string, a: nat, b: nat, p: string, j: int)
    requires a <= j && j + |p| <= b <= |s|
    requires OccursAt(s, p, j)
    ensures OccursAt(s[a..b], p, j - a)
  {
    forall t | 0 <= t < |p|
      ensures s[a..b][j - a + t] == p[t]
    {
      assert p[t] == s[j..j + |p|][t] == s[j + t];
    }
    assert s[a..b][j - a..j - a + |p|] == p;
  }

  /**
   An occurrence of a whitespace-free pattern cannot reach into a stretch
   of whitespace, so it lies within the slice.
   */
  lemma OccurrenceInsideSlice(s: string, a: int, b: int, p: string, j: int)
    requires 0 <= a <= b <= |s| && SpaceOutside(s, a, b)
    requires NoSpace(p) && |p| > 0 && OccursAt(s, p, j)
    ensures a <= j && j + |p| <= b
  {
    assert s[j] == s[j..j + |p|][0] == p[0];
    assert s[j + |p| - 1] == s[j..j + |p|][|p| - 1] == p[|p| - 1];
    assert !IsSpace(s[j]) && !IsSpace(s[j + |p| - 1]);
  }

  /**
   Cutting whitespace off both ends never creates or destroys an
   occurrence of a pattern that holds no whitespace.
   */
  lemma ContainsSlice(s: string, a: int, b: int, p: string)
    requires 0 <= a <= b <= |s| && SpaceOutside(s, a, b)
    requires NoSpace(p)
    ensures Contains(s[a..b], p) <==> Contains(s, p)
  {
    if Contains(s[a..b], p) {
      var i :| 0 <= i <= |s[a..b]| - |p| && OccursAt(s[a..b], p, i);
      OccursInSlice(s, a, b, p, i);
    }
    if Contains(s, p) {
      if |p| == 0 {
        assert OccursAt(s[a..b], p, 0);
      } else {
        var j :| 0 <= j <= |s| - |p| && OccursAt(s, p, j);
        OccurrenceInsideSlice(s, a, b, p, j);
        OccursWithinSlice(s, a, b, p, j);
      }
    }
  }

  /**
   Stripping a message does not change whether it mentions a pattern that
   holds no whitespace, so testing the stripped text is the same as testing
   the raw one.
   */
  lemma ContainsStrip(s: string, p: string)
    requires NoSpace(p)
    ensures Contains(Strip(s), p) <==> Contains(s, p)
  {
    var a, b := StripStart(s), StripEnd(s);
    assert SpaceOutside(s, a, b);
    ContainsSlice(s, a, b, p);
  }
}
