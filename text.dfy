/**
 * The two Python string primitives used by the correction pass:
 * `str.replace(old, new)` (one left-to-right scan replacing non-overlapping
 * occurrences) and `str.strip()` (removing whitespace at both ends).
 */
module Text {

  /** Python's `str.isspace` on a single character: the set removed by
      `str.strip()` with no argument and matched by `\s` in a `str` pattern. */
  predicate IsSpace(c: char)
  {
    || ('\t' <= c <= '\r')
    || ('\U{1C}' <= c <= '\U{1F}')
    || c == ' '
    || c == '\U{85}'
    || c == '\U{A0}'
    || c == '\U{1680}'
    || ('\U{2000}' <= c <= '\U{200A}')
    || c == '\U{2028}'
    || c == '\U{2029}'
    || c == '\U{202F}'
    || c == '\U{205F}'
    || c == '\U{3000}'
  }

  /** `0`-`9`. */
  predicate IsAsciiDigit(c: char)
  {
    '0' <= c <= '9'
  }

  /** Every character of `s` from index `lo` up to (not including) `hi` is whitespace. */
  predicate SpaceBetween(s: string, lo: int, hi: int)
    requires 0 <= lo && hi <= |s|
  {
    forall m :: lo <= m < hi ==> IsSpace(s[m])
  }

  /** Neither end of `s` is whitespace. */
  predicate Trimmed(s: string)
  {
    s == [] || (!IsSpace(s[0]) && !IsSpace(s[|s| - 1]))
  }

  /** The forward scan of `str.strip()`: the first index at or after `i` that does
      not hold whitespace, or `|s|`. */
  function SkipLeading(s: string, i: nat): (k: nat)
    requires i <= |s|
    ensures i <= k <= |s|
    ensures SpaceBetween(s, i, k)
    ensures k == |s| || !IsSpace(s[k])
    decreases |s| - i
  {
    if i < |s| && IsSpace(s[i]) then SkipLeading(s, i + 1) else i
  }

  /** The backward scan of `str.strip()`, which stops at `lo`: the least index `k`
      down from `j` such that `s[k..j]` is all whitespace. */
  function SkipTrailing(s: string, lo: nat, j: nat): (k: nat)
    requires lo <= j <= |s|
    ensures lo <= k <= j
    ensures SpaceBetween(s, k, j)
    ensures k == lo || !IsSpace(s[k - 1])
    decreases j
  {
    if lo < j && IsSpace(s[j - 1]) then SkipTrailing(s, lo, j - 1) else j
  }

  /** `str.strip()`: `s` without its leading and trailing whitespace. */
  function Strip(s: string): (r: string)
    ensures Trimmed(r)
  {
    var i := SkipLeading(s, 0);
    var j := SkipTrailing(s, i, |s|);
    assert j > i ==> s[i..j][0] == s[i] && s[i..j][j - i - 1] == s[j - 1];
    s[i..j]
  }

  /** What `str.strip()` keeps: the slice `s[i..i + |r|]` with only whitespace
      before `i` and after it, where `i` counts the leading whitespace; nothing
      is kept exactly when `s` is all whitespace. */
  lemma StripSlice(s: string)
    ensures var r := Strip(s); var i := SkipLeading(s, 0);
      && i + |r| <= |s|
      && r == s[i..i + |r|]
      && SpaceBetween(s, 0, i)
      && SpaceBetween(s, i + |r|, |s|)
    ensures Strip(s) == [] <==> SpaceBetween(s, 0, |s|)
  {
  }

  /** An independent description of `str.strip()`: any slice of `s` that has only
      whitespace outside it and no whitespace at its own ends is `Strip(s)`. */
  lemma StripUnique(s: string, i: nat, j: nat)
    requires i <= j <= |s|
    requires SpaceBetween(s, 0, i) && SpaceBetween(s, j, |s|)
    requires Trimmed(s[i..j])
    ensures Strip(s) == s[i..j]
  {
    var k := SkipLeading(s, 0);
    var e := SkipTrailing(s, k, |s|);
    StripSlice(s);
    if i < j {
      assert s[i..j][0] == s[i] && s[i..j][j - i - 1] == s[j - 1];
      assert k == i;
      assert e == j;
    } else {
      assert SpaceBetween(s, 0, |s|);
    }
  }

  /** Stripping twice is stripping once. */
  lemma StripIdempotent(s: string)
    ensures Strip(Strip(s)) == Strip(s)
  {
    var r := Strip(s);
    assert r[0..|r|] == r;
    StripUnique(r, 0, |r|);
  }

  /** Text without whitespace at either end is left as it is by `str.strip()`. */
  lemma StripTrimmed(s: string)
    requires Trimmed(s)
    ensures Strip(s) == s
  {
    assert s[0..|s|] == s;
    StripUnique(s, 0, |s|);
  }

  /** `pat` occurs in `s` starting at index `i`. */
  predicate OccursAt(s: string, pat: string, i: nat)
  {
    i + |pat| <= |s| && s[i..i + |pat|] == pat
  }

  /** `pat in s` for a non-empty `pat`. */
  predicate Contains(s: string, pat: string)
  {
    exists i: nat :: i <= |s| && OccursAt(s, pat, i)
  }

  /** `s.replace(pat, rep)`: scans `s` from the left and replaces every occurrence
      of `pat` that does not overlap an earlier replaced one. */
  function Replace(s: string, pat: string, rep: string): string
    requires |pat| > 0
    decreases |s|
  {
    if OccursAt(s, pat, 0) then
      rep + Replace(s[|pat|..], pat, rep)
    else if s == [] then
      []
    else
      [s[0]] + Replace(s[1..], pat, rep)
  }

  /** Text in which `pat` does not occur comes back unchanged. */
  lemma {:induction false} ReplaceAbsent(s: string, pat: string, rep: string)
    requires |pat| > 0 && !Contains(s, pat)
    ensures Replace(s, pat, rep) == s
    decreases |s|
  {
    assert !OccursAt(s, pat, 0);
    if s != [] {
      assert !Contains(s[1..], pat) by {
        if i: nat :| i <= |s[1..]| && OccursAt(s[1..], pat, i) {
          assert s[1..][i..i + |pat|] == s[i + 1..i + 1 + |pat|];
          assert OccursAt(s, pat, i + 1);
        }
      }
      ReplaceAbsent(s[1..], pat, rep);
    }
  }

  /** Dropping the first character moves every occurrence one index left. */
  lemma OccursShift(s: string, pat: string, j: nat)
    requires |s| > 0
    ensures OccursAt(s[1..], pat, j) <==> OccursAt(s, pat, j + 1)
  {
    if j + |pat| <= |s[1..]| {
      assert s[1..][j..j + |pat|] == s[j + 1..j + 1 + |pat|];
    }
  }

  /** Where `pat` does not start the text, the scan keeps its first character. */
  lemma ReplaceKeepsHead(s: string, pat: string, rep: string)
    requires |pat| > 0 && s != [] && !OccursAt(s, pat, 0)
    ensures Replace(s, pat, rep) == [s[0]] + Replace(s[1..], pat, rep)
  {
  }

  /** Text before the first occurrence of `pat` is copied unchanged. */
  lemma {:induction false} ReplaceKeepsPrefix(s: string, pat: string, rep: string, i: nat)
    requires |pat| > 0 && i <= |s|
    requires forall j: nat :: j < i ==> !OccursAt(s, pat, j)
    ensures Replace(s, pat, rep) == s[..i] + Replace(s[i..], pat, rep)
    decreases i
  {
    if i > 0 {
      var t := s[1..];
      ReplaceKeepsHead(s, pat, rep);
      NoOccurrenceInTail(s, pat, i);
      ReplaceKeepsPrefix(t, pat, rep, i - 1);
      assert t[i - 1..] == s[i..];
      ConsPrefix(s, i, Replace(s[i..], pat, rep));
    }
  }

  /** Dropping the first character shifts every occurrence one index left. */
  lemma NoOccurrenceInTail(s: string, pat: string, i: nat)
    requires 0 < i <= |s|
    requires forall j: nat :: j < i ==> !OccursAt(s, pat, j)
    ensures forall j: nat :: j < i - 1 ==> !OccursAt(s[1..], pat, j)
  {
    forall j: nat | j < i - 1 ensures !OccursAt(s[1..], pat, j) {
      OccursShift(s, pat, j);
    }
  }

  /** The first character followed by the next `i - 1` is the first `i`. */
  lemma ConsPrefix(s: string, i: nat, rest: string)
    requires 0 < i <= |s|
    ensures [s[0]] + (s[1..][..i - 1] + rest) == s[..i] + rest
  {
    assert [s[0]] + s[1..][..i - 1] == s[..i];
  }

  /** The scan replaces the leftmost occurrence first: when `i` is the least
      index where `pat` occurs, the text before it is kept, that occurrence
      becomes `rep`, and the scan resumes right after it. Together with
      `ReplaceAbsent` this determines `Replace` on every input. */
  lemma ReplaceFirst(s: string, pat: string, rep: string, i: nat)
    requires |pat| > 0 && OccursAt(s, pat, i)
    requires forall j: nat :: j < i ==> !OccursAt(s, pat, j)
    ensures Replace(s, pat, rep) == s[..i] + rep + Replace(s[i + |pat|..], pat, rep)
  {
    ReplaceKeepsPrefix(s, pat, rep, i);
    var u := s[i..];
    assert OccursAt(u, pat, 0) by {
      assert u[..|pat|] == s[i..i + |pat|];
    }
    assert u[|pat|..] == s[i + |pat|..];
    assert Replace(u, pat, rep) == rep + Replace(s[i + |pat|..], pat, rep);
  }
}
