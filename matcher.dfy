/**
 * A concrete leftmost matcher for the identifier patterns of `parse_voter_data`,
 * which all have the shape `(?:P1|P2|...)[:\s]*(V{n,})` and are searched with
 * `re.search(pattern, text, re.IGNORECASE)`:
 *   - `(?:TempID|TID)[:\s]*(\d+)` (mobile voters),
 *   - `(?:ID|1D|D|LD)[:\s]*([A-Z0-9.\-]{6,})` (every other category).
 * Search tries the start positions from left to right and, at each position,
 * the alternatives in order; the first success gives group 1.
 */
module Matcher {
  import opened Results
  import opened Text

  /** The character classes occurring in these patterns. */
  datatype CharClass =
    | Separator  // [:\s]
    | Digits     // \d
    | IdChars    // [A-Z0-9.\-], which under IGNORECASE also takes a-z

  predicate Member(cls: CharClass, c: char)
  {
    match cls
    case Separator => c == ':' || IsSpace(c)
    case Digits => IsAsciiDigit(c)
    case IdChars => ('A' <= c <= 'Z') || ('a' <= c <= 'z') || IsAsciiDigit(c) || c == '.' || c == '-'
  }

  /** `(?:prefixes[0]|prefixes[1]|...)[:\s]*(value{minLen,})`. */
  datatype IdPattern = IdPattern(prefixes: seq<string>, value: CharClass, minLen: nat)

  const TempIdPattern := IdPattern(["TempID", "TID"], Digits, 1)
  const GeneralIdPattern := IdPattern(["ID", "1D", "D", "LD"], IdChars, 6)

  /** ASCII lower-casing, the case folding IGNORECASE applies in this model. */
  function Lower(c: char): char
  {
    if 'A' <= c <= 'Z' then (c as int + 32) as char else c
  }

  /** `lit` occurs at index `i` of `text`, comparing letters without regard to case. */
  predicate LiteralAt(text: string, i: nat, lit: string)
  {
    i + |lit| <= |text| && forall k :: 0 <= k < |lit| ==> Lower(text[i + k]) == Lower(lit[k])
  }

  /** The end of the longest run of `cls` characters starting at `j` (a greedy `*`). */
  function RunEnd(text: string, j: nat, cls: CharClass): (k: nat)
    requires j <= |text|
    ensures j <= k <= |text|
    ensures forall m :: j <= m < k ==> Member(cls, text[m])
    ensures k == |text| || !Member(cls, text[k])
    decreases |text| - j
  {
    if j < |text| && Member(cls, text[j]) then RunEnd(text, j + 1, cls) else j
  }

  /** `[:\s]*(value{minLen,})` at index `j`. Both quantifiers are greedy, and
      neither value class shares a character with `[:\s]`, so giving back
      separators never lets the group match: the group is the longest value run
      after the longest separator run, if it is long enough. */
  function RestAt(text: string, j: nat, p: IdPattern): (r: Option<string>)
    requires j <= |text|
    ensures r.Some? ==> |r.value| >= p.minLen
    ensures r.Some? ==> forall k :: 0 <= k < |r.value| ==> Member(p.value, r.value[k])
  {
    var k := RunEnd(text, j, Separator);
    var e := RunEnd(text, k, p.value);
    if e - k >= p.minLen then Some(text[k..e]) else None
  }

  /** The first of `alts`, in order, for which `attempt` succeeds decides the
      result: the way a regular-expression alternation is tried. */
  function FirstSuccess<T>(alts: seq<T>, attempt: T -> Option<string>): (r: Option<string>)
    ensures r.Some? ==> exists a :: 0 <= a < |alts| && r == attempt(alts[a])
  {
    if alts == [] then None
    else if attempt(alts[0]).Some? then attempt(alts[0])
    else
      var r := FirstSuccess(alts[1..], attempt);
      assert r.Some? ==> exists a :: 0 <= a < |alts| && r == attempt(alts[a]) by {
        if r.Some? {
          var a :| 0 <= a < |alts[1..]| && r == attempt(alts[1..][a]);
          assert alts[1..][a] == alts[a + 1];
        }
      }
      r
  }

  /** One alternative `lit` of the prefix group tried at index `i`: the literal
      must be present, and then the rest of the pattern must match after it. */
  function Attempt(text: string, i: nat, lit: string, p: IdPattern): (r: Option<string>)
    requires i <= |text|
    ensures r.Some? ==> LiteralAt(text, i, lit)
    ensures r.Some? ==> |r.value| >= p.minLen
    ensures r.Some? ==> forall k :: 0 <= k < |r.value| ==> Member(p.value, r.value[k])
  {
    if LiteralAt(text, i, lit) then RestAt(text, i + |lit|, p) else None
  }

  /** The alternatives of the prefix group tried in order at index `i`; the
      first one that is present and lets the rest of the pattern match wins.
      It is `FirstSuccess` specialised to `Attempt` (`AlternativesAtIsFirstSuccess`),
      written out recursively, without a function value, so that proofs about
      `MatchAt` stay small. */
  function AlternativesAt(text: string, i: nat, alts: seq<string>, p: IdPattern): (r: Option<string>)
    requires i <= |text|
    ensures r.Some? ==> |r.value| >= p.minLen
    ensures r.Some? ==> forall k :: 0 <= k < |r.value| ==> Member(p.value, r.value[k])
    ensures r.Some? ==> exists a :: 0 <= a < |alts| && LiteralAt(text, i, alts[a])
  {
    if alts == [] then None
    else if Attempt(text, i, alts[0], p).Some? then Attempt(text, i, alts[0], p)
    else
      var r := AlternativesAt(text, i, alts[1..], p);
      assert r.Some? ==> exists a :: 0 <= a < |alts| && LiteralAt(text, i, alts[a]) by {
        if r.Some? {
          var a :| 0 <= a < |alts[1..]| && LiteralAt(text, i, alts[1..][a]);
          assert alts[1..][a] == alts[a + 1];
        }
      }
      r
  }

  /** The recursive scan over the alternatives is the generic first-success scan. */
  lemma {:induction false} AlternativesAtIsFirstSuccess(text: string, i: nat, alts: seq<string>, p: IdPattern)
    requires i <= |text|
    ensures AlternativesAt(text, i, alts, p) == FirstSuccess(alts, lit => Attempt(text, i, lit, p))
    decreases |alts|
  {
    if alts != [] {
      AlternativesAtIsFirstSuccess(text, i, alts[1..], p);
    }
  }

  /** Group 1 of a match of `p` starting exactly at index `i`, if there is one. */
  function MatchAt(text: string, i: nat, p: IdPattern): (r: Option<string>)
    requires i <= |text|
    ensures r.Some? ==> |r.value| >= p.minLen
    ensures r.Some? ==> forall k :: 0 <= k < |r.value| ==> Member(p.value, r.value[k])
  {
    AlternativesAt(text, i, p.prefixes, p)
  }

  /** The least start index at or after `from` where `p` matches. */
  function Leftmost(text: string, from: nat, p: IdPattern): (r: Option<nat>)
    requires from <= |text|
    ensures r.Some? ==> from <= r.value <= |text| && MatchAt(text, r.value, p).Some?
    ensures r.Some? ==> forall q :: from <= q < r.value ==> MatchAt(text, q, p).None?
    ensures r.None? ==> forall q :: from <= q <= |text| ==> MatchAt(text, q, p).None?
    decreases |text| - from
  {
    if MatchAt(text, from, p).Some? then Some(from)
    else if from == |text| then None
    else Leftmost(text, from + 1, p)
  }

  /** `re.search(p, text, re.IGNORECASE).group(1)`, or `None` when nothing
      matches. A group found is at least `minLen` characters of the value class. */
  function Search(text: string, p: IdPattern): (r: Option<string>)
    ensures r.Some? ==> |r.value| >= p.minLen
    ensures r.Some? ==> forall k :: 0 <= k < |r.value| ==> Member(p.value, r.value[k])
  {
    match Leftmost(text, 0, p)
    case Some(q) => MatchAt(text, q, p)
    case None => None
  }

  /** Search reports no match exactly when no start index has one, and
      otherwise the group of the leftmost start index that has one. */
  lemma SearchLeftmost(text: string, p: IdPattern)
    ensures Search(text, p).None? <==> forall q :: 0 <= q <= |text| ==> MatchAt(text, q, p).None?
    ensures Search(text, p).Some? ==>
      exists q :: && 0 <= q <= |text|
                  && Search(text, p) == MatchAt(text, q, p)
                  && forall q' :: 0 <= q' < q ==> MatchAt(text, q', p).None?
  {
  }

  /** The identifier patterns' value class shares no character with `[:\s]`,
      and their group needs at least one character. */
  predicate ValueClassOk(p: IdPattern)
  {
    p.minLen >= 1 && p.value != Separator
  }

  /** `[:\s]*(value{minLen,})` matches `text[j..e]` with the separators in
      `text[j..k]` and group 1 equal to `text[k..e]`. This is the meaning of the
      pattern suffix, independent of how `RestAt` finds a match. */
  predicate RestSplit(text: string, j: nat, k: nat, e: nat, p: IdPattern)
  {
    && j <= k <= e <= |text|
    && (forall m :: j <= m < k ==> Member(Separator, text[m]))
    && (forall m :: k <= m < e ==> Member(p.value, text[m]))
    && e - k >= p.minLen
  }

  /** The pattern suffix can match at `j`. */
  ghost predicate RestMatches(text: string, j: nat, p: IdPattern)
  {
    exists k: nat, e: nat :: RestSplit(text, j, k, e, p)
  }

  /** The split `k`, `e` matches at `j`, and no other split that matches at `j`
      starts its group elsewhere or ends it later. */
  ghost predicate LongestSplit(text: string, j: nat, k: nat, e: nat, p: IdPattern)
  {
    RestSplit(text, j, k, e, p) && forall k': nat, e': nat :: RestSplit(text, j, k', e', p) ==> k' == k && e' <= e
  }

  /** Alternative `lit` of the prefix group occurs at `i` and the rest of the
      pattern can match after it. */
  ghost predicate AltMatches(text: string, i: nat, lit: string, p: IdPattern)
  {
    LiteralAt(text, i, lit) && RestMatches(text, i + |lit|, p)
  }

  /** The whole pattern matches at start index `q`, by some alternative. */
  ghost predicate RegexMatchAt(text: string, q: nat, p: IdPattern)
  {
    exists a :: 0 <= a < |p.prefixes| && AltMatches(text, q, p.prefixes[a], p)
  }

  /** At start index `q`, alternative `a` is the first one that can match,
      and `text[k..e]` is the longest group the pattern allows after it. */
  ghost predicate FirstAlternativeGroup(text: string, q: nat, a: int, k: nat, e: nat, p: IdPattern)
  {
    && 0 <= a < |p.prefixes| && LiteralAt(text, q, p.prefixes[a])
    && NoEarlierAlternative(text, q, a, p)
    && LongestSplit(text, q + |p.prefixes[a]|, k, e, p)
  }

  /** No alternative before the `a`-th can match at `q`. */
  ghost predicate NoEarlierAlternative(text: string, q: nat, a: int, p: IdPattern)
  {
    forall b :: 0 <= b < a && b < |p.prefixes| ==> !AltMatches(text, q, p.prefixes[b], p)
  }

  /** `q` is the least start index at which the pattern matches. */
  ghost predicate LeftmostMatch(text: string, q: nat, p: IdPattern)
  {
    q <= |text| && RegexMatchAt(text, q, p) && forall q': nat :: q' < q ==> !RegexMatchAt(text, q', p)
  }

  /** `RestAt` finds a match exactly when the pattern suffix can match at `j`,
      and then its group is the one of greatest extent: the separator run cannot
      stop earlier or later (the classes are disjoint), and the greedy value run
      is the longest. */
  lemma RestAtSpec(text: string, j: nat, p: IdPattern)
    requires j <= |text| && ValueClassOk(p)
    ensures RestAt(text, j, p).Some? <==> RestMatches(text, j, p)
    ensures RestAt(text, j, p).Some? ==>
      exists k: nat, e: nat :: LongestSplit(text, j, k, e, p) && RestAt(text, j, p).value == text[k..e]
  {
    var k0 := RunEnd(text, j, Separator);
    var e0 := RunEnd(text, k0, p.value);
    forall k: nat, e: nat | RestSplit(text, j, k, e, p) ensures k == k0 && e <= e0 {
      assert Member(p.value, text[k]);
      assert !Member(Separator, text[k]);
      assert k == k0;
    }
    if e0 - k0 >= p.minLen {
      assert RestSplit(text, j, k0, e0, p);
      assert LongestSplit(text, j, k0, e0, p);
    }
  }

  /** Alternation semantics: the scan fails exactly when every attempt fails,
      and otherwise yields the result of the first attempt that succeeds. */
  lemma {:induction false} FirstSuccessSpec<T>(alts: seq<T>, attempt: T -> Option<string>)
    ensures FirstSuccess(alts, attempt).None? <==> forall a :: 0 <= a < |alts| ==> attempt(alts[a]).None?
    ensures FirstSuccess(alts, attempt).Some? ==>
      exists a :: && 0 <= a < |alts| && FirstSuccess(alts, attempt) == attempt(alts[a])
                  && forall b :: 0 <= b < a ==> attempt(alts[b]).None?
    decreases |alts|
  {
    if alts != [] && attempt(alts[0]).None? {
      var tail := alts[1..];
      FirstSuccessSpec(tail, attempt);
      assert forall a :: 1 <= a < |alts| ==> alts[a] == tail[a - 1];
      var r := FirstSuccess(alts, attempt);
      if r.Some? {
        var a :| && 0 <= a < |tail| && r == attempt(tail[a])
                 && forall b :: 0 <= b < a ==> attempt(tail[b]).None?;
        assert alts[a + 1] == tail[a];
      }
    }
  }

  /** The alternatives are tried in order: the search at `i` fails exactly when
      no alternative both occurs and lets the rest match, and otherwise the
      first alternative that does decides the group. */
  lemma AlternativesAtSpec(text: string, i: nat, alts: seq<string>, p: IdPattern)
    requires i <= |text|
    ensures AlternativesAt(text, i, alts, p).None? <==> forall a :: 0 <= a < |alts| ==> Attempt(text, i, alts[a], p).None?
    ensures AlternativesAt(text, i, alts, p).Some? ==>
      exists a :: && 0 <= a < |alts| && AlternativesAt(text, i, alts, p) == Attempt(text, i, alts[a], p)
                  && forall b :: 0 <= b < a ==> Attempt(text, i, alts[b], p).None?
  {
    FirstSuccessSpec(alts, lit => Attempt(text, i, lit, p));
    AlternativesAtIsFirstSuccess(text, i, alts, p);
  }

  /** A match at a start index exists exactly when the pattern can match there. */
  lemma MatchAtSpec(text: string, q: nat, p: IdPattern)
    requires q <= |text| && ValueClassOk(p)
    ensures MatchAt(text, q, p).Some? <==> RegexMatchAt(text, q, p)
  {
    AlternativesAtSpec(text, q, p.prefixes, p);
    forall a | 0 <= a < |p.prefixes|
      ensures Attempt(text, q, p.prefixes[a], p).Some? <==> AltMatches(text, q, p.prefixes[a], p)
    {
      AttemptSpec(text, q, p.prefixes[a], p);
    }
  }

  /** One alternative succeeds exactly when it can match, and then its group is
      the longest one the pattern suffix allows after it. */
  lemma AttemptSpec(text: string, q: nat, lit: string, p: IdPattern)
    requires q <= |text| && ValueClassOk(p)
    ensures Attempt(text, q, lit, p).Some? <==> AltMatches(text, q, lit, p)
    ensures Attempt(text, q, lit, p).Some? ==>
      exists k: nat, e: nat :: LongestSplit(text, q + |lit|, k, e, p) && Attempt(text, q, lit, p).value == text[k..e]
  {
    if LiteralAt(text, q, lit) {
      RestAtSpec(text, q + |lit|, p);
    }
  }

  /** `re.search` on an identifier pattern, stated against the pattern's
      meaning: it fails exactly when no start index admits a match; otherwise the
      match starts at the leftmost index that admits one, uses the first
      alternative that can match there, and group 1 is the longest value run
      after that alternative and its separators. */
  lemma SearchSpec(text: string, p: IdPattern)
    requires ValueClassOk(p)
    ensures Search(text, p).None? <==> forall q: nat :: q <= |text| ==> !RegexMatchAt(text, q, p)
    ensures Search(text, p).Some? ==>
      exists q: nat, a, k: nat, e: nat ::
        LeftmostMatch(text, q, p) && FirstAlternativeGroup(text, q, a, k, e, p) && Search(text, p).value == text[k..e]
  {
    MatchesAgree(text, p);
    SearchLeftmost(text, p);
    if Search(text, p).Some? {
      var q, a, k, e := SearchGroup(text, p);
    }
  }

  /** The matcher and the pattern's meaning agree at every start index. */
  lemma MatchesAgree(text: string, p: IdPattern)
    requires ValueClassOk(p)
    ensures forall q: nat :: q <= |text| ==> (MatchAt(text, q, p).Some? <==> RegexMatchAt(text, q, p))
  {
    forall q: nat | q <= |text| ensures MatchAt(text, q, p).Some? <==> RegexMatchAt(text, q, p) {
      MatchAtSpec(text, q, p);
    }
  }

  /** The start index, alternative and split behind a successful search. */
  lemma SearchGroup(text: string, p: IdPattern) returns (q: nat, a: int, k: nat, e: nat)
    requires ValueClassOk(p) && Search(text, p).Some?
    ensures LeftmostMatch(text, q, p) && FirstAlternativeGroup(text, q, a, k, e, p) && Search(text, p).value == text[k..e]
  {
    MatchesAgree(text, p);
    SearchLeftmost(text, p);
    q :| && 0 <= q <= |text| && Search(text, p) == MatchAt(text, q, p)
         && forall q' :: 0 <= q' < q ==> MatchAt(text, q', p).None?;
    a, k, e := LeftmostAlternative(text, q, p);
  }

  /** At a start index where the pattern matches, the group comes from the
      first alternative that can match and is its longest value run. */
  lemma LeftmostAlternative(text: string, q: nat, p: IdPattern) returns (a: int, k: nat, e: nat)
    requires q <= |text| && ValueClassOk(p) && MatchAt(text, q, p).Some?
    ensures FirstAlternativeGroup(text, q, a, k, e, p) && MatchAt(text, q, p).value == text[k..e]
  {
    a := FirstAlternative(text, q, p);
    k, e := FirstGroup(text, q, a, p);
  }

  /** The split behind the first alternative that succeeds. */
  lemma FirstGroup(text: string, q: nat, a: int, p: IdPattern) returns (k: nat, e: nat)
    requires q <= |text| && ValueClassOk(p) && 0 <= a < |p.prefixes|
    requires Attempt(text, q, p.prefixes[a], p).Some? && NoEarlierAlternative(text, q, a, p)
    ensures FirstAlternativeGroup(text, q, a, k, e, p) && Attempt(text, q, p.prefixes[a], p).value == text[k..e]
  {
    var lit := p.prefixes[a];
    AttemptSpec(text, q, lit, p);
    k, e :| LongestSplit(text, q + |lit|, k, e, p) && Attempt(text, q, lit, p).value == text[k..e];
  }

  /** The alternative whose attempt gives the match at `q`; no earlier one can match. */
  lemma FirstAlternative(text: string, q: nat, p: IdPattern) returns (a: int)
    requires q <= |text| && ValueClassOk(p) && MatchAt(text, q, p).Some?
    ensures 0 <= a < |p.prefixes| && MatchAt(text, q, p) == Attempt(text, q, p.prefixes[a], p)
    ensures Attempt(text, q, p.prefixes[a], p).Some?
    ensures NoEarlierAlternative(text, q, a, p)
  {
    AlternativesAtSpec(text, q, p.prefixes, p);
    a :| && 0 <= a < |p.prefixes| && MatchAt(text, q, p) == Attempt(text, q, p.prefixes[a], p)
         && forall b :: 0 <= b < a ==> Attempt(text, q, p.prefixes[b], p).None?;
    forall b | 0 <= b < a ensures !AltMatches(text, q, p.prefixes[b], p) {
      AttemptSpec(text, q, p.prefixes[b], p);
    }
  }

  /** A literal whose first character differs from the text's does not occur there. */
  lemma FirstCharDiffers(text: string, i: nat, lit: string)
    requires |lit| > 0
    requires i < |text| ==> Lower(text[i]) != Lower(lit[0])
    ensures !LiteralAt(text, i, lit)
  {
  }

  /** In a form that begins `ID: AB1234` and a line break, the separator run after
      `ID` ends at index 4 and the identifier-character run after it at index 10. */
  lemma SampleFormRuns(t: string, rest: string)
    requires t == "ID: AB1234\n" + rest
    ensures RunEnd(t, 2, Separator) == 4
    ensures RunEnd(t, 4, IdChars) == 10
  {
    var head := "ID: AB1234\n";
    assert forall k :: 0 <= k < |head| ==> t[k] == head[k];
    assert RunEnd(t, 2, Separator) == RunEnd(t, 3, Separator) == RunEnd(t, 4, Separator);
    assert RunEnd(t, 4, IdChars) == RunEnd(t, 5, IdChars);
    assert RunEnd(t, 5, IdChars) == RunEnd(t, 6, IdChars);
    assert RunEnd(t, 6, IdChars) == RunEnd(t, 7, IdChars);
    assert RunEnd(t, 7, IdChars) == RunEnd(t, 8, IdChars);
    assert RunEnd(t, 8, IdChars) == RunEnd(t, 9, IdChars);
    assert RunEnd(t, 9, IdChars) == RunEnd(t, 10, IdChars);
  }

  /** Any text whose first line is `ID: AB1234`, for example a form such as
      `ID: AB1234`, `Name: Jane Doe`, `Address: 123 Main Street` on three lines:
      the identifier is six characters long, so the general pattern captures it
      at index 0. */
  lemma SearchSampleForm(rest: string)
    ensures Search("ID: AB1234\n" + rest, GeneralIdPattern) == Some("AB1234")
  {
    var t := "ID: AB1234\n" + rest;
    SampleFormRuns(t, rest);
    assert t[4..10] == "AB1234";
    assert LiteralAt(t, 0, "ID");
    assert MatchAt(t, 0, GeneralIdPattern) == Some("AB1234");
  }

  /** In `ID: ZL9.9` the separator run after `ID` ends at index 4 and the
      identifier-character run after it at index 9: five characters. */
  lemma ShortIdentifierRuns()
    ensures RunEnd("ID: ZL9.9", 2, Separator) == 4
    ensures RunEnd("ID: ZL9.9", 4, IdChars) == 9
  {
    var t := "ID: ZL9.9";
    assert RunEnd(t, 2, Separator) == RunEnd(t, 3, Separator) == RunEnd(t, 4, Separator);
    assert t[4] == 'Z' && t[5] == 'L' && t[6] == '9' && t[7] == '.' && t[8] == '9';
    assert RunEnd(t, 4, IdChars) == RunEnd(t, 5, IdChars);
    assert RunEnd(t, 5, IdChars) == RunEnd(t, 6, IdChars);
    assert RunEnd(t, 6, IdChars) == RunEnd(t, 7, IdChars);
    assert RunEnd(t, 7, IdChars) == RunEnd(t, 8, IdChars);
    assert RunEnd(t, 8, IdChars) == RunEnd(t, 9, IdChars);
  }

  /** `ID: ZL9.9` holds no general identifier: the run after `ID:` has five
      characters where the pattern asks for at least six, and no other position
      starts one of the prefixes `ID`, `1D`, `D`, `LD`. */
  lemma SearchShortIdentifier()
    ensures Search("ID: ZL9.9", GeneralIdPattern) == None
  {
    var t := "ID: ZL9.9";
    ShortIdentifierNoMatchAtStart();
    forall q | 2 <= q <= |t| ensures MatchAt(t, q, GeneralIdPattern) == None {
      NoPrefixFrom(t, q);
      GeneralAttemptsFail(t, q);
    }
    SearchLeftmost(t, GeneralIdPattern);
  }

  /** At indices 0 and 1 of `ID: ZL9.9` only `ID` and `D` occur, and the run
      after either is too short. */
  lemma ShortIdentifierNoMatchAtStart()
    ensures MatchAt("ID: ZL9.9", 0, GeneralIdPattern) == None
    ensures MatchAt("ID: ZL9.9", 1, GeneralIdPattern) == None
  {
    var t := "ID: ZL9.9";
    ShortIdentifierRuns();
    assert RestAt(t, 2, GeneralIdPattern) == None;
    FirstCharDiffers(t, 0, "1D");
    FirstCharDiffers(t, 0, "D");
    FirstCharDiffers(t, 0, "LD");
    GeneralAttemptsFail(t, 0);
    FirstCharDiffers(t, 1, "ID");
    FirstCharDiffers(t, 1, "1D");
    FirstCharDiffers(t, 1, "LD");
    GeneralAttemptsFail(t, 1);
  }

  /** The general pattern has no match at `q` when each of its four
      alternatives fails there. */
  lemma GeneralAttemptsFail(t: string, q: nat)
    requires q <= |t|
    requires Attempt(t, q, "ID", GeneralIdPattern).None? && Attempt(t, q, "1D", GeneralIdPattern).None?
    requires Attempt(t, q, "D", GeneralIdPattern).None? && Attempt(t, q, "LD", GeneralIdPattern).None?
    ensures MatchAt(t, q, GeneralIdPattern).None?
  {
    var p := GeneralIdPattern;
    assert AlternativesAt(t, q, ["LD"], p) == None;
    assert AlternativesAt(t, q, ["D", "LD"], p) == None by {
      assert ["D", "LD"][1..] == ["LD"];
    }
    assert AlternativesAt(t, q, ["1D", "D", "LD"], p) == None by {
      assert ["1D", "D", "LD"][1..] == ["D", "LD"];
    }
    assert p.prefixes[1..] == ["1D", "D", "LD"];
  }

  /** From index 2 on, `ID: ZL9.9` offers no start for any general prefix. */
  lemma NoPrefixFrom(t: string, q: nat)
    requires t == "ID: ZL9.9" && 2 <= q <= |t|
    ensures forall a :: 0 <= a < |GeneralIdPattern.prefixes| ==> !LiteralAt(t, q, GeneralIdPattern.prefixes[a])
  {
    FirstCharDiffers(t, q, "ID");
    FirstCharDiffers(t, q, "1D");
    FirstCharDiffers(t, q, "D");
    if q == 5 {
      assert Lower(t[6]) != Lower("LD"[1]);
    } else {
      FirstCharDiffers(t, q, "LD");
    }
  }

  /** Prefixes are matched regardless of case, and the digit group keeps
      leading zeros. */
  lemma SearchTempIdIgnoresCase()
    ensures Search("tempid:007", TempIdPattern) == Some("007")
  {
    var t := "tempid:007";
    assert RunEnd(t, 6, Separator) == 7 by {
      assert RunEnd(t, 6, Separator) == RunEnd(t, 7, Separator);
    }
    assert RunEnd(t, 7, Digits) == 10 by {
      assert RunEnd(t, 7, Digits) == RunEnd(t, 8, Digits) == RunEnd(t, 9, Digits) == RunEnd(t, 10, Digits);
    }
    assert t[7..10] == "007";
    assert LiteralAt(t, 0, "TempID");
    assert MatchAt(t, 0, TempIdPattern) == Some("007");
  }
}
