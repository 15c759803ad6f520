/**
 * The correction pass that `parse_voter_data` applies to every captured field
 * value: three literal substitutions for known OCR misreadings, in a fixed
 * order, then trimming of surrounding whitespace.
 */
module Cleaning {
  import opened Text

  /** A literal substitution, applied to the whole value with `str.replace`. */
  datatype Correction = Correction(garbled: string, intended: string)

  /** The substitutions of the pass, in the order they are applied: a garbled
      name fragment, garbled digits, doubled punctuation. */
  const Corrections: seq<Correction> :=
    [Correction("Soe", "Doe"), Correction("ZL", "123"), Correction("..", ".")]

  predicate WellFormed(corrections: seq<Correction>)
  {
    forall i :: 0 <= i < |corrections| ==> |corrections[i].garbled| > 0
  }

  /** Applies `corrections` one after the other, each as one `str.replace` scan
      over the whole value, and strips the result. */
  function CleanWith(value: string, corrections: seq<Correction>): (r: string)
    requires WellFormed(corrections)
    ensures Trimmed(r)
    decreases |corrections|
  {
    if corrections == [] then Strip(value)
    else CleanWith(Replace(value, corrections[0].garbled, corrections[0].intended), corrections[1..])
  }

  /** The correction pass of `parse_voter_data`. The result never starts or ends
      with whitespace. */
  function Clean(value: string): (r: string)
    ensures Trimmed(r)
  {
    CleanWith(value, Corrections)
  }

  /** The pass spelled out as the method chain
      `value.replace('Soe', 'Doe').replace('ZL', '123').replace('..', '.').strip()`. */
  lemma CleanChain(value: string)
    ensures Clean(value) == Strip(Replace(Replace(Replace(value, "Soe", "Doe"), "ZL", "123"), "..", "."))
  {
    var a := Replace(value, "Soe", "Doe");
    var b := Replace(a, "ZL", "123");
    var c := Replace(b, "..", ".");
    assert Corrections[1..][1..][1..] == [];
    calc {
      Clean(value);
      CleanWith(a, Corrections[1..]);
      CleanWith(b, Corrections[1..][1..]);
      CleanWith(c, Corrections[1..][1..][1..]);
      Strip(c);
    }
  }

  /** On text holding none of the three garbled fragments the substitutions
      change nothing: cleaning is only stripping. */
  lemma CleanWithoutFragments(value: string)
    requires !Contains(value, "Soe") && !Contains(value, "ZL") && !Contains(value, "..")
    ensures Clean(value) == Strip(value)
  {
    ReplaceAbsent(value, "Soe", "Doe");
    ReplaceAbsent(value, "ZL", "123");
    ReplaceAbsent(value, "..", ".");
    CleanChain(value);
  }

  /** A value made of ASCII digits only is kept as it is: none of the three
      fragments can occur in it and there is no whitespace to strip. */
  lemma CleanKeepsDigits(value: string)
    requires forall k :: 0 <= k < |value| ==> IsAsciiDigit(value[k])
    ensures Clean(value) == value
  {
    AbsentFirstChar(value, "Soe");
    AbsentFirstChar(value, "ZL");
    AbsentFirstChar(value, "..");
    CleanWithoutFragments(value);
    StripTrimmed(value);
  }

  /** `pat` cannot occur where its first character does not. */
  lemma AbsentFirstChar(s: string, pat: string)
    requires |pat| > 0
    requires forall k :: 0 <= k < |s| ==> s[k] != pat[0]
    ensures !Contains(s, pat)
  {
    if i: nat :| i <= |s| && OccursAt(s, pat, i) {
      assert s[i] == s[i..i + |pat|][0];
    }
  }

  /** `..` cannot occur where no dot is followed by a dot. */
  lemma NoDoubleDot(s: string)
    requires forall k :: 0 <= k < |s| - 1 ==> s[k] != '.' || s[k + 1] != '.'
    ensures !Contains(s, "..")
  {
    if i: nat :| i <= |s| && OccursAt(s, "..", i) {
      assert s[i] == s[i..i + 2][0] && s[i + 1] == s[i..i + 2][1];
    }
  }

  /** An example of the correction pass: the garbled digits `ZL` become
      `123` and nothing else changes. */
  lemma CleanExample()
    ensures Clean("ZL9.9") == "1239.9"
  {
    CleanChain("ZL9.9");
    ExampleSubstitutions();
    StripTrimmed("1239.9");
  }

  /** The three substitutions on `ZL9.9`: only the second one applies. */
  lemma ExampleSubstitutions()
    ensures Replace(Replace(Replace("ZL9.9", "Soe", "Doe"), "ZL", "123"), "..", ".") == "1239.9"
  {
    assert Replace("ZL9.9", "Soe", "Doe") == "ZL9.9" by {
      AbsentFirstChar("ZL9.9", "Soe");
      ReplaceAbsent("ZL9.9", "Soe", "Doe");
    }
    assert Replace("ZL9.9", "ZL", "123") == "1239.9" by {
      assert OccursAt("ZL9.9", "ZL", 0);
      assert "ZL9.9"[2..] == "9.9";
      AbsentFirstChar("9.9", "ZL");
      ReplaceAbsent("9.9", "ZL", "123");
      assert Replace("ZL9.9", "ZL", "123") == "123" + "9.9";
    }
    assert Replace("1239.9", "..", ".") == "1239.9" by {
      NoDoubleDot("1239.9");
      ReplaceAbsent("1239.9", "..", ".");
    }
  }

  /** The pass is one left-to-right scan per substitution, so a run of three dots
      becomes two: cleaning twice is not cleaning once. */
  lemma CleanNotIdempotent()
    ensures Clean("...") == ".."
    ensures Clean("..") == "."
    ensures Clean(Clean("...")) != Clean("...")
  {
    AbsentFirstChar("...", "Soe");
    ReplaceAbsent("...", "Soe", "Doe");
    AbsentFirstChar("...", "ZL");
    ReplaceAbsent("...", "ZL", "123");
    AbsentFirstChar("..", "Soe");
    ReplaceAbsent("..", "Soe", "Doe");
    AbsentFirstChar("..", "ZL");
    ReplaceAbsent("..", "ZL", "123");
    assert OccursAt("...", "..", 0) && !OccursAt(".", "..", 0);
    assert Replace("...", "..", ".") == "." + ".";
    assert OccursAt("..", "..", 0);
    assert Replace("..", "..", ".") == "." + "";
    StripTrimmed("..");
    StripTrimmed(".");
    CleanChain("...");
    CleanChain("..");
  }

  /** A value made only of whitespace is cleaned away entirely: no fragment
      can occur in it, and strip removes every character. */
  lemma CleanWhitespace(value: string)
    requires SpaceBetween(value, 0, |value|)
    ensures Clean(value) == ""
  {
    AbsentFirstChar(value, "Soe");
    AbsentFirstChar(value, "ZL");
    AbsentFirstChar(value, "..");
    CleanWithoutFragments(value);
    StripSlice(value);
  }

  /** A trimmed value without `S`, `Z` or `.` is kept as it is: it cannot hold
      the first character of any garbled fragment, and there is nothing to strip. */
  lemma CleanPlainValue(value: string)
    requires forall k :: 0 <= k < |value| ==> value[k] != 'S' && value[k] != 'Z' && value[k] != '.'
    requires Trimmed(value)
    ensures Clean(value) == value
  {
    AbsentFirstChar(value, "Soe");
    AbsentFirstChar(value, "ZL");
    AbsentFirstChar(value, "..");
    CleanWithoutFragments(value);
    StripTrimmed(value);
  }
}
