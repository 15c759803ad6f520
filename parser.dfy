/**
 * `parse_voter_data`: choose the pattern table for the population category,
 * search the OCR text for each of the three fields in order, clean each
 * captured value, and fail on the first field that is not found.
 *
 * The regular-expression engine is a parameter: `search(pattern, text)` stands
 * for `re.search(pattern, text, re.IGNORECASE)` and gives group 1 of the first
 * match, or `None`. The identifier patterns also have a concrete model in
 * module Matcher.
 */
module Parser {
  import opened Results
  import opened Text
  import opened Cleaning
  import Matcher

  /** The three required fields, named by their dictionary keys below. */
  datatype Field = VoterId | Name | Address

  /** The dictionary key of a field. */
  function Key(f: Field): string
  {
    match f
    case VoterId => "voter_id"
    case Name => "name"
    case Address => "address"
  }

  /** The order in which both pattern tables list their fields, and hence the
      order in which they are searched. */
  const FieldOrder: seq<Field> := [VoterId, Name, Address]

  /** Where a field stands in the search order. */
  function Position(f: Field): (i: nat)
    ensures i < |FieldOrder| && FieldOrder[i] == f
  {
    match f
    case VoterId => 0
    case Name => 1
    case Address => 2
  }

  /** One pattern per field, as regular-expression source text. */
  datatype PatternSet = PatternSet(voterId: string, name: string, address: string)

  function PatternFor(ps: PatternSet, f: Field): string
  {
    match f
    case VoterId => ps.voterId
    case Name => ps.name
    case Address => ps.address
  }

  /** The only category with a table of its own. */
  const MobileVoter := "mobile_voter"

  /** The category `parse_voter_data` uses when the caller gives none. */
  const DefaultCategory := "general"

  /** `FIELD_MAPPINGS['mobile_voter']`. */
  const MobileVoterPatterns := PatternSet(
    @"(?:TempID|TID)[:\s]*(\d+)",
    @"(?:NomadName|NN)[:\s]*(.+)",
    @"(?:CampLocation|CL)[:\s]*(.+)")

  /** The fallback table written inline in `parse_voter_data`. */
  const GeneralPatterns := PatternSet(
    @"(?:ID|1D|D|LD)[:\s]*([A-Z0-9.\-]{6,})",
    @"(?:Name|Nome|Nane)[:\s]*([A-Z][a-z]+\s[A-Z][a-z]+)",
    @"(?:Address|Addyess|Add)[:\s]*(\d+\s.+?Street)")

  /** `FIELD_MAPPINGS.get(category, general)`: the mobile-voter table exactly for
      the category `mobile_voter`, the general table for every other category,
      the default `general` among them. */
  function SelectPatterns(category: string): (ps: PatternSet)
    ensures ps == MobileVoterPatterns <==> category == MobileVoter
    ensures ps == GeneralPatterns <==> category != MobileVoter
  {
    if category == MobileVoter then MobileVoterPatterns else GeneralPatterns
  }

  /** `re.search(pattern, text, re.IGNORECASE)` followed by `.group(1)`. */
  type Searcher = (string, string) -> Option<string>

  /** Group 1 of the first match of field `f`'s pattern in `text`. */
  function Capture(ps: PatternSet, f: Field, text: string, search: Searcher): Option<string>
  {
    search(PatternFor(ps, f), text)
  }

  /** The `ValueError` raised for a field without a match. */
  datatype ParseError = FieldNotFound(field: Field)

  /** The text of that `ValueError`. */
  function Message(e: ParseError, text: string): string
  {
    "Could not find " + Key(e.field) + " in text: " + text
  }

  /** The dictionary `parse_voter_data` returns. */
  type VoterData = map<Field, string>

  /** The cleaned captures of those `fields` that have a match. */
  function Collected(fields: seq<Field>, ps: PatternSet, text: string, search: Searcher, clean: string -> string): (data: VoterData)
    ensures data.Keys == set f | f in fields && Capture(ps, f, text, search).Some?
  {
    map f | f in fields && Capture(ps, f, text, search).Some? :: clean(Capture(ps, f, text, search).value)
  }

  /** Collecting one more field that has a match adds its cleaned capture. */
  lemma CollectedStep(fields: seq<Field>, i: nat, ps: PatternSet, text: string, search: Searcher, clean: string -> string)
    requires i < |fields| && Capture(ps, fields[i], text, search).Some?
    ensures Collected(fields[..i + 1], ps, text, search, clean)
         == Collected(fields[..i], ps, text, search, clean)[fields[i] := clean(Capture(ps, fields[i], text, search).value)]
  {
    assert fields[..i + 1] == fields[..i] + [fields[i]];
  }

  /** The fields searched in the order given: the first one without a match is
      the error, otherwise every field maps to its capture passed through `clean`. */
  function ParseFields(fields: seq<Field>, ps: PatternSet, text: string, search: Searcher, clean: string -> string): Result<VoterData, ParseError>
    decreases |fields|
  {
    if fields == [] then Ok(map[])
    else
      match Capture(ps, fields[0], text, search)
      case None => Err(FieldNotFound(fields[0]))
      case Some(g) =>
        match ParseFields(fields[1..], ps, text, search, clean)
        case Err(e) => Err(e)
        case Ok(data) => Ok(data[fields[0] := clean(g)])
  }

  /** What `parse_voter_data(text, category)` returns or raises. */
  function ParseSpec(text: string, category: string, search: Searcher): Result<VoterData, ParseError>
  {
    ParseFields(FieldOrder, SelectPatterns(category), text, search, Clean)
  }

  /** When every field has a match, parsing yields the cleaned captures. */
  lemma {:induction false} ParseFieldsOk(fields: seq<Field>, ps: PatternSet, text: string, search: Searcher, clean: string -> string)
    requires forall i :: 0 <= i < |fields| ==> Capture(ps, fields[i], text, search).Some?
    ensures ParseFields(fields, ps, text, search, clean) == Ok(Collected(fields, ps, text, search, clean))
  {
    if fields != [] {
      ParseFieldsOk(fields[1..], ps, text, search, clean);
      var f := fields[0];
      var rest := Collected(fields[1..], ps, text, search, clean);
      var all := Collected(fields, ps, text, search, clean);
      assert forall g :: g in fields <==> g == f || g in fields[1..];
      assert all == rest[f := clean(Capture(ps, f, text, search).value)];
    }
  }

  /** When the fields before index `k` have matches and field `k` has none,
      parsing fails naming field `k`. */
  lemma {:induction false} ParseFieldsErr(fields: seq<Field>, k: nat, ps: PatternSet, text: string, search: Searcher, clean: string -> string)
    requires k < |fields|
    requires forall i :: 0 <= i < k ==> Capture(ps, fields[i], text, search).Some?
    requires Capture(ps, fields[k], text, search).None?
    ensures ParseFields(fields, ps, text, search, clean) == Err(FieldNotFound(fields[k]))
  {
    if k > 0 {
      ParseFieldsErr(fields[1..], k - 1, ps, text, search, clean);
    }
  }

  /** The outcome of parsing the three fields, stated field by field: a record
      exactly when all three fields match, holding exactly the three keys, each
      with its cleaned capture; otherwise the error names a field without a
      match, and every field searched before it matched. */
  lemma ParseOutcome(ps: PatternSet, text: string, search: Searcher, clean: string -> string)
    ensures var r := ParseFields(FieldOrder, ps, text, search, clean);
      && (r.Ok? <==> forall f :: Capture(ps, f, text, search).Some?)
      && (r.Ok? ==> r.value.Keys == {VoterId, Name, Address})
      && (r.Ok? ==> forall f :: f in r.value && r.value[f] == clean(Capture(ps, f, text, search).value))
      && (r.Err? ==> Capture(ps, r.error.field, text, search).None?)
      && (r.Err? ==> forall i :: 0 <= i < Position(r.error.field) ==> Capture(ps, FieldOrder[i], text, search).Some?)
  {
    var found := i => 0 <= i < |FieldOrder| && Capture(ps, FieldOrder[i], text, search).Some?;
    if found(0) && found(1) && found(2) {
      ParseFieldsOk(FieldOrder, ps, text, search, clean);
      assert forall f :: f == FieldOrder[Position(f)];
    } else if !found(0) {
      ParseFieldsErr(FieldOrder, 0, ps, text, search, clean);
    } else if !found(1) {
      ParseFieldsErr(FieldOrder, 1, ps, text, search, clean);
    } else {
      ParseFieldsErr(FieldOrder, 2, ps, text, search, clean);
    }
  }

  /** `parse_voter_data(text, category)`. The loop visits the fields in table
      order and raises at the first one without a match; a record is returned
      only when all three fields matched, with exactly the three keys, each
      holding its cleaned capture. */
  method ParseVoterData(text: string, category: string, search: Searcher) returns (r: Result<VoterData, ParseError>)
    ensures r == ParseSpec(text, category, search)
    ensures r.Ok? <==> forall f :: Capture(SelectPatterns(category), f, text, search).Some?
    ensures r.Ok? ==> r.value.Keys == {VoterId, Name, Address}
    ensures r.Ok? ==> forall f :: f in r.value && r.value[f] == Clean(Capture(SelectPatterns(category), f, text, search).value)
    ensures r.Err? ==> Capture(SelectPatterns(category), r.error.field, text, search).None?
    ensures r.Err? ==> forall i :: 0 <= i < Position(r.error.field) ==>
                         Capture(SelectPatterns(category), FieldOrder[i], text, search).Some?
  {
    var patterns := SelectPatterns(category);
    var data: VoterData := map[];
    for i := 0 to |FieldOrder|
      invariant forall j :: 0 <= j < i ==> Capture(patterns, FieldOrder[j], text, search).Some?
      invariant data == Collected(FieldOrder[..i], patterns, text, search, Clean)
    {
      var field := FieldOrder[i];
      var m := search(PatternFor(patterns, field), text);
      if m.None? {
        ParseFieldsErr(FieldOrder, i, patterns, text, search, Clean);
        r := Err(FieldNotFound(field));
        ParseOutcome(patterns, text, search, Clean);
        return;
      }
      CollectedStep(FieldOrder, i, patterns, text, search, Clean);
      data := data[field := Clean(m.value)];
    }
    assert FieldOrder[..|FieldOrder|] == FieldOrder;
    ParseFieldsOk(FieldOrder, patterns, text, search, Clean);
    r := Ok(data);
    ParseOutcome(patterns, text, search, Clean);
  }

  /** A mobile voter's identifier is exactly the digit run that the
      `(?:TempID|TID)[:\s]*(\d+)` pattern captures: cleaning leaves ASCII digits
      alone, leading zeros included. */
  lemma MobileVoterIdIsDigitRun(text: string, search: Searcher)
    requires Capture(SelectPatterns(MobileVoter), VoterId, text, search) == Matcher.Search(text, Matcher.TempIdPattern)
    ensures var r := ParseSpec(text, MobileVoter, search);
      r.Ok? ==> && r.value[VoterId] == Matcher.Search(text, Matcher.TempIdPattern).value
                && |r.value[VoterId]| >= 1
                && forall k :: 0 <= k < |r.value[VoterId]| ==> IsAsciiDigit(r.value[VoterId][k])
  {
    ParseOutcome(MobileVoterPatterns, text, search, Clean);
    var g := Matcher.Search(text, Matcher.TempIdPattern);
    if g.Some? {
      CleanKeepsDigits(g.value);
    }
  }

  /** The general identifier pattern asks for at least six characters, so the
      text `ID: ZL9.9` fails at the first field, before any correction applies. */
  lemma ShortIdentifierNotFound(category: string, search: Searcher)
    requires category != MobileVoter
    requires Capture(SelectPatterns(category), VoterId, "ID: ZL9.9", search) == Matcher.Search("ID: ZL9.9", Matcher.GeneralIdPattern)
    ensures ParseSpec("ID: ZL9.9", category, search) == Err(FieldNotFound(VoterId))
  {
    Matcher.SearchShortIdentifier();
    ParseFieldsErr(FieldOrder, 0, GeneralPatterns, "ID: ZL9.9", search, Clean);
  }

  /** When all three fields are found, the identifier is the cleaned capture. */
  lemma FoundVoterId(text: string, category: string, search: Searcher, id: string)
    requires Capture(SelectPatterns(category), VoterId, text, search) == Some(id)
    requires Capture(SelectPatterns(category), Name, text, search).Some?
    requires Capture(SelectPatterns(category), Address, text, search).Some?
    ensures var r := ParseSpec(text, category, search);
      r.Ok? && r.value[VoterId] == Clean(id)
  {
    ParseOutcome(SelectPatterns(category), text, search, Clean);
  }

  /** Any text whose first line is `ID: AB1234`, for example a form such as
      `ID: AB1234`, `Name: Jane Doe`, `Address: 123 Main Street` on three lines,
      yields the identifier `AB1234` under the general table whenever the other
      two fields are found. */
  lemma SampleFormVoterId(text: string, rest: string, category: string, search: Searcher)
    requires text == "ID: AB1234\n" + rest
    requires category != MobileVoter
    requires Capture(SelectPatterns(category), VoterId, text, search) == Matcher.Search(text, Matcher.GeneralIdPattern)
    requires Capture(SelectPatterns(category), Name, text, search).Some?
    requires Capture(SelectPatterns(category), Address, text, search).Some?
    ensures ParseSpec(text, category, search).Ok?
    ensures ParseSpec(text, category, search).value[VoterId] == "AB1234"
  {
    Matcher.SearchSampleForm(rest);
    SampleIdClean();
    FoundVoterId(text, category, search, "AB1234");
  }

  /** `AB1234` holds none of the garbled fragments and no surrounding space. */
  lemma SampleIdClean()
    ensures Clean("AB1234") == "AB1234"
  {
    CleanPlainValue("AB1234");
  }

  /** Nothing checks that a cleaned value is non-empty. Under the mobile-voter
      table the name pattern `(?:NomadName|NN)[:\s]*(.+)` captures whitespace
      only when, at the leftmost matching prefix, everything after it to the end
      of the text is `:` or whitespace and the last of those characters that is
      not a line break is whitespace (a space, a tab, `\r`, ...); the capture is
      that one character, which `[:\s]*` gives back to `(.+)`. An example is
      `TID: 42`, `CL: Camp 3`, `NN: ` on three lines. That capture cleans to the
      empty string, and the record is still returned with the identifier the
      TempID pattern found. */
  lemma BlankNameAccepted(text: string, search: Searcher)
    requires Capture(SelectPatterns(MobileVoter), VoterId, text, search) == Matcher.Search(text, Matcher.TempIdPattern)
    requires Matcher.Search(text, Matcher.TempIdPattern).Some?
    requires Capture(SelectPatterns(MobileVoter), Name, text, search).Some?
    requires SpaceBetween(Capture(SelectPatterns(MobileVoter), Name, text, search).value, 0,
                          |Capture(SelectPatterns(MobileVoter), Name, text, search).value|)
    requires Capture(SelectPatterns(MobileVoter), Address, text, search).Some?
    ensures var r := ParseSpec(text, MobileVoter, search);
      && r.Ok? && r.value[Name] == ""
      && r.value[VoterId] == Matcher.Search(text, Matcher.TempIdPattern).value
      && |r.value[VoterId]| >= 1
  {
    ParseOutcome(MobileVoterPatterns, text, search, Clean);
    CleanWhitespace(Capture(MobileVoterPatterns, Name, text, search).value);
    MobileVoterIdIsDigitRun(text, search);
  }

  /** Text whose address line is missing fails naming `address`, once the
      identifier and the name have been found. */
  lemma MissingAddressReported(text: string, category: string, search: Searcher)
    requires Capture(SelectPatterns(category), VoterId, text, search).Some?
    requires Capture(SelectPatterns(category), Name, text, search).Some?
    requires Capture(SelectPatterns(category), Address, text, search).None?
    ensures ParseSpec(text, category, search) == Err(FieldNotFound(Address))
    ensures Message(ParseSpec(text, category, search).error, text) == "Could not find address in text: " + text
  {
    ParseFieldsErr(FieldOrder, 2, SelectPatterns(category), text, search, Clean);
  }
}
