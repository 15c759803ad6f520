# Voter-form OCR pipeline: field parsing, record store, batch loop

This project models in Dafny the decision logic of `ocr_processor.py`, which reads
scanned voter-registration forms with an OCR engine, pulls three fields out of
the recognised text and stores them in a SQLite table with a text report beside it.

- **Field parser** (`parse_voter_data`; modules `Parser`, `Cleaning`, `Text`, `Matcher`).
  - The population category selects a pattern table. `mobile_voter` has its own
    table; every other category gets the general table written inline.
  - The fields `voter_id`, `name` and `address` are searched in that order. The
    first one without a match raises `ValueError`, so no partial record is returned.
  - Every captured group is cleaned by `.replace('Soe','Doe').replace('ZL','123').replace('..','.').strip()`.
    `Text.Replace` models Python's single left-to-right, non-overlapping
    `str.replace` exactly. `Text.Strip` models `str.strip()` with the `str.isspace` character set.
  - The regular-expression engine is a parameter, `search(pattern, text)`, standing for
    `re.search(pattern, text, re.IGNORECASE).group(1)`. `ParseVoterData` is the
    imperative loop, proved against the recursive specification `ParseSpec`.
  - `Matcher` is a concrete leftmost matcher for the two identifier patterns,
    `(?:TempID|TID)[:\s]*(\d+)` and `(?:ID|1D|D|LD)[:\s]*([A-Z0-9.\-]{6,})`.
    It is proved against a declarative reading of such a pattern (`RestSplit`,
    `AltMatches`, `RegexMatchAt`): leftmost start, first successful alternative,
    greedy runs. Several lemmas connect it to the parser.
- **Record store** (`store_data`, `generate_report`; module `Store`).
  - Class `VoterStore` holds the table as a map from the UNIQUE `voter_id` to
    (name, address), the report as a sequence of lines, and whether the table exists.
  - Its methods are proved against the pure functions `Outcome`, `TableAfter` and `ReportAfter`.
- **Batch loop** (`process_batch`; module `Batch`).
  - Each form's exception is caught, and the loop goes on to the next form.

The model follows the code, including where its behaviour differs from what
one might expect of it:

- The report line is appended after the `try`/`finally` (line 92), so a duplicate
  also gets a report line. Storing one record twice gives one row and **two**
  report lines (`Store.StoreTwice`). One might expect a line only for inserted records.
- `process_batch` calls `store_data(data, output_db)` (line 65), but `store_data`
  takes a single parameter (line 71). The TypeError is caught at line 67, so in
  batch mode every form that parses is skipped with that error, and every other
  form is skipped too. The database and the report are left exactly as they
  were (`Batch.ProcessBatch`).
- Nothing checks that a cleaned value is non-empty. Only the mobile-voter name
  and camp-location patterns, `(.+)` after their prefix, can capture nothing but
  whitespace. That happens when, at the leftmost matching prefix, everything after
  it to the end of the text is `:` or whitespace, and the last of those characters
  that is not a line break is whitespace (a space, a tab, `\r`, ...). The capture
  is then that one character, as for a form ending `NN: `. That field comes out as
  the empty string and the record is still returned (`Parser.BlankNameAccepted`).
  The identifier patterns and the general name and address patterns never
  capture whitespace alone.
- The general identifier pattern needs at least six characters. So the text
  `ID: ZL9.9` fails on `voter_id` before any correction is applied
  (`Parser.ShortIdentifierNotFound`). The `ZL→123` correction on that value is
  shown separately (`Cleaning.CleanExample`).

## Model

| member | source | states |
|---|---|---|
| Text.Strip | ocr_processor.py:52 | the result never begins or ends with a whitespace character |
| Text.StripSlice | ocr_processor.py:52 | the result is the slice of the input after its leading whitespace run; only whitespace precedes it; the result is empty exactly when the input is all whitespace |
| Text.StripUnique | ocr_processor.py:52 | any slice bordered by whitespace on both sides and itself trimmed is the result of strip (independent characterisation) |
| Text.StripIdempotent | ocr_processor.py:52 | stripping twice equals stripping once |
| Text.StripTrimmed | ocr_processor.py:52 | strip leaves text with no surrounding whitespace unchanged |
| Text.ReplaceAbsent | ocr_processor.py:49-51 | `str.replace` is the identity on text in which the pattern does not occur |
| Text.ReplaceFirst | ocr_processor.py:49-51 | when `i` is the least index where the pattern occurs, `str.replace` gives the text before `i`, then the replacement, then `str.replace` of the text after that occurrence; with `ReplaceAbsent` this fixes the left-to-right, non-overlapping scan on every input |
| Cleaning.CleanWith | ocr_processor.py:48-52 | applying any list of substitutions and then stripping yields a trimmed value |
| Cleaning.Clean | ocr_processor.py:48-52 | the cleaned value never begins or ends with whitespace |
| Cleaning.CleanChain | ocr_processor.py:48-52 | cleaning is `strip(replace(replace(replace(v,'Soe','Doe'),'ZL','123'),'..','.'))`, in that order |
| Cleaning.CleanWithoutFragments | ocr_processor.py:48-52 | on text containing none of `Soe`, `ZL`, `..`, cleaning is only stripping |
| Cleaning.CleanKeepsDigits | ocr_processor.py:48-52 | a value of ASCII digits is returned unchanged |
| Cleaning.CleanPlainValue | ocr_processor.py:48-52 | a trimmed value without `S`, `Z` or `.` is returned unchanged |
| Cleaning.CleanExample | ocr_processor.py:48-52 | `clean("ZL9.9") == "1239.9"` |
| Cleaning.CleanNotIdempotent | ocr_processor.py:51-52 | `...` cleans to `..` and `..` cleans to `.`, so cleaning twice differs from cleaning once |
| Cleaning.CleanWhitespace | ocr_processor.py:48-52 | a value made only of whitespace cleans to the empty string |
| Matcher.Search | ocr_processor.py:45 | a captured identifier has at least the pattern's minimum length and only characters of its value class |
| Matcher.SearchLeftmost | ocr_processor.py:45 | the search fails exactly when no start index matches, and otherwise returns the group of the leftmost matching start index |
| Matcher.RestAtSpec | ocr_processor.py:38 | `[:\s]*(V{n,})` at an index succeeds exactly when some split into a separator run and a run of at least n value characters exists; the group is then the one such split whose group starts where every split's group starts and ends no earlier than any other |
| Matcher.FirstSuccessSpec | ocr_processor.py:38 | an alternation fails exactly when every alternative fails, and otherwise gives the result of the first alternative that succeeds, all earlier ones failing |
| Matcher.AlternativesAtIsFirstSuccess | ocr_processor.py:38 | the matcher's scan over the prefix alternatives is that alternation |
| Matcher.AlternativesAtSpec | ocr_processor.py:38 | at a start index, the prefix group fails exactly when every alternative's attempt fails, and otherwise the first alternative whose attempt succeeds decides the group |
| Matcher.AttemptSpec | ocr_processor.py:38 | one alternative succeeds exactly when its literal occurs (ignoring case) and the pattern suffix can match after it; its group is then the longest split's group |
| Matcher.MatchAtSpec | ocr_processor.py:38 | the matcher finds a match at a start index exactly when some alternative occurs there and the suffix can match after it |
| Matcher.SearchSpec | ocr_processor.py:45 | `re.search` fails exactly when no start index admits a match; otherwise the group comes from the leftmost start index that admits one, the first alternative that can match there, and the longest split after it |
| Matcher.SearchSampleForm | ocr_processor.py:38 | in text beginning `ID: AB1234` and a line break, the general identifier pattern captures `AB1234` |
| Matcher.SearchShortIdentifier | ocr_processor.py:38 | the general identifier pattern finds nothing in `ID: ZL9.9` (five characters, six required) |
| Matcher.SearchTempIdIgnoresCase | ocr_processor.py:29 | the mobile-voter identifier pattern matches `tempid:007` regardless of case and captures `007` |
| Parser.SelectPatterns | ocr_processor.py:37-41 | the mobile-voter table is selected if and only if the category is `mobile_voter`; the general table if and only if it is any other category |
| Parser.ParseFieldsOk | ocr_processor.py:43-57 | when every field has a match, parsing returns the map of cleaned captures |
| Parser.ParseFieldsErr | ocr_processor.py:43-57 | when the fields before index k match and field k does not, parsing fails naming field k |
| Parser.ParseOutcome | ocr_processor.py:43-57 | a record exactly when all three fields match; it has exactly the keys `voter_id`, `name`, `address`, each holding its cleaned capture; an error names a field without a match, and every field before it matched |
| Parser.ParseVoterData | ocr_processor.py:36-57 | the loop returns what `ParseSpec` specifies, with the same success condition, key set, cleaned values and first-failure error |
| Parser.MobileVoterIdIsDigitRun | ocr_processor.py:29 | a parsed mobile-voter identifier is the digit run the TempID pattern captures: non-empty, ASCII digits only |
| Parser.ShortIdentifierNotFound | ocr_processor.py:38 | under the general table, `ID: ZL9.9` fails with voter_id not found |
| Parser.FoundVoterId | ocr_processor.py:44-53 | when all three fields match, the identifier is the cleaned capture |
| Parser.SampleFormVoterId | ocr_processor.py:38 | a form whose first line is `ID: AB1234` yields identifier `AB1234` under the general table when name and address are found |
| Parser.BlankNameAccepted | ocr_processor.py:30-53 | under the mobile-voter table, a name capture of whitespace only still gives a record, whose name is the empty string and whose identifier is the TempID digit run |
| Parser.MissingAddressReported | ocr_processor.py:54-55 | when only the address is missing, parsing fails with `Could not find address in text: <text>` |
| Store.ReportLine | ocr_processor.py:97 | a report line is `Validated entry: `, the identifier, then a line break, and the identifier can be read back from it |
| Store.MissingField | ocr_processor.py:86 | no key is reported missing exactly when all three are present; a reported key is absent, and the keys read before it are present |
| Store.VoterStore.constructor | ocr_processor.py:72-73 | an empty table and an empty report, satisfying `Valid` (rows only in a created table) |
| Store.VoterStore.CreateTable | ocr_processor.py:74-81 | afterwards the table exists and `Valid` holds; rows and report are unchanged (idempotent creation) |
| Store.VoterStore.GenerateReport | ocr_processor.py:95-97 | appends exactly the line for the identifier when the record has one, and leaves the report unchanged otherwise; keeps `Valid` |
| Store.VoterStore.StoreData | ocr_processor.py:71-92 | the outcome, the new table and the new report are `Outcome`, `TableAfter` and `ReportAfter` of the old state; the table exists afterwards, so `Valid` holds |
| Store.OutcomeCases | ocr_processor.py:82-89 | a complete record is inserted if and only if its identifier is new, and rejected as a duplicate if and only if it is present; a missing key is reported if and only if one is missing |
| Store.ExistingRowsKept | ocr_processor.py:77-89 | no existing row is changed or removed |
| Store.InsertAddsOneRow | ocr_processor.py:83-89 | an insert adds exactly the record's row under its identifier and the table grows by one; other outcomes leave the table unchanged |
| Store.StoredIdentifierPresent | ocr_processor.py:83-89 | after storing a complete record, its identifier is in the table |
| Store.ReportAppendOnly | ocr_processor.py:92-97 | the old report is a prefix of the new one, which is one line longer exactly when the record is complete |
| Store.StoreTwice | ocr_processor.py:82-92 | storing the same record twice: the second call is a duplicate, the table is as after the first call, and the report gains two lines |
| Store.ReportAfterAllAppends | ocr_processor.py:92-97 | over any sequence of calls, earlier report lines are preserved and one line is added per complete record |
| Store.TableAfterAllKeeps | ocr_processor.py:77-89 | over any sequence of calls, no existing row changes, and every complete record's identifier ends up in the table |
| Batch.ProcessDocument | ocr_processor.py:62-68 | the outcome of one iteration names the form it is about |
| Batch.NoDocumentProcessed | ocr_processor.py:65-71 | no form is ever processed; a form that extracts and parses fails on the call with 2 arguments to a function of 1 parameter |
| Batch.ParseFailureReported | ocr_processor.py:64-68 | a form whose text lacks a field is skipped with the parser's error, naming a field without a match under the general table |
| Batch.ProcessForm | ocr_processor.py:62-68 | one iteration gives the outcome `ProcessDocument` specifies, that outcome is always a skip, and the store's table and report are unchanged |
| Batch.ProcessBatch | ocr_processor.py:60-68 | one outcome per form, in order, each the iteration's outcome for that form alone, every one skipped, and the store's table, report and table-created flag unchanged |

## Left out

- `preprocess_image` (lines 11-18). It is OpenCV pixel and floating-point work in a foreign library.
- `extract_data` and the Tesseract path setting (lines 8, 21-24). The OCR engine is external. The batch loop takes it as a parameter returning the text, or `None` when it raises.
- The general regular-expression engine. `search` is a parameter of the parser. Only the two identifier patterns have a concrete matcher. The name and address patterns, including the lazy `.+?Street`, have none.
- Matcher.Search: `IGNORECASE` is modelled as ASCII case folding, and `\d` as the ASCII digits. Python also folds and matches some non-ASCII characters, and this is not modelled.
- SQLite I/O: connecting, committing and closing (lines 72-73, 87, 91), and opening the report file (line 96). Only their effect on the table and the report is modelled.
- The surrogate `id INTEGER PRIMARY KEY` column (line 76). It is not modelled.
- `glob` (line 61). The batch takes the list of paths, in the order glob returns them.
- Every `print` (lines 66, 68, 89) and the `__main__` driver (lines 100-112).
- Python's `population_type` accepts any object. The model takes a string.
- Store.VoterStore.StoreData: the INSERT of a record with all three keys is assumed to fail only on the UNIQUE constraint. Other database errors (a locked or unreadable database file) are not modelled.
