/**
 * `process_batch`: every form image in the input directory is read, parsed with
 * the default category and stored; any exception skips that one form and the
 * loop goes on with the next.
 *
 * As written, the loop calls `store_data(data, output_db)` with two arguments
 * while `store_data` takes one, so the call raises TypeError before its body
 * runs. That exception is caught like any other: every form is skipped and the
 * table and report are never touched by the batch.
 */
module Batch {
  import opened Results
  import opened Parser
  import Store

  /** The OCR step `extract_data(path)`: the recognised text, or `None` when it
      raises (unreadable image, engine failure). */
  type Extractor = string -> Option<string>

  /** The number of parameters `def store_data(data)` declares. */
  const StoreDataParams: nat := 1

  /** The number of arguments `process_batch` passes to `store_data`. */
  const BatchStoreDataArgs: nat := 2

  /** Why a form was skipped: the exception the `except` clause caught. */
  datatype SkipReason =
    | ExtractFailed                                   // raised by extract_data
    | ParseFailed(error: ParseError)                  // ValueError from parse_voter_data
    | StoreCallFailed(given: nat, expected: nat)      // TypeError from the call to store_data

  /** What happened to one form. */
  datatype DocumentOutcome = Processed(path: string) | Skipped(path: string, reason: SkipReason)

  /** One iteration of the loop body: extract, parse with the default category,
      then call `store_data` with the arguments the loop passes. A call whose
      argument count differs from the parameter count raises TypeError. */
  function ProcessDocument(path: string, extract: Extractor, search: Searcher): (o: DocumentOutcome)
    ensures o.path == path
  {
    match extract(path)
    case None => Skipped(path, ExtractFailed)
    case Some(text) =>
      match ParseSpec(text, DefaultCategory, search)
      case Err(e) => Skipped(path, ParseFailed(e))
      case Ok(_) =>
        if BatchStoreDataArgs != StoreDataParams then Skipped(path, StoreCallFailed(BatchStoreDataArgs, StoreDataParams))
        else Processed(path)
  }

  /** No form is ever processed in batch mode: a form that parses reaches the
      call to `store_data` and fails there with the argument-count error. */
  lemma NoDocumentProcessed(path: string, extract: Extractor, search: Searcher)
    ensures ProcessDocument(path, extract, search).Skipped?
    ensures extract(path).Some? && ParseSpec(extract(path).value, DefaultCategory, search).Ok? ==>
      ProcessDocument(path, extract, search).reason == StoreCallFailed(2, 1)
  {
  }

  /** A form whose text lacks a field is skipped with the parser's error, which
      names the first field not found under the general table. */
  lemma ParseFailureReported(path: string, extract: Extractor, search: Searcher)
    requires extract(path).Some?
    requires ParseSpec(extract(path).value, DefaultCategory, search).Err?
    ensures var o := ProcessDocument(path, extract, search);
      && o.Skipped? && o.reason.ParseFailed?
      && Capture(GeneralPatterns, o.reason.error.field, extract(path).value, search).None?
  {
    ParseOutcome(GeneralPatterns, extract(path).value, search, Cleaning.Clean);
  }

  /** The body of the `try` for one form, with the `except` clause that turns
      whatever it raises into a skip. The call to `store_data` raises before its
      body runs, so the database and the report are left as they were. */
  method ProcessForm(path: string, extract: Extractor, search: Searcher, store: Store.VoterStore)
    returns (outcome: DocumentOutcome)
    modifies store
    ensures outcome == ProcessDocument(path, extract, search)
    ensures outcome.Skipped?
    ensures store.rows == old(store.rows) && store.report == old(store.report)
    ensures store.tableExists == old(store.tableExists)
  {
    var text := extract(path);
    if text.None? {
      return Skipped(path, ExtractFailed);
    }
    var parsed := ParseVoterData(text.value, DefaultCategory, search);
    if parsed.Err? {
      outcome := Skipped(path, ParseFailed(parsed.error));
    } else if BatchStoreDataArgs != StoreDataParams {
      outcome := Skipped(path, StoreCallFailed(BatchStoreDataArgs, StoreDataParams));
    } else {
      // Reached only if the call's arity matched `store_data`'s.
      outcome := Processed(path);
    }
  }

  /** `process_batch`: one outcome per form, in the order the paths are listed,
      each decided by that form alone, so a failure never stops the loop.
      `store` is the database and report file `store_data` writes; the batch
      leaves both exactly as they were. */
  method ProcessBatch(formPaths: seq<string>, extract: Extractor, search: Searcher, store: Store.VoterStore)
    returns (log: seq<DocumentOutcome>)
    modifies store
    ensures |log| == |formPaths|
    ensures forall i :: 0 <= i < |formPaths| ==> log[i] == ProcessDocument(formPaths[i], extract, search)
    ensures forall i :: 0 <= i < |log| ==> log[i].Skipped? && log[i].path == formPaths[i]
    ensures store.rows == old(store.rows) && store.report == old(store.report)
    ensures store.tableExists == old(store.tableExists)
  {
    log := [];
    for i := 0 to |formPaths|
      invariant |log| == i
      invariant forall j :: 0 <= j < i ==> log[j] == ProcessDocument(formPaths[j], extract, search)
      invariant forall j :: 0 <= j < i ==> log[j].Skipped? && log[j].path == formPaths[j]
      invariant store.rows == old(store.rows) && store.report == old(store.report)
      invariant store.tableExists == old(store.tableExists)
    {
      var outcome := ProcessForm(formPaths[i], extract, search, store);
      log := log + [outcome];
    }
  }
}
