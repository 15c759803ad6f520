/**
 * `store_data` and `generate_report`: the `voters` table, whose `voter_id`
 * column is UNIQUE, and the append-only validation report.
 *
 * The table is a map from `voter_id` to the row's (name, address); the
 * surrogate `id INTEGER PRIMARY KEY` column is not modelled. The report is the
 * sequence of lines written to `validation_report.txt`, one per write.
 */
module Store {
  import opened Results
  import opened Parser

  /** The `name` and `address` columns of a row. */
  datatype Row = Row(name: string, address: string)

  /** The `voters` table, keyed by its UNIQUE `voter_id` column. */
  type Table = map<string, Row>

  /** What one `store_data` call does with the record it is given. */
  datatype StoreOutcome =
    | Inserted            // the INSERT succeeded and was committed
    | DuplicateRejected   // the UNIQUE constraint raised IntegrityError, which is caught
    | KeyMissing(field: Field)  // `data[key]` raised KeyError, which propagates

  /** The text before the identifier on every report line. */
  const ReportPrefix := "Validated entry: "

  /** The line `generate_report` appends for an identifier: the prefix, the
      identifier, a line break. The identifier can be read back from it. */
  function ReportLine(voterId: string): (line: string)
    ensures |line| == |ReportPrefix| + |voterId| + 1
    ensures line[..|ReportPrefix|] == ReportPrefix
    ensures line[|line| - 1] == '\n'
    ensures line[|ReportPrefix|..|line| - 1] == voterId
  {
    ReportPrefix + voterId + "\n"
  }

  /** The first key, in the order the INSERT's parameter tuple reads them
      (`voter_id`, `name`, `address`), that the record lacks. */
  function MissingField(data: VoterData): (r: Option<Field>)
    ensures r.None? <==> VoterId in data && Name in data && Address in data
    ensures r.Some? ==> r.value !in data
    ensures r.Some? ==> forall i :: 0 <= i < Position(r.value) ==> FieldOrder[i] in data
  {
    if VoterId !in data then Some(VoterId)
    else if Name !in data then Some(Name)
    else if Address !in data then Some(Address)
    else None
  }

  /** The outcome of storing `data` into `rows`. */
  function Outcome(rows: Table, data: VoterData): StoreOutcome
  {
    match MissingField(data)
    case Some(f) => KeyMissing(f)
    case None => if data[VoterId] in rows then DuplicateRejected else Inserted
  }

  /** The table after storing `data`: one new row on an insert, otherwise the
      table as it was (the failed INSERT is not committed). */
  function TableAfter(rows: Table, data: VoterData): Table
  {
    if Outcome(rows, data) == Inserted then rows[data[VoterId] := Row(data[Name], data[Address])]
    else rows
  }

  /** The report after storing `data`: `generate_report` runs after the
      `try`/`finally` whether the INSERT succeeded or hit the UNIQUE constraint,
      and is not reached when a key is missing. */
  function ReportAfter(report: seq<string>, data: VoterData): seq<string>
  {
    if MissingField(data).Some? then report else report + [ReportLine(data[VoterId])]
  }

  /** The database table and the report file, as `store_data` and
      `generate_report` change them. */
  class VoterStore {
    var rows: Table
    var report: seq<string>
    /** Whether `CREATE TABLE IF NOT EXISTS voters` has run. */
    var tableExists: bool

    /** Rows exist only in a table that has been created. */
    predicate Valid()
      reads this
    {
      rows != map[] ==> tableExists
    }

    /** An empty database and an empty report. */
    constructor()
      ensures rows == map[] && report == [] && !tableExists
      ensures Valid()
    {
      rows := map[];
      report := [];
      tableExists := false;
    }

    /** `CREATE TABLE IF NOT EXISTS voters (...)`: creates the table when it is
        absent and leaves an existing table and its rows alone. */
    method CreateTable()
      requires Valid()
      modifies this`tableExists
      ensures tableExists && Valid()
      ensures rows == old(rows) && report == old(report)
    {
      if !tableExists {
        tableExists := true;
      }
    }

    /** `generate_report(data)`: appends the line for `data['voter_id']`. The
        file is opened before the key is read, so a record without an
        identifier raises KeyError and leaves the report as it was. */
    method GenerateReport(data: VoterData) returns (written: bool)
      requires Valid()
      modifies this`report
      ensures Valid()
      ensures written <==> VoterId in data
      ensures report == if written then old(report) + [ReportLine(data[VoterId])] else old(report)
    {
      if VoterId !in data {
        return false;
      }
      report := report + [ReportLine(data[VoterId])];
      written := true;
    }

    /** `store_data(data)`: creates the table if needed, inserts the row unless
        its identifier is already present, and writes the report line on both
        of those paths. A missing key raises before the INSERT and before the
        report. */
    method StoreData(data: VoterData) returns (outcome: StoreOutcome)
      requires Valid()
      modifies this
      ensures outcome == Outcome(old(rows), data)
      ensures tableExists && Valid()
      ensures rows == TableAfter(old(rows), data)
      ensures report == ReportAfter(old(report), data)
    {
      CreateTable();
      var missing := MissingField(data);
      if missing.Some? {
        return KeyMissing(missing.value);
      }
      var id := data[VoterId];
      if id in rows {
        outcome := DuplicateRejected;
      } else {
        rows := rows[id := Row(data[Name], data[Address])];
        outcome := Inserted;
      }
      var _ := GenerateReport(data);
    }
  }

  /** A record with all three keys is inserted exactly when its identifier is
      new, and rejected as a duplicate exactly when it is already present. */
  lemma OutcomeCases(rows: Table, data: VoterData)
    ensures Outcome(rows, data) == Inserted <==> MissingField(data).None? && data[VoterId] !in rows
    ensures Outcome(rows, data) == DuplicateRejected <==> MissingField(data).None? && data[VoterId] in rows
    ensures Outcome(rows, data).KeyMissing? <==> MissingField(data).Some?
  {
  }

  /** No call changes or removes an existing row: the UNIQUE constraint keeps
      the first record stored under an identifier. */
  lemma ExistingRowsKept(rows: Table, data: VoterData)
    ensures forall id :: id in rows ==> id in TableAfter(rows, data) && TableAfter(rows, data)[id] == rows[id]
  {
  }

  /** An insert adds exactly the record's row under its identifier and nothing
      else; every other outcome leaves the table as it was. */
  lemma InsertAddsOneRow(rows: Table, data: VoterData)
    ensures Outcome(rows, data) == Inserted ==>
      && TableAfter(rows, data).Keys == rows.Keys + {data[VoterId]}
      && TableAfter(rows, data)[data[VoterId]] == Row(data[Name], data[Address])
      && |TableAfter(rows, data)| == |rows| + 1
    ensures Outcome(rows, data) != Inserted ==> TableAfter(rows, data) == rows
  {
  }

  /** Every stored record, new or duplicate, leaves its identifier in the table. */
  lemma StoredIdentifierPresent(rows: Table, data: VoterData)
    requires MissingField(data).None?
    ensures data[VoterId] in TableAfter(rows, data)
  {
  }

  /** The report only grows at its end, by one line for every record that has an
      identifier and a name and an address. */
  lemma ReportAppendOnly(report: seq<string>, data: VoterData)
    ensures report <= ReportAfter(report, data)
    ensures |ReportAfter(report, data)| == |report| + (if MissingField(data).None? then 1 else 0)
  {
  }

  /** Storing a record twice keeps one row but writes two report lines: the
      second call is a duplicate and still reports the entry. */
  lemma StoreTwice(rows: Table, report: seq<string>, data: VoterData)
    requires MissingField(data).None?
    ensures Outcome(TableAfter(rows, data), data) == DuplicateRejected
    ensures TableAfter(TableAfter(rows, data), data) == TableAfter(rows, data)
    ensures ReportAfter(ReportAfter(report, data), data)
         == report + [ReportLine(data[VoterId]), ReportLine(data[VoterId])]
  {
  }

  /** The table after a sequence of `store_data` calls. */
  function TableAfterAll(rows: Table, records: seq<VoterData>): Table
    decreases |records|
  {
    if records == [] then rows else TableAfterAll(TableAfter(rows, records[0]), records[1..])
  }

  /** The report after a sequence of `store_data` calls. */
  function ReportAfterAll(report: seq<string>, records: seq<VoterData>): seq<string>
    decreases |records|
  {
    if records == [] then report else ReportAfterAll(ReportAfter(report, records[0]), records[1..])
  }

  /** How many of `records` have all three keys. */
  function CompleteCount(records: seq<VoterData>): (n: nat)
    ensures n <= |records|
  {
    if records == [] then 0
    else (if MissingField(records[0]).None? then 1 else 0) + CompleteCount(records[1..])
  }

  /** Over any sequence of calls the earlier report lines stay as they were, and
      one line is added per complete record. */
  lemma {:induction false} ReportAfterAllAppends(report: seq<string>, records: seq<VoterData>)
    ensures report <= ReportAfterAll(report, records)
    ensures |ReportAfterAll(report, records)| == |report| + CompleteCount(records)
    decreases |records|
  {
    if records != [] {
      ReportAppendOnly(report, records[0]);
      ReportAfterAllAppends(ReportAfter(report, records[0]), records[1..]);
    }
  }

  /** Over any sequence of calls no existing row changes, and every complete
      record leaves its identifier in the table. */
  lemma {:induction false} TableAfterAllKeeps(rows: Table, records: seq<VoterData>)
    ensures forall id :: id in rows ==> id in TableAfterAll(rows, records) && TableAfterAll(rows, records)[id] == rows[id]
    ensures forall i :: 0 <= i < |records| && MissingField(records[i]).None? ==>
      records[i][VoterId] in TableAfterAll(rows, records)
    decreases |records|
  {
    if records != [] {
      var next := TableAfter(rows, records[0]);
      ExistingRowsKept(rows, records[0]);
      TableAfterAllKeeps(next, records[1..]);
      forall i | 0 <= i < |records| && MissingField(records[i]).None?
        ensures records[i][VoterId] in TableAfterAll(rows, records)
      {
        if i == 0 {
          StoredIdentifierPresent(rows, records[0]);
        } else {
          assert records[1..][i - 1] == records[i];
        }
      }
    }
  }
}
