/**
 * The last stage of `catalog.py`: every record is inserted into the
 * `global` table through one `INSERT` with named parameters, and committed
 * at once. The table's `location` column is `PRIMARY KEY UNIQUE ON CONFLICT
 * FAIL NOT NULL`, so only its key behaviour is modelled: a table is a map
 * from location to row.
 */
module IndexStore {
  import opened Wrappers
  import opened Text
  import opened Http
  import opened Descriptors

  /** `", ".join([":" + c for c in columns])` */
  function NamedParameters(columns: seq<string>): string {
    if columns == [] then ""
    else if |columns| == 1 then ":" + columns[0]
    else ":" + columns[0] + ", " + NamedParameters(columns[1..])
  }

  /** Reads a `:a, :b, …` list back into its names, as SQLite's named-parameter syntax does. */
  function ParseNamedParameters(s: string): Option<seq<string>>
    decreases |s|
  {
    if s == "" then Some([])
    else if s[0] != ':' then None
    else
      match SplitAt(s[1..], ',')
      case None => Some([s[1..]])
      case Some((name, rest)) =>
        if |rest| < 2 || rest[0] != ' ' then None
        else
          match ParseNamedParameters(rest[1..])
          case None => None
          case Some(names) => Some([name] + names)
  }

  /** A non-empty parameter list starts with its first name's `:`. */
  lemma NamedParametersStart(columns: seq<string>)
    requires columns != []
    ensures NamedParameters(columns) != [] && NamedParameters(columns)[0] == ':'
  {
  }

  /** Reading `:c, ` in front of a list that reads back adds `c` in front of its names. */
  lemma ParseNamedParametersCons(c: string, tail: string)
    requires ',' !in c && tail != [] && tail[0] == ':'
    requires ParseNamedParameters(tail).Some?
    ensures ParseNamedParameters(":" + c + ", " + tail) == Some([c] + ParseNamedParameters(tail).value)
  {
    var s := ":" + c + ", " + tail;
    var rest := " " + tail;
    assert s[1..] == c + [','] + rest;
    SplitAtJoined(c, ',', rest);
    assert s[0] == ':';
    assert |rest| >= 2 && rest[0] == ' ' && rest[1..] == tail;
  }

  /** The parameter list names every column once, in column order. */
  lemma {:induction false} NamedParametersRoundTrip(columns: seq<string>)
    requires forall c :: c in columns ==> ',' !in c
    ensures ParseNamedParameters(NamedParameters(columns)) == Some(columns)
  {
    if |columns| == 1 {
      var s := ":" + columns[0];
      assert columns[0] in columns && s[1..] == columns[0];
      assert NamedParameters(columns) == s;
      assert SplitAt(s[1..], ',') == None;
      assert columns == [columns[0]];
    } else if |columns| > 1 {
      assert columns[0] in columns;
      NamedParametersRoundTrip(columns[1..]);
      NamedParametersStart(columns[1..]);
      ParseNamedParametersCons(columns[0], NamedParameters(columns[1..]));
      assert [columns[0]] + columns[1..] == columns;
    }
  }

  /** A row of the table, one value per column. */
  type Row = seq<Option<string>>

  /**
   * Binding the mapping to the named parameters: each column's value, in
   * column order; a column the mapping lacks makes `execute` raise.
   */
  function Bind(columns: seq<string>, record: Record): (r: Result<Row, Failure>)
    ensures r.Success? ==> |r.value| == |columns|
  {
    if columns == [] then Success([])
    else if columns[0] !in record then Failure(MissingBinding(columns[0]))
    else
      match Bind(columns[1..], record)
      case Failure(e) => Failure(e)
      case Success(row) => Success([record[columns[0]]] + row)
  }

  /** A mapping that has every column binds, and the row holds the mapping's values in column order. */
  lemma {:induction false} BindTakesColumnValues(columns: seq<string>, record: Record)
    requires forall c :: c in columns ==> c in record
    ensures Bind(columns, record).Success?
    ensures forall i :: 0 <= i < |columns| ==> Bind(columns, record).value[i] == record[columns[i]]
  {
    if columns != [] {
      BindTakesColumnValues(columns[1..], record);
    }
  }

  /** A record built from a descriptor binds, and its first value is the descriptor URL. */
  lemma ExtractedRecordBinds(columns: seq<string>, url: string, fetched: Fetched<Descriptor>)
    requires |columns| > 0 && Distinct(columns)
    requires Extract(columns, url, fetched).Success?
    ensures Bind(columns, Extract(columns, url, fetched).value).Success?
    ensures Bind(columns, Extract(columns, url, fetched).value).value[0] == Some(url)
  {
    RecordHasExactlyTheColumns(columns, url, fetched);
    BindTakesColumnValues(columns, Extract(columns, url, fetched).value);
  }

  /** The committed rows, keyed by `location`. */
  type Rows = map<string, Row>

  /**
   * One `execute`: binding may fail, a NULL location violates NOT NULL, a
   * location already present violates UNIQUE; otherwise the row is added.
   */
  function InsertOne(rows: Rows, columns: seq<string>, record: Record): (Rows, Option<Failure>)
    requires |columns| > 0
  {
    match Bind(columns, record)
    case Failure(e) => (rows, Some(e))
    case Success(row) =>
      if row[0].None? then (rows, Some(NotNullError))
      else if row[0].value in rows then (rows, Some(IntegrityError(row[0].value)))
      else (rows[row[0].value := row], None)
  }

  /** The insert loop: each record inserted and committed in turn; the first failure ends it. */
  function InsertAll(rows: Rows, columns: seq<string>, records: seq<Record>): (Rows, Option<Failure>)
    requires |columns| > 0
  {
    if records == [] then (rows, None)
    else
      var before := InsertAll(rows, columns, records[..|records| - 1]);
      if before.1.Some? then before else InsertOne(before.0, columns, records[|records| - 1])
  }

  /** The record has every column, and its location is not NULL. */
  predicate KeyedRecord(columns: seq<string>, r: Record)
    requires |columns| > 0
  {
    columns[0] in r && r[columns[0]].Some? && forall c :: c in columns ==> c in r
  }

  predicate Keyed(columns: seq<string>, records: seq<Record>)
    requires |columns| > 0
  {
    forall i :: 0 <= i < |records| ==> KeyedRecord(columns, records[i])
  }

  function Location(columns: seq<string>, r: Record): string
    requires |columns| > 0 && KeyedRecord(columns, r)
  {
    r[columns[0]].value
  }

  /** The locations of the records, in order. */
  function Locations(columns: seq<string>, records: seq<Record>): (locs: seq<string>)
    requires |columns| > 0 && Keyed(columns, records)
    ensures |locs| == |records|
    ensures forall i :: 0 <= i < |records| ==> locs[i] == Location(columns, records[i])
  {
    if records == [] then []
    else Locations(columns, records[..|records| - 1]) + [Location(columns, records[|records| - 1])]
  }

  /** No two records share a location, and none is already in the table. */
  predicate FreshLocations(rows: Rows, columns: seq<string>, records: seq<Record>)
    requires |columns| > 0 && Keyed(columns, records)
  {
    var locs := Locations(columns, records);
    Distinct(locs) && forall x :: x in locs ==> x !in rows
  }

  lemma DistinctSnoc(s: seq<string>, x: string)
    ensures Distinct(s + [x]) <==> Distinct(s) && x !in s
  {
    if Distinct(s + [x]) {
      forall i, j | 0 <= i < j < |s| ensures s[i] != s[j] {
        assert (s + [x])[i] == s[i] && (s + [x])[j] == s[j];
      }
      forall i | 0 <= i < |s| ensures s[i] != x {
        assert (s + [x])[i] == s[i] && (s + [x])[|s|] == x;
      }
    }
  }

  /** A keyed record is added exactly when its location is new. */
  lemma InsertOneKeyed(rows: Rows, columns: seq<string>, r: Record)
    requires |columns| > 0 && KeyedRecord(columns, r)
    ensures InsertOne(rows, columns, r).1.None? <==> Location(columns, r) !in rows
    ensures InsertOne(rows, columns, r).1.None? ==> InsertOne(rows, columns, r).0.Keys == rows.Keys + {Location(columns, r)}
  {
    BindTakesColumnValues(columns, r);
  }

  lemma KeyedPrefix(columns: seq<string>, records: seq<Record>, n: nat)
    requires |columns| > 0 && Keyed(columns, records) && n <= |records|
    ensures Keyed(columns, records[..n])
  {
    forall i | 0 <= i < n ensures KeyedRecord(columns, records[..n][i]) {
      assert records[..n][i] == records[i];
    }
  }

  /** Fresh locations for all records: fresh for all but the last, and the last one new. */
  lemma FreshLocationsSnoc(rows: Rows, columns: seq<string>, records: seq<Record>)
    requires |columns| > 0 && Keyed(columns, records) && records != []
    ensures Keyed(columns, records[..|records| - 1])
    ensures var init, loc := records[..|records| - 1], Location(columns, records[|records| - 1]);
            FreshLocations(rows, columns, records) <==>
              FreshLocations(rows, columns, init) && loc !in rows && loc !in Locations(columns, init)
  {
    var n := |records| - 1;
    KeyedPrefix(columns, records, n);
    var locs := Locations(columns, records[..n]);
    var loc := Location(columns, records[n]);
    assert Locations(columns, records) == locs + [loc];
    DistinctSnoc(locs, loc);
  }

  /**
   * Inserting keyed records succeeds exactly when their locations are fresh;
   * then the table gains exactly one row per record, under its location.
   */
  lemma {:induction false} InsertAllSucceedsIffFresh(rows: Rows, columns: seq<string>, records: seq<Record>)
    requires |columns| > 0 && Keyed(columns, records)
    ensures InsertAll(rows, columns, records).1.None? <==> FreshLocations(rows, columns, records)
    ensures InsertAll(rows, columns, records).1.None? ==>
              InsertAll(rows, columns, records).0.Keys == rows.Keys + set x | x in Locations(columns, records)
  {
    if records != [] {
      var n := |records| - 1;
      var init, last := records[..n], records[n];
      FreshLocationsSnoc(rows, columns, records);
      InsertAllSucceedsIffFresh(rows, columns, init);
      var loc := Location(columns, last);
      var before := InsertAll(rows, columns, init);
      var locs := Locations(columns, init);
      if before.1.None? {
        InsertOneKeyed(before.0, columns, last);
        assert loc !in before.0 <==> loc !in rows && loc !in locs;
      }
      assert Locations(columns, records) == locs + [loc];
      assert (set x | x in locs + [loc]) == (set x | x in locs) + {loc};
    }
  }

  /** For keyed records only the UNIQUE constraint can stop the loop. */
  lemma {:induction false} InsertKeyedFailsOnlyOnKey(rows: Rows, columns: seq<string>, records: seq<Record>)
    requires |columns| > 0 && Keyed(columns, records)
    ensures InsertAll(rows, columns, records).1.Some? ==> InsertAll(rows, columns, records).1.value.IntegrityError?
  {
    if records != [] {
      var n := |records| - 1;
      var init := records[..n];
      KeyedPrefix(columns, records, n);
      InsertKeyedFailsOnlyOnKey(rows, columns, init);
      assert KeyedRecord(columns, records[n]);
      BindTakesColumnValues(columns, records[n]);
    }
  }

  /** A failure stops the loop: what was committed before it is what the table keeps. */
  lemma {:induction false} InsertAllFailureStops(rows: Rows, columns: seq<string>, records: seq<Record>, n: nat)
    requires |columns| > 0 && n <= |records|
    requires InsertAll(rows, columns, records[..n]).1.Some?
    ensures InsertAll(rows, columns, records) == InsertAll(rows, columns, records[..n])
  {
    if n < |records| {
      var init := records[..|records| - 1];
      assert init[..n] == records[..n];
      InsertAllFailureStops(rows, columns, init, n);
    } else {
      assert records[..n] == records;
    }
  }

  /**
   * A record whose location is already taken, by the table or by an earlier
   * record, fails with an integrity error; the earlier records stay committed.
   */
  lemma DuplicateLocationFails(rows: Rows, columns: seq<string>, records: seq<Record>, j: nat)
    requires |columns| > 0 && j < |records| && KeyedRecord(columns, records[j])
    requires InsertAll(rows, columns, records[..j]).1.None?
    requires Location(columns, records[j]) in InsertAll(rows, columns, records[..j]).0
    ensures InsertAll(rows, columns, records) ==
              (InsertAll(rows, columns, records[..j]).0, Some(IntegrityError(Location(columns, records[j]))))
  {
    assert records[..j + 1][..j] == records[..j];
    BindTakesColumnValues(columns, records[j]);
    InsertAllFailureStops(rows, columns, records, j + 1);
  }

  /** The SQLite table the script writes to; every successful insert is committed at once. */
  class Table {
    var rows: Rows

    constructor ()
      ensures rows == map[]
    {
      rows := map[];
    }

    /** `c.execute("INSERT INTO global VALUES (…)", mapping)` followed by `db.commit()`. */
    method Insert(columns: seq<string>, record: Record) returns (err: Option<Failure>)
      requires |columns| > 0
      modifies this
      ensures (rows, err) == InsertOne(old(rows), columns, record)
    {
      var bound := Bind(columns, record);
      if bound.Failure? {
        return Some(bound.error);
      }
      var row := bound.value;
      if row[0].None? {
        return Some(NotNullError);
      }
      if row[0].value in rows {
        return Some(IntegrityError(row[0].value));
      }
      rows := rows[row[0].value := row];
      return None;
    }
  }

  /** The loop of `catalog.py` that inserts the mappings one by one. */
  method InsertRecords(table: Table, columns: seq<string>, records: seq<Record>) returns (err: Option<Failure>)
    requires |columns| > 0
    modifies table
    ensures (table.rows, err) == InsertAll(old(table.rows), columns, records)
  {
    ghost var start := table.rows;
    var i := 0;
    while i < |records|
      invariant 0 <= i <= |records|
      invariant (table.rows, None) == InsertAll(start, columns, records[..i])
    {
      assert records[..i + 1][..i] == records[..i];
      var e := table.Insert(columns, records[i]);
      if e.Some? {
        InsertAllFailureStops(start, columns, records, i + 1);
        return e;
      }
      i := i + 1;
    }
    assert records[..i] == records;
    return None;
  }
}
