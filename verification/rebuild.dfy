/** Recreating the seen set from the results file: read the identity
    columns, turn empty cells into "", strip every identity value, and
    collect the fingerprint of every row. */
module Rebuild {
  import opened Wrappers
  import opened Text
  import opened Fields
  import opened Dedup
  import opened Sink
  import Crawl

  /** The identity columns, in the order the rebuild lists them. */
  const UniqueFields: seq<Field> := [Name, Email, Title, Year, Department, Major, School, Location, Phone, Mailstop]

  /** The identity columns are the expected fields without `Prefix`, in the
      same order: `Prefix` is the only column that never counts. */
  lemma UniqueFieldsOrder()
    ensures ExpectedFields[7] == Prefix
    ensures UniqueFields == ExpectedFields[..7] + ExpectedFields[8..]
  {
  }

  lemma UniqueFieldsMembers(f: Field)
    ensures f in UniqueFields <==> f != Prefix
  {
    match f
    case Prefix =>
    case Name => assert UniqueFields[0] == f;
    case Email => assert UniqueFields[1] == f;
    case Title => assert UniqueFields[2] == f;
    case Year => assert UniqueFields[3] == f;
    case Department => assert UniqueFields[4] == f;
    case Major => assert UniqueFields[5] == f;
    case School => assert UniqueFields[6] == f;
    case Location => assert UniqueFields[7] == f;
    case Phone => assert UniqueFields[8] == f;
    case Mailstop => assert UniqueFields[9] == f;
  }

  /** One row of the file as read: a cell per column, `None` for an empty
      cell (which the reader turns into NaN). */
  type Cells = map<Field, Option<string>>

  /** The file as read, restricted to the expected columns. */
  datatype Table = Table(columns: seq<Field>, rows: seq<Cells>)

  /** The results file: missing, not readable as a table, or read. */
  datatype CsvFile = Absent | Unparsable | Parsed(table: Table)

  /** Why the rebuild stops without a set. */
  datatype RebuildError = CsvNotFound | UnreadableCsv | MissingColumn(field: Field)

  function CellAt(row: Cells, f: Field): Option<string> {
    if f in row then row[f] else None
  }

  /** `fillna('')` on every cell, then `str.strip()` on the identity
      columns, which are all columns but `Prefix`
      (`UniqueFieldsMembers`). */
  function NormalizeCell(f: Field, c: Option<string>): string {
    if f == Prefix then c.GetOr("") else Strip(c.GetOr(""))
  }

  function NormalizeRow(columns: seq<Field>, row: Cells): Person {
    map f | f in columns :: NormalizeCell(f, CellAt(row, f))
  }

  /** The first identity column the table lacks, which is where the
      column-by-column normalisation fails. */
  function FirstMissing(columns: seq<Field>, fields: seq<Field>): (r: Option<Field>)
    ensures r.Some? ==> r.value in fields && r.value !in columns
    ensures r.None? ==> forall f :: f in fields ==> f in columns
  {
    if fields == [] then None
    else if fields[0] !in columns then Some(fields[0])
    else FirstMissing(columns, fields[1..])
  }

  /** The normalised rows, or the missing column that stops the
      normalisation. */
  function Normalize(t: Table): (r: Result<seq<Person>, RebuildError>)
    ensures r.Success? <==> forall f :: f in UniqueFields ==> f in t.columns
    ensures r.Success? ==> |r.value| == |t.rows|
    ensures r.Failure? ==> r.error.MissingColumn? && r.error.field in UniqueFields && r.error.field !in t.columns
  {
    match FirstMissing(t.columns, UniqueFields)
    case Some(f) => Failure(MissingColumn(f))
    case None => Success(seq(|t.rows|, i requires 0 <= i < |t.rows| => NormalizeRow(t.columns, t.rows[i])))
  }

  lemma NormalizeAt(t: Table, i: int)
    requires Normalize(t).Success? && 0 <= i < |t.rows|
    ensures Normalize(t).value[i] == NormalizeRow(t.columns, t.rows[i])
  {
  }

  lemma NormalizeRowAt(columns: seq<Field>, row: Cells, f: Field)
    ensures f in NormalizeRow(columns, row) <==> f in columns
    ensures f in columns ==> NormalizeRow(columns, row)[f] == NormalizeCell(f, CellAt(row, f))
  {
  }

  /** The fingerprint the rebuild computes from a normalised row: the set
      of (column, value) pairs over the identity columns. A set of pairs
      does not depend on the order the columns are listed in, and the
      identity columns are exactly the crawl's fingerprint fields
      (`UniqueFieldsMembers`), so it is the crawl's
      fingerprint of the row. */
  function RowFingerprint(row: Person): Fingerprint {
    FingerprintOf(row)
  }

  /** The fingerprints of a sequence of normalised rows. */
  function FingerprintSet(rows: seq<Person>): set<Fingerprint> {
    set i | 0 <= i < |rows| :: RowFingerprint(rows[i])
  }

  /** The rebuild: a missing file, an unreadable file or a missing identity
      column is an error; otherwise the fingerprints of all rows. */
  function RebuildSeen(file: CsvFile): (r: Result<set<Fingerprint>, RebuildError>)
    ensures file.Absent? ==> r == Failure(CsvNotFound)
    ensures file.Unparsable? ==> r == Failure(UnreadableCsv)
    ensures file.Parsed? ==> (r.Success? <==> forall f :: f in UniqueFields ==> f in file.table.columns)
    ensures r.Success? ==> file.Parsed? && |r.value| <= |file.table.rows|
  {
    match file
    case Absent => Failure(CsvNotFound)
    case Unparsable => Failure(UnreadableCsv)
    case Parsed(t) =>
      var rows :- Normalize(t);
      FingerprintSetBound(rows);
      Success(FingerprintSet(rows))
  }

  lemma {:induction false} FingerprintSetBound(rows: seq<Person>)
    ensures |FingerprintSet(rows)| <= |rows|
    decreases |rows|
  {
    if rows != [] {
      var init := rows[..|rows| - 1];
      FingerprintSetBound(init);
      assert FingerprintSet(rows) == FingerprintSet(init) + {RowFingerprint(rows[|rows| - 1])} by {
        forall x | x in FingerprintSet(rows) ensures x in FingerprintSet(init) + {RowFingerprint(rows[|rows| - 1])} {
          var i :| 0 <= i < |rows| && x == RowFingerprint(rows[i]);
          if i < |rows| - 1 { assert rows[i] == init[i]; }
        }
        forall x | x in FingerprintSet(init) ensures x in FingerprintSet(rows) {
          var i :| 0 <= i < |init| && x == RowFingerprint(init[i]);
          assert init[i] == rows[i];
        }
      }
    }
  }

  /** The loop of the rebuild: add each row's fingerprint to a set that
      starts empty. */
  method CollectFingerprints(rows: seq<Person>) returns (seen: set<Fingerprint>)
    ensures seen == FingerprintSet(rows)
  {
    seen := {};
    var i := 0;
    while i < |rows|
      invariant 0 <= i <= |rows|
      invariant seen == set j | 0 <= j < i :: RowFingerprint(rows[j])
    {
      assert (set j | 0 <= j < i + 1 :: RowFingerprint(rows[j])) == seen + {RowFingerprint(rows[i])};
      seen := seen + {RowFingerprint(rows[i])};
      i := i + 1;
    }
  }

  /** The rebuild as written: read, normalise, then collect the
      fingerprints. */
  method RecreateSeenSet(file: CsvFile) returns (r: Result<set<Fingerprint>, RebuildError>)
    ensures r == RebuildSeen(file)
  {
    if file.Absent? {
      return Failure(CsvNotFound);
    }
    if file.Unparsable? {
      return Failure(UnreadableCsv);
    }
    var normalized := Normalize(file.table);
    if normalized.Failure? {
      return Failure(normalized.error);
    }
    var seen := CollectFingerprints(normalized.value);
    return Success(seen);
  }

  /** Every identity value of a normalised row is present and trimmed, and
      an empty cell gives "". */
  lemma NormalizedRow(t: Table, i: int, f: Field)
    requires Normalize(t).Success? && 0 <= i < |t.rows| && f in UniqueFields
    ensures f in Normalize(t).value[i]
    ensures Trimmed(Normalize(t).value[i][f])
    ensures CellAt(t.rows[i], f).None? ==> Normalize(t).value[i][f] == ""
    ensures CellAt(t.rows[i], f).Some? ==> Normalize(t).value[i][f] == Strip(CellAt(t.rows[i], f).value)
  {
    NormalizeAt(t, i);
    UniqueFieldsMembers(f);
    NormalizeRowAt(t.columns, t.rows[i], f);
  }

  /** The cells of a normalised row, as they would read back. */
  function AsCells(row: Person): Cells {
    map f | f in row :: Some(row[f])
  }

  /** A normalised row, read as cells and normalised again, is unchanged. */
  lemma RenormalizeRow(columns: seq<Field>, row: Cells)
    ensures NormalizeRow(columns, AsCells(NormalizeRow(columns, row))) == NormalizeRow(columns, row)
  {
    var p := NormalizeRow(columns, row);
    var q := NormalizeRow(columns, AsCells(p));
    forall f | f in columns ensures q[f] == p[f] {
      NormalizeRowAt(columns, row, f);
      NormalizeRowAt(columns, AsCells(p), f);
      if f != Prefix {
        TrimIdempotent(CellAt(row, f).GetOr(""), Whitespace);
      }
    }
  }

  /** Normalising twice changes nothing: the cells of a normalised table,
      normalised again, are what they were. */
  lemma NormalizeIdempotent(t: Table)
    requires Normalize(t).Success?
    ensures Normalize(Table(t.columns, seq(|t.rows|, i requires 0 <= i < |t.rows| => AsCells(Normalize(t).value[i]))))
         == Normalize(t)
  {
    var rows := Normalize(t).value;
    var t' := Table(t.columns, seq(|t.rows|, i requires 0 <= i < |t.rows| => AsCells(rows[i])));
    var rows' := Normalize(t').value;
    forall i | 0 <= i < |t.rows| ensures rows'[i] == rows[i] {
      NormalizeAt(t, i);
      NormalizeAt(t', i);
      RenormalizeRow(t.columns, t.rows[i]);
    }
    assert rows' == rows;
  }

  /** The fingerprints of a normalised table are those of its rows. */
  lemma FingerprintSetMembers(t: Table, x: Fingerprint)
    requires Normalize(t).Success?
    ensures x in FingerprintSet(Normalize(t).value)
        <==> exists i :: 0 <= i < |t.rows| && x == RowFingerprint(NormalizeRow(t.columns, t.rows[i]))
  {
    var rows := Normalize(t).value;
    if x in FingerprintSet(rows) {
      var i :| 0 <= i < |rows| && x == RowFingerprint(rows[i]);
      NormalizeAt(t, i);
    }
    if exists i :: 0 <= i < |t.rows| && x == RowFingerprint(NormalizeRow(t.columns, t.rows[i])) {
      var i :| 0 <= i < |t.rows| && x == RowFingerprint(NormalizeRow(t.columns, t.rows[i]));
      NormalizeAt(t, i);
      assert x == RowFingerprint(rows[i]);
    }
  }

  /** A row of `t` that is also a row of `u` has its fingerprint among
      those of `u`. */
  lemma SharedRowFingerprint(t: Table, u: Table, i: int)
    requires t.columns == u.columns
    requires Normalize(t).Success? && Normalize(u).Success?
    requires 0 <= i < |t.rows| && t.rows[i] in u.rows
    ensures RowFingerprint(Normalize(t).value[i]) in FingerprintSet(Normalize(u).value)
  {
    var j :| 0 <= j < |u.rows| && u.rows[j] == t.rows[i];
    NormalizeAt(t, i);
    NormalizeAt(u, j);
    assert Normalize(t).value[i] == Normalize(u).value[j];
  }

  /** Every row of `t` is a row of `u`, so every fingerprint of `t` is one
      of `u`. */
  lemma FingerprintSetSubset(t: Table, u: Table)
    requires t.columns == u.columns
    requires Normalize(t).Success? && Normalize(u).Success?
    requires forall i :: 0 <= i < |t.rows| ==> t.rows[i] in u.rows
    ensures FingerprintSet(Normalize(t).value) <= FingerprintSet(Normalize(u).value)
  {
    forall x | x in FingerprintSet(Normalize(t).value) ensures x in FingerprintSet(Normalize(u).value) {
      var i :| 0 <= i < |Normalize(t).value| && x == RowFingerprint(Normalize(t).value[i]);
      SharedRowFingerprint(t, u, i);
    }
  }

  /** The set depends only on which rows the file holds: not on their
      order, nor on how often a row repeats. */
  lemma OrderAndDuplicatesIrrelevant(t: Table, u: Table)
    requires t.columns == u.columns
    requires forall row :: row in t.rows <==> row in u.rows
    ensures RebuildSeen(Parsed(t)) == RebuildSeen(Parsed(u))
  {
    if Normalize(t).Success? {
      FingerprintSetSubset(t, u);
      FingerprintSetSubset(u, t);
      assert FingerprintSet(Normalize(t).value) == FingerprintSet(Normalize(u).value);
    }
  }

  /** The `Prefix` cell never affects a row's fingerprint. */
  lemma PrefixCellIgnored(columns: seq<Field>, row: Cells, v: Option<string>)
    ensures RowFingerprint(NormalizeRow(columns, row[Prefix := v])) == RowFingerprint(NormalizeRow(columns, row))
  {
    var p, q := NormalizeRow(columns, row), NormalizeRow(columns, row[Prefix := v]);
    forall f | f != Prefix ensures Get(p, f) == Get(q, f) {
      NormalizeRowAt(columns, row, f);
      NormalizeRowAt(columns, row[Prefix := v], f);
      assert CellAt(row, f) == CellAt(row[Prefix := v], f);
    }
    FingerprintEqualIff(p, q);
  }

  /** The `Prefix` column never affects the set: rewriting one row's
      `Prefix` cell gives the same result. */
  lemma PrefixIgnored(t: Table, k: int, v: Option<string>)
    requires 0 <= k < |t.rows|
    ensures RebuildSeen(Parsed(Table(t.columns, t.rows[k := t.rows[k][Prefix := v]]))) == RebuildSeen(Parsed(t))
  {
    var u := Table(t.columns, t.rows[k := t.rows[k][Prefix := v]]);
    if Normalize(t).Success? {
      var a, b := Normalize(t).value, Normalize(u).value;
      forall i | 0 <= i < |t.rows| ensures RowFingerprint(a[i]) == RowFingerprint(b[i]) {
        NormalizeAt(t, i);
        NormalizeAt(u, i);
        if i == k { PrefixCellIgnored(t.columns, t.rows[k], v); }
      }
      assert FingerprintSet(a) == FingerprintSet(b) by {
        forall x | x in FingerprintSet(a) ensures x in FingerprintSet(b) {
          var i :| 0 <= i < |a| && x == RowFingerprint(a[i]);
        }
        forall x | x in FingerprintSet(b) ensures x in FingerprintSet(a) {
          var i :| 0 <= i < |b| && x == RowFingerprint(b[i]);
        }
      }
    }
  }

  // ---------------------------------------------------------------------
  // Reading back what the crawl wrote

  /** The strings the CSV reader takes for a missing value by default: an
      empty field and the pandas NA spellings. */
  const NaStrings: set<string> := {
    "", "#N/A", "#N/A N/A", "#NA", "-1.#IND", "-1.#QNAN", "-NaN", "-nan", "1.#IND", "1.#QNAN",
    "<NA>", "N/A", "NA", "NULL", "NaN", "None", "n/a", "nan", "null"
  }

  /** How the reader sees a written value: one of the NA strings is an
      empty cell. Once empty cells are filled with "", what was read is
      either the written text or "", and it is the written text exactly
      when that text reads back as itself. */
  function ReadValue(v: string): (r: Option<string>)
    ensures r.GetOr("") == v || r.GetOr("") == ""
    ensures r.GetOr("") == v <==> ReadsBack(v)
  {
    if v in NaStrings then None else Some(v)
  }

  /** A written value that reads back as itself once empty cells are
      filled with "": the empty string, or no NA spelling at all. */
  predicate ReadsBack(v: string) {
    v == "" || v !in NaStrings
  }

  /** No identity value of the row is an NA spelling other than "". */
  predicate NaFree(row: Row) {
    forall f :: f != Prefix ==> ReadsBack(Column(row, f))
  }

  /** The cells read from one written row under the file's header. */
  function ReadRow(columns: seq<Field>, row: Row): Cells {
    map f | f in columns :: ReadValue(Column(row, f))
  }

  /** The cells read from a sequence of written rows. */
  function ReadRows(columns: seq<Field>, rows: seq<Row>): (r: seq<Cells>)
    ensures |r| == |rows|
  {
    seq(|rows|, i requires 0 <= i < |rows| => ReadRow(columns, rows[i]))
  }

  /** A header with no columns, which is what an empty frame writes, is a
      blank line; the reader skips blank lines. */
  predicate Blank(l: Line) {
    l.Header? && l.columns == []
  }

  /** The lines the reader sees: every line but the blank ones, in order. */
  function NonBlank(lines: seq<Line>): (r: seq<Line>)
    ensures |r| <= |lines|
    decreases |lines|
  {
    if lines == [] then []
    else (if Blank(lines[0]) then [] else [lines[0]]) + NonBlank(lines[1..])
  }

  /** The reader sees nothing exactly when every line is blank, and sees
      every line when none is. */
  lemma {:induction false} NonBlankMembers(lines: seq<Line>)
    ensures NonBlank(lines) == [] <==> forall i :: 0 <= i < |lines| ==> Blank(lines[i])
    ensures (forall i :: 0 <= i < |lines| ==> !Blank(lines[i])) ==> NonBlank(lines) == lines
    decreases |lines|
  {
    if lines != [] {
      NonBlankMembers(lines[1..]);
      forall i | 0 <= i < |lines| - 1 ensures lines[1..][i] == lines[i + 1] { }
      if forall i :: 0 <= i < |lines| ==> !Blank(lines[i]) {
        assert !Blank(lines[0]);
        assert lines == [lines[0]] + lines[1..];
      }
    }
  }

  /** The text fields of a line, in file order: a header's column names, or
      a record's values under the full header it is written with. */
  function LineValues(l: Line): seq<string> {
    match l
    case Header(cols) => seq(|cols|, i requires 0 <= i < |cols| => FieldName(cols[i]))
    case Record(row) => seq(|ExpectedFields|, i requires 0 <= i < |ExpectedFields| => Column(row, ExpectedFields[i]))
  }

  /** The first position of `n` among `names`, or `|names|` when it is not
      there. */
  function IndexOf(names: seq<string>, n: string): (r: nat)
    ensures r <= |names|
    ensures r < |names| <==> n in names
    ensures r < |names| ==> names[r] == n
    ensures forall k :: 0 <= k < r ==> names[k] != n
    decreases |names|
  {
    if names == [] then 0
    else if names[0] == n then 0
    else
      var k := IndexOf(names[1..], n);
      assert forall j :: 1 <= j < |names| ==> names[j] == names[1..][j - 1];
      1 + k
  }

  /** The expected fields among `fs` that the header names, in the order of
      `fs`: the columns the reader keeps. */
  function FieldsNamed(fs: seq<Field>, names: seq<string>): (r: seq<Field>)
    ensures forall f :: f in r <==> f in fs && FieldName(f) in names
    decreases |fs|
  {
    if fs == [] then []
    else
      var rest := FieldsNamed(fs[1..], names);
      assert forall f :: f in fs <==> f == fs[0] || f in fs[1..];
      (if FieldName(fs[0]) in names then [fs[0]] else []) + rest
  }

  /** One data line read under the header `names`: each kept column takes
      the value at its name's first position, and is empty past the end of
      the line. */
  function ReadLine(names: seq<string>, columns: seq<Field>, l: Line): Cells {
    var values := LineValues(l);
    map f | f in columns ::
      var i := IndexOf(names, FieldName(f));
      if i < |values| then ReadValue(values[i]) else None
  }

  /** Reading the results file back. No file is an error of its own. Blank
      lines are skipped, and a file of blank lines only cannot be read as a
      table. Otherwise the first line left names the columns, whether it is
      a header or a record, and every later line, a repeated header
      included, is a row. */
  function ReadBack(sink: Option<seq<Line>>): (r: CsvFile)
    ensures r.Absent? <==> sink.None?
    ensures r.Unparsable? <==> sink.Some? && NonBlank(sink.value) == []
    ensures r.Parsed? ==> |r.table.rows| == |NonBlank(sink.value)| - 1
    ensures r.Parsed? ==> forall f :: f in r.table.columns <==> FieldName(f) in LineValues(NonBlank(sink.value)[0])
  {
    match sink
    case None => Absent
    case Some(lines) =>
      var ls := NonBlank(lines);
      if ls == [] then Unparsable
      else
        var names := LineValues(ls[0]);
        var columns := FieldsNamed(ExpectedFields, names);
        assert forall f :: f in ExpectedFields by {
          forall f ensures f in ExpectedFields { ExpectedFieldsComplete(f); }
        }
        Parsed(Table(columns, ReadLines(names, columns, ls[1..])))
  }

  /** The data lines, each read under the header `names`. */
  function ReadLines(names: seq<string>, columns: seq<Field>, ls: seq<Line>): (r: seq<Cells>)
    ensures |r| == |ls|
  {
    seq(|ls|, i requires 0 <= i < |ls| => ReadLine(names, columns, ls[i]))
  }

  /** Two fields with the same label are the same field. */
  lemma FieldNameInjective(a: Field, b: Field)
    requires FieldName(a) == FieldName(b)
    ensures a == b
  {
    FieldNamedRoundTrip(a);
    FieldNamedRoundTrip(b);
  }

  /** Under the full header, a field's name stands at the field's own
      position. */
  lemma FullHeaderIndex(f: Field)
    ensures IndexOf(LineValues(Header(ExpectedFields)), FieldName(f)) < |ExpectedFields|
    ensures ExpectedFields[IndexOf(LineValues(Header(ExpectedFields)), FieldName(f))] == f
  {
    var names := LineValues(Header(ExpectedFields));
    ExpectedFieldsComplete(f);
    var j :| 0 <= j < |ExpectedFields| && ExpectedFields[j] == f;
    assert names[j] == FieldName(f);
    var i := IndexOf(names, FieldName(f));
    FieldNameInjective(ExpectedFields[i], f);
  }

  /** Under the full header every expected column is kept, in order. */
  lemma {:induction false} FieldsNamedAll(fs: seq<Field>, names: seq<string>)
    requires forall f :: f in fs ==> FieldName(f) in names
    ensures FieldsNamed(fs, names) == fs
    decreases |fs|
  {
    if fs != [] {
      assert fs[0] in fs;
      FieldsNamedAll(fs[1..], names);
      assert fs == [fs[0]] + fs[1..];
    }
  }

  /** Under the full header, a record reads as its row's cells. */
  lemma ReadLineUnderFullHeader(row: Row)
    ensures ReadLine(LineValues(Header(ExpectedFields)), ExpectedFields, Record(row)) == ReadRow(ExpectedFields, row)
  {
    var m := ReadLine(LineValues(Header(ExpectedFields)), ExpectedFields, Record(row));
    var m' := ReadRow(ExpectedFields, row);
    assert m.Keys == m'.Keys by {
      CellKeys(LineValues(Header(ExpectedFields)), ExpectedFields, Record(row), row);
    }
    forall f | f in m.Keys ensures m[f] == m'[f] {
      FullHeaderCell(row, f);
    }
    SameCells(m, m');
  }

  /** A line and a row read under the same columns have the same keys. */
  lemma CellKeys(names: seq<string>, columns: seq<Field>, l: Line, row: Row)
    ensures ReadLine(names, columns, l).Keys == ReadRow(columns, row).Keys
  {
  }

  /** Cells with the same keys and the same value at each key are equal. */
  lemma SameCells(m: Cells, m': Cells)
    requires m.Keys == m'.Keys
    requires forall f :: f in m.Keys ==> m[f] == m'[f]
    ensures m == m'
  {
  }

  /** Under the full header, a record's cell for `f` is its value for `f`. */
  lemma FullHeaderCell(row: Row, f: Field)
    requires f in ExpectedFields
    ensures ReadLine(LineValues(Header(ExpectedFields)), ExpectedFields, Record(row))[f] == ReadValue(Column(row, f))
  {
    FullHeaderIndex(f);
  }

  /** The rows of a header-then-records file are its records, one by one. */
  lemma {:induction false} RowsOfWellFormed(lines: seq<Line>)
    requires lines != [] && WellFormed(lines)
    ensures |RowsOf(lines)| == |lines| - 1
    ensures forall i :: 0 <= i < |lines| - 1 ==> RowsOf(lines)[i] == lines[i + 1].row
  {
    var recs := lines[1..];
    var rows := seq(|recs|, i requires 0 <= i < |recs| => recs[i].row);
    assert recs == Records(rows);
    RecordsReadBack(rows);
    assert lines == [lines[0]] + recs;
    RowsOfAppend([lines[0]], recs);
  }

  /** A header-then-records file under the full header reads as the full
      columns and the cells of its rows. */
  lemma {:induction false} ReadBackFullHeader(lines: seq<Line>)
    requires lines != [] && lines[0] == Header(ExpectedFields) && WellFormed(lines)
    ensures ReadBack(Some(lines)) == Parsed(Table(ExpectedFields, ReadRows(ExpectedFields, RowsOf(lines))))
  {
    FullHeaderTable(lines);
    FullHeaderRows(lines);
  }

  /** The table part of `ReadBackFullHeader`: nothing is skipped and every
      expected column is kept. */
  lemma {:induction false} FullHeaderTable(lines: seq<Line>)
    requires lines != [] && lines[0] == Header(ExpectedFields) && WellFormed(lines)
    ensures ReadBack(Some(lines)) == Parsed(Table(ExpectedFields, ReadLines(LineValues(Header(ExpectedFields)), ExpectedFields, lines[1..])))
  {
    NonBlankMembers(lines);
    assert NonBlank(lines) == lines;
    var names := LineValues(Header(ExpectedFields));
    forall f | f in ExpectedFields ensures FieldName(f) in names {
      FullHeaderIndex(f);
    }
    FieldsNamedAll(ExpectedFields, names);
  }

  /** The rows part of `ReadBackFullHeader`: each record reads as its row. */
  lemma {:induction false} FullHeaderRows(lines: seq<Line>)
    requires lines != [] && WellFormed(lines)
    ensures ReadLines(LineValues(Header(ExpectedFields)), ExpectedFields, lines[1..]) == ReadRows(ExpectedFields, RowsOf(lines))
  {
    var rows := ReadLines(LineValues(Header(ExpectedFields)), ExpectedFields, lines[1..]);
    RowsOfWellFormed(lines);
    forall i | 0 <= i < |lines| - 1 ensures rows[i] == ReadRows(ExpectedFields, RowsOf(lines))[i] {
      assert lines[1..][i] == lines[i + 1];
      ReadLineUnderFullHeader(lines[i + 1].row);
    }
  }

  /** The file a first search with no new persons leaves behind, once
      later batches are appended: the empty frame wrote a blank line, so no
      later append writes a header. If the later batches hold nothing either,
      the file cannot be read. Otherwise the first record is taken as the
      header and is lost as a row, and unless that record happens to hold
      the text "Name" the rebuild stops at the missing `Name` column. */
  lemma HeaderLostAfterEmptyFirstBatch(rows: seq<Row>)
    ensures Append(Some(Append(None, [])), rows) == [Header([])] + Records(rows)
    ensures rows == [] ==> RebuildSeen(ReadBack(Some(Append(Some(Append(None, [])), rows)))) == Failure(UnreadableCsv)
    ensures rows != [] ==> ReadBack(Some(Append(Some(Append(None, [])), rows))).Parsed?
                           && |ReadBack(Some(Append(Some(Append(None, [])), rows))).table.rows| == |rows| - 1
    ensures rows != [] && FieldName(Name) !in LineValues(Record(rows[0])) ==>
              RebuildSeen(ReadBack(Some(Append(Some(Append(None, [])), rows)))) == Failure(MissingColumn(Name))
  {
    var lines := Append(Some(Append(None, [])), rows);
    EmptyFirstBatchLines(rows);
    if rows != [] && FieldName(Name) !in LineValues(Record(rows[0])) {
      var file := ReadBack(Some(lines));
      assert Name !in file.table.columns;
      assert UniqueFields[0] == Name;
    }
  }

  /** The lines of that file, and what the reader sees of them: the
      records alone. */
  lemma EmptyFirstBatchLines(rows: seq<Row>)
    ensures Append(Some(Append(None, [])), rows) == [Header([])] + Records(rows)
    ensures NonBlank(Append(Some(Append(None, [])), rows)) == Records(rows)
  {
    assert Append(None, []) == [Header([])];
    var lines := Append(Some([Header([])]), rows);
    assert lines == [Header([])] + Records(rows);
    assert NonBlank(Records(rows)) == Records(rows) by {
      NonBlankMembers(Records(rows));
    }
    assert lines[1..] == Records(rows);
  }

  /** A row of the scraper's shape normalises back to a person with exactly
      the row's fingerprint. */
  lemma ScraperRowRoundTrip(row: Row)
    requires IsScraperRow(row) && NaFree(row)
    ensures RowFingerprint(NormalizeRow(ExpectedFields, ReadRow(ExpectedFields, row))) == row.identity
  {
    var p := NormalizeRow(ExpectedFields, ReadRow(ExpectedFields, row));
    forall f | f != Prefix ensures Get(p, f) == Recorded(row.identity, f) {
      ExpectedFieldsComplete(f);
      NormalizeRowAt(ExpectedFields, ReadRow(ExpectedFields, row), f);
      var v := Column(row, f);
      assert Trimmed(v) && ReadsBack(v);
      TrimOfTrimmed(v, Whitespace);
    }
    forall f | f != Prefix ensures Recorded(FingerprintOf(p), f) == Recorded(row.identity, f) {
      FingerprintRecords(p, f);
    }
    RecordedDetermines(FingerprintOf(p), row.identity);
  }

  /** A table with every expected column passes the column check. */
  lemma ExpectedColumnsNormalize(t: Table)
    requires t.columns == ExpectedFields
    ensures Normalize(t).Success?
  {
    forall f | f in UniqueFields ensures f in t.columns {
      ExpectedFieldsComplete(f);
    }
  }

  /** Normalised rows whose fingerprints are, one by one, the identities of
      `rows` give exactly the fingerprints of `rows`. */
  lemma FingerprintSetOfRows(normalized: seq<Person>, rows: seq<Row>)
    requires |normalized| == |rows|
    requires forall i :: 0 <= i < |rows| ==> RowFingerprint(normalized[i]) == rows[i].identity
    ensures FingerprintSet(normalized) == FingerprintsOf(rows)
  {
    forall x | x in FingerprintSet(normalized) ensures x in FingerprintsOf(rows) {
      var i :| 0 <= i < |normalized| && x == RowFingerprint(normalized[i]);
    }
    forall x | x in FingerprintsOf(rows) ensures x in FingerprintSet(normalized) {
      var i :| 0 <= i < |rows| && x == rows[i].identity;
    }
  }

  /** Rows of the scraper's shape, written under the full header and read
      back, rebuild to exactly their fingerprints. */
  lemma {:induction false} RebuildScraperRows(rows: seq<Row>)
    requires forall k :: 0 <= k < |rows| ==> IsScraperRow(rows[k]) && NaFree(rows[k])
    ensures RebuildSeen(Parsed(Table(ExpectedFields, ReadRows(ExpectedFields, rows)))) == Success(FingerprintsOf(rows))
  {
    var t := Table(ExpectedFields, ReadRows(ExpectedFields, rows));
    ExpectedColumnsNormalize(t);
    var normalized := Normalize(t).value;
    forall i | 0 <= i < |rows| ensures RowFingerprint(normalized[i]) == rows[i].identity {
      RoundTripAt(rows, i);
    }
    FingerprintSetOfRows(normalized, rows);
  }

  lemma RoundTripAt(rows: seq<Row>, i: int)
    requires 0 <= i < |rows| && IsScraperRow(rows[i]) && NaFree(rows[i])
    requires Normalize(Table(ExpectedFields, ReadRows(ExpectedFields, rows))).Success?
    ensures RowFingerprint(Normalize(Table(ExpectedFields, ReadRows(ExpectedFields, rows))).value[i]) == rows[i].identity
  {
    NormalizeAt(Table(ExpectedFields, ReadRows(ExpectedFields, rows)), i);
    ScraperRowRoundTrip(rows[i]);
  }

  /** Rebuilding from a results file the scraper wrote, with its full
      header, gives exactly the fingerprints of the file's rows. */
  lemma {:induction false} RebuildMatchesSink(lines: seq<Line>)
    requires lines != [] && lines[0] == Header(ExpectedFields) && WellFormed(lines)
    requires forall k :: 0 <= k < |RowsOf(lines)| ==> IsScraperRow(RowsOf(lines)[k]) && NaFree(RowsOf(lines)[k])
    ensures RebuildSeen(ReadBack(Some(lines))) == Success(FingerprintsOf(RowsOf(lines)))
  {
    ReadBackFullHeader(lines);
    RebuildScraperRows(RowsOf(lines));
  }

  /** Rebuilding from files a crawl left, whose pickled set is exactly the
      fingerprints of the results file (`Crawl.RunKeepsExact`), gives back
      the pickled set itself, provided the file has its full header and no
      identity value is an NA spelling. */
  lemma RebuildMatchesSeen(d: Crawl.Disk)
    requires Crawl.DiskInv(d) && Crawl.DiskExact(d)
    requires d.sink.Some? && d.sink.value != [] && d.sink.value[0] == Header(ExpectedFields)
    requires forall k :: 0 <= k < |Crawl.SinkRows(d)| ==> NaFree(Crawl.SinkRows(d)[k])
    ensures RebuildSeen(ReadBack(d.sink)) == Success(d.seenFile.GetOr({}))
  {
    RebuildMatchesSink(d.sink.value);
  }

  /** An identity value spelled like an NA value does not survive the round
      trip: a title of "N/A", say, is read as an empty cell and rebuilt as
      "", so the rebuilt fingerprint differs from the one the crawler
      kept. */
  lemma NaValueChangesFingerprint(row: Row, f: Field)
    requires f != Prefix && !ReadsBack(Column(row, f))
    ensures RowFingerprint(NormalizeRow(ExpectedFields, ReadRow(ExpectedFields, row))) != row.identity
  {
    var cells := ReadRow(ExpectedFields, row);
    var p := NormalizeRow(ExpectedFields, cells);
    ExpectedFieldsComplete(f);
    assert CellAt(cells, f) == None;
    NormalizeRowAt(ExpectedFields, cells, f);
    assert Get(p, f) == "";
    FingerprintRecords(p, f);
  }
}
