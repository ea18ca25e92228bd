/** The results file as a sequence of lines: a header naming the columns and
    one record per row. Each batch is appended to the file; the header goes
    in only when the file is absent or empty. */
module Sink {
  import opened Wrappers
  import opened Fields

  /** One line of the results file. */
  datatype Line = Header(columns: seq<Field>) | Record(row: Row)

  /** The columns of a batch's frame: the expected fields, in order, when
      the batch has rows (each row lists every expected field in that
      order); none at all for an empty batch. */
  function Columns(rows: seq<Row>): (c: seq<Field>)
    ensures c == [] <==> rows == []
    ensures rows != [] ==> forall f :: f in c
  {
    if rows == [] then []
    else
      assert forall f :: f in ExpectedFields by {
        forall f ensures f in ExpectedFields { ExpectedFieldsComplete(f); }
      }
      ExpectedFields
  }

  /** The header rule: write a header when the file does not exist or has
      size zero. */
  predicate WritesHeader(sink: Option<seq<Line>>) {
    sink.None? || sink.value == []
  }

  /** The record lines of a batch, in order. */
  function Records(rows: seq<Row>): (r: seq<Line>)
    ensures |r| == |rows|
  {
    seq(|rows|, i requires 0 <= i < |rows| => Record(rows[i]))
  }

  /** The rows the file holds, in file order. */
  function RowsOf(lines: seq<Line>): seq<Row> {
    if lines == [] then []
    else (if lines[0].Record? then [lines[0].row] else []) + RowsOf(lines[1..])
  }

  /** How many header lines the file holds. */
  function HeaderCount(lines: seq<Line>): nat {
    if lines == [] then 0
    else (if lines[0].Header? then 1 else 0) + HeaderCount(lines[1..])
  }

  /** A header first, then only records (or nothing at all). */
  predicate WellFormed(lines: seq<Line>) {
    lines == [] || (lines[0].Header? && forall i :: 0 < i < |lines| ==> lines[i].Record?)
  }

  /** Appending one batch, in append mode: the file keeps what it held, then
      gets the header if the header rule says so, then one record per row. */
  function Append(sink: Option<seq<Line>>, rows: seq<Row>): (r: seq<Line>)
    ensures sink.Some? ==> sink.value <= r
    ensures |r| == |sink.GetOr([])| + (if WritesHeader(sink) then 1 else 0) + |rows|
  {
    sink.GetOr([]) + (if WritesHeader(sink) then [Header(Columns(rows))] else []) + Records(rows)
  }

  lemma {:induction false} RowsOfAppend(a: seq<Line>, b: seq<Line>)
    ensures RowsOf(a + b) == RowsOf(a) + RowsOf(b)
    decreases |a|
  {
    if a != [] {
      assert (a + b)[1..] == a[1..] + b;
      RowsOfAppend(a[1..], b);
    } else {
      assert a + b == b;
    }
  }

  lemma {:induction false} HeaderCountAppend(a: seq<Line>, b: seq<Line>)
    ensures HeaderCount(a + b) == HeaderCount(a) + HeaderCount(b)
    decreases |a|
  {
    if a != [] {
      assert (a + b)[1..] == a[1..] + b;
      HeaderCountAppend(a[1..], b);
    } else {
      assert a + b == b;
    }
  }

  /** The record lines of a batch read back as exactly that batch, with no
      header among them. */
  lemma {:induction false} RecordsReadBack(rows: seq<Row>)
    ensures RowsOf(Records(rows)) == rows
    ensures HeaderCount(Records(rows)) == 0
    decreases |rows|
  {
    if rows != [] {
      assert Records(rows)[1..] == Records(rows[1..]);
      RecordsReadBack(rows[1..]);
    }
  }

  lemma RecordsAppend(a: seq<Row>, b: seq<Row>)
    ensures Records(a + b) == Records(a) + Records(b)
  {
  }

  /** Appending a batch adds its rows after the rows already there, in
      order, and adds one header exactly when the header rule fires. */
  lemma AppendRows(sink: Option<seq<Line>>, rows: seq<Row>)
    ensures RowsOf(Append(sink, rows)) == RowsOf(sink.GetOr([])) + rows
    ensures HeaderCount(Append(sink, rows)) == HeaderCount(sink.GetOr([])) + (if WritesHeader(sink) then 1 else 0)
  {
    var h: seq<Line> := if WritesHeader(sink) then [Header(Columns(rows))] else [];
    var before := sink.GetOr([]);
    RowsOfAppend(before + h, Records(rows));
    RowsOfAppend(before, h);
    HeaderCountAppend(before + h, Records(rows));
    HeaderCountAppend(before, h);
    RecordsReadBack(rows);
    if h != [] {
      assert h[1..] == [];
    }
  }

  /** A well-formed file stays well-formed, and is never empty after an
      append that writes a header or a row. */
  lemma AppendWellFormed(sink: Option<seq<Line>>, rows: seq<Row>)
    requires WellFormed(sink.GetOr([]))
    ensures WellFormed(Append(sink, rows))
    ensures WritesHeader(sink) ==> Append(sink, rows)[0] == Header(Columns(rows))
    ensures !WritesHeader(sink) ==> Append(sink, rows)[0] == sink.value[0]
  {
  }

  /** Appending a run of batches in order. */
  function AppendAll(sink: Option<seq<Line>>, batches: seq<seq<Row>>): (r: Option<seq<Line>>)
    ensures batches == [] ==> r == sink
    ensures batches != [] ==> r.Some?
    decreases |batches|
  {
    if batches == [] then sink else AppendAll(Some(Append(sink, batches[0])), batches[1..])
  }

  /** All the rows of a run of batches, in order. */
  function Concat(batches: seq<seq<Row>>): seq<Row> {
    if batches == [] then [] else batches[0] + Concat(batches[1..])
  }

  /** Appending to a file that already has lines only adds records. */
  lemma {:induction false} AppendAllToNonEmpty(lines: seq<Line>, batches: seq<seq<Row>>)
    requires lines != []
    ensures AppendAll(Some(lines), batches) == Some(lines + Records(Concat(batches)))
    decreases |batches|
  {
    if batches != [] {
      var next := Append(Some(lines), batches[0]);
      assert next == lines + Records(batches[0]);
      assert AppendAll(Some(lines), batches) == AppendAll(Some(next), batches[1..]);
      AppendAllToNonEmpty(next, batches[1..]);
      RecordsAppend(batches[0], Concat(batches[1..]));
      assert next + Records(Concat(batches[1..])) == lines + (Records(batches[0]) + Records(Concat(batches[1..])));
    } else {
      assert Records(Concat(batches)) == [];
      assert lines + [] == lines;
    }
  }

  /** Starting with no file, a run of batches leaves exactly one header,
      first, naming the first batch's columns, followed by every row of
      every batch in order. */
  lemma AppendsFromEmpty(batches: seq<seq<Row>>)
    requires batches != []
    ensures AppendAll(None, batches) == Some([Header(Columns(batches[0]))] + Records(Concat(batches)))
  {
    var first := Append(None, batches[0]);
    assert first == [Header(Columns(batches[0]))] + Records(batches[0]);
    assert AppendAll(None, batches) == AppendAll(Some(first), batches[1..]);
    AppendAllToNonEmpty(first, batches[1..]);
    RecordsAppend(batches[0], Concat(batches[1..]));
    assert first + Records(Concat(batches[1..]))
        == [Header(Columns(batches[0]))] + (Records(batches[0]) + Records(Concat(batches[1..])));
  }

  /** Hence the file from a fresh start holds one header and all the rows. */
  lemma FreshFileShape(batches: seq<seq<Row>>)
    requires batches != []
    ensures WellFormed(AppendAll(None, batches).value)
    ensures HeaderCount(AppendAll(None, batches).value) == 1
    ensures RowsOf(AppendAll(None, batches).value) == Concat(batches)
  {
    AppendsFromEmpty(batches);
    var h: seq<Line> := [Header(Columns(batches[0]))];
    var recs := Records(Concat(batches));
    RowsOfAppend(h, recs);
    HeaderCountAppend(h, recs);
    RecordsReadBack(Concat(batches));
    assert h[1..] == [];
  }
}
