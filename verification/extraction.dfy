/** Turning one result block of the directory page into a person. The page
    itself is not modelled: a block arrives as the text the browser reported
    for its name heading, its optional title heading, and each bold label of
    its output rows together with the text of the label's parent element. */
module Extraction {
  import opened Wrappers
  import opened Text
  import opened Fields

  /** One `<b>` label of an output row and the text of its parent element,
      as the browser reported them (not yet stripped). */
  datatype Cell = Cell(labelText: string, rowText: string)

  /** One result block. `Unreadable` is a block whose reading raised (the
      page changed under the reader, or the block lacked a name heading);
      such a block is skipped but still counted. A row that raised part way
      is represented by the cells read before the failure. */
  datatype RawEntry =
    | Unreadable
    | Entry(nameText: string, titleText: Option<string>, cells: seq<Cell>)

  /** The label of a cell: leading whitespace dropped, then every ": "
      removed. */
  function ParseLabel(labelText: string): string {
    RemoveColonSpace(LStrip(labelText))
  }

  /** The (label, value) of one cell. The value is "" unless the stripped row
      text starts with the label. Otherwise it is what is left of the text
      after the label once the colons and spaces at both of its ends are cut
      (`m`, which keeps neither at either end), and then the whitespace at
      both ends of that. */
  function ParseCell(c: Cell): (r: (string, string))
    ensures r.0 == ParseLabel(c.labelText)
    ensures Trimmed(r.1)
    ensures !StartsWith(Strip(c.rowText), r.0) ==> r.1 == ""
    ensures StartsWith(Strip(c.rowText), r.0) ==>
              exists m :: CutFrom(m, Strip(c.rowText)[|r.0|..], ColonSpace) && TrimmedBy(m, ColonSpace)
                          && CutFrom(r.1, m, Whitespace)
  {
    var lab := ParseLabel(c.labelText);
    var rowText := Strip(c.rowText);
    if StartsWith(rowText, lab) then
      var rest := rowText[|lab|..];
      var m := Trim(rest, ColonSpace);
      TrimCutsOnlyClass(rest, ColonSpace);
      TrimCutsOnlyClass(m, Whitespace);
      (lab, Strip(m))
    else
      (lab, "")
  }

  /** The two cuts pin the value down: any string cut from the text after
      the label as `ParseCell`'s contract describes is its value. */
  lemma ParseCellExact(c: Cell, m: string, v: string)
    requires StartsWith(Strip(c.rowText), ParseLabel(c.labelText))
    requires CutFrom(m, Strip(c.rowText)[|ParseLabel(c.labelText)|..], ColonSpace) && TrimmedBy(m, ColonSpace)
    requires CutFrom(v, m, Whitespace) && TrimmedBy(v, Whitespace)
    ensures ParseCell(c).1 == v
  {
    var rest := Strip(c.rowText)[|ParseLabel(c.labelText)|..];
    var m' := Trim(rest, ColonSpace);
    TrimCutsOnlyClass(rest, ColonSpace);
    CutUnique(m, m', rest, ColonSpace);
    TrimCutsOnlyClass(m, Whitespace);
    CutUnique(v, Strip(m), m, Whitespace);
    assert ParseCell(c).1 == Strip(m');
  }

  /** The field a cell fills, if its label names an expected field. */
  function CellField(c: Cell): Option<Field> {
    FieldNamed(ParseCell(c).0)
  }

  /** Reference reading of a block's cells: the value of the last cell that
      fills field `f`, if any. */
  function LastValueFor(cells: seq<Cell>, f: Field): Option<string> {
    if cells == [] then None
    else if CellField(cells[|cells| - 1]) == Some(f) then Some(ParseCell(cells[|cells| - 1]).1)
    else LastValueFor(cells[..|cells| - 1], f)
  }

  /** Storing the cells in page order: a cell whose label is an expected
      field overwrites that field; any other label leaves the person as it
      was. Hence each field ends with the value of its last cell, and a field
      no cell names keeps what it had. */
  function ApplyCells(p: Person, cells: seq<Cell>): (r: Person)
    ensures forall f :: LastValueFor(cells, f).Some? ==> f in r && r[f] == LastValueFor(cells, f).value
    ensures forall f :: LastValueFor(cells, f).None? ==> (f in r <==> f in p) && (f in p ==> r[f] == p[f])
  {
    if cells == [] then p
    else
      var init, last := cells[..|cells| - 1], cells[|cells| - 1];
      var before := ApplyCells(p, init);
      assert forall f :: LastValueFor(cells, f) == if CellField(last) == Some(f) then Some(ParseCell(last).1) else LastValueFor(init, f);
      match CellField(last)
      case Some(g) => before[g := ParseCell(last).1]
      case None => before
  }

  /** The person read from one block, or `None` when the block is skipped:
      it could not be read, or its name stayed empty (the wait for a
      non-empty name times out). Name and title are stripped; a missing
      title is "". */
  function ExtractPerson(e: RawEntry): (r: Option<Person>)
    ensures r.None? <==> e.Unreadable? || Strip(e.nameText) == ""
    ensures r.Some? ==> Name in r.value && Title in r.value
    ensures r.Some? ==> AllTrimmed(r.value)
    ensures r.Some? ==> forall f :: LastValueFor(e.cells, f).Some? ==>
              f in r.value && r.value[f] == LastValueFor(e.cells, f).value
    ensures r.Some? && LastValueFor(e.cells, Name).None? ==> r.value[Name] == Strip(e.nameText)
    ensures r.Some? && LastValueFor(e.cells, Title).None? ==>
              r.value[Title] == (if e.titleText.Some? then Strip(e.titleText.value) else "")
    ensures r.Some? ==> forall f :: f != Name && f != Title && LastValueFor(e.cells, f).None? ==> f !in r.value
  {
    match e
    case Unreadable => None
    case Entry(nameText, titleText, cells) =>
      var name := Strip(nameText);
      if name == "" then None
      else
        var title := match titleText case Some(t) => Strip(t) case None => "";
        var person := ApplyCells(map[Name := name, Title := title], cells);
        assert AllTrimmed(person) by {
          forall f | f in person ensures Trimmed(person[f]) {
            if LastValueFor(cells, f).Some? {
              LastValueTrimmed(cells, f);
            }
          }
        }
        Some(person)
  }

  lemma {:induction false} LastValueTrimmed(cells: seq<Cell>, f: Field)
    requires LastValueFor(cells, f).Some?
    ensures Trimmed(LastValueFor(cells, f).value)
  {
    if CellField(cells[|cells| - 1]) != Some(f) {
      LastValueTrimmed(cells[..|cells| - 1], f);
    }
  }

  /** A field that no cell of the block labels defaults to "" (apart from
      `Name` and `Title`, which come from the headings). */
  lemma MissingLabelDefaultsEmpty(e: RawEntry, f: Field)
    requires ExtractPerson(e).Some?
    requires f != Name && f != Title
    requires forall i :: 0 <= i < |e.cells| ==> ParseCell(e.cells[i]).0 != FieldName(f)
    ensures Get(ExtractPerson(e).value, f) == ""
  {
    NoLabelNoValue(e.cells, f);
  }

  lemma {:induction false} NoLabelNoValue(cells: seq<Cell>, f: Field)
    requires forall i :: 0 <= i < |cells| ==> ParseCell(cells[i]).0 != FieldName(f)
    ensures LastValueFor(cells, f).None?
  {
    if cells != [] {
      NoLabelNoValue(cells[..|cells| - 1], f);
    }
  }
}
