/**
 * Per-worksheet diagnostics: the counters gathered while inspecting a sheet, the number of
 * objects the catalog could not offer as standard embedded images, the note shown with a
 * category, and the count of cells holding `#UNKNOWN!`.
 */
module Diagnostics {
  import opened Wrappers
  import opened Text

  /** `SheetDiagnostics`: six counters, all starting at zero. */
  datatype SheetDiagnostics = SheetDiagnostics(
    drawingRelationships: nat,
    drawingObjects: nat,
    drawingPictures: nat,
    embeddedImageRefs: nat,
    unknownErrorCells: nat,
    extractionFailures: nat)

  /** `SheetDiagnostics()`. */
  const Fresh := SheetDiagnostics(0, 0, 0, 0, 0, 0)

  function Max0(x: int): nat {
    if x > 0 then x else 0
  }

  /**
   * `_unsupported_objects_count`: pictures that were not extracted, drawing objects that are
   * not pictures, `#UNKNOWN!` cells and failed extractions.
   */
  function UnsupportedObjectsCount(extracted: nat, d: SheetDiagnostics): (n: nat)
    ensures n >= d.unknownErrorCells + d.extractionFailures
    ensures n >= d.drawingPictures - extracted && n >= d.drawingObjects - d.drawingPictures
    ensures n == 0 <==> d.drawingPictures <= extracted && d.drawingObjects <= d.drawingPictures
                        && d.unknownErrorCells == 0 && d.extractionFailures == 0
  {
    Max0(d.drawingPictures - extracted)
    + Max0(d.drawingObjects - d.drawingPictures)
    + d.unknownErrorCells
    + d.extractionFailures
  }

  /** Extracting more images never raises the count. */
  lemma UnsupportedMonotone(e1: nat, e2: nat, d: SheetDiagnostics)
    requires e1 <= e2
    ensures UnsupportedObjectsCount(e2, d) <= UnsupportedObjectsCount(e1, d)
  {
  }

  /** The four notes a category can carry. */
  datatype Note = UnknownValues | DrawingContentUnavailable | NoStandardImages | SomeObjectsUnsupported

  function NoteText(n: Note): string {
    match n
    case UnknownValues =>
      "Worksheet contains #UNKNOWN! values; unsupported typed objects may not be extractable."
    case DrawingContentUnavailable =>
      "Worksheet has drawing content that is not available as standard embedded images."
    case NoStandardImages =>
      "No standard embedded images were found in this worksheet."
    case SomeObjectsUnsupported =>
      "Some worksheet objects are not standard embedded images."
  }

  /**
   * `_build_notes`: the first note that applies, or none. A category carries no note exactly
   * when images were extracted and every picture, drawing object, cell and extraction is
   * accounted for.
   */
  function BuildNotes(extracted: nat, d: SheetDiagnostics): (r: Option<Note>)
    ensures r.None? <==> extracted > 0 && d.drawingPictures <= extracted && d.drawingObjects <= d.drawingPictures
                         && d.unknownErrorCells == 0 && d.extractionFailures == 0
  {
    if d.unknownErrorCells > 0 then Some(UnknownValues)
    else if extracted == 0 then
      if d.drawingObjects > 0 || d.embeddedImageRefs > 0 then Some(DrawingContentUnavailable)
      else Some(NoStandardImages)
    else if UnsupportedObjectsCount(extracted, d) > 0 then Some(SomeObjectsUnsupported)
    else None
  }

  /** The note and the `unsupported_objects_detected` flag agree once images were extracted. */
  lemma NotesAgreeWithFlag(extracted: nat, d: SheetDiagnostics)
    requires extracted > 0
    ensures BuildNotes(extracted, d).None? <==> UnsupportedObjectsCount(extracted, d) == 0
    ensures d.unknownErrorCells > 0 ==> UnsupportedObjectsCount(extracted, d) > 0
  {
  }

  /** `#UNKNOWN!` cells take priority over every other note. */
  lemma UnknownValuesFirst(extracted: nat, d: SheetDiagnostics)
    ensures d.unknownErrorCells > 0 <==> BuildNotes(extracted, d) == Some(UnknownValues)
  {
  }

  /** With no image extracted there is always a note, and drawing content decides which. */
  lemma NoImagesAlwaysNoted(d: SheetDiagnostics)
    requires d.unknownErrorCells == 0
    ensures BuildNotes(0, d).Some?
    ensures BuildNotes(0, d) == Some(DrawingContentUnavailable) <==> d.drawingObjects > 0 || d.embeddedImageRefs > 0
  {
  }

  // ---------------------------------------------------------------------------
  // Counting `#UNKNOWN!` cells.

  /** A cell's value as the workbook reader returns it: nothing, a string, or another value with its `str()`. */
  datatype CellValue = NoValue | StrValue(s: string) | OtherValue(repr: string)

  /** A cell: its openpyxl `data_type` code (`'e'` for an error) and its value. */
  datatype Cell = Cell(dataType: string, value: CellValue)

  function Repr(v: CellValue): string {
    match v
    case NoValue => "None"
    case StrValue(s) => s
    case OtherValue(r) => r
  }

  predicate IsUnknownText(s: string) {
    Upper(Strip(s)) == "#UNKNOWN!"
  }

  /** An error cell whose text is `#UNKNOWN!`, or a string cell holding it, ignoring case and surrounding blanks. */
  predicate IsUnknownErrorCell(c: Cell) {
    && c.value != NoValue
    && ((c.dataType == "e" && IsUnknownText(Repr(c.value))) || (c.value.StrValue? && IsUnknownText(c.value.s)))
  }

  function CountInRow(row: seq<Cell>): nat
    decreases |row|
  {
    if row == [] then 0
    else CountInRow(row[..|row| - 1]) + (if IsUnknownErrorCell(row[|row| - 1]) then 1 else 0)
  }

  function CountInRows(rows: seq<seq<Cell>>): nat
    decreases |rows|
  {
    if rows == [] then 0 else CountInRows(rows[..|rows| - 1]) + CountInRow(rows[|rows| - 1])
  }

  /** `_count_unknown_error_cells`: visit every cell row by row and count the `#UNKNOWN!` ones. */
  method CountUnknownErrorCells(rows: seq<seq<Cell>>) returns (count: nat)
    ensures count == CountInRows(rows)
  {
    count := 0;
    var r := 0;
    while r < |rows|
      invariant 0 <= r <= |rows|
      invariant count == CountInRows(rows[..r])
    {
      var row := rows[r];
      var c := 0;
      while c < |row|
        invariant 0 <= c <= |row|
        invariant count == CountInRows(rows[..r]) + CountInRow(row[..c])
      {
        assert row[..c + 1][..c] == row[..c];
        if IsUnknownErrorCell(row[c]) {
          count := count + 1;
        }
        c := c + 1;
      }
      assert row[..c] == row;
      assert rows[..r + 1][..r] == rows[..r];
      r := r + 1;
    }
    assert rows[..r] == rows;
  }

  /** All the cells of a sheet, row after row. */
  function Flatten(rows: seq<seq<Cell>>): (cells: seq<Cell>)
    decreases |rows|
  {
    if rows == [] then [] else Flatten(rows[..|rows| - 1]) + rows[|rows| - 1]
  }

  /** Counting a concatenation counts each part. */
  lemma {:induction false} CountInRowAppend(a: seq<Cell>, b: seq<Cell>)
    ensures CountInRow(a + b) == CountInRow(a) + CountInRow(b)
    decreases |b|
  {
    if b != [] {
      var b' := b[..|b| - 1];
      assert (a + b)[..|a + b| - 1] == a + b';
      assert (a + b)[|a + b| - 1] == b[|b| - 1];
      CountInRowAppend(a, b');
    } else {
      assert a + b == a;
    }
  }

  /** The row-by-row count is the count over all the sheet's cells in reading order. */
  lemma {:induction false} CountInRowsIsFlatCount(rows: seq<seq<Cell>>)
    ensures CountInRows(rows) == CountInRow(Flatten(rows))
    decreases |rows|
  {
    if rows != [] {
      CountInRowsIsFlatCount(rows[..|rows| - 1]);
      CountInRowAppend(Flatten(rows[..|rows| - 1]), rows[|rows| - 1]);
    }
  }

  /** A row never has more `#UNKNOWN!` cells than cells, and a row without one counts zero. */
  lemma {:induction false} CountInRowBounds(row: seq<Cell>)
    ensures CountInRow(row) <= |row|
    ensures (forall i :: 0 <= i < |row| ==> !IsUnknownErrorCell(row[i])) ==> CountInRow(row) == 0
    ensures (forall i :: 0 <= i < |row| ==> IsUnknownErrorCell(row[i])) ==> CountInRow(row) == |row|
    decreases |row|
  {
    if row != [] {
      var init := row[..|row| - 1];
      assert forall i :: 0 <= i < |init| ==> init[i] == row[i];
      CountInRowBounds(init);
    }
  }
}
