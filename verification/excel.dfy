/**
 * The spreadsheet parser of the backend: the first sheet of a workbook
 * becomes one syllabus (general data only) per data row.
 *
 * A sheet is the sequence of its physical rows, header included; a row is
 * the sequence of its cells, and a cell past the end of a row is absent.
 * Workbook decoding is not modelled; numeric parsing is a parameter.
 */
module Excel {
  import opened Base
  import opened Text
  import opened Domain
  import opened Stores

  /** A cell as the parser sees it: absent (null), a formatted text, or one whose formatting throws. */
  datatype Cell = Absent | Filled(text: string) | Unreadable

  type Row = seq<Cell>

  type Sheet = seq<Row>

  /**
   * How a non-empty cell text becomes a number: the cell's numeric value or
   * `Double.parseDouble`, truncated by `intValue()`.  `None` where parsing throws.
   */
  type NumberParser = string -> Option<int>

  /** `row.getCell(i)` */
  function CellAt(row: Row, i: nat): Cell {
    if i < |row| then row[i] else Absent
  }

  /** The text a readable cell formats to; an absent cell formats to "". */
  function CellText(row: Row, i: nat): string {
    match CellAt(row, i)
    case Filled(t) => t
    case _ => ""
  }

  /** `getStringValue`: `None` when formatting the cell throws. */
  function StringValue(row: Row, i: nat): (r: Option<string>)
    ensures r.None? <==> CellAt(row, i).Unreadable?
    ensures r.Some? ==> r.value == CellText(row, i)
  {
    match CellAt(row, i)
    case Absent => Some("")
    case Filled(t) => Some(t)
    case Unreadable => None
  }

  /** `getNumericValue(...).intValue()`: an absent, empty, unreadable or unparseable cell reads as 0. */
  function NumericValue(row: Row, i: nat, parse: NumberParser): (n: int)
    ensures (CellText(row, i) != "" && parse(CellText(row, i)).Some? && !CellAt(row, i).Unreadable?)
      ==> n == parse(CellText(row, i)).value
    ensures (CellText(row, i) == "" || parse(CellText(row, i)).None? || CellAt(row, i).Unreadable?)
      ==> n == 0
  {
    match CellAt(row, i)
    case Absent => 0
    case Unreadable => 0
    case Filled(t) =>
      if t == "" then 0
      else match parse(t)
        case None => 0
        case Some(v) => v
  }

  /** The columns read as text: everything but the period (2) and the four numbers (4 to 7). */
  const TextColumns: seq<nat> := [0, 1, 3, 8, 9, 10, 11, 12, 13]

  /** A data row yields a syllabus when its first cell holds non-blank text and every text column can be read. */
  predicate RowMaps(row: Row) {
    && CellAt(row, 0).Filled?
    && !IsBlank(CellText(row, 0))
    && forall k :: 0 <= k < |TextColumns| ==> !CellAt(row, TextColumns[k]).Unreadable?
  }

  /** The texts of the given columns, or `None` when one of them throws. */
  function ReadTexts(row: Row, cols: seq<nat>): (r: Option<seq<string>>)
    ensures r.None? <==> exists k :: 0 <= k < |cols| && CellAt(row, cols[k]).Unreadable?
    ensures r.Some? ==> |r.value| == |cols| && forall k :: 0 <= k < |cols| ==> r.value[k] == CellText(row, cols[k])
  {
    if |cols| == 0 then Some([])
    else match StringValue(row, cols[0])
      case None => None
      case Some(t) =>
        match ReadTexts(row, cols[1..])
        case None =>
          assert exists k :: 0 <= k < |cols| && CellAt(row, cols[k]).Unreadable? by {
            var k :| 0 <= k < |cols[1..]| && CellAt(row, cols[1..][k]).Unreadable?;
            assert CellAt(row, cols[k + 1]).Unreadable?;
          }
          None
        case Some(ts) => Some([t] + ts)
  }

  /** The body of the parsing loop for one data row: `None` when the row is skipped or throws. */
  function MapRow(row: Row, parse: NumberParser): (r: Option<Syllabus>)
    ensures r.Some? <==> RowMaps(row)
    ensures r.Some? ==> r.value.workflowStatus == Created
    ensures r.Some? ==> r.value.(general := NoGeneralData) == EmptySyllabus
    ensures r.Some? ==> r.value.general == GeneralData(
      Some(CellText(row, 0)), Some(CellText(row, 1)), Some(CellText(row, 3)),
      Some(NumericValue(row, 4, parse)), Some(NumericValue(row, 5, parse)),
      Some(NumericValue(row, 6, parse)), Some(NumericValue(row, 7, parse)),
      Some(CellText(row, 8)), Some(CellText(row, 9)), Some(CellText(row, 10)),
      Some(CellText(row, 11)), Some(CellText(row, 12)), Some(CellText(row, 13)))
  {
    if CellAt(row, 0).Absent? then None
    else match StringValue(row, 0)
      case None => None
      case Some(first) =>
        if IsBlank(first) then None
        else match ReadTexts(row, TextColumns)
          case None => None
          case Some(ts) =>
            var general := GeneralData(
              Some(ts[0]), Some(ts[1]), Some(ts[2]),
              Some(NumericValue(row, 4, parse)), Some(NumericValue(row, 5, parse)),
              Some(NumericValue(row, 6, parse)), Some(NumericValue(row, 7, parse)),
              Some(ts[3]), Some(ts[4]), Some(ts[5]), Some(ts[6]), Some(ts[7]), Some(ts[8]));
            Some(EmptySyllabus.(general := general, workflowStatus := Created))
  }

  /** Reading columns depends only on the cells in those columns. */
  lemma {:induction false} ReadTextsLocal(row: Row, row': Row, cols: seq<nat>)
    requires forall k :: 0 <= k < |cols| ==> CellAt(row', cols[k]) == CellAt(row, cols[k])
    ensures ReadTexts(row', cols) == ReadTexts(row, cols)
  {
    if |cols| > 0 {
      ReadTextsLocal(row, row', cols[1..]);
    }
  }

  /** Column 2 (the period) is never read: changing it changes nothing. */
  lemma PeriodColumnIgnored(row: Row, c: Cell, parse: NumberParser)
    requires |row| > 2
    ensures MapRow(row[2 := c], parse) == MapRow(row, parse)
  {
    var row' := row[2 := c];
    forall k | 0 <= k < |TextColumns| ensures CellAt(row', TextColumns[k]) == CellAt(row, TextColumns[k]) {
      assert TextColumns[k] != 2;
    }
    ReadTextsLocal(row, row', TextColumns);
    assert StringValue(row', 0) == StringValue(row, 0) by {
      assert CellAt(row', 0) == CellAt(row, 0);
    }
    assert NumericValue(row', 4, parse) == NumericValue(row, 4, parse) by {
      assert CellAt(row', 4) == CellAt(row, 4);
    }
    assert NumericValue(row', 5, parse) == NumericValue(row, 5, parse) by {
      assert CellAt(row', 5) == CellAt(row, 5);
    }
    assert NumericValue(row', 6, parse) == NumericValue(row, 6, parse) by {
      assert CellAt(row', 6) == CellAt(row, 6);
    }
    assert NumericValue(row', 7, parse) == NumericValue(row, 7, parse) by {
      assert CellAt(row', 7) == CellAt(row, 7);
    }
  }

  /** The loop body as a function of the row. */
  function RowOutcome(parse: NumberParser): Row -> Option<Syllabus> {
    row => MapRow(row, parse)
  }

  /** The syllabi of a run of data rows, in row order, skipping rows that do not map. */
  function MapRows(rows: seq<Row>, parse: NumberParser): (r: seq<Syllabus>)
    ensures |r| <= |rows|
  {
    Somes(Map(rows, RowOutcome(parse)))
  }

  /** Every syllabus read from the rows starts its workflow as CREATED. */
  lemma MapRowsCreated(rows: seq<Row>, parse: NumberParser)
    ensures forall k :: 0 <= k < |MapRows(rows, parse)| ==> MapRows(rows, parse)[k].workflowStatus == Created
  {
    var r := MapRows(rows, parse);
    var outcomes := Map(rows, RowOutcome(parse));
    forall k | 0 <= k < |r| ensures r[k].workflowStatus == Created {
      assert Some(r[k]) in outcomes;
      var i :| 0 <= i < |outcomes| && outcomes[i] == Some(r[k]);
      assert MapRow(rows[i], parse) == Some(r[k]);
    }
  }

  /** No syllabus comes out exactly when no row maps. */
  lemma MapRowsEmpty(rows: seq<Row>, parse: NumberParser)
    ensures MapRows(rows, parse) == [] <==> forall i :: 0 <= i < |rows| ==> !RowMaps(rows[i])
  {
    var outcomes := Map(rows, RowOutcome(parse));
    assert forall i :: 0 <= i < |rows| ==> outcomes[i] == MapRow(rows[i], parse);
  }

  /** Mapping rows is compositional: the syllabi of two runs of rows are those of each run, in order. */
  lemma MapRowsAppend(a: seq<Row>, b: seq<Row>, parse: NumberParser)
    ensures MapRows(a + b, parse) == MapRows(a, parse) + MapRows(b, parse)
  {
    MapAppend(a, b, RowOutcome(parse));
    SomesAppend(Map(a, RowOutcome(parse)), Map(b, RowOutcome(parse)));
  }

  /** One row yields at most one syllabus, its own mapping. */
  lemma MapRowsSingle(row: Row, parse: NumberParser)
    ensures MapRows([row], parse) == if RowMaps(row) then [MapRow(row, parse).value] else []
  {
    assert Map([row], RowOutcome(parse)) == [MapRow(row, parse)];
  }

  /** The rows below the header. */
  function DataRows(sheet: Sheet): (rows: seq<Row>)
    ensures |sheet| > 0 ==> |rows| == |sheet| - 1 && forall i :: 1 <= i < |sheet| ==> rows[i - 1] == sheet[i]
    ensures |sheet| == 0 ==> rows == []
  {
    if |sheet| == 0 then [] else sheet[1..]
  }

  /**
   * `parseAllSyllabi`: the first row is the header; every later row that maps
   * yields one syllabus, in row order; an empty result is an error.
   */
  function ParseAllSyllabi(sheet: Sheet, parse: NumberParser): (r: Result<seq<Syllabus>>)
    ensures r.Failure? <==> forall i :: 1 <= i < |sheet| ==> !RowMaps(sheet[i])
    ensures r.Failure? ==> r.error == NoValidRows
    ensures r.Success? ==> r.value == MapRows(DataRows(sheet), parse)
    ensures r.Success? ==> 0 < |r.value| < |sheet|
    ensures r.Success? ==> forall k :: 0 <= k < |r.value| ==> r.value[k].workflowStatus == Created
  {
    if |sheet| == 0 then Failure(NoValidRows)
    else
      var syllabi := MapRows(sheet[1..], parse);
      MapRowsEmpty(sheet[1..], parse);
      MapRowsCreated(sheet[1..], parse);
      assert forall i :: 1 <= i < |sheet| ==> sheet[i] == sheet[1..][i - 1];
      if |syllabi| == 0 then Failure(NoValidRows) else Success(syllabi)
  }

  /** The header row is never data: whatever it holds, the result is the same. */
  lemma HeaderIgnored(header1: Row, header2: Row, rows: seq<Row>, parse: NumberParser)
    ensures ParseAllSyllabi([header1] + rows, parse) == ParseAllSyllabi([header2] + rows, parse)
  {
    assert ([header1] + rows)[1..] == rows;
    assert ([header2] + rows)[1..] == rows;
  }

  /** A row that does not map contributes nothing, wherever it stands. */
  lemma MapRowsSkip(before: seq<Row>, row: Row, after: seq<Row>, parse: NumberParser)
    requires !RowMaps(row)
    ensures MapRows(before + [row] + after, parse) == MapRows(before + after, parse)
  {
    MapRowsAppend(before + [row], after, parse);
    MapRowsAppend(before, [row], parse);
    MapRowsSingle(row, parse);
    MapRowsAppend(before, after, parse);
  }

  /** A data row that does not map (blank first cell, or a cell that throws) is dropped without affecting the others. */
  lemma BadRowDropped(sheet: Sheet, i: nat, parse: NumberParser)
    requires 1 <= i < |sheet| && !RowMaps(sheet[i])
    ensures ParseAllSyllabi(sheet[..i] + sheet[i + 1..], parse) == ParseAllSyllabi(sheet, parse)
  {
    var shorter := sheet[..i] + sheet[i + 1..];
    assert sheet[1..] == sheet[1..i] + [sheet[i]] + sheet[i + 1..];
    assert shorter[1..] == sheet[1..i] + sheet[i + 1..];
    MapRowsSkip(sheet[1..i], sheet[i], sheet[i + 1..], parse);
    assert MapRows(shorter[1..], parse) == MapRows(sheet[1..], parse);
  }
}
