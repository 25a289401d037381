/**
 * `create_excel_with_diff`: the flattened frame is written to a sheet named
 * "Differences" with the row index as its first column, then every data column
 * that holds at least one non-null value gets its header cell rewritten with the
 * highlight format. The workbook's bytes are not modelled: the sheet is its
 * header row and its body.
 */
module Exporter {
  import opened Tables
  import opened Flattener

  /** A cell format: bold or not, and a background colour. */
  datatype Format = Format(bold: bool, bgColor: string)

  /** `workbook.add_format({'bold': True, 'bg_color': '#FFEB9C'})`. */
  const HighlightFormat := Format(true, "#FFEB9C")

  const SheetName := "Differences"

  /**
   * How a header cell is drawn: not written at all, in the writer's own header
   * format, or in a format set explicitly.
   */
  datatype Style = Unwritten | WriterHeader | Formatted(format: Format)

  const Highlight := Formatted(HighlightFormat)

  datatype HeaderCell = HeaderCell(text: string, style: Style)

  /** What the sheet ends up holding, with the file bytes left abstract. */
  datatype Sheet = Sheet(name: string, header: seq<HeaderCell>, body: seq<seq<Cell>>)

  /** `flattened_diff_df[column].notnull().any()`: false exactly for an all-null column. */
  predicate AnyNotNull(col: seq<Cell>): (b: bool)
    ensures !b <==> forall i :: 0 <= i < |col| ==> col[i] == Null
  {
    exists i :: 0 <= i < |col| && col[i] != Null
  }

  /**
   * The header row `to_excel(..., index=True)` writes: nothing above the index
   * (it has no name), then the column names in the writer's header format.
   */
  function WrittenHeader(f: Frame): (h: seq<HeaderCell>)
    ensures |h| == |f.names| + 1
    ensures h[0] == HeaderCell("", Unwritten)
    ensures forall k :: 1 <= k < |h| ==> h[k] == HeaderCell(f.names[k - 1], WriterHeader)
  {
    [HeaderCell("", Unwritten)] + seq(|f.names|, j requires 0 <= j < |f.names| => HeaderCell(f.names[j], WriterHeader))
  }

  /** The body rows `to_excel(..., index=True)` writes: the row label, then that row's cells. */
  function WrittenBody(f: Frame): (b: seq<seq<Cell>>)
    requires f.Valid()
    ensures |b| == |f.index|
    ensures forall i :: 0 <= i < |b| ==> |b[i]| == |f.names| + 1 && b[i][0] == Val(Number(f.index[i] as real))
    ensures forall i, k :: 0 <= i < |b| && 1 <= k <= |f.names| ==> b[i][k] == f.columns[k - 1][i]
  {
    seq(|f.index|, i requires 0 <= i < |f.index| =>
      [Val(Number(f.index[i] as real))] + seq(|f.names|, j requires 0 <= j < |f.names| => f.columns[j][i]))
  }

  /**
   * The header row after the highlight pass over the header row `h`: the index
   * cell is kept, the header of a column with a non-null value becomes its name
   * in the highlight format, and every other header is kept.
   */
  function Highlighted(f: Frame, h: seq<HeaderCell>): (r: seq<HeaderCell>)
    requires f.Valid() && |h| == |f.names| + 1
    ensures |r| == |h| && r[0] == h[0]
    ensures forall k :: 1 <= k < |h| && AnyNotNull(f.columns[k - 1]) ==> r[k] == HeaderCell(f.names[k - 1], Highlight)
    ensures forall k :: 1 <= k < |h| && !AnyNotNull(f.columns[k - 1]) ==> r[k] == h[k]
  {
    [h[0]] + seq(|f.names|, j requires 0 <= j < |f.names| =>
      if AnyNotNull(f.columns[j]) then HeaderCell(f.names[j], Highlight) else h[j + 1])
  }

  /** The header row of the exported sheet. */
  function ExportHeader(f: Frame): seq<HeaderCell>
    requires f.Valid()
  {
    Highlighted(f, WrittenHeader(f))
  }

  /** The exported sheet. */
  function ExportSheet(f: Frame): Sheet
    requires f.Valid()
  {
    Sheet(SheetName, ExportHeader(f), WrittenBody(f))
  }

  /** The xlsxwriter sheet: its header row as an array of cells, and the body below it. */
  class Worksheet {
    const name: string
    const header: array<HeaderCell>
    var body: seq<seq<Cell>>

    /** `flattened_diff_df.to_excel(writer, sheet_name='Differences', index=True)`. */
    constructor (f: Frame)
      requires f.Valid()
      ensures name == SheetName
      ensures fresh(header)
      ensures header[..] == WrittenHeader(f)
      ensures body == WrittenBody(f)
    {
      name := SheetName;
      var h := WrittenHeader(f);
      header := new HeaderCell[|h|](j requires 0 <= j < |h| => h[j]);
      body := WrittenBody(f);
    }

    /**
     * The loop over `enumerate(flattened_diff_df.columns, 1)`: sheet column
     * `colNum` holds frame column `colNum - 1`, and its header is rewritten with
     * the highlight format when that column has a non-null value.
     */
    method HighlightChangedHeaders(f: Frame)
      requires f.Valid() && header.Length == |f.names| + 1
      modifies header
      ensures header[..] == Highlighted(f, old(header[..]))
      ensures body == old(body)
    {
      ghost var h := header[..];
      var colNum := 1;
      while colNum < header.Length
        invariant 1 <= colNum <= header.Length
        invariant header[..colNum] == Highlighted(f, h)[..colNum]
        invariant header[colNum..] == h[colNum..]
      {
        var column := f.names[colNum - 1];
        if AnyNotNull(f.columns[colNum - 1]) {
          header[colNum] := HeaderCell(column, Highlight);
        }
        colNum := colNum + 1;
      }
    }
  }

  /** `create_excel_with_diff(flattened_diff_df)`: write the frame, then highlight the changed headers. */
  method CreateExcelWithDiff(f: Frame) returns (sheet: Sheet)
    requires f.Valid()
    ensures sheet == ExportSheet(f)
    ensures sheet.name == SheetName
    ensures |sheet.header| == |f.names| + 1
    ensures forall k :: 0 <= k < |sheet.header| ==>
      (sheet.header[k].style == Highlight <==> 1 <= k && AnyNotNull(f.columns[k - 1]))
  {
    var ws := new Worksheet(f);
    ws.HighlightChangedHeaders(f);
    sheet := Sheet(ws.name, ws.header[..], ws.body);
    ExportHeaderHighlightsExactly(f);
  }

  // ---------------------------------------------------------------------------
  // What the highlight pass promises.

  /**
   * The highlight pass rewrites exactly the headers of columns with a non-null
   * value; the index header and the headers of all-null columns keep what they had.
   */
  lemma HighlightedTouchesOnlyChangedColumns(f: Frame, h: seq<HeaderCell>)
    requires f.Valid() && |h| == |f.names| + 1
    ensures |Highlighted(f, h)| == |h|
    ensures Highlighted(f, h)[0] == h[0]
    ensures forall k :: 1 <= k < |h| && AnyNotNull(f.columns[k - 1]) ==>
      Highlighted(f, h)[k] == HeaderCell(f.names[k - 1], Highlight)
    ensures forall k :: 1 <= k < |h| && !AnyNotNull(f.columns[k - 1]) ==> Highlighted(f, h)[k] == h[k]
  {
  }

  /** Running the highlight pass twice gives the same header row as running it once. */
  lemma HighlightedIdempotent(f: Frame, h: seq<HeaderCell>)
    requires f.Valid() && |h| == |f.names| + 1
    ensures Highlighted(f, Highlighted(f, h)) == Highlighted(f, h)
  {
    var once := Highlighted(f, h);
    var twice := Highlighted(f, once);
    forall k | 0 <= k < |h|
      ensures twice[k] == once[k]
    {
    }
  }

  /**
   * In the exported sheet a header carries the highlight format exactly when it
   * heads a data column with at least one non-null value; every header keeps its
   * text.
   */
  lemma ExportHeaderHighlightsExactly(f: Frame)
    requires f.Valid()
    ensures |ExportHeader(f)| == |f.names| + 1
    ensures ExportHeader(f)[0] == HeaderCell("", Unwritten)
    ensures forall k :: 1 <= k < |ExportHeader(f)| ==>
      ExportHeader(f)[k] == HeaderCell(f.names[k - 1], if AnyNotNull(f.columns[k - 1]) then Highlight else WriterHeader)
    ensures forall k :: 0 <= k < |ExportHeader(f)| ==>
      (ExportHeader(f)[k].style == Highlight <==> 1 <= k && AnyNotNull(f.columns[k - 1]))
  {
    var h := WrittenHeader(f);
    HighlightedTouchesOnlyChangedColumns(f, h);
  }

  /** A frame whose cells are all null is exported with no highlighted header. */
  lemma AllNullFrameHasNoHighlight(f: Frame)
    requires f.Valid()
    requires forall k, i :: 0 <= k < |f.columns| && 0 <= i < |f.index| ==> f.columns[k][i] == Null
    ensures forall k :: 0 <= k < |ExportHeader(f)| ==> ExportHeader(f)[k].style != Highlight
  {
    ExportHeaderHighlightsExactly(f);
  }
}
