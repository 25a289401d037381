/**
 * The tables that the spreadsheet loader hands to the comparison: ordered column
 * labels, an ordered row index and rectangular rows of cells.
 */
module Tables {

  /** A cell value after the loader's type inference. Numbers are reals, so 1 and 1.0 are one value. */
  datatype Value = Number(x: real) | Text(s: string) | Boolean(b: bool)

  /** A cell: empty (null / NaN) or a value. Two empty cells are equal. */
  datatype Cell = Null | Val(v: Value)

  /** No element occurs twice. */
  predicate Distinct<T(==)>(s: seq<T>) {
    forall i, j :: 0 <= i < j < |s| ==> s[i] != s[j]
  }

  /**
   * A loaded sheet. `index` holds the row labels (0, 1, 2, ... for a freshly
   * read file), `rows[r][c]` is the cell of row `r` under `columns[c]`.
   */
  datatype Table = Table(columns: seq<string>, index: seq<int>, rows: seq<seq<Cell>>) {
    /** Rectangular, one row per index label, and no column label twice. */
    predicate Valid() {
      && Distinct(columns)
      && |rows| == |index|
      && forall r :: 0 <= r < |rows| ==> |rows[r]| == |columns|
    }
  }
}
