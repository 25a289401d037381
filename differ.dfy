/**
 * The cell-wise comparison `new.compare(old, keep_shape=True, keep_equal=False)`:
 * row i of the new table against row i of the old one, column by column, keeping
 * every row and column, and blanking both halves wherever the two cells agree.
 */
module Differ {
  import opened Wrappers
  import opened Tables

  /** One position of the result: `self` from the new table, `other` from the old one. */
  datatype CellDiff = CellDiff(self: Cell, other: Cell) {
    /** The position shows a change: at least one half is not null. */
    predicate Changed() {
      self != Null || other != Null
    }
  }

  /** What is shown at a position where nothing changed. */
  const Unchanged := CellDiff(Null, Null)

  /** The comparison refuses tables whose column labels or row labels differ. */
  datatype CompareError = NotIdenticallyLabeled

  /**
   * The comparison's result: the inputs' labels, and for every logical column
   * the pair of sub-columns (column, "self") and (column, "other").
   */
  datatype DiffTable = DiffTable(columns: seq<string>, index: seq<int>, rows: seq<seq<CellDiff>>) {
    predicate Valid() {
      && Distinct(columns)
      && |rows| == |index|
      && forall r :: 0 <= r < |rows| ==> |rows[r]| == |columns|
    }
  }

  /** Compares one new cell with the old cell at the same position. */
  function CompareCell(newCell: Cell, oldCell: Cell): (d: CellDiff)
    ensures d.Changed() <==> newCell != oldCell
    ensures d.Changed() ==> d.self == newCell && d.other == oldCell
    ensures !d.Changed() ==> d == Unchanged
  {
    if newCell == oldCell then Unchanged else CellDiff(newCell, oldCell)
  }

  /** Compares two rows of the same width position by position. */
  function CompareRow(newRow: seq<Cell>, oldRow: seq<Cell>): (d: seq<CellDiff>)
    requires |newRow| == |oldRow|
    ensures |d| == |newRow|
    ensures forall c :: 0 <= c < |d| ==> d[c] == CompareCell(newRow[c], oldRow[c])
  {
    seq(|newRow|, c requires 0 <= c < |newRow| => CompareCell(newRow[c], oldRow[c]))
  }

  /**
   * `newT.compare(oldT, keep_shape=True, keep_equal=False)`. Fails unless both
   * tables carry the same column labels and the same row labels, in the same order.
   */
  function Compare(newT: Table, oldT: Table): (r: Result<DiffTable, CompareError>)
    requires newT.Valid() && oldT.Valid()
    ensures r.Failure? <==> newT.columns != oldT.columns || newT.index != oldT.index
    ensures r.Success? ==>
      && r.value.Valid()
      && r.value.columns == newT.columns
      && r.value.index == newT.index
      && forall i, c :: 0 <= i < |r.value.rows| && 0 <= c < |newT.columns| ==>
           r.value.rows[i][c] == CompareCell(newT.rows[i][c], oldT.rows[i][c])
  {
    if newT.columns != oldT.columns || newT.index != oldT.index then
      Failure(NotIdenticallyLabeled)
    else
      Success(DiffTable(newT.columns, newT.index,
        seq(|newT.rows|, i requires 0 <= i < |newT.rows| => CompareRow(newT.rows[i], oldT.rows[i]))))
  }

  // ---------------------------------------------------------------------------
  // Partners of the comparison: replaying a diff, diffing a table with itself,
  // and swapping the two arguments.

  /** Replays one position of a diff on the old cell: a changed position gives its new half. */
  function ApplyCell(oldCell: Cell, d: CellDiff): Cell {
    if d.Changed() then d.self else oldCell
  }

  /** Replays one position of a diff backwards on the new cell. */
  function RevertCell(newCell: Cell, d: CellDiff): Cell {
    if d.Changed() then d.other else newCell
  }

  /** Exchanges the halves of a position. */
  function SwapCell(d: CellDiff): CellDiff {
    CellDiff(d.other, d.self)
  }

  /** Exchanges the halves of every position of a diff. */
  function Swap(d: DiffTable): DiffTable {
    DiffTable(d.columns, d.index,
      seq(|d.rows|, i requires 0 <= i < |d.rows| => seq(|d.rows[i]|, c requires 0 <= c < |d.rows[i]| => SwapCell(d.rows[i][c]))))
  }

  /** Replays a diff, position by position, on the rows of a table. */
  function ApplyRows(rows: seq<seq<Cell>>, d: DiffTable): (r: seq<seq<Cell>>)
    requires d.Valid() && |rows| == |d.rows|
    requires forall i :: 0 <= i < |rows| ==> |rows[i]| == |d.columns|
  {
    seq(|rows|, i requires 0 <= i < |rows| =>
      seq(|d.columns|, c requires 0 <= c < |d.columns| => ApplyCell(rows[i][c], d.rows[i][c])))
  }

  /** Replays a diff backwards, position by position, on the rows of a table. */
  function RevertRows(rows: seq<seq<Cell>>, d: DiffTable): (r: seq<seq<Cell>>)
    requires d.Valid() && |rows| == |d.rows|
    requires forall i :: 0 <= i < |rows| ==> |rows[i]| == |d.columns|
  {
    seq(|rows|, i requires 0 <= i < |rows| =>
      seq(|d.columns|, c requires 0 <= c < |d.columns| => RevertCell(rows[i][c], d.rows[i][c])))
  }

  /**
   * The diff loses nothing: replaying it on the old table gives the new rows,
   * and replaying it backwards on the new table gives the old rows.
   */
  lemma CompareRoundTrip(newT: Table, oldT: Table)
    requires newT.Valid() && oldT.Valid()
    requires newT.columns == oldT.columns && newT.index == oldT.index
    ensures Compare(newT, oldT).Success?
    ensures ApplyRows(oldT.rows, Compare(newT, oldT).value) == newT.rows
    ensures RevertRows(newT.rows, Compare(newT, oldT).value) == oldT.rows
  {
    var d := Compare(newT, oldT).value;
    var applied := ApplyRows(oldT.rows, d);
    var reverted := RevertRows(newT.rows, d);
    forall i | 0 <= i < |newT.rows|
      ensures applied[i] == newT.rows[i] && reverted[i] == oldT.rows[i]
    {
      forall c | 0 <= c < |newT.columns|
        ensures applied[i][c] == newT.rows[i][c] && reverted[i][c] == oldT.rows[i][c]
      {
        assert d.rows[i][c] == CompareCell(newT.rows[i][c], oldT.rows[i][c]);
      }
    }
  }

  /** Diffing a table against itself succeeds and shows no change anywhere. */
  lemma CompareSelfIsEmpty(t: Table)
    requires t.Valid()
    ensures Compare(t, t).Success?
    ensures forall i, c :: 0 <= i < |t.rows| && 0 <= c < |t.columns| ==>
      Compare(t, t).value.rows[i][c] == Unchanged
  {
  }

  /**
   * Swapping the arguments fails or succeeds together with the original call,
   * and on success shows the same positions with `self` and `other` exchanged.
   */
  lemma CompareSwapped(newT: Table, oldT: Table)
    requires newT.Valid() && oldT.Valid()
    ensures Compare(oldT, newT).Failure? <==> Compare(newT, oldT).Failure?
    ensures Compare(newT, oldT).Success? ==>
      Compare(oldT, newT).value == Swap(Compare(newT, oldT).value)
  {
    if Compare(newT, oldT).Success? {
      var d := Compare(newT, oldT).value;
      var e := Compare(oldT, newT).value;
      var s := Swap(d);
      assert |e.rows| == |s.rows|;
      forall i | 0 <= i < |e.rows|
        ensures e.rows[i] == s.rows[i]
      {
        forall c | 0 <= c < |e.rows[i]|
          ensures e.rows[i][c] == s.rows[i][c]
        {
          assert e.rows[i][c] == CompareCell(oldT.rows[i][c], newT.rows[i][c]);
          assert d.rows[i][c] == CompareCell(newT.rows[i][c], oldT.rows[i][c]);
        }
      }
    }
  }

  /** The changed positions of the two argument orders are the same set. */
  lemma CompareSwappedChangedPositions(newT: Table, oldT: Table, i: nat, c: nat)
    requires newT.Valid() && oldT.Valid()
    requires Compare(newT, oldT).Success?
    requires i < |newT.rows| && c < |newT.columns|
    ensures Compare(oldT, newT).Success?
    ensures Compare(oldT, newT).value.rows[i][c].Changed() <==> Compare(newT, oldT).value.rows[i][c].Changed()
    ensures Compare(oldT, newT).value.rows[i][c] == SwapCell(Compare(newT, oldT).value.rows[i][c])
  {
    CompareSwapped(newT, oldT);
  }
}
