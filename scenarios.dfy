/** Worked examples of the pipeline on small concrete tables. */
module Scenarios {
  import opened Wrappers
  import opened Tables
  import opened Differ
  import opened Flattener
  import opened Exporter
  import opened Pipeline

  const OneRow: seq<int> := [0]

  function NamesOld(): Table { Table(["id", "name"], OneRow, [[Val(Number(1.0)), Val(Text("A"))]]) }
  function NamesNew(): Table { Table(["id", "name"], OneRow, [[Val(Number(1.0)), Val(Text("B"))]]) }

  /** One row changes its `name` from "A" to "B": only that position is populated. */
  lemma RenamedRowDiff()
    ensures NamesOld().Valid() && NamesNew().Valid()
    ensures Compare(NamesNew(), NamesOld()).Success?
    ensures Compare(NamesNew(), NamesOld()).value.rows == [[Unchanged, CellDiff(Val(Text("B")), Val(Text("A")))]]
  {
    var oldT, newT := NamesOld(), NamesNew();
    assert newT.Valid() && oldT.Valid();
    var d := Compare(newT, oldT).value;
    assert d.rows[0][0] == CompareCell(newT.rows[0][0], oldT.rows[0][0]) == Unchanged;
    assert d.rows[0][1] == CompareCell(newT.rows[0][1], oldT.rows[0][1]) == CellDiff(Val(Text("B")), Val(Text("A")));
    assert d.rows[0] == [Unchanged, CellDiff(Val(Text("B")), Val(Text("A")))];
  }

  /** In the same example only the `name_self` and `name_other` headers are highlighted. */
  lemma RenamedRowExport()
    ensures NamesOld().Valid() && NamesNew().Valid()
    ensures Export(NamesNew(), NamesOld()).Success?
    ensures |Export(NamesNew(), NamesOld()).value.header| == 5
    ensures Export(NamesNew(), NamesOld()).value.header[1].style == WriterHeader
    ensures Export(NamesNew(), NamesOld()).value.header[2].style == WriterHeader
    ensures Export(NamesNew(), NamesOld()).value.header[3] == HeaderCell("name_self", Highlight)
    ensures Export(NamesNew(), NamesOld()).value.header[4] == HeaderCell("name_other", Highlight)
  {
    var oldT, newT := NamesOld(), NamesNew();
    assert newT.Valid() && oldT.Valid();
    assert newT.rows[0][0] == oldT.rows[0][0];
    assert !NewValueAppears(newT, oldT, 0) && !OldValueAppears(newT, oldT, 0);
    assert NewValueAppears(newT, oldT, 1) && OldValueAppears(newT, oldT, 1) by {
      assert newT.rows[0][1] != oldT.rows[0][1];
    }
    assert "name" + SelfSuffix == "name_self";
    assert "name" + OtherSuffix == "name_other";
    ExportHighlightsChangedColumns(newT, oldT, 0);
    ExportHighlightsChangedColumns(newT, oldT, 1);
  }

  function ScoreOld(): Table { Table(["score"], OneRow, [[Null]]) }
  function ScoreNew(): Table { Table(["score"], OneRow, [[Val(Number(5.0))]]) }

  /** A score goes from empty to 5 in the only row: `score_self` is highlighted, `score_other` is not. */
  lemma ScoreFilledIn()
    ensures ScoreOld().Valid() && ScoreNew().Valid()
    ensures Compare(ScoreNew(), ScoreOld()).Success?
    ensures Compare(ScoreNew(), ScoreOld()).value.rows == [[CellDiff(Val(Number(5.0)), Null)]]
    ensures Export(ScoreNew(), ScoreOld()).Success?
    ensures |Export(ScoreNew(), ScoreOld()).value.header| == 3
    ensures Export(ScoreNew(), ScoreOld()).value.header[1].style == Highlight
    ensures Export(ScoreNew(), ScoreOld()).value.header[2].style == WriterHeader
  {
    var oldT, newT := ScoreOld(), ScoreNew();
    assert newT.Valid() && oldT.Valid();
    var d := Compare(newT, oldT).value;
    assert d.rows[0][0] == CompareCell(newT.rows[0][0], oldT.rows[0][0]);
    assert d.rows[0] == [CellDiff(Val(Number(5.0)), Null)];
    ExportHighlightsChangedColumns(newT, oldT, 0);
    assert NewValueAppears(newT, oldT, 0) by {
      assert newT.rows[0][0] != oldT.rows[0][0];
    }
    assert !OldValueAppears(newT, oldT, 0);
  }

  /** An old file with two rows and a new file with three cannot be compared. */
  lemma RowCountsDiffer()
    ensures
      var oldT := Table(["id"], [0, 1], [[Val(Number(1.0))], [Val(Number(2.0))]]);
      var newT := Table(["id"], [0, 1, 2], [[Val(Number(1.0))], [Val(Number(2.0))], [Val(Number(3.0))]]);
      && oldT.Valid() && newT.Valid()
      && Export(newT, oldT) == Failure(NotIdenticallyLabeled)
  {
  }
}
