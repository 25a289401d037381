/**
 * The page's pipeline once both files are loaded: compare the new table with the
 * old one, flatten the result, and export it with highlighted headers.
 */
module Pipeline {
  import opened Wrappers
  import opened Tables
  import opened Differ
  import opened Flattener
  import opened Exporter

  /** The sheet offered for download, or the error the comparison raises. */
  function Export(newT: Table, oldT: Table): (r: Result<Sheet, CompareError>)
    requires newT.Valid() && oldT.Valid()
    ensures r.Failure? <==> newT.columns != oldT.columns || newT.index != oldT.index
    ensures r.Success? ==> r.value.name == SheetName && |r.value.header| == 2 * |newT.columns| + 1
  {
    match Compare(newT, oldT)
    case Failure(e) => Failure(e)
    case Success(d) =>
      FlattenShape(d);
      Success(ExportSheet(Flatten(d)))
  }

  /** Compare, flatten and export, as the page does in order. */
  method CompareAndExport(newT: Table, oldT: Table) returns (r: Result<Sheet, CompareError>)
    requires newT.Valid() && oldT.Valid()
    ensures r == Export(newT, oldT)
    ensures r.Failure? <==> newT.columns != oldT.columns || newT.index != oldT.index
    ensures r.Success? ==> r.value.name == SheetName && |r.value.header| == 2 * |newT.columns| + 1
  {
    var diff := Compare(newT, oldT);
    if diff.Failure? {
      return Failure(diff.error);
    }
    var flat := FlattenDiff(diff.value);
    var sheet := CreateExcelWithDiff(flat);
    r := Success(sheet);
  }

  /** Column `k` of the new table changed, at some row, to a non-null value. */
  predicate NewValueAppears(newT: Table, oldT: Table, k: nat)
    requires newT.Valid() && oldT.Valid() && |newT.rows| == |oldT.rows|
    requires k < |newT.columns| && k < |oldT.columns|
  {
    exists i :: 0 <= i < |newT.rows| && newT.rows[i][k] != oldT.rows[i][k] && newT.rows[i][k] != Null
  }

  /** Column `k` of the old table held, at some changed row, a non-null value. */
  predicate OldValueAppears(newT: Table, oldT: Table, k: nat)
    requires newT.Valid() && oldT.Valid() && |newT.rows| == |oldT.rows|
    requires k < |newT.columns| && k < |oldT.columns|
  {
    exists i :: 0 <= i < |newT.rows| && newT.rows[i][k] != oldT.rows[i][k] && oldT.rows[i][k] != Null
  }

  /** The `self` sub-column of logical column `k` has a non-null value exactly when a new value appears there. */
  lemma SelfColumnNotNull(newT: Table, oldT: Table, d: DiffTable, k: nat)
    requires newT.Valid() && oldT.Valid() && Compare(newT, oldT) == Success(d)
    requires k < |d.columns|
    ensures AnyNotNull(SelfColumn(d, k)) <==> NewValueAppears(newT, oldT, k)
    ensures AnyNotNull(OtherColumn(d, k)) <==> OldValueAppears(newT, oldT, k)
  {
    var s, o := SelfColumn(d, k), OtherColumn(d, k);
    if AnyNotNull(s) {
      var i :| 0 <= i < |s| && s[i] != Null;
      assert d.rows[i][k] == CompareCell(newT.rows[i][k], oldT.rows[i][k]);
    }
    if NewValueAppears(newT, oldT, k) {
      var i :| 0 <= i < |newT.rows| && newT.rows[i][k] != oldT.rows[i][k] && newT.rows[i][k] != Null;
      assert s[i] == d.rows[i][k].self;
    }
    if AnyNotNull(o) {
      var i :| 0 <= i < |o| && o[i] != Null;
      assert d.rows[i][k] == CompareCell(newT.rows[i][k], oldT.rows[i][k]);
    }
    if OldValueAppears(newT, oldT, k) {
      var i :| 0 <= i < |newT.rows| && newT.rows[i][k] != oldT.rows[i][k] && oldT.rows[i][k] != Null;
      assert o[i] == d.rows[i][k].other;
    }
  }

  /**
   * End to end: the exported sheet has the index header, then `C_self`,
   * `C_other` for each column `C`. `C_self` is highlighted exactly when some row
   * of `C` changed to a non-null new value, and `C_other` exactly when some
   * changed row of `C` had a non-null old value.
   */
  lemma ExportHighlightsChangedColumns(newT: Table, oldT: Table, k: nat)
    requires newT.Valid() && oldT.Valid()
    requires newT.columns == oldT.columns && newT.index == oldT.index
    requires k < |newT.columns|
    ensures Export(newT, oldT).Success?
    ensures |Export(newT, oldT).value.header| == 2 * |newT.columns| + 1
    ensures Export(newT, oldT).value.header[2 * k + 1] ==
      HeaderCell(newT.columns[k] + SelfSuffix, if NewValueAppears(newT, oldT, k) then Highlight else WriterHeader)
    ensures Export(newT, oldT).value.header[2 * k + 2] ==
      HeaderCell(newT.columns[k] + OtherSuffix, if OldValueAppears(newT, oldT, k) then Highlight else WriterHeader)
    ensures Export(newT, oldT).value.header[2 * k + 1].style == Highlight <==> NewValueAppears(newT, oldT, k)
    ensures Export(newT, oldT).value.header[2 * k + 2].style == Highlight <==> OldValueAppears(newT, oldT, k)
  {
    var d := Compare(newT, oldT).value;
    var f := Flatten(d);
    FlattenShape(d);
    ExportHeaderHighlightsExactly(f);
    SelfColumnNotNull(newT, oldT, d, k);
    assert f.columns[2 * k] == SelfColumn(d, k);
    assert f.columns[2 * k + 1] == OtherColumn(d, k);
  }

  /** No header is written above the index, so it is never highlighted. */
  lemma ExportIndexHeaderPlain(newT: Table, oldT: Table)
    requires newT.Valid() && oldT.Valid()
    requires Export(newT, oldT).Success?
    ensures Export(newT, oldT).value.header[0] == HeaderCell("", Unwritten)
  {
    ExportHeaderHighlightsExactly(Flatten(Compare(newT, oldT).value));
  }

  /** Comparing a table with itself exports a sheet with no highlighted header. */
  lemma SelfExportHasNoHighlight(t: Table)
    requires t.Valid()
    ensures Export(t, t).Success?
    ensures forall k :: 0 <= k < |Export(t, t).value.header| ==> Export(t, t).value.header[k].style != Highlight
  {
    var d := Compare(t, t).value;
    var f := Flatten(d);
    FlattenShape(d);
    forall k, i | 0 <= k < |f.columns| && 0 <= i < |f.index|
      ensures f.columns[k][i] == Null
    {
      var j := k / 2;
      if k % 2 == 0 {
        assert k == 2 * j;
        assert f.columns[k] == SelfColumn(d, j);
      } else {
        assert k == 2 * j + 1;
        assert f.columns[k] == OtherColumn(d, j);
      }
      assert d.rows[i][j] == CompareCell(t.rows[i][j], t.rows[i][j]);
    }
    AllNullFrameHasNoHighlight(f);
  }

  /** A new value of one argument order is an old value of the other. */
  lemma AppearsSwapped(newT: Table, oldT: Table, k: nat)
    requires newT.Valid() && oldT.Valid() && |newT.rows| == |oldT.rows|
    requires k < |newT.columns| && k < |oldT.columns|
    ensures NewValueAppears(newT, oldT, k) <==> OldValueAppears(oldT, newT, k)
    ensures OldValueAppears(newT, oldT, k) <==> NewValueAppears(oldT, newT, k)
  {
    if NewValueAppears(newT, oldT, k) {
      var i :| 0 <= i < |newT.rows| && newT.rows[i][k] != oldT.rows[i][k] && newT.rows[i][k] != Null;
      assert OldValueAppears(oldT, newT, k);
    }
    if OldValueAppears(oldT, newT, k) {
      var i :| 0 <= i < |oldT.rows| && oldT.rows[i][k] != newT.rows[i][k] && newT.rows[i][k] != Null;
      assert NewValueAppears(newT, oldT, k);
    }
    if OldValueAppears(newT, oldT, k) {
      var i :| 0 <= i < |newT.rows| && newT.rows[i][k] != oldT.rows[i][k] && oldT.rows[i][k] != Null;
      assert NewValueAppears(oldT, newT, k);
    }
    if NewValueAppears(oldT, newT, k) {
      var i :| 0 <= i < |oldT.rows| && oldT.rows[i][k] != newT.rows[i][k] && oldT.rows[i][k] != Null;
      assert OldValueAppears(newT, oldT, k);
    }
  }

  /**
   * Swapping the two files swaps the highlight of each `C_self` header with that
   * of the matching `C_other` header.
   */
  lemma ExportSwappedHighlights(newT: Table, oldT: Table, k: nat)
    requires newT.Valid() && oldT.Valid()
    requires newT.columns == oldT.columns && newT.index == oldT.index
    requires k < |newT.columns|
    ensures Export(newT, oldT).Success? && Export(oldT, newT).Success?
    ensures |Export(newT, oldT).value.header| == |Export(oldT, newT).value.header| == 2 * |newT.columns| + 1
    ensures Export(newT, oldT).value.header[2 * k + 1].style == Highlight <==>
            Export(oldT, newT).value.header[2 * k + 2].style == Highlight
    ensures Export(newT, oldT).value.header[2 * k + 2].style == Highlight <==>
            Export(oldT, newT).value.header[2 * k + 1].style == Highlight
  {
    ExportHighlightsChangedColumns(newT, oldT, k);
    ExportHighlightsChangedColumns(oldT, newT, k);
    AppearsSwapped(newT, oldT, k);
  }
}
