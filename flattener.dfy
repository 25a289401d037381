/**
 * `flatten_diff`: builds a single-level frame from the comparison's result by
 * assigning, for each logical column `C` in order, the column `C_self` and then
 * the column `C_other`.
 */
module Flattener {
  import opened Tables
  import opened Differ

  /**
   * A frame built column by column: its row labels, its column names, and each
   * column's cells (column-major, as assignment by name builds it).
   */
  datatype Frame = Frame(index: seq<int>, names: seq<string>, columns: seq<seq<Cell>>) {
    predicate Valid() {
      && |names| == |columns|
      && Distinct(names)
      && forall k :: 0 <= k < |columns| ==> |columns[k]| == |index|
    }
  }

  /** `pd.DataFrame()`: no rows, no columns. */
  const EmptyFrame := Frame([], [], [])

  const SelfSuffix := "_self"
  const OtherSuffix := "_other"

  /** The first position of `name` in `names`, or `|names|` when it is not there. */
  function Find(names: seq<string>, name: string): (k: nat)
    ensures k <= |names|
    ensures k < |names| ==> names[k] == name
    ensures forall j :: 0 <= j < k ==> names[j] != name
  {
    if names == [] then 0
    else if names[0] == name then 0
    else 1 + Find(names[1..], name)
  }

  /**
   * `frame[name] = series`, where the series has row labels `idx`. An existing
   * column of that name is overwritten in place; otherwise the column is
   * appended. The first assignment to an empty frame gives it the series' labels.
   */
  function SetColumn(f: Frame, name: string, idx: seq<int>, col: seq<Cell>): (r: Frame)
    requires f.Valid() && |col| == |idx|
    requires f.index == idx || (f.index == [] && f.names == [])
    ensures r.Valid() && r.index == idx
    ensures name in f.names ==>
      var k := Find(f.names, name);
      k < |f.names| && f.names[k] == name && r.names == f.names && r.columns == f.columns[k := col]
    ensures name !in f.names ==> r.names == f.names + [name] && r.columns == f.columns + [col]
  {
    var k := Find(f.names, name);
    if k < |f.names| then
      Frame(idx, f.names, f.columns[k := col])
    else
      Frame(idx, f.names + [name], f.columns + [col])
  }

  /** `diff_df[col]['self']`: the new halves of logical column `k`, in row order. */
  function SelfColumn(d: DiffTable, k: nat): (col: seq<Cell>)
    requires d.Valid() && k < |d.columns|
    ensures |col| == |d.rows|
    ensures forall i :: 0 <= i < |col| ==> col[i] == d.rows[i][k].self
  {
    seq(|d.rows|, i requires 0 <= i < |d.rows| => d.rows[i][k].self)
  }

  /** `diff_df[col]['other']`: the old halves of logical column `k`, in row order. */
  function OtherColumn(d: DiffTable, k: nat): (col: seq<Cell>)
    requires d.Valid() && k < |d.columns|
    ensures |col| == |d.rows|
    ensures forall i :: 0 <= i < |col| ==> col[i] == d.rows[i][k].other
  {
    seq(|d.rows|, i requires 0 <= i < |d.rows| => d.rows[i][k].other)
  }

  /** The frame after the loop has handled the first `n` logical columns. */
  function FlattenPrefix(d: DiffTable, n: nat): (f: Frame)
    requires d.Valid() && n <= |d.columns|
    ensures f.Valid()
    ensures n == 0 ==> f == EmptyFrame
    ensures n > 0 ==> f.index == d.index
    decreases n
  {
    if n == 0 then EmptyFrame
    else
      var f0 := FlattenPrefix(d, n - 1);
      var c := d.columns[n - 1];
      SetColumn(SetColumn(f0, c + SelfSuffix, d.index, SelfColumn(d, n - 1)), c + OtherSuffix, d.index, OtherColumn(d, n - 1))
  }

  /**
   * The frame `flatten_diff` returns: two columns per logical column, with the
   * diff's row labels once a column exists.
   */
  function Flatten(d: DiffTable): (f: Frame)
    requires d.Valid()
    ensures f.Valid()
    ensures |f.names| == 2 * |d.columns|
    ensures |d.columns| > 0 ==> f.index == d.index
    ensures |d.columns| == 0 ==> f == EmptyFrame
  {
    FlattenPrefixLayout(d, |d.columns|);
    FlattenPrefix(d, |d.columns|)
  }

  /** The layout the flattening promises after `n` logical columns. */
  predicate LaidOut(d: DiffTable, n: nat, f: Frame)
    requires d.Valid() && n <= |d.columns|
  {
    && |f.names| == 2 * n
    && |f.columns| == 2 * n
    && forall k :: 0 <= k < n ==>
         && f.names[2 * k] == d.columns[k] + SelfSuffix
         && f.names[2 * k + 1] == d.columns[k] + OtherSuffix
         && f.columns[2 * k] == SelfColumn(d, k)
         && f.columns[2 * k + 1] == OtherColumn(d, k)
  }

  /** A suffixed name determines both the column label and the suffix. */
  lemma SuffixedNamesInjective(a: string, s: string, b: string, t: string)
    requires s == SelfSuffix || s == OtherSuffix
    requires t == SelfSuffix || t == OtherSuffix
    requires a + s == b + t
    ensures a == b && s == t
  {
    var n := a + s;
    assert n[|n| - 1] == s[|s| - 1];
    assert n[|n| - 1] == t[|t| - 1];
    assert |s| == |t|;
    assert n[..|a|] == a;
    assert n[..|b|] == b;
    assert n[|a|..] == s;
  }

  /** Position `k` of a laid-out frame holds the name of logical column `k / 2`. */
  lemma NameAt(d: DiffTable, n: nat, f: Frame, k: nat)
    requires d.Valid() && n <= |d.columns| && LaidOut(d, n, f)
    requires k < 2 * n
    ensures f.names[k] == d.columns[k / 2] + (if k % 2 == 0 then SelfSuffix else OtherSuffix)
  {
    var j := k / 2;
    if k % 2 == 0 {
      assert k == 2 * j;
    } else {
      assert k == 2 * j + 1;
    }
  }

  /** The names generated for a later logical column are not yet in a laid-out frame. */
  lemma FreshNames(d: DiffTable, n: nat, f: Frame, m: nat)
    requires d.Valid() && n <= m < |d.columns| && LaidOut(d, n, f)
    ensures d.columns[m] + SelfSuffix !in f.names
    ensures d.columns[m] + OtherSuffix !in f.names
  {
    var c := d.columns[m];
    forall k | 0 <= k < |f.names|
      ensures f.names[k] != c + SelfSuffix && f.names[k] != c + OtherSuffix
    {
      NameAt(d, n, f, k);
      var s := if k % 2 == 0 then SelfSuffix else OtherSuffix;
      var j := k / 2;
      assert j < n;
      assert d.columns[j] != c;
      if f.names[k] == c + SelfSuffix {
        SuffixedNamesInjective(d.columns[j], s, c, SelfSuffix);
      }
      if f.names[k] == c + OtherSuffix {
        SuffixedNamesInjective(d.columns[j], s, c, OtherSuffix);
      }
    }
  }

  /** Appending the two sub-columns of the next logical column extends the layout. */
  lemma LaidOutStep(d: DiffTable, n: nat, f0: Frame, f2: Frame)
    requires d.Valid() && n < |d.columns| && LaidOut(d, n, f0)
    requires f2.names == f0.names + [d.columns[n] + SelfSuffix, d.columns[n] + OtherSuffix]
    requires f2.columns == f0.columns + [SelfColumn(d, n), OtherColumn(d, n)]
    ensures LaidOut(d, n + 1, f2)
  {
    forall k | 0 <= k < n + 1
      ensures f2.names[2 * k] == d.columns[k] + SelfSuffix
      ensures f2.names[2 * k + 1] == d.columns[k] + OtherSuffix
      ensures f2.columns[2 * k] == SelfColumn(d, k)
      ensures f2.columns[2 * k + 1] == OtherColumn(d, k)
    {
      if k < n {
        assert f2.names[2 * k] == f0.names[2 * k];
        assert f2.names[2 * k + 1] == f0.names[2 * k + 1];
        assert f2.columns[2 * k] == f0.columns[2 * k];
        assert f2.columns[2 * k + 1] == f0.columns[2 * k + 1];
      }
    }
  }

  /**
   * With distinct column labels no generated name collides with an earlier one:
   * the first n logical columns become exactly the 2n columns
   * C_self, C_other, ... in order, holding the sub-columns unchanged.
   */
  lemma {:induction false} FlattenPrefixLayout(d: DiffTable, n: nat)
    requires d.Valid() && n <= |d.columns|
    ensures LaidOut(d, n, FlattenPrefix(d, n))
  {
    if n > 0 {
      FlattenPrefixLayout(d, n - 1);
      var f0 := FlattenPrefix(d, n - 1);
      var c := d.columns[n - 1];
      FreshNames(d, n - 1, f0, n - 1);
      var f1 := SetColumn(f0, c + SelfSuffix, d.index, SelfColumn(d, n - 1));
      assert c + OtherSuffix !in f1.names by {
        if c + OtherSuffix == c + SelfSuffix {
          SuffixedNamesInjective(c, OtherSuffix, c, SelfSuffix);
        }
      }
      assert f1.names == f0.names + [c + SelfSuffix];
      assert f1.columns == f0.columns + [SelfColumn(d, n - 1)];
      var f2 := SetColumn(f1, c + OtherSuffix, d.index, OtherColumn(d, n - 1));
      assert f2.names == f0.names + [c + SelfSuffix, c + OtherSuffix];
      assert f2.columns == f0.columns + [SelfColumn(d, n - 1), OtherColumn(d, n - 1)];
      LaidOutStep(d, n - 1, f0, f2);
    }
  }

  /** Flattening keeps the row labels (once a column exists) and doubles the columns. */
  lemma FlattenShape(d: DiffTable)
    requires d.Valid()
    ensures |Flatten(d).names| == 2 * |d.columns|
    ensures |d.columns| > 0 ==> Flatten(d).index == d.index
    ensures forall k :: 0 <= k < |Flatten(d).columns| ==> |Flatten(d).columns[k]| == |Flatten(d).index|
    ensures LaidOut(d, |d.columns|, Flatten(d))
  {
    FlattenPrefixLayout(d, |d.columns|);
  }

  /** `flatten_diff(diff_df)`: the loop of assignments, one logical column per pass. */
  method FlattenDiff(d: DiffTable) returns (f: Frame)
    requires d.Valid()
    ensures f == Flatten(d)
    ensures f.Valid()
    ensures |d.columns| > 0 ==> f.index == d.index
    ensures |f.names| == 2 * |d.columns|
    ensures forall k :: 0 <= k < |d.columns| ==>
      && f.names[2 * k] == d.columns[k] + SelfSuffix
      && f.names[2 * k + 1] == d.columns[k] + OtherSuffix
      && f.columns[2 * k] == SelfColumn(d, k)
      && f.columns[2 * k + 1] == OtherColumn(d, k)
  {
    f := EmptyFrame;
    var k := 0;
    while k < |d.columns|
      invariant 0 <= k <= |d.columns|
      invariant f == FlattenPrefix(d, k)
    {
      var col := d.columns[k];
      var selfCol := SelfColumn(d, k);
      var otherCol := OtherColumn(d, k);
      f := SetColumn(f, col + SelfSuffix, d.index, selfCol);
      f := SetColumn(f, col + OtherSuffix, d.index, otherCol);
      k := k + 1;
    }
    FlattenShape(d);
  }
}
