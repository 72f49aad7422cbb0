/** Properties relating several applications of the cleaning stages:
    each filter and each clip is idempotent, and filling and dropping
    missing values undo nothing of each other. */
module CleaningProperties {
  import opened Sequences
  import opened Frames
  import opened Cleaning

  /** A filter every row passes returns its input. */
  lemma KeepRowsAllPass(t: Table, test: RowTest)
    requires t.WellFormed()
    requires forall k :: 0 <= k < |t.rows| ==> Passes(t.rows, k, test)
    ensures KeepRows(t, test) == t
  {
    SelectAllTrue(t.rows, PassMask(t.rows, test));
  }

  /** Removing duplicates a second time removes nothing (a frame without
      columns is returned as it is both times). */
  lemma {:induction false} RemoveDuplicatesIdempotent(t: Table)
    requires t.WellFormed()
    ensures RemoveDuplicates(RemoveDuplicates(t)) == RemoveDuplicates(t)
  {
    var r := RemoveDuplicates(t);
    if |t.columns| > 0 {
      forall k | 0 <= k < |r.rows|
        ensures Passes(r.rows, k, FirstOccurrence)
      {
        assert forall a :: 0 <= a < k ==> r.rows[..k][a] == r.rows[a];
      }
      KeepRowsAllPass(r, FirstOccurrence);
    }
  }

  /** Dropping rows with missing cells a second time drops nothing. */
  lemma {:induction false} DropMissingIdempotent(t: Table)
    requires t.WellFormed()
    ensures DropMissing(DropMissing(t)) == DropMissing(t)
  {
    var r := DropMissing(t);
    forall k | 0 <= k < |r.rows|
      ensures Passes(r.rows, k, NoMissing)
    {
      assert r.rows[k] in r.rows;
    }
    KeepRowsAllPass(r, NoMissing);
  }

  /** Filtering to an interval a second time, with the same bounds, drops
      nothing. */
  lemma {:induction false} FilterWithinIdempotent(t: Table, j: int, lo: Cell, hi: Cell)
    requires t.WellFormed() && 0 <= j < |t.columns|
    ensures FilterWithin(FilterWithin(t, j, lo, hi), j, lo, hi) == FilterWithin(t, j, lo, hi)
  {
    var r := FilterWithin(t, j, lo, hi);
    forall k | 0 <= k < |r.rows|
      ensures Passes(r.rows, k, Within(j, lo, hi))
    {
      assert r.rows[k] in r.rows;
    }
    KeepRowsAllPass(r, Within(j, lo, hi));
  }

  /** Filling a table that has no missing cell changes nothing. */
  lemma FillCompleteTable(t: Table, v: real)
    requires t.WellFormed() && NoMissingCells(t)
    ensures FillMissing(t, v) == t
  {
    var r := FillMissing(t, v);
    forall i | 0 <= i < |t.rows|
      ensures r.rows[i] == t.rows[i]
    {
      assert t.rows[i] in t.rows;
    }
  }

  /** After dropping incomplete rows, filling has nothing left to fill. */
  lemma FillAfterDrop(t: Table, v: real)
    requires t.WellFormed()
    ensures FillMissing(DropMissing(t), v) == DropMissing(t)
  {
    FillCompleteTable(DropMissing(t), v);
  }

  /** After filling with a value, dropping incomplete rows drops nothing. */
  lemma {:induction false} DropAfterFill(t: Table, v: real)
    requires t.WellFormed()
    ensures DropMissing(FillMissing(t, v)) == FillMissing(t, v)
  {
    var r := FillMissing(t, v);
    forall k | 0 <= k < |r.rows|
      ensures Passes(r.rows, k, NoMissing)
    {
      assert r.rows[k] in r.rows;
    }
    KeepRowsAllPass(r, NoMissing);
  }

  /** Clipping a clipped cell to the same bounds leaves it as it is. */
  lemma ClipCellIdempotent(c: Cell, lower: Cell, upper: Cell)
    ensures ClipCell(ClipCell(c, lower, upper), lower, upper) == ClipCell(c, lower, upper)
  {
  }

  /** With fixed bounds, clipping twice equals clipping once. */
  lemma {:induction false} ClipColumnIdempotent(t: Table, j: int, lower: Cell, upper: Cell)
    requires t.WellFormed() && 0 <= j < |t.columns|
    ensures ClipColumn(ClipColumn(t, j, lower, upper), j, lower, upper) == ClipColumn(t, j, lower, upper)
  {
    var once := ClipColumn(t, j, lower, upper);
    var twice := ClipColumn(once, j, lower, upper);
    forall i | 0 <= i < |t.rows|
      ensures twice.rows[i] == once.rows[i]
    {
      ClipCellIdempotent(t.rows[i][j], lower, upper);
      assert twice.rows[i][j] == once.rows[i][j];
    }
  }

  /** Every column that survives `RemoveEmptyColumns` holds a present cell,
      so removing empty columns again removes nothing. */
  lemma {:induction false} RemoveEmptyColumnsIdempotent(t: Table)
    requires t.WellFormed()
    ensures RemoveEmptyColumns(RemoveEmptyColumns(t)) == RemoveEmptyColumns(t)
  {
    var r := RemoveEmptyColumns(t);
    var kept := KeptColumns(t);
    var mask := NonEmptyMask(r);
    forall m | 0 <= m < |r.columns|
      ensures mask[m]
    {
      assert kept[m] in kept;
      var i :| 0 <= i < |t.rows| && t.rows[i][kept[m]].Some?;
      assert r.rows[i][m] == t.rows[i][kept[m]];
    }
    SelectAllTrue(r.columns, mask);
    forall i | 0 <= i < |r.rows|
      ensures Select(r.rows[i], mask) == r.rows[i]
    {
      SelectAllTrue(r.rows[i], mask);
    }
  }

  /** On a table with at least one row and no missing cell, no column is
      empty and nothing is removed. */
  lemma {:induction false} RemoveEmptyColumnsOnCompleteTable(t: Table)
    requires t.WellFormed() && NoMissingCells(t) && |t.rows| > 0
    ensures RemoveEmptyColumns(t) == t
  {
    var mask := NonEmptyMask(t);
    forall k | 0 <= k < |t.columns|
      ensures mask[k]
    {
      assert t.rows[0] in t.rows;
      assert t.rows[0][k] in t.rows[0];
    }
    SelectAllTrue(t.columns, mask);
    forall i | 0 <= i < |t.rows|
      ensures Select(t.rows[i], mask) == t.rows[i]
    {
      SelectAllTrue(t.rows[i], mask);
    }
  }
}
