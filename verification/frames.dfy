/** The table the cleaning stages work on: named columns and rows of
    numeric cells, with `None` as the missing marker (pandas' NaN). */
module Frames {
  import opened Sequences

  datatype Option<+T> = None | Some(value: T)

  /** One cell; `None` is a missing value. */
  type Cell = Option<real>

  type Row = seq<Cell>

  datatype Table = Table(columns: seq<string>, rows: seq<Row>)
  {
    /** Every row has one cell per column, as in every DataFrame. */
    ghost predicate WellFormed()
    {
      forall i :: 0 <= i < |rows| ==> |rows[i]| == |columns|
    }
  }

  /** No cell of the table is missing. */
  ghost predicate NoMissingCells(t: Table)
  {
    forall row :: row in t.rows ==> None !in row
  }

  /** Same column names, same number of rows, same row widths. */
  ghost predicate SameShape(a: Table, b: Table)
  {
    && a.columns == b.columns
    && |a.rows| == |b.rows|
    && (forall i :: 0 <= i < |a.rows| ==> |a.rows[i]| == |b.rows[i]|)
  }

  /** Every present cell of `t` has the same value in `r` (same shape assumed). */
  ghost predicate KeepsPresentCells(t: Table, r: Table)
    requires SameShape(t, r)
  {
    forall i, j :: 0 <= i < |t.rows| && 0 <= j < |t.rows[i]| && t.rows[i][j].Some? ==>
      r.rows[i][j] == t.rows[i][j]
  }

  /** The cells of column `j`, top to bottom (`df[column]`). */
  function Column(t: Table, j: int): (col: seq<Cell>)
    requires t.WellFormed() && 0 <= j < |t.columns|
    ensures |col| == |t.rows|
    ensures forall i :: 0 <= i < |t.rows| ==> col[i] == t.rows[i][j]
  {
    seq(|t.rows|, i requires 0 <= i < |t.rows| => t.rows[i][j])
  }

  /** Column lookup by name: the first column so named, or `None` where
      pandas raises `KeyError`. */
  function IndexOf(names: seq<string>, name: string): (r: Option<int>)
    ensures r.None? <==> name !in names
    ensures r.Some? ==> 0 <= r.value < |names| && names[r.value] == name && name !in names[..r.value]
  {
    if name in names then Some(FirstIndex(names, name)) else None
  }

  /* Arithmetic on cells: a missing operand makes the result missing, as
     NaN does in floating point. */

  function Plus(a: Cell, b: Cell): Cell
  {
    if a.Some? && b.Some? then Some(a.value + b.value) else None
  }

  function Minus(a: Cell, b: Cell): Cell
  {
    if a.Some? && b.Some? then Some(a.value - b.value) else None
  }

  function Scale(k: real, a: Cell): Cell
  {
    if a.Some? then Some(k * a.value) else None
  }

  function Min(a: real, b: real): real { if a <= b then a else b }

  function Max(a: real, b: real): real { if a <= b then b else a }

  /** The floating-point numerics the cleaning stages delegate to pandas and
      numpy, left uninterpreted. A statistic is `None` where pandas returns
      NaN (an empty or all-missing column, or the standard deviation of a
      single value). */
  datatype Numerics = Numerics(
    mean: seq<Cell> -> Cell,
    std: seq<Cell> -> Cell,
    quantile: (seq<Cell>, real) -> Cell,
    log: real -> real,
    // the estimate `DataFrame.interpolate` gives for the missing cell at a
    // row of a column; `None` where it leaves the cell missing
    interpolate: (seq<Cell>, int) -> Cell)
}
