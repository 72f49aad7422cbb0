/** The cleaning stages of `src/data/cleaning_data.py`, each a pure
    transformation of a table. Every stage the source wraps in
    `try ... except: return df` returns its input unchanged on the error
    paths modelled here (an unknown strategy name, an absent column). */
module Cleaning {
  import opened Sequences
  import opened Frames

  /*********************************************************************
   * Row filters
   *********************************************************************/

  /** The per-row conditions the stages filter on. */
  datatype RowTest =
      // not equal to any earlier row (`~df.duplicated(keep="first")`)
    | FirstOccurrence
      // no missing cell (`dropna()`)
    | NoMissing
      // `(df[c] >= lo) & (df[c] <= hi)` on column index `j`
    | Within(j: int, lo: Cell, hi: Cell)
      // `df[c] > 0` on column index `j`
    | Positive(j: int)

  /** `lo <= c <= hi`, where any comparison with a missing operand is false. */
  predicate InInterval(c: Cell, lo: Cell, hi: Cell)
  {
    c.Some? && lo.Some? && hi.Some? && lo.value <= c.value && c.value <= hi.value
  }

  predicate Passes(rows: seq<Row>, k: int, test: RowTest)
    requires 0 <= k < |rows|
  {
    match test
    case FirstOccurrence => rows[k] !in rows[..k]
    case NoMissing => None !in rows[k]
    case Within(j, lo, hi) => 0 <= j < |rows[k]| && InInterval(rows[k][j], lo, hi)
    case Positive(j) => 0 <= j < |rows[k]| && rows[k][j].Some? && rows[k][j].value > 0.0
  }

  /** The boolean mask a test produces over the rows. */
  function PassMask(rows: seq<Row>, test: RowTest): (mask: seq<bool>)
    ensures |mask| == |rows|
    ensures forall k :: 0 <= k < |rows| ==> mask[k] == Passes(rows, k, test)
  {
    seq(|rows|, k requires 0 <= k < |rows| => Passes(rows, k, test))
  }

  /** The positions of the rows that pass `test`, in increasing order. */
  function Positions(rows: seq<Row>, test: RowTest): (idx: seq<int>)
    ensures StrictlyIncreasing(idx)
    ensures forall m :: 0 <= m < |idx| ==> 0 <= idx[m] < |rows|
    ensures forall k :: k in idx <==> 0 <= k < |rows| && Passes(rows, k, test)
  {
    TrueIndices(PassMask(rows, test))
  }

  /** `df[mask]`: the rows that pass `test`, in their original order, with
      the columns untouched. */
  function KeepRows(t: Table, test: RowTest): (r: Table)
    requires t.WellFormed()
    ensures r.WellFormed() && r.columns == t.columns
    ensures SelectedBy(r.rows, t.rows, Positions(t.rows, test))
    ensures |r.rows| <= |t.rows|
    ensures IsSubsequence(r.rows, t.rows)
    ensures NoMissingCells(t) ==> NoMissingCells(r)
  {
    var rows := Select(t.rows, PassMask(t.rows, test));
    SelectKeepsTruePositions(t.rows, PassMask(t.rows, test));
    SelectedLength(rows, t.rows, Positions(t.rows, test));
    SelectedMembers(rows, t.rows, Positions(t.rows, test));
    Table(t.columns, rows)
  }

  /*********************************************************************
   * remove_duplicates
   *********************************************************************/

  lemma FirstOccurrenceFacts(s: seq<Row>, r: seq<Row>)
    requires SelectedBy(r, s, Positions(s, FirstOccurrence))
    ensures NoDuplicates(r)
    ensures forall row :: row in r <==> row in s
    ensures forall a, b :: 0 <= a < b < |r| ==> FirstIndex(s, r[a]) < FirstIndex(s, r[b])
  {
    var idx := Positions(s, FirstOccurrence);
    forall a, b | 0 <= a < b < |r|
      ensures r[a] != r[b]
    {
      assert idx[a] in idx && idx[b] in idx;
      assert s[..idx[b]][idx[a]] == r[a];
    }
    forall row | row in s
      ensures row in r
    {
      var k := FirstIndex(s, row);
      assert k in idx;
      var m :| 0 <= m < |idx| && idx[m] == k;
      assert r[m] == row;
    }
    SelectedMembers(r, s, idx);
    forall a | 0 <= a < |r|
      ensures FirstIndex(s, r[a]) == idx[a]
    {
      assert idx[a] in idx;
      FirstIndexUnique(s, r[a], idx[a]);
    }
  }

  /** `df.drop_duplicates()`: the distinct rows, each at its first
      occurrence, in order of first occurrence. pandas returns a frame
      without columns unchanged, however many rows it has. */
  function RemoveDuplicates(t: Table): (r: Table)
    requires t.WellFormed()
    ensures r.WellFormed() && r.columns == t.columns
    ensures forall row :: row in r.rows <==> row in t.rows
    ensures |t.columns| == 0 ==> r == t
    ensures |t.columns| > 0 ==> NoDuplicates(r.rows)
    ensures |t.columns| > 0 ==> forall a, b :: 0 <= a < b < |r.rows| ==>
      FirstIndex(t.rows, r.rows[a]) < FirstIndex(t.rows, r.rows[b])
  {
    if |t.columns| == 0 then
      // `DataFrame.empty` holds, and `drop_duplicates` returns a copy
      t
    else
      var r := KeepRows(t, FirstOccurrence);
      FirstOccurrenceFacts(t.rows, r.rows);
      r
  }

  /*********************************************************************
   * handle_missing_values
   *********************************************************************/

  /** `df.dropna()`: exactly the rows without a missing cell, in order. */
  function DropMissing(t: Table): (r: Table)
    requires t.WellFormed()
    ensures r.WellFormed() && r.columns == t.columns
    ensures SelectedBy(r.rows, t.rows, Positions(t.rows, NoMissing))
    ensures NoMissingCells(r)
    ensures forall i :: 0 <= i < |t.rows| && None !in t.rows[i] ==> t.rows[i] in r.rows
  {
    var r := KeepRows(t, NoMissing);
    ghost var idx := Positions(t.rows, NoMissing);
    assert NoMissingCells(r) by {
      forall row | row in r.rows
        ensures None !in row
      {
        var m :| 0 <= m < |r.rows| && r.rows[m] == row;
        assert idx[m] in idx;
      }
    }
    assert forall i :: 0 <= i < |t.rows| && None !in t.rows[i] ==> t.rows[i] in r.rows by {
      forall i | 0 <= i < |t.rows| && None !in t.rows[i]
        ensures t.rows[i] in r.rows
      {
        assert i in idx;
        var m :| 0 <= m < |idx| && idx[m] == i;
        assert r.rows[m] == t.rows[i];
      }
    }
    r
  }

  function FillCell(c: Cell, v: real): Cell
  {
    if c.None? then Some(v) else c
  }

  /** `df.fillna(v)`: every missing cell becomes `v`, every other cell and
      the shape stay as they were. */
  function FillMissing(t: Table, v: real): (r: Table)
    requires t.WellFormed()
    ensures r.WellFormed() && SameShape(t, r) && KeepsPresentCells(t, r)
    ensures forall i, j :: 0 <= i < |t.rows| && 0 <= j < |t.columns| && t.rows[i][j].None? ==>
      r.rows[i][j] == Some(v)
    ensures NoMissingCells(r)
  {
    Table(t.columns, seq(|t.rows|, i requires 0 <= i < |t.rows| =>
      seq(|t.rows[i]|, j requires 0 <= j < |t.rows[i]| => FillCell(t.rows[i][j], v))))
  }

  /** `df.interpolate()`: each missing cell takes the estimate computed
      from its column; present cells and the shape are kept. */
  function Interpolate(t: Table, estimate: (seq<Cell>, int) -> Cell): (r: Table)
    requires t.WellFormed()
    ensures r.WellFormed() && SameShape(t, r) && KeepsPresentCells(t, r)
    ensures NoMissingCells(t) ==> r == t
  {
    var r := Table(t.columns, seq(|t.rows|, i requires 0 <= i < |t.rows| =>
      seq(|t.columns|, j requires 0 <= j < |t.columns| =>
        if t.rows[i][j].None? then estimate(Column(t, j), i) else t.rows[i][j])));
    assert NoMissingCells(t) ==> forall i :: 0 <= i < |t.rows| ==> r.rows[i] == t.rows[i] by {
      if NoMissingCells(t) {
        forall i | 0 <= i < |t.rows|
          ensures r.rows[i] == t.rows[i]
        {
          assert t.rows[i] in t.rows;
        }
      }
    }
    r
  }

  /** `handle_missing_values(df, strategy, fill_value)`. */
  function HandleMissingValues(t: Table, strategy: string, fillValue: Option<real>, num: Numerics): (r: Table)
    requires t.WellFormed()
    ensures r.WellFormed() && r.columns == t.columns && |r.rows| <= |t.rows|
    ensures strategy == "drop" ==>
      NoMissingCells(r) && SelectedBy(r.rows, t.rows, Positions(t.rows, NoMissing))
    ensures strategy == "drop" ==> r == DropMissing(t)
    ensures strategy == "fill" ==> SameShape(t, r) && KeepsPresentCells(t, r)
    ensures strategy == "fill" && fillValue.Some? ==> NoMissingCells(r)
    ensures strategy == "fill" && fillValue.Some? ==>
      forall i, j :: 0 <= i < |t.rows| && 0 <= j < |t.columns| && t.rows[i][j].None? ==>
        r.rows[i][j] == Some(fillValue.value)
    ensures strategy == "fill" && fillValue.Some? ==> r == FillMissing(t, fillValue.value)
    ensures strategy == "fill" && fillValue.None? ==> r == Interpolate(t, num.interpolate)
    ensures strategy != "drop" && strategy != "fill" ==> r == t
  {
    if strategy == "drop" then DropMissing(t)
    else if strategy == "fill" then
      if fillValue.None? then Interpolate(t, num.interpolate) else FillMissing(t, fillValue.value)
    else
      // ValueError("Invalid strategy ..."), caught: the input comes back
      t
  }

  /*********************************************************************
   * check_data_types
   *********************************************************************/

  /** One line of the type check's report. */
  datatype TypeReport =
    | TypeMatches(column: string)
    | TypeMismatch(column: string, actual: string, expected: string)
    | ColumnNotFound(column: string)

  /** The report for one expected `(column, dtype)` entry. */
  function ReportFor(columns: seq<string>, entry: (string, string), dtypeOf: string -> string): (rep: TypeReport)
    ensures rep.column == entry.0
    ensures rep.ColumnNotFound? <==> entry.0 !in columns
    ensures rep.TypeMatches? ==> dtypeOf(entry.0) == entry.1
    ensures rep.TypeMismatch? ==> rep.actual == dtypeOf(entry.0) && rep.actual != entry.1 && rep.expected == entry.1
  {
    var (name, want) := entry;
    if name !in columns then ColumnNotFound(name)
    else if dtypeOf(name) != want then TypeMismatch(name, dtypeOf(name), want)
    else TypeMatches(name)
  }

  /** `check_data_types(df, expected_types)`: one report per expected
      column, in order; the first absent column raises `KeyError`, which
      ends the whole loop. `dtypeOf` gives each present column's pandas
      dtype. Only the column names of the table are consulted. */
  function CheckDataTypes(columns: seq<string>, expected: seq<(string, string)>, dtypeOf: string -> string): (r: seq<TypeReport>)
    ensures |r| <= |expected|
    ensures forall k :: 0 <= k < |r| ==> r[k] == ReportFor(columns, expected[k], dtypeOf)
    ensures forall k :: 0 <= k < |r| - 1 ==> expected[k].0 in columns
    ensures |r| < |expected| ==> |r| > 0 && expected[|r| - 1].0 !in columns
    ensures (forall k :: 0 <= k < |expected| ==> expected[k].0 in columns) ==> |r| == |expected|
  {
    if |expected| == 0 then []
    else
      var head := ReportFor(columns, expected[0], dtypeOf);
      if head.ColumnNotFound? then [head]
      else
        var rest := CheckDataTypes(columns, expected[1..], dtypeOf);
        assert forall k :: 1 <= k < |expected| ==> expected[k] == expected[1..][k - 1];
        [head] + rest
  }

  /*********************************************************************
   * remove_outliers
   *********************************************************************/

  /** `[mean - 3 std, mean + 3 std]`; NaN if either statistic is. */
  function NormalBounds(mean: Cell, std: Cell): (b: (Cell, Cell))
    ensures mean.Some? && std.Some? ==>
      b.0 == Some(mean.value - 3.0 * std.value) && b.1 == Some(mean.value + 3.0 * std.value)
    ensures mean.None? || std.None? ==> b.0.None? && b.1.None?
    ensures mean.Some? && std.Some? && std.value >= 0.0 ==> InInterval(mean, b.0, b.1)
  {
    (Minus(mean, Scale(3.0, std)), Plus(mean, Scale(3.0, std)))
  }

  /** `[Q1 - 1.5 IQR, Q3 + 1.5 IQR]` with `IQR = Q3 - Q1`; NaN if either
      quartile is. */
  function SkewedBounds(q1: Cell, q3: Cell): (b: (Cell, Cell))
    ensures q1.Some? && q3.Some? ==>
      b.0 == Some(q1.value - 1.5 * (q3.value - q1.value)) &&
      b.1 == Some(q3.value + 1.5 * (q3.value - q1.value))
    ensures q1.None? || q3.None? ==> b.0.None? && b.1.None?
    ensures q1.Some? && q3.Some? && q1.value <= q3.value ==>
      b.0.value <= q1.value && q3.value <= b.1.value
  {
    var iqr := Minus(q3, q1);
    (Minus(q1, Scale(1.5, iqr)), Plus(q3, Scale(1.5, iqr)))
  }

  /** `df[(df[c] >= lo) & (df[c] <= hi)]`: exactly the rows whose value in
      column `j` lies in `[lo, hi]`, in order; a missing value or a NaN bound
      fails the comparison and drops the row. */
  function FilterWithin(t: Table, j: int, lo: Cell, hi: Cell): (r: Table)
    requires t.WellFormed() && 0 <= j < |t.columns|
    ensures r.WellFormed() && r.columns == t.columns && |r.rows| <= |t.rows|
    ensures SelectedBy(r.rows, t.rows, Positions(t.rows, Within(j, lo, hi)))
    ensures forall row :: row in r.rows ==> InInterval(row[j], lo, hi)
    ensures forall i :: 0 <= i < |t.rows| && InInterval(t.rows[i][j], lo, hi) ==> t.rows[i] in r.rows
    ensures lo.None? || hi.None? ==> r.rows == []
  {
    var r := KeepRows(t, Within(j, lo, hi));
    ghost var idx := Positions(t.rows, Within(j, lo, hi));
    assert forall row :: row in r.rows ==> InInterval(row[j], lo, hi) by {
      forall row | row in r.rows
        ensures InInterval(row[j], lo, hi)
      {
        var m :| 0 <= m < |r.rows| && r.rows[m] == row;
        assert idx[m] in idx;
      }
    }
    assert forall i :: 0 <= i < |t.rows| && InInterval(t.rows[i][j], lo, hi) ==> t.rows[i] in r.rows by {
      forall i | 0 <= i < |t.rows| && InInterval(t.rows[i][j], lo, hi)
        ensures t.rows[i] in r.rows
      {
        assert i in idx;
        var m :| 0 <= m < |idx| && idx[m] == i;
        assert r.rows[m] == t.rows[i];
      }
    }
    assert lo.None? || hi.None? ==> |idx| == 0 by {
      if |idx| > 0 { assert idx[0] in idx; }
    }
    r
  }

  /** The `"normal"` policy: keep exactly the rows whose value lies within
      three standard deviations of the mean of the input column. */
  function NormalFilter(t: Table, j: int, num: Numerics): (r: Table)
    requires t.WellFormed() && 0 <= j < |t.columns|
    ensures r.WellFormed() && r.columns == t.columns && |r.rows| <= |t.rows|
    ensures IsSubsequence(r.rows, t.rows)
    ensures NoMissingCells(t) ==> NoMissingCells(r)
    ensures var b := NormalBounds(num.mean(Column(t, j)), num.std(Column(t, j)));
      SelectedBy(r.rows, t.rows, Positions(t.rows, Within(j, b.0, b.1)))
  {
    var col := Column(t, j);
    var b := NormalBounds(num.mean(col), num.std(col));
    FilterWithin(t, j, b.0, b.1)
  }

  /** The `"skewed"` policy: keep exactly the rows whose value lies within
      1.5 interquartile ranges of the quartiles of the input column. */
  function SkewedFilter(t: Table, j: int, num: Numerics): (r: Table)
    requires t.WellFormed() && 0 <= j < |t.columns|
    ensures r.WellFormed() && r.columns == t.columns && |r.rows| <= |t.rows|
    ensures IsSubsequence(r.rows, t.rows)
    ensures NoMissingCells(t) ==> NoMissingCells(r)
    ensures var b := SkewedBounds(num.quantile(Column(t, j), 0.25), num.quantile(Column(t, j), 0.75));
      SelectedBy(r.rows, t.rows, Positions(t.rows, Within(j, b.0, b.1)))
  {
    var col := Column(t, j);
    var b := SkewedBounds(num.quantile(col, 0.25), num.quantile(col, 0.75));
    FilterWithin(t, j, b.0, b.1)
  }

  /** `np.clip` of one cell. pandas ignores a NaN threshold and orders two
      scalar thresholds before clipping; a missing cell stays missing. */
  function ClipCell(c: Cell, lower: Cell, upper: Cell): (d: Cell)
    ensures d.None? <==> c.None?
    ensures c.Some? && lower.Some? && upper.Some? ==>
      Min(lower.value, upper.value) <= d.value <= Max(lower.value, upper.value)
    ensures (c.Some? && lower.Some? && upper.Some? &&
             Min(lower.value, upper.value) <= c.value <= Max(lower.value, upper.value)) ==> d == c
    ensures c.Some? && lower.Some? && upper.None? ==> d.value == Max(c.value, lower.value)
    ensures c.Some? && lower.None? && upper.Some? ==> d.value == Min(c.value, upper.value)
    ensures lower.None? && upper.None? ==> d == c
    ensures c.Some? && lower.Some? && upper.Some? && c.value < Min(lower.value, upper.value) ==>
      d == Some(Min(lower.value, upper.value))
    ensures c.Some? && lower.Some? && upper.Some? && c.value > Max(lower.value, upper.value) ==>
      d == Some(Max(lower.value, upper.value))
  {
    match c
    case None => None
    case Some(v) =>
      if lower.Some? && upper.Some? then
        var lo := Min(lower.value, upper.value);
        var hi := Max(lower.value, upper.value);
        Some(if v < lo then lo else if v > hi then hi else v)
      else if lower.Some? then Some(if v < lower.value then lower.value else v)
      else if upper.Some? then Some(if v > upper.value then upper.value else v)
      else c
  }

  /** `df[c] = np.clip(df[c], lower, upper)`: only column `j` changes, and
      each of its cells changes as `ClipCell` says. */
  function ClipColumn(t: Table, j: int, lower: Cell, upper: Cell): (r: Table)
    requires t.WellFormed() && 0 <= j < |t.columns|
    ensures r.WellFormed() && SameShape(t, r)
    ensures forall i, k :: 0 <= i < |t.rows| && 0 <= k < |t.columns| && k != j ==>
      r.rows[i][k] == t.rows[i][k]
    ensures forall i :: 0 <= i < |t.rows| ==> (r.rows[i][j].None? <==> t.rows[i][j].None?)
    ensures forall i :: 0 <= i < |t.rows| && t.rows[i][j].Some? && lower.Some? && upper.Some? ==>
      Min(lower.value, upper.value) <= r.rows[i][j].value <= Max(lower.value, upper.value)
    ensures forall i ::
      (0 <= i < |t.rows| && t.rows[i][j].Some? && lower.Some? && upper.Some? &&
       Min(lower.value, upper.value) <= t.rows[i][j].value <= Max(lower.value, upper.value)) ==>
      r.rows[i][j] == t.rows[i][j]
    ensures forall i :: 0 <= i < |t.rows| ==> r.rows[i][j] == ClipCell(t.rows[i][j], lower, upper)
  {
    Table(t.columns, seq(|t.rows|, i requires 0 <= i < |t.rows| =>
      t.rows[i][j := ClipCell(t.rows[i][j], lower, upper)]))
  }

  /** `df[c] = np.log(df[c])` where every cell of column `j` is present. */
  function LogColumn(t: Table, j: int, log: real -> real): (r: Table)
    requires t.WellFormed() && 0 <= j < |t.columns|
    requires forall i :: 0 <= i < |t.rows| ==> t.rows[i][j].Some?
    ensures r.WellFormed() && SameShape(t, r)
    ensures forall i :: 0 <= i < |t.rows| ==>
      r.rows[i] == t.rows[i][j := Some(log(t.rows[i][j].value))]
  {
    Table(t.columns, seq(|t.rows|, i requires 0 <= i < |t.rows| =>
      t.rows[i][j := Some(log(t.rows[i][j].value))]))
  }

  /** The `"polynomial"` policy: keep exactly the rows whose value in column
      `j` is positive, in order, and replace that value by its logarithm;
      every other cell is kept. */
  function PolynomialTransform(t: Table, j: int, log: real -> real): (r: Table)
    requires t.WellFormed() && 0 <= j < |t.columns|
    ensures r.WellFormed() && r.columns == t.columns && |r.rows| <= |t.rows|
    ensures NoMissingCells(t) ==> NoMissingCells(r)
    ensures var idx := Positions(t.rows, Positive(j));
      && |r.rows| == |idx|
      && (forall m :: 0 <= m < |idx| ==> t.rows[idx[m]][j].Some? && t.rows[idx[m]][j].value > 0.0)
      && (forall m :: 0 <= m < |idx| ==>
            r.rows[m] == t.rows[idx[m]][j := Some(log(t.rows[idx[m]][j].value))])
  {
    var kept := KeepRows(t, Positive(j));
    ghost var idx := Positions(t.rows, Positive(j));
    assert forall m :: 0 <= m < |idx| ==> idx[m] in idx;
    var r := LogColumn(kept, j, log);
    assert NoMissingCells(t) ==> NoMissingCells(r) by {
      if NoMissingCells(t) {
        forall row | row in r.rows
          ensures None !in row
        {
          var m :| 0 <= m < |r.rows| && r.rows[m] == row;
          assert kept.rows[m] in kept.rows;
        }
      }
    }
    r
  }

  /** The `"uniform"` policy: clip column `j` to the 5th and 95th
      percentiles of the input column; nothing else changes. */
  function UniformClip(t: Table, j: int, num: Numerics): (r: Table)
    requires t.WellFormed() && 0 <= j < |t.columns|
    ensures r.WellFormed() && SameShape(t, r)
    ensures NoMissingCells(t) ==> NoMissingCells(r)
    ensures forall i, k :: 0 <= i < |t.rows| && 0 <= k < |t.columns| && k != j ==>
      r.rows[i][k] == t.rows[i][k]
    ensures var p5 := num.quantile(Column(t, j), 0.05);
            var p95 := num.quantile(Column(t, j), 0.95);
      forall i :: 0 <= i < |t.rows| && t.rows[i][j].Some? && p5.Some? && p95.Some? && p5.value <= p95.value ==>
        && r.rows[i][j].Some?
        && p5.value <= r.rows[i][j].value <= p95.value
        && (p5.value <= t.rows[i][j].value <= p95.value ==> r.rows[i][j] == t.rows[i][j])
        && (t.rows[i][j].value < p5.value ==> r.rows[i][j] == p5)
        && (t.rows[i][j].value > p95.value ==> r.rows[i][j] == p95)
    ensures var p5 := num.quantile(Column(t, j), 0.05);
            var p95 := num.quantile(Column(t, j), 0.95);
      forall i :: 0 <= i < |t.rows| ==> r.rows[i][j] == ClipCell(t.rows[i][j], p5, p95)
  {
    var col := Column(t, j);
    var r := ClipColumn(t, j, num.quantile(col, 0.05), num.quantile(col, 0.95));
    assert NoMissingCells(t) ==> NoMissingCells(r) by {
      if NoMissingCells(t) {
        forall row | row in r.rows
          ensures None !in row
        {
          var i :| 0 <= i < |r.rows| && r.rows[i] == row;
          assert t.rows[i] in t.rows;
        }
      }
    }
    r
  }

  /** Every remove_outliers policy name; any other raises `ValueError`. */
  predicate KnownDistribution(kind: string)
  {
    kind == "normal" || kind == "skewed" || kind == "uniform" || kind == "polynomial"
  }

  /** `remove_outliers(df, column, distribution_type)`. The statistics are
      taken from the input column. */
  function RemoveOutliers(t: Table, column: string, kind: string, num: Numerics): (r: Table)
    requires t.WellFormed()
    ensures r.WellFormed() && r.columns == t.columns && |r.rows| <= |t.rows|
    ensures column !in t.columns || !KnownDistribution(kind) ==> r == t
    ensures kind == "uniform" ==> SameShape(t, r)
    ensures kind == "normal" || kind == "skewed" ==> IsSubsequence(r.rows, t.rows)
    ensures NoMissingCells(t) ==> NoMissingCells(r)
    ensures column in t.columns ==>
      var j := FirstIndex(t.columns, column);
      && (kind == "normal" ==> r == NormalFilter(t, j, num))
      && (kind == "skewed" ==> r == SkewedFilter(t, j, num))
      && (kind == "uniform" ==> r == UniformClip(t, j, num))
      && (kind == "polynomial" ==> r == PolynomialTransform(t, j, num.log))
  {
    match IndexOf(t.columns, column)
    case None =>
      // KeyError from df[column], caught
      SubsequenceReflexive(t.rows);
      t
    case Some(j) =>
      FirstIndexUnique(t.columns, column, j);
      if kind == "normal" then NormalFilter(t, j, num)
      else if kind == "skewed" then SkewedFilter(t, j, num)
      else if kind == "uniform" then UniformClip(t, j, num)
      else if kind == "polynomial" then PolynomialTransform(t, j, num.log)
      else
        // ValueError("Invalid strategy ..."), caught
        SubsequenceReflexive(t.rows);
        t
  }

  /*********************************************************************
   * remove_empty_columns
   *********************************************************************/

  /** Column `k` holds at least one present cell. */
  predicate ColumnHasValue(t: Table, k: int)
    requires t.WellFormed() && 0 <= k < |t.columns|
  {
    exists i :: 0 <= i < |t.rows| && t.rows[i][k].Some?
  }

  /** The mask `dropna(axis=1, how="all")` keeps columns by. */
  function NonEmptyMask(t: Table): (mask: seq<bool>)
    requires t.WellFormed()
    ensures |mask| == |t.columns|
    ensures forall k :: 0 <= k < |t.columns| ==> mask[k] == ColumnHasValue(t, k)
  {
    seq(|t.columns|, k requires 0 <= k < |t.columns| => ColumnHasValue(t, k))
  }

  /** The positions of the columns that are not entirely missing. */
  function KeptColumns(t: Table): (idx: seq<int>)
    requires t.WellFormed()
    ensures StrictlyIncreasing(idx)
    ensures forall m :: 0 <= m < |idx| ==> 0 <= idx[m] < |t.columns|
    ensures forall k :: k in idx <==> 0 <= k < |t.columns| && ColumnHasValue(t, k)
  {
    TrueIndices(NonEmptyMask(t))
  }

  /** `df.dropna(axis=1, how="all")`: drops exactly the columns in which
      every cell is missing, keeps the others in order and keeps every row. */
  function RemoveEmptyColumns(t: Table): (r: Table)
    requires t.WellFormed()
    ensures r.WellFormed() && |r.rows| == |t.rows|
    ensures SelectedBy(r.columns, t.columns, KeptColumns(t))
    ensures forall i :: 0 <= i < |t.rows| ==> SelectedBy(r.rows[i], t.rows[i], KeptColumns(t))
    ensures IsSubsequence(r.columns, t.columns)
    ensures NoMissingCells(t) ==> NoMissingCells(r)
    ensures forall k :: 0 <= k < |r.columns| ==> ColumnHasValue(r, k)
  {
    var mask := NonEmptyMask(t);
    SelectKeepsTruePositions(t.columns, mask);
    assert forall i :: 0 <= i < |t.rows| ==> SelectedBy(Select(t.rows[i], mask), t.rows[i], KeptColumns(t)) by {
      forall i | 0 <= i < |t.rows|
        ensures SelectedBy(Select(t.rows[i], mask), t.rows[i], KeptColumns(t))
      {
        SelectKeepsTruePositions(t.rows[i], mask);
      }
    }
    var r := Table(Select(t.columns, mask), seq(|t.rows|, i requires 0 <= i < |t.rows| => Select(t.rows[i], mask)));
    assert NoMissingCells(t) ==> NoMissingCells(r) by {
      if NoMissingCells(t) {
        forall row | row in r.rows
          ensures None !in row
        {
          var i :| 0 <= i < |r.rows| && r.rows[i] == row;
          assert t.rows[i] in t.rows;
          SelectedMembers(r.rows[i], t.rows[i], KeptColumns(t));
        }
      }
    }
    assert forall k :: 0 <= k < |r.columns| ==> ColumnHasValue(r, k) by {
      var kept := KeptColumns(t);
      forall k | 0 <= k < |r.columns|
        ensures ColumnHasValue(r, k)
      {
        assert kept[k] in kept;
        var i :| 0 <= i < |t.rows| && t.rows[i][kept[k]].Some?;
        assert r.rows[i][k] == t.rows[i][kept[k]];
      }
    }
    r
  }
}
