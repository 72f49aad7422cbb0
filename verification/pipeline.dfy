/** `clean_data`: the stages of the cleaning module run in a fixed order,
    each on the output of the one before. */
module Pipeline {
  import opened Sequences
  import opened Frames
  import opened Cleaning
  import CleaningProperties

  /** What `clean_data` is handed: a DataFrame or some other object. */
  datatype Input = Frame(table: Table) | NotAFrame(description: string)

  /** One entry of the distribution dictionary: a column and its policy
      name, listed in the order the dictionary yields its keys. */
  datatype Policy = Policy(column: string, distribution: string)

  /** The loop over the distribution dictionary: each policy runs on the
      table the previous one produced. */
  function ApplyPolicies(t: Table, policies: seq<Policy>, num: Numerics): (r: Table)
    requires t.WellFormed()
    ensures r.WellFormed() && r.columns == t.columns && |r.rows| <= |t.rows|
    ensures NoMissingCells(t) ==> NoMissingCells(r)
    decreases |policies|
  {
    if |policies| == 0 then t
    else
      var next := RemoveOutliers(t, policies[0].column, policies[0].distribution, num);
      ApplyPolicies(next, policies[1..], num)
  }

  /** The stages `clean_data` runs on a DataFrame, in order: remove
      duplicates, handle missing values, handle outliers per policy (when a
      distribution dictionary is given), remove empty columns. */
  function CleanFrame(t: Table, missingStrategy: string, fillValue: Option<real>,
                      distributions: Option<seq<Policy>>, num: Numerics): (r: Table)
    requires t.WellFormed()
    ensures r.WellFormed() && |r.rows| <= |t.rows|
    ensures IsSubsequence(r.columns, t.columns)
    ensures missingStrategy == "drop" || (missingStrategy == "fill" && fillValue.Some?) ==>
      NoMissingCells(r)
    ensures forall k :: 0 <= k < |r.columns| ==> ColumnHasValue(r, k)
  {
    var deduplicated := RemoveDuplicates(t);
    var handled := HandleMissingValues(deduplicated, missingStrategy, fillValue, num);
    var filtered := if distributions.Some? then ApplyPolicies(handled, distributions.value, num) else handled;
    RemoveEmptyColumns(filtered)
  }

  /** `clean_data(df, missing_strategy, fill_value, expected_types,
      distribution_dict)`. The second component is the report of the type
      check, which runs between missing-value and outlier handling and only
      reports; it is empty when no expected types are given. */
  function CleanData(input: Input, missingStrategy: string, fillValue: Option<real>,
                     expectedTypes: Option<seq<(string, string)>>, dtypeOf: string -> string,
                     distributions: Option<seq<Policy>>, num: Numerics): (r: (Input, seq<TypeReport>))
    requires input.Frame? ==> input.table.WellFormed()
    ensures input.NotAFrame? ==> r == (input, [])
    ensures input.Frame? ==>
      && r.0.Frame?
      && r.0.table.WellFormed()
      && |r.0.table.rows| <= |input.table.rows|
      && IsSubsequence(r.0.table.columns, input.table.columns)
      && r.0 == Frame(CleanFrame(input.table, missingStrategy, fillValue, distributions, num))
    ensures input.Frame? && (missingStrategy == "drop" || (missingStrategy == "fill" && fillValue.Some?)) ==>
      NoMissingCells(r.0.table)
    ensures input.Frame? ==>
      forall k :: 0 <= k < |r.0.table.columns| ==> ColumnHasValue(r.0.table, k)
    ensures input.Frame? && expectedTypes.Some? ==>
      r.1 == CheckDataTypes(input.table.columns, expectedTypes.value, dtypeOf)
    ensures expectedTypes.None? ==> r.1 == []
  {
    match input
    case NotAFrame(_) =>
      // TypeError("Input is not Pandas DataFrame"), caught
      (input, [])
    case Frame(t) =>
      var handled := HandleMissingValues(RemoveDuplicates(t), missingStrategy, fillValue, num);
      var report := if expectedTypes.Some? then CheckDataTypes(handled.columns, expectedTypes.value, dtypeOf) else [];
      (Frame(CleanFrame(t, missingStrategy, fillValue, distributions, num)), report)
  }

  /** Running a list of policies equals running its first part and then its
      second part on the result. */
  lemma {:induction false} ApplyPoliciesSequential(t: Table, first: seq<Policy>, second: seq<Policy>, num: Numerics)
    requires t.WellFormed()
    ensures ApplyPolicies(t, first + second, num) == ApplyPolicies(ApplyPolicies(t, first, num), second, num)
    decreases |first|
  {
    if |first| == 0 {
      assert first + second == second;
    } else {
      var next := RemoveOutliers(t, first[0].column, first[0].distribution, num);
      assert (first + second)[1..] == first[1..] + second;
      ApplyPoliciesSequential(next, first[1..], second, num);
    }
  }

  /** Policies that name an unknown distribution or an absent column leave
      the table unchanged, however many there are. */
  lemma {:induction false} ApplyPoliciesNoOp(t: Table, policies: seq<Policy>, num: Numerics)
    requires t.WellFormed()
    requires forall k :: 0 <= k < |policies| ==>
      policies[k].column !in t.columns || !KnownDistribution(policies[k].distribution)
    ensures ApplyPolicies(t, policies, num) == t
    decreases |policies|
  {
    if |policies| > 0 {
      ApplyPoliciesNoOp(t, policies[1..], num);
    }
  }

  /** The type check only reports: the cleaned table is the same whether or
      not expected types are given. */
  lemma CleanDataTypeCheckReadOnly(input: Input, missingStrategy: string, fillValue: Option<real>,
                                   expected: seq<(string, string)>, dtypeOf: string -> string,
                                   distributions: Option<seq<Policy>>, num: Numerics)
    requires input.Frame? ==> input.table.WellFormed()
    ensures CleanData(input, missingStrategy, fillValue, Some(expected), dtypeOf, distributions, num).0
         == CleanData(input, missingStrategy, fillValue, None, dtypeOf, distributions, num).0
  {
  }

  /** Empty columns are removed last, after the missing-value stage: under
      `"drop"` (or `"fill"` with a value) a cleaned table that still has a
      row has no empty column, so it keeps every input column. */
  lemma {:induction false} CleanFrameKeepsColumnsWhenComplete(t: Table, missingStrategy: string, fillValue: Option<real>,
                                                              distributions: Option<seq<Policy>>, num: Numerics)
    requires t.WellFormed()
    requires missingStrategy == "drop" || (missingStrategy == "fill" && fillValue.Some?)
    requires |CleanFrame(t, missingStrategy, fillValue, distributions, num).rows| > 0
    ensures CleanFrame(t, missingStrategy, fillValue, distributions, num).columns == t.columns
  {
    var handled := HandleMissingValues(RemoveDuplicates(t), missingStrategy, fillValue, num);
    var filtered := if distributions.Some? then ApplyPolicies(handled, distributions.value, num) else handled;
    CleaningProperties.RemoveEmptyColumnsOnCompleteTable(filtered);
  }

  lemma ExampleRowsDistinct()
    ensures RemoveDuplicates(Table(["ph"], [[None], [Some(0.0)]])) == Table(["ph"], [[None], [Some(0.0)]])
  {
  }

  lemma ExampleFilled()
    ensures FillMissing(Table(["ph"], [[None], [Some(0.0)]]), 0.0) == Table(["ph"], [[Some(0.0)], [Some(0.0)]])
  {
    var filled := FillMissing(Table(["ph"], [[None], [Some(0.0)]]), 0.0);
    assert filled.rows[0] == [Some(0.0)] && filled.rows[1] == [Some(0.0)];
  }

  /** Duplicates are removed before missing values are filled, so the
      cleaned table can hold equal rows: two distinct rows become equal once
      the missing cell is filled. */
  lemma CleanFrameCanLeaveDuplicates(num: Numerics)
    ensures var t := Table(["ph"], [[None], [Some(0.0)]]);
      && NoDuplicates(t.rows)
      && CleanFrame(t, "fill", Some(0.0), None, num).rows == [[Some(0.0)], [Some(0.0)]]
  {
    var t := Table(["ph"], [[None], [Some(0.0)]]);
    var filled := Table(["ph"], [[Some(0.0)], [Some(0.0)]]);
    ExampleRowsDistinct();
    ExampleFilled();
    var handled := HandleMissingValues(RemoveDuplicates(t), "fill", Some(0.0), num);
    assert handled == filled;
    assert filled.rows[0] in filled.rows;
    CleaningProperties.RemoveEmptyColumnsOnCompleteTable(filled);
    assert CleanFrame(t, "fill", Some(0.0), None, num) == RemoveEmptyColumns(handled);
  }
}
