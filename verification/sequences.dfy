/** Selecting elements of a sequence by a boolean mask, the mechanism behind
    pandas' boolean indexing (`df[mask]`), `drop_duplicates` and `dropna`.
    A selection is described independently of how it is computed: the result
    lists the source at a strictly increasing run of positions. */
module Sequences {

  /** `idx` lists positions in strictly increasing order. */
  ghost predicate StrictlyIncreasing(idx: seq<int>)
  {
    forall a, b :: 0 <= a < b < |idx| ==> idx[a] < idx[b]
  }

  /** `r` is `s` read at the positions `idx`, in that order. */
  ghost predicate SelectedBy<T>(r: seq<T>, s: seq<T>, idx: seq<int>)
  {
    && |r| == |idx|
    && StrictlyIncreasing(idx)
    && (forall m :: 0 <= m < |idx| ==> 0 <= idx[m] < |s| && r[m] == s[idx[m]])
  }

  /** `r` is obtained from `s` by deleting elements, without reordering. */
  ghost predicate IsSubsequence<T>(r: seq<T>, s: seq<T>)
  {
    exists idx :: SelectedBy(r, s, idx)
  }

  predicate NoDuplicates<T(==)>(s: seq<T>)
  {
    forall a, b :: 0 <= a < b < |s| ==> s[a] != s[b]
  }

  /** The positions at which `mask` is true, in increasing order. */
  function TrueIndices(mask: seq<bool>): (idx: seq<int>)
    ensures StrictlyIncreasing(idx)
    ensures forall m :: 0 <= m < |idx| ==> 0 <= idx[m] < |mask|
    ensures forall k :: k in idx <==> 0 <= k < |mask| && mask[k]
  {
    if |mask| == 0 then []
    else
      var n := |mask| - 1;
      var prev := TrueIndices(mask[..n]);
      if mask[n] then prev + [n] else prev
  }

  /** The elements of `s` whose mask entry is true (boolean indexing). */
  function Select<T>(s: seq<T>, mask: seq<bool>): seq<T>
    requires |mask| == |s|
  {
    if |s| == 0 then []
    else
      var n := |s| - 1;
      var prev := Select(s[..n], mask[..n]);
      if mask[n] then prev + [s[n]] else prev
  }

  /** Boolean indexing keeps exactly the elements at the true positions of
      the mask, in order. */
  lemma {:induction false} SelectKeepsTruePositions<T>(s: seq<T>, mask: seq<bool>)
    requires |mask| == |s|
    ensures SelectedBy(Select(s, mask), s, TrueIndices(mask))
    decreases |s|
  {
    if |s| > 0 {
      var n := |s| - 1;
      SelectKeepsTruePositions(s[..n], mask[..n]);
    }
  }

  /** The position of the first occurrence of `x` in `s`. */
  function FirstIndex<T(==)>(s: seq<T>, x: T): (k: int)
    requires x in s
    ensures 0 <= k < |s| && s[k] == x && x !in s[..k]
  {
    if s[0] == x then 0
    else
      var k := 1 + FirstIndex(s[1..], x);
      assert s[..k] == [s[0]] + s[1..][..k - 1];
      k
  }

  /** A position holding `x` with no earlier `x` is the first occurrence. */
  lemma FirstIndexUnique<T>(s: seq<T>, x: T, k: int)
    requires 0 <= k < |s| && s[k] == x && x !in s[..k]
    ensures FirstIndex(s, x) == k
  {
  }

  lemma {:induction false} IncreasingFloor(idx: seq<int>, m: int)
    requires StrictlyIncreasing(idx) && 0 <= m < |idx| && idx[0] >= 0
    ensures idx[m] >= m
    decreases m
  {
    if m > 0 {
      IncreasingFloor(idx, m - 1);
    }
  }

  /** A selection never has more elements than its source. */
  lemma {:induction false} SelectedLength<T>(r: seq<T>, s: seq<T>, idx: seq<int>)
    requires SelectedBy(r, s, idx)
    ensures |r| <= |s|
  {
    if |idx| > 0 {
      IncreasingFloor(idx, |idx| - 1);
    }
  }

  /** Selecting with a mask that is true everywhere returns the source. */
  lemma {:induction false} SelectAllTrue<T>(s: seq<T>, mask: seq<bool>)
    requires |mask| == |s|
    requires forall k :: 0 <= k < |mask| ==> mask[k]
    ensures Select(s, mask) == s
    decreases |s|
  {
    if |s| > 0 {
      var n := |s| - 1;
      var prefix, prefixMask := s[..n], mask[..n];
      assert forall k :: 0 <= k < n ==> prefixMask[k] == mask[k];
      SelectAllTrue(prefix, prefixMask);
      assert Select(s, mask) == Select(prefix, prefixMask) + [s[n]];
      assert s == prefix + [s[n]];
    }
  }

  /** Every sequence is a subsequence of itself. */
  lemma SubsequenceReflexive<T>(s: seq<T>)
    ensures IsSubsequence(s, s)
  {
    var idx := seq(|s|, m => m);
    assert SelectedBy(s, s, idx);
  }

  /** Every element of a selection comes from its source. */
  lemma SelectedMembers<T>(r: seq<T>, s: seq<T>, idx: seq<int>)
    requires SelectedBy(r, s, idx)
    ensures forall x :: x in r ==> x in s
  {
    forall x | x in r
      ensures x in s
    {
      var m :| 0 <= m < |r| && r[m] == x;
      assert s[idx[m]] == x;
    }
  }
}
