/**
  `col.fillna(col.mean())`: the mean skips missing cells, is itself missing
  when no cell is present, and filling with a missing value changes nothing.
 */
module Imputation {
  import opened Wrappers
  import opened Frames

  /** Number of numeric cells (pandas' `count`). */
  function Count(col: seq<Cell>): nat {
    if col == [] then 0 else (if col[0].Num? then 1 else 0) + Count(col[1..])
  }

  /** Sum of the numeric cells. */
  function Sum(col: seq<Cell>): real {
    if col == [] then 0.0 else (if col[0].Num? then col[0].x else 0.0) + Sum(col[1..])
  }

  /** `col.mean()` with missing cells skipped; NaN when none is present. */
  function Mean(col: seq<Cell>): (r: Option<real>)
    ensures r.Some? <==> SomePresent(col)
  {
    CountPositive(col);
    if Count(col) == 0 then None else Some(Sum(col) / Count(col) as real)
  }

  /** `col.fillna(v)`: missing cells become `v`; filling with NaN is a no-op. */
  function FillNa(col: seq<Cell>, v: Option<real>): (r: seq<Cell>)
    ensures |r| == |col|
  {
    seq(|col|, i requires 0 <= i < |col| => if col[i].Missing? && v.Some? then Num(v.value) else col[i])
  }

  /** `col.fillna(col.mean())`: the present cells are kept. */
  function ImputeMean(col: seq<Cell>): (r: seq<Cell>)
    ensures |r| == |col|
    ensures forall i :: 0 <= i < |col| && !col[i].Missing? ==> r[i] == col[i]
  {
    FillNa(col, Mean(col))
  }

  predicate SomePresent(col: seq<Cell>) {
    exists i :: 0 <= i < |col| && col[i].Num?
  }

  /** The mean exists exactly when some cell holds a number. */
  lemma {:induction false} CountPositive(col: seq<Cell>)
    ensures Count(col) > 0 <==> SomePresent(col)
  {
    if col != [] {
      CountPositive(col[1..]);
      if SomePresent(col[1..]) {
        var i :| 0 <= i < |col[1..]| && col[1..][i].Num?;
        assert col[i + 1].Num?;
      }
      if SomePresent(col) && !col[0].Num? {
        var i :| 0 <= i < |col| && col[i].Num?;
        assert col[1..][i - 1].Num?;
      }
    }
  }

  lemma {:induction false} SumBounds(col: seq<Cell>, lo: real, hi: real)
    requires forall i :: 0 <= i < |col| && col[i].Num? ==> lo <= col[i].x <= hi
    ensures Count(col) as real * lo <= Sum(col) <= Count(col) as real * hi
  {
    if col != [] {
      SumBounds(col[1..], lo, hi);
    }
  }

  lemma QuotientBounds(s: real, c: real, lo: real, hi: real)
    requires c > 0.0 && c * lo <= s <= c * hi
    ensures lo <= s / c <= hi
  {
    assert s / c * c == s;
  }

  /** The mean lies between any bounds of the present values. */
  lemma MeanBounds(col: seq<Cell>, lo: real, hi: real)
    requires forall i :: 0 <= i < |col| && col[i].Num? ==> lo <= col[i].x <= hi
    requires Mean(col).Some?
    ensures lo <= Mean(col).value <= hi
  {
    SumBounds(col, lo, hi);
    assert Count(col) > 0;
    var c := Count(col) as real;
    assert Mean(col).value == Sum(col) / c;
    QuotientBounds(Sum(col), c, lo, hi);
  }

  /**
    Imputation leaves present cells alone, replaces every missing cell by
    the mean of the present ones, so that nothing is missing when a value
    was present; when none was, the column comes back unchanged.
   */
  lemma ImputeMeanSpec(col: seq<Cell>)
    ensures |ImputeMean(col)| == |col|
    ensures forall i :: 0 <= i < |col| && !col[i].Missing? ==> ImputeMean(col)[i] == col[i]
    ensures SomePresent(col) <==> Mean(col).Some?
    ensures SomePresent(col) ==> forall i :: 0 <= i < |col| && col[i].Missing? ==>
      ImputeMean(col)[i] == Num(Mean(col).value)
    ensures SomePresent(col) ==> forall i :: 0 <= i < |col| ==> !ImputeMean(col)[i].Missing?
    ensures !SomePresent(col) ==> ImputeMean(col) == col
  {
    CountPositive(col);
  }

  /** Imputing twice gives the same column as imputing once. */
  lemma ImputeMeanIdempotent(col: seq<Cell>)
    ensures ImputeMean(ImputeMean(col)) == ImputeMean(col)
  {
    ImputeMeanSpec(col);
    var once := ImputeMean(col);
    if SomePresent(col) {
      assert forall i :: 0 <= i < |once| ==> !once[i].Missing?;
    }
  }
}
