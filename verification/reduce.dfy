/**
 * Missing-aware reductions over numeric cells: pandas' `dropna`, the
 * skipping `sum` (all-missing gives 0) and the skipping `mean`
 * (all-missing gives NaN, here `None`).
 */
module Reduce {
  import opened Wrappers

  /** `Series.dropna()`: the present values, in order. */
  function DropMissing(xs: seq<Option<real>>): (r: seq<real>)
    ensures |r| <= |xs|
    ensures forall i :: 0 <= i < |r| ==> Some(r[i]) in xs
    ensures forall i :: 0 <= i < |xs| && xs[i].Some? ==> xs[i].value in r
  {
    if xs == [] then [] else (if xs[0].Some? then [xs[0].value] else []) + DropMissing(xs[1..])
  }

  function Total(xs: seq<real>): real {
    if xs == [] then 0.0 else xs[0] + Total(xs[1..])
  }

  /** The arithmetic mean; undefined for no values. */
  function Mean(xs: seq<real>): (r: Option<real>)
    ensures r.None? <==> |xs| == 0
    ensures r.Some? ==> r.value * |xs| as real == Total(xs)
  {
    if |xs| == 0 then None else Some(Total(xs) / |xs| as real)
  }

  /** `sum(skipna=True)` with pandas' default `min_count=0`. */
  function SkipnaSum(xs: seq<Option<real>>): real {
    Total(DropMissing(xs))
  }

  /** `mean(skipna=True)`. */
  function SkipnaMean(xs: seq<Option<real>>): Option<real> {
    Mean(DropMissing(xs))
  }

  /** A number survives `dropna` exactly when it is present in the input. */
  lemma DropMissingHas(xs: seq<Option<real>>, v: real)
    ensures v in DropMissing(xs) <==> Some(v) in xs
  {
    var r := DropMissing(xs);
    if v in r {
      var i :| 0 <= i < |r| && r[i] == v;
    }
    if Some(v) in xs {
      var i :| 0 <= i < |xs| && xs[i] == Some(v);
    }
  }

  lemma {:induction false} DropMissingAppend(a: seq<Option<real>>, b: seq<Option<real>>)
    ensures DropMissing(a + b) == DropMissing(a) + DropMissing(b)
  {
    if a == [] {
      assert a + b == b;
    } else {
      assert (a + b)[1..] == a[1..] + b;
      DropMissingAppend(a[1..], b);
    }
  }

  lemma {:induction false} TotalAppend(a: seq<real>, b: seq<real>)
    ensures Total(a + b) == Total(a) + Total(b)
  {
    if a == [] {
      assert a + b == b;
    } else {
      assert (a + b)[1..] == a[1..] + b;
      TotalAppend(a[1..], b);
    }
  }

  /** A sum of values all lying in [lo, hi] lies between count*lo and count*hi. */
  lemma {:induction false} TotalBounds(xs: seq<real>, lo: real, hi: real)
    requires forall i :: 0 <= i < |xs| ==> lo <= xs[i] <= hi
    ensures |xs| as real * lo <= Total(xs) <= |xs| as real * hi
  {
    if xs != [] {
      TotalBounds(xs[1..], lo, hi);
    }
  }

  /** A missing-skipping sum over all-missing values is 0 and the mean is undefined. */
  lemma {:induction false} AllMissing(xs: seq<Option<real>>)
    requires forall i :: 0 <= i < |xs| ==> xs[i].None?
    ensures DropMissing(xs) == []
    ensures SkipnaSum(xs) == 0.0 && SkipnaMean(xs).None?
  {
    if xs != [] {
      AllMissing(xs[1..]);
    }
  }

  /** When every cell is present the missing-skipping reductions see all of them. */
  lemma {:induction false} NoneMissing(xs: seq<Option<real>>)
    requires forall i :: 0 <= i < |xs| ==> xs[i].Some?
    ensures |DropMissing(xs)| == |xs|
    ensures forall i :: 0 <= i < |xs| ==> DropMissing(xs)[i] == xs[i].value
  {
    if xs != [] {
      NoneMissing(xs[1..]);
    }
  }

  /** The mean of values in [lo, hi] is in [lo, hi]. */
  lemma MeanBounds(xs: seq<real>, lo: real, hi: real)
    requires |xs| > 0
    requires forall i :: 0 <= i < |xs| ==> lo <= xs[i] <= hi
    ensures lo <= Mean(xs).value <= hi
  {
    TotalBounds(xs, lo, hi);
    var n := |xs| as real;
    var m := Mean(xs).value;
    assert m * n == Total(xs);
    assert (m - lo) * n >= 0.0 && (hi - m) * n >= 0.0;
  }

  /** Dividing bounds by a positive count: from `c * lo <= m * c <= c * hi` follows `lo <= m <= hi`. */
  lemma ScaledBounds(m: real, c: real, lo: real, hi: real)
    requires c > 0.0 && c * lo <= m * c <= c * hi
    ensures lo <= m <= hi
  {
    assert (m - lo) * c >= 0.0 && (hi - m) * c >= 0.0;
  }

  /** Every present value of `xs` lies in [lo, hi], so does every value kept by `DropMissing`. */
  lemma DropMissingBounds(xs: seq<Option<real>>, lo: real, hi: real)
    requires forall i :: 0 <= i < |xs| && xs[i].Some? ==> lo <= xs[i].value <= hi
    ensures forall i :: 0 <= i < |DropMissing(xs)| ==> lo <= DropMissing(xs)[i] <= hi
  {
    var d := DropMissing(xs);
    forall i | 0 <= i < |d|
      ensures lo <= d[i] <= hi
    {
      var j :| 0 <= j < |xs| && xs[j] == Some(d[i]);
    }
  }
}
