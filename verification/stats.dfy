/**
 * The algebraic part of the group statistics: per-group count, mean and
 * Bessel-corrected variance (`group_descriptives`), and the group
 * extraction, counts, pooled variance and mean difference behind Cohen's d
 * (`independent_t`). Square roots are not taken: standard deviations and
 * standard errors are reported squared. The Welch t statistic and its
 * p-value are not modelled.
 */
module Stats {
  import opened Wrappers
  import opened Seqs
  import opened Frames
  import opened Reduce

  // ---------- Sample variance ----------

  lemma SquareNonneg(x: real)
    ensures x * x >= 0.0
  {
    if x < 0.0 {
      assert x * x == (-x) * (-x);
    }
  }

  /** The sum of squared deviations of `xs` from `m`. */
  function SquaredDeviations(xs: seq<real>, m: real): (r: real)
    ensures r >= 0.0
  {
    if xs == [] then 0.0
    else
      SquareNonneg(xs[0] - m);
      (xs[0] - m) * (xs[0] - m) + SquaredDeviations(xs[1..], m)
  }

  /** `std(ddof=1) ** 2`: the n-1 divisor leaves it undefined below two values. */
  function SampleVariance(xs: seq<real>): (r: Option<real>)
    ensures r.None? <==> |xs| < 2
    ensures r.Some? ==> r.value >= 0.0
    ensures r.Some? ==> r.value * (|xs| - 1) as real == SquaredDeviations(xs, Mean(xs).value)
  {
    if |xs| < 2 then None
    else
      var v := SquaredDeviations(xs, Mean(xs).value) / (|xs| - 1) as real;
      assert v * (|xs| - 1) as real == SquaredDeviations(xs, Mean(xs).value);
      Some(v)
  }

  /** A sum of `|xs|` copies of `c` is `|xs| * c`, so their mean is `c`. */
  lemma ConstantMean(xs: seq<real>, c: real)
    requires |xs| > 0 && forall i :: 0 <= i < |xs| ==> xs[i] == c
    ensures Mean(xs) == Some(c)
  {
    TotalBounds(xs, c, c);
    ScaledBounds(Mean(xs).value, |xs| as real, c, c);
  }

  lemma {:induction false} ConstantDeviations(xs: seq<real>, c: real)
    requires forall i :: 0 <= i < |xs| ==> xs[i] == c
    ensures SquaredDeviations(xs, c) == 0.0
  {
    if xs != [] {
      ConstantDeviations(xs[1..], c);
    }
  }

  /** A sample whose values all agree has variance 0. */
  lemma ConstantVariance(xs: seq<real>, c: real)
    requires |xs| >= 2 && forall i :: 0 <= i < |xs| ==> xs[i] == c
    ensures SampleVariance(xs) == Some(0.0)
  {
    ConstantMean(xs, c);
    ConstantDeviations(xs, c);
  }

  function Shift(xs: seq<real>, c: real): (r: seq<real>)
    ensures |r| == |xs| && forall i :: 0 <= i < |xs| ==> r[i] == xs[i] + c
  {
    seq(|xs|, i requires 0 <= i < |xs| => xs[i] + c)
  }

  lemma {:induction false} ShiftTotal(xs: seq<real>, c: real)
    ensures Total(Shift(xs, c)) == Total(xs) + |xs| as real * c
  {
    if xs != [] {
      ShiftTotal(xs[1..], c);
      assert Shift(xs, c)[1..] == Shift(xs[1..], c);
    }
  }

  lemma {:induction false} ShiftDeviations(xs: seq<real>, m: real, c: real)
    ensures SquaredDeviations(Shift(xs, c), m + c) == SquaredDeviations(xs, m)
  {
    if xs != [] {
      ShiftDeviations(xs[1..], m, c);
      assert Shift(xs, c)[1..] == Shift(xs[1..], c);
      assert Shift(xs, c)[0] - (m + c) == xs[0] - m;
    }
  }

  /** Adding a constant to every value moves the mean by it and leaves the variance unchanged. */
  lemma ShiftInvariance(xs: seq<real>, c: real)
    ensures |xs| > 0 ==> Mean(Shift(xs, c)) == Some(Mean(xs).value + c)
    ensures SampleVariance(Shift(xs, c)) == SampleVariance(xs)
  {
    if |xs| > 0 {
      var n := |xs| as real;
      var m := Mean(xs).value;
      ShiftTotal(xs, c);
      assert (m + c) * n == m * n + c * n;
      ScaledBounds(Mean(Shift(xs, c)).value, n, m + c, m + c);
      ShiftDeviations(xs, m, c);
    }
  }

  // ---------- Per-group description ----------

  /** One row of `group_descriptives`; `sd` and `se` appear squared. */
  datatype Descriptives = Descriptives(group: Cell, n: nat, mean: Option<real>, variance: Option<real>, seSquared: Option<real>)

  /**
   * Count, mean, variance and squared standard error of one group's
   * values. The standard error is guarded by `n > 0`; with one value the
   * variance is already undefined, so it is undefined below two values.
   */
  function Describe(group: Cell, xs: seq<real>): (d: Descriptives)
    ensures d.group == group && d.n == |xs|
    ensures d.mean.None? <==> |xs| == 0
    ensures d.mean.Some? ==> d.mean.value * |xs| as real == Total(xs)
    ensures d.variance == SampleVariance(xs)
    ensures d.seSquared.None? <==> |xs| < 2
    ensures d.seSquared.Some? ==> d.seSquared.value >= 0.0 && d.seSquared.value * |xs| as real == d.variance.value
  {
    var v := SampleVariance(xs);
    var se := if |xs| > 0 && v.Some? then Some(v.value / |xs| as real) else None;
    Descriptives(group, |xs|, Mean(xs), v, se)
  }

  // ---------- Group extraction ----------

  /** The row mask `df[group_col] == key`; a missing group never matches a present key. */
  function InGroup(groupCol: string, key: Cell): Row -> bool {
    (row: Row) => groupCol in row && row[groupCol] == key
  }

  /** A row of the group whose `dv` cell holds a number. */
  function HasValue(groupCol: string, key: Cell, dv: string): Row -> bool {
    (row: Row) => groupCol in row && row[groupCol] == key && dv in row && row[dv].Num?
  }

  /** Every row has a `dv` cell. */
  predicate AllHave(rows: seq<Row>, dv: string) {
    forall k :: 0 <= k < |rows| ==> dv in rows[k]
  }

  lemma AllHaveFilter(rows: seq<Row>, p: Row -> bool, dv: string)
    requires AllHave(rows, dv)
    ensures AllHave(Filter(rows, p), dv)
  {
    var r := Filter(rows, p);
    forall k | 0 <= k < |r|
      ensures dv in r[k]
    {
      assert r[k] in rows;
    }
  }

  /** The row's `dv` cell holds the number `v`. */
  function Holds(dv: string, v: real): Row -> bool {
    (row: Row) => dv in row && row[dv] == Num(v)
  }

  function Column(rows: seq<Row>, dv: string): (r: seq<Option<real>>)
    requires AllHave(rows, dv)
    ensures |r| == |rows| && forall k :: 0 <= k < |rows| ==> r[k] == AsNumber(rows[k][dv])
  {
    seq(|rows|, k requires 0 <= k < |rows| => AsNumber(rows[k][dv]))
  }

  /** No row of the group has text in `dv`; arithmetic on the group's values needs this. */
  predicate GroupNumeric(f: Frame, groupCol: string, key: Cell, dv: string) {
    forall k :: 0 <= k < |f.rows| && InGroup(groupCol, key)(f.rows[k]) ==> dv in f.rows[k] && !f.rows[k][dv].Text?
  }

  /** `df.loc[df[group_col] == key, dv].dropna()`. */
  function GroupValues(f: Frame, groupCol: string, key: Cell, dv: string): (r: Result<seq<real>, Error>)
    requires Valid(f)
    ensures groupCol !in f.names ==> r == Failure(MissingColumn(groupCol))
    ensures groupCol in f.names && dv !in f.names ==> r == Failure(MissingColumn(dv))
    ensures r.Success? <==> groupCol in f.names && dv in f.names && GroupNumeric(f, groupCol, key, dv)
    ensures r.Failure? && groupCol in f.names && dv in f.names ==> r.error == NotNumeric(dv)
  {
    if groupCol !in f.names then Failure(MissingColumn(groupCol))
    else if dv !in f.names then Failure(MissingColumn(dv))
    else
      var rows := Filter(f.rows, InGroup(groupCol, key));
      assert forall k :: 0 <= k < |rows| ==> rows[k] in f.rows;
      if exists k :: 0 <= k < |rows| && rows[k][dv].Text? then
        var k :| 0 <= k < |rows| && rows[k][dv].Text?;
        var j :| 0 <= j < |f.rows| && f.rows[j] == rows[k];
        Failure(NotNumeric(dv))
      else
        assert GroupNumeric(f, groupCol, key, dv) by {
          forall j | 0 <= j < |f.rows| && InGroup(groupCol, key)(f.rows[j])
            ensures !f.rows[j][dv].Text?
          {
            assert f.rows[j] in rows;
          }
        }
        Success(DropMissing(Column(rows, dv)))
  }

  lemma ColumnAppend(a: seq<Row>, b: seq<Row>, dv: string)
    requires AllHave(a, dv) && AllHave(b, dv)
    ensures AllHave(a + b, dv)
    ensures Column(a + b, dv) == Column(a, dv) + Column(b, dv)
  {
  }

  /** On success a number is among the group's values exactly when some row of the group holds it in `dv`. */
  lemma GroupValuesExact(f: Frame, groupCol: string, key: Cell, dv: string, v: real)
    requires Valid(f) && GroupValues(f, groupCol, key, dv).Success?
    ensures v in GroupValues(f, groupCol, key, dv).value <==>
      exists k :: 0 <= k < |f.rows| && InGroup(groupCol, key)(f.rows[k]) && Holds(dv, v)(f.rows[k])
  {
    GroupValuesOf(f, groupCol, key, dv);
    DropMissingHas(Column(Filter(f.rows, InGroup(groupCol, key)), dv), v);
    GroupRowsHold(f.rows, groupCol, key, dv, v);
  }

  /** A number is in the group's column exactly when some row of the group holds it. */
  lemma GroupRowsHold(rows: seq<Row>, groupCol: string, key: Cell, dv: string, v: real)
    requires AllHave(Filter(rows, InGroup(groupCol, key)), dv)
    ensures Some(v) in Column(Filter(rows, InGroup(groupCol, key)), dv) <==> AnyBoth(rows, InGroup(groupCol, key), Holds(dv, v))
  {
    ColumnHas(Filter(rows, InGroup(groupCol, key)), dv, v);
    FilterExists(rows, InGroup(groupCol, key), Holds(dv, v));
  }

  /** On success the group's values are the present `dv` numbers of the group's rows, in row order. */
  lemma GroupValuesOf(f: Frame, groupCol: string, key: Cell, dv: string)
    requires Valid(f) && GroupValues(f, groupCol, key, dv).Success?
    ensures AllHave(Filter(f.rows, InGroup(groupCol, key)), dv)
    ensures GroupValues(f, groupCol, key, dv).value == DropMissing(Column(Filter(f.rows, InGroup(groupCol, key)), dv))
  {
    var rows := Filter(f.rows, InGroup(groupCol, key));
    forall k | 0 <= k < |rows|
      ensures dv in rows[k]
    {
      assert rows[k] in f.rows;
      var j :| 0 <= j < |f.rows| && f.rows[j] == rows[k];
      CellPresent(f, j, dv);
    }
  }

  /** A number is in the column exactly when some row holds it. */
  lemma ColumnHas(rows: seq<Row>, dv: string, v: real)
    requires AllHave(rows, dv)
    ensures Some(v) in Column(rows, dv) <==> Any(rows, Holds(dv, v))
  {
    var col := Column(rows, dv);
    if Some(v) in col {
      var k :| 0 <= k < |col| && col[k] == Some(v);
      assert Holds(dv, v)(rows[k]);
    }
    if Any(rows, Holds(dv, v)) {
      var k :| 0 <= k < |rows| && Holds(dv, v)(rows[k]);
      assert col[k] == Some(v);
    }
  }

  /**
   * Reference for a group's values: the rows of the group whose `dv` cell
   * holds a number, read in row order. It filters on the number first,
   * whereas the source selects the group and then drops the missing cells.
   */
  function PresentValues(rows: seq<Row>, groupCol: string, key: Cell, dv: string): (r: seq<real>)
    ensures |r| == |Filter(rows, HasValue(groupCol, key, dv))|
  {
    var kept := Filter(rows, HasValue(groupCol, key, dv));
    assert forall k :: 0 <= k < |kept| ==> kept[k] in rows && HasValue(groupCol, key, dv)(kept[k]);
    seq(|kept|, k requires 0 <= k < |kept| => kept[k][dv].value)
  }

  /** The reference values of `rows` are those of its first row followed by those of the rest. */
  lemma PresentValuesCons(rows: seq<Row>, groupCol: string, key: Cell, dv: string)
    requires rows != []
    ensures PresentValues(rows, groupCol, key, dv) ==
      (if HasValue(groupCol, key, dv)(rows[0]) then [rows[0][dv].value] else []) + PresentValues(rows[1..], groupCol, key, dv)
  {
    var p := HasValue(groupCol, key, dv);
    var kept := Filter(rows, p);
    var rest := Filter(rows[1..], p);
    var head := if p(rows[0]) then [rows[0]] else [];
    assert kept == head + rest;
    var a := PresentValues(rows, groupCol, key, dv);
    var b := (if p(rows[0]) then [rows[0][dv].value] else []) + PresentValues(rows[1..], groupCol, key, dv);
    assert |a| == |b|;
    forall k | 0 <= k < |a|
      ensures a[k] == b[k]
    {
      if p(rows[0]) && k > 0 {
        assert kept[k] == rest[k - 1];
      } else if !p(rows[0]) {
        assert kept[k] == rest[k];
      }
    }
  }

  /** Selecting the group, reading `dv` and dropping the missing cells gives exactly the reference values. */
  lemma {:induction false} DroppedColumnIsPresent(rows: seq<Row>, groupCol: string, key: Cell, dv: string)
    requires AllHave(rows, dv)
    ensures AllHave(Filter(rows, InGroup(groupCol, key)), dv)
    ensures DropMissing(Column(Filter(rows, InGroup(groupCol, key)), dv)) == PresentValues(rows, groupCol, key, dv)
  {
    AllHaveFilter(rows, InGroup(groupCol, key), dv);
    if rows != [] {
      var inGroup := InGroup(groupCol, key);
      var tail := rows[1..];
      assert AllHave(tail, dv);
      var rest := Filter(tail, inGroup);
      var head := if inGroup(rows[0]) then [rows[0]] else [];
      assert Filter(rows, inGroup) == head + rest;
      DroppedColumnIsPresent(tail, groupCol, key, dv);
      AllHaveFilter(tail, inGroup, dv);
      ColumnAppend(head, rest, dv);
      DropMissingAppend(Column(head, dv), Column(rest, dv));
      if head != [] {
        assert Column(head, dv) == [AsNumber(rows[0][dv])];
        assert Column(head, dv)[1..] == [];
      }
      PresentValuesCons(rows, groupCol, key, dv);
    }
  }

  /**
   * The reference values are, one for one and in order, the `dv` numbers
   * of the rows at the positions where the group has a number: the same
   * values with the same multiplicities.
   */
  lemma PresentValuesInOrder(rows: seq<Row>, groupCol: string, key: Cell, dv: string)
    ensures var xs := PresentValues(rows, groupCol, key, dv);
      var idx := KeptIndices(rows, HasValue(groupCol, key, dv), 0);
      && |xs| == |idx|
      && forall i :: 0 <= i < |idx| ==> dv in rows[idx[i]] && rows[idx[i]][dv] == Num(xs[i])
  {
    FilterSubsequence(rows, HasValue(groupCol, key, dv));
  }

  /** On success the group's values are exactly the reference values. */
  lemma GroupValuesPresent(f: Frame, groupCol: string, key: Cell, dv: string)
    requires Valid(f) && GroupValues(f, groupCol, key, dv).Success?
    ensures GroupValues(f, groupCol, key, dv).value == PresentValues(f.rows, groupCol, key, dv)
  {
    GroupValuesOf(f, groupCol, key, dv);
    assert AllHave(f.rows, dv) by {
      forall k | 0 <= k < |f.rows|
        ensures dv in f.rows[k]
      {
        CellPresent(f, k, dv);
      }
    }
    DroppedColumnIsPresent(f.rows, groupCol, key, dv);
  }

  /** On success the group has one value per row of the group whose `dv` cell holds a number. */
  lemma GroupValuesCount(f: Frame, groupCol: string, key: Cell, dv: string)
    requires Valid(f) && GroupValues(f, groupCol, key, dv).Success?
    ensures |GroupValues(f, groupCol, key, dv).value| == |Filter(f.rows, HasValue(groupCol, key, dv))|
  {
    GroupValuesPresent(f, groupCol, key, dv);
  }

  // ---------- group_descriptives ----------

  /** The distinct present cells of `cells`, in order of first appearance. */
  function DistinctKeys(cells: seq<Cell>): (r: seq<Cell>)
    ensures Distinct(r)
    ensures forall c :: c in r <==> c in cells && !c.Missing?
    decreases |cells|
  {
    if cells == [] then []
    else
      var init := DistinctKeys(cells[..|cells| - 1]);
      var c := cells[|cells| - 1];
      assert cells == cells[..|cells| - 1] + [c];
      if c in init || c.Missing? then init else init + [c]
  }

  /** The keys of `df.groupby(group_col)`: the distinct present group cells. */
  function GroupKeys(f: Frame, groupCol: string): seq<Cell>
    requires Valid(f) && groupCol in f.names
  {
    DistinctKeys(seq(|f.rows|, k requires 0 <= k < |f.rows| => f.rows[k][groupCol]))
  }

  predicate AllNumericGroups(f: Frame, groupCol: string, keys: seq<Cell>, dv: string)
    requires Valid(f)
  {
    forall i :: 0 <= i < |keys| ==> GroupValues(f, groupCol, keys[i], dv).Success?
  }

  /** Every group of `keys` is numeric exactly when the first one is and all the later ones are. */
  lemma AllNumericGroupsStep(f: Frame, groupCol: string, keys: seq<Cell>, dv: string)
    requires Valid(f) && keys != []
    ensures AllNumericGroups(f, groupCol, keys, dv) <==>
      GroupValues(f, groupCol, keys[0], dv).Success? && AllNumericGroups(f, groupCol, keys[1..], dv)
  {
    if AllNumericGroups(f, groupCol, keys, dv) {
      forall i | 0 <= i < |keys[1..]|
        ensures GroupValues(f, groupCol, keys[1..][i], dv).Success?
      {
        assert keys[1..][i] == keys[i + 1];
      }
    }
    if GroupValues(f, groupCol, keys[0], dv).Success? && AllNumericGroups(f, groupCol, keys[1..], dv) {
      forall i | 1 <= i < |keys|
        ensures GroupValues(f, groupCol, keys[i], dv).Success?
      {
        assert keys[i] == keys[1..][i - 1];
      }
    }
  }

  /** Describes each group of `keys` in turn; the first group that cannot be described gives the error. */
  function DescribeGroups(f: Frame, groupCol: string, keys: seq<Cell>, dv: string): (r: Result<seq<Descriptives>, Error>)
    requires Valid(f)
    ensures r.Success? <==> AllNumericGroups(f, groupCol, keys, dv)
    ensures r.Success? ==> |r.value| == |keys|
  {
    if keys == [] then Success([])
    else
      var head := GroupValues(f, groupCol, keys[0], dv);
      var rest := DescribeGroups(f, groupCol, keys[1..], dv);
      AllNumericGroupsStep(f, groupCol, keys, dv);
      if head.Failure? then Failure(head.error)
      else if rest.Failure? then Failure(rest.error)
      else
        Success([Describe(keys[0], head.value)] + rest.value)
  }

  /** The i-th description is that of the i-th group's values. */
  lemma {:induction false} DescribeGroupsValues(f: Frame, groupCol: string, keys: seq<Cell>, dv: string, i: nat)
    requires Valid(f) && DescribeGroups(f, groupCol, keys, dv).Success? && i < |keys|
    ensures GroupValues(f, groupCol, keys[i], dv).Success?
    ensures DescribeGroups(f, groupCol, keys, dv).value[i] == Describe(keys[i], GroupValues(f, groupCol, keys[i], dv).value)
  {
    if i > 0 {
      DescribeGroupsValues(f, groupCol, keys[1..], dv, i - 1);
      assert keys[1..][i - 1] == keys[i];
    }
  }

  /**
   * `group_descriptives`: one description per distinct present group
   * value. A missing `group_col` always fails; a missing or non-numeric
   * `dv` fails only when there is some group to describe.
   */
  function GroupDescriptives(f: Frame, dv: string, groupCol: string): (r: Result<seq<Descriptives>, Error>)
    requires Valid(f)
    ensures groupCol !in f.names ==> r == Failure(MissingColumn(groupCol))
    ensures groupCol in f.names && GroupKeys(f, groupCol) == [] ==> r == Success([])
  {
    if groupCol !in f.names then Failure(MissingColumn(groupCol))
    else DescribeGroups(f, groupCol, GroupKeys(f, groupCol), dv)
  }

  /** A group exists to describe exactly when some row has a present group cell. */
  lemma GroupKeysPresent(f: Frame, groupCol: string, key: Cell)
    requires Valid(f) && groupCol in f.names
    ensures key in GroupKeys(f, groupCol) <==>
      !key.Missing? && exists k :: 0 <= k < |f.rows| && f.rows[k][groupCol] == key
    ensures Distinct(GroupKeys(f, groupCol))
  {
    var cells := seq(|f.rows|, k requires 0 <= k < |f.rows| => f.rows[k][groupCol]);
    if key in cells {
      var k :| 0 <= k < |cells| && cells[k] == key;
    }
    if exists k :: 0 <= k < |f.rows| && f.rows[k][groupCol] == key {
      var k :| 0 <= k < |f.rows| && f.rows[k][groupCol] == key;
      assert cells[k] == key;
    }
  }

  /**
   * `group_descriptives` succeeds exactly when the group column exists
   * and, if any group exists, `dv` exists and holds no text in a grouped
   * row; on success the i-th row describes exactly the present `dv`
   * values of the i-th group, so `n` is their number.
   */
  lemma GroupDescriptivesSpec(f: Frame, dv: string, groupCol: string)
    requires Valid(f)
    ensures GroupDescriptives(f, dv, groupCol).Success? <==>
      && groupCol in f.names
      && (GroupKeys(f, groupCol) == [] ||
          (dv in f.names && forall i :: 0 <= i < |GroupKeys(f, groupCol)| ==> GroupNumeric(f, groupCol, GroupKeys(f, groupCol)[i], dv)))
    ensures GroupDescriptives(f, dv, groupCol).Success? ==>
      var keys := GroupKeys(f, groupCol);
      var d := GroupDescriptives(f, dv, groupCol).value;
      && |d| == |keys|
      && forall i :: 0 <= i < |keys| ==>
        && d[i] == Describe(keys[i], PresentValues(f.rows, groupCol, keys[i], dv))
        && d[i].group == keys[i]
        && d[i].n == |Filter(f.rows, HasValue(groupCol, keys[i], dv))|
  {
    if groupCol in f.names {
      var keys := GroupKeys(f, groupCol);
      if keys != [] && AllNumericGroups(f, groupCol, keys, dv) {
        assert GroupValues(f, groupCol, keys[0], dv).Success?;
      }
      if GroupDescriptives(f, dv, groupCol).Success? {
        forall i | 0 <= i < |keys|
          ensures GroupDescriptives(f, dv, groupCol).value[i] == Describe(keys[i], PresentValues(f.rows, groupCol, keys[i], dv))
        {
          DescribeGroupsValues(f, groupCol, keys, dv, i);
          GroupValuesPresent(f, groupCol, keys[i], dv);
        }
      }
    }
  }

  // ---------- independent_t ----------

  /**
   * `((n1 - 1) s1^2 + (n2 - 1) s2^2) / (n1 + n2 - 2)`; a group with fewer
   * than two values makes its variance, and so the pool, undefined.
   */
  function PooledVariance(xs1: seq<real>, xs2: seq<real>): (r: Option<real>)
    ensures r.None? <==> |xs1| < 2 || |xs2| < 2
  {
    var v1 := SampleVariance(xs1);
    var v2 := SampleVariance(xs2);
    if v1.None? || v2.None? then None
    else Some(((|xs1| - 1) as real * v1.value + (|xs2| - 1) as real * v2.value) / (|xs1| + |xs2| - 2) as real)
  }

  /**
   * The pooled variance is a weighted average of the two sample
   * variances: it lies between them, hence is never negative, and does
   * not depend on which group comes first.
   */
  lemma PooledVarianceBetween(xs1: seq<real>, xs2: seq<real>)
    requires |xs1| >= 2 && |xs2| >= 2
    ensures var p := PooledVariance(xs1, xs2).value;
      var v1 := SampleVariance(xs1).value;
      var v2 := SampleVariance(xs2).value;
      && (v1 <= v2 ==> v1 <= p <= v2)
      && (v2 <= v1 ==> v2 <= p <= v1)
      && p >= 0.0
      && PooledVariance(xs2, xs1) == PooledVariance(xs1, xs2)
  {
    var p := PooledVariance(xs1, xs2).value;
    var v1 := SampleVariance(xs1).value;
    var v2 := SampleVariance(xs2).value;
    var a := (|xs1| - 1) as real;
    var b := (|xs2| - 1) as real;
    assert p * (a + b) == a * v1 + b * v2;
    if v1 <= v2 {
      WeightedAverageBetween(p, a, b, v1, v2);
    } else {
      assert p * (b + a) == b * v2 + a * v1;
      WeightedAverageBetween(p, b, a, v2, v1);
    }
  }

  /** `p` with `p * (a + b) == a * x + b * y` for positive weights lies between `x` and `y`. */
  lemma WeightedAverageBetween(p: real, a: real, b: real, x: real, y: real)
    requires a > 0.0 && b > 0.0 && p * (a + b) == a * x + b * y && x <= y
    ensures x <= p <= y
  {
    assert (p - x) * (a + b) == b * (y - x);
    assert (y - p) * (a + b) == a * (y - x);
    NonnegProduct(b, y - x);
    NonnegProduct(a, y - x);
    NonnegQuotient(p - x, a + b);
    NonnegQuotient(y - p, a + b);
  }

  lemma NonnegProduct(x: real, y: real)
    requires x >= 0.0 && y >= 0.0
    ensures x * y >= 0.0
  {
  }

  lemma NonnegQuotient(x: real, c: real)
    requires c > 0.0 && x * c >= 0.0
    ensures x >= 0.0
  {
    if x < 0.0 {
      NonnegProduct(-x, c);
    }
  }

  /** The figures `independent_t` reports apart from t, p and the square root in d. */
  datatype Comparison = Comparison(mean1: Option<real>, mean2: Option<real>, n1: nat, n2: nat,
                                   pooledVar: Option<real>, meanDiff: Option<real>)

  function Compare(xs1: seq<real>, xs2: seq<real>): (r: Comparison)
    ensures r.n1 == |xs1| && r.n2 == |xs2|
    ensures r.mean1 == Mean(xs1) && r.mean2 == Mean(xs2)
    ensures r.meanDiff.Some? <==> |xs1| > 0 && |xs2| > 0
    ensures r.meanDiff.Some? ==> r.meanDiff.value == r.mean1.value - r.mean2.value
  {
    var m1 := Mean(xs1);
    var m2 := Mean(xs2);
    Comparison(m1, m2, |xs1|, |xs2|, PooledVariance(xs1, xs2),
               if m1.Some? && m2.Some? then Some(m1.value - m2.value) else None)
  }

  /** `independent_t(df, dv, group_col, g1, g2)` without the t-test itself. */
  function IndependentT(f: Frame, dv: string, groupCol: string, g1: string, g2: string): (r: Result<Comparison, Error>)
    requires Valid(f)
    ensures r.Success? <==>
      && groupCol in f.names && dv in f.names
      && GroupNumeric(f, groupCol, Text(g1), dv) && GroupNumeric(f, groupCol, Text(g2), dv)
    ensures groupCol !in f.names ==> r == Failure(MissingColumn(groupCol))
    ensures groupCol in f.names && dv !in f.names ==> r == Failure(MissingColumn(dv))
    ensures r.Failure? && groupCol in f.names && dv in f.names ==> r.error == NotNumeric(dv)
  {
    var xs1 :- GroupValues(f, groupCol, Text(g1), dv);
    var xs2 :- GroupValues(f, groupCol, Text(g2), dv);
    Success(Compare(xs1, xs2))
  }

  /**
   * `n1` and `n2` count the rows of each group with a present `dv` value,
   * and the means and the pooled variance are computed from exactly those
   * values, each as often as it occurs (`PresentValuesInOrder`).
   */
  lemma IndependentTCounts(f: Frame, dv: string, groupCol: string, g1: string, g2: string)
    requires Valid(f) && IndependentT(f, dv, groupCol, g1, g2).Success?
    ensures var c := IndependentT(f, dv, groupCol, g1, g2).value;
      var xs1 := PresentValues(f.rows, groupCol, Text(g1), dv);
      var xs2 := PresentValues(f.rows, groupCol, Text(g2), dv);
      && c.n1 == |Filter(f.rows, HasValue(groupCol, Text(g1), dv))|
      && c.n2 == |Filter(f.rows, HasValue(groupCol, Text(g2), dv))|
      && c.mean1 == Mean(xs1) && c.mean2 == Mean(xs2)
      && c.pooledVar == PooledVariance(xs1, xs2)
  {
    GroupValuesPresent(f, groupCol, Text(g1), dv);
    GroupValuesPresent(f, groupCol, Text(g2), dv);
  }

  /**
   * Swapping the two groups fails in the same way or exchanges the means
   * and counts, keeps the pooled variance and negates the mean difference,
   * so Cohen's d changes sign.
   */
  lemma IndependentTSwap(f: Frame, dv: string, groupCol: string, g1: string, g2: string)
    requires Valid(f)
    ensures var a := IndependentT(f, dv, groupCol, g1, g2);
      var b := IndependentT(f, dv, groupCol, g2, g1);
      && a.Success? == b.Success?
      && (a.Failure? ==> a.error == b.error)
      && (a.Success? ==>
        && b.value.mean1 == a.value.mean2 && b.value.mean2 == a.value.mean1
        && b.value.n1 == a.value.n2 && b.value.n2 == a.value.n1
        && b.value.pooledVar == a.value.pooledVar
        && (a.value.meanDiff.Some? <==> b.value.meanDiff.Some?)
        && (a.value.meanDiff.Some? ==> b.value.meanDiff.value == -a.value.meanDiff.value))
  {
    var a := IndependentT(f, dv, groupCol, g1, g2);
    if a.Success? {
      var xs1 := GroupValues(f, groupCol, Text(g1), dv).value;
      var xs2 := GroupValues(f, groupCol, Text(g2), dv).value;
      if |xs1| >= 2 && |xs2| >= 2 {
        PooledVarianceBetween(xs1, xs2);
      }
    }
  }
}
