/**
 * Participant-level summaries of `add_summary_scores`: per-row totals of
 * correctness and of the two question scores, accuracy and mean
 * confidence, all skipping missing cells the way pandas does.
 */
module Summary {
  import opened Wrappers
  import opened Seqs
  import opened Strings
  import opened Frames
  import opened Reduce
  import opened Scoring

  const TotalCorrect := "total_correct"
  const Accuracy := "accuracy"
  const MeanConf := "mean_conf"
  const TotalAbs := "total_abs"
  const TotalCws := "total_cws"

  /** The five summary labels differ from each other. */
  lemma SummaryLabelsDiffer()
    ensures TotalCorrect != Accuracy && TotalCorrect != MeanConf && TotalCorrect != TotalAbs && TotalCorrect != TotalCws
    ensures Accuracy != MeanConf && Accuracy != TotalAbs && Accuracy != TotalCws
    ensures MeanConf != TotalAbs && MeanConf != TotalCws && TotalAbs != TotalCws
  {
    assert MeanConf[0] != TotalAbs[0] && MeanConf[0] != TotalCws[0];
    assert TotalAbs[6] != TotalCws[6];
  }

  /** The columns written, in the order they are written. */
  function SummaryNames(useAbs: bool, useCws: bool): seq<string> {
    [TotalCorrect, Accuracy, MeanConf] + (if useAbs then [TotalAbs] else []) + (if useCws then [TotalCws] else [])
  }

  /** No summary column is written twice. */
  lemma SummaryNamesDistinct(useAbs: bool, useCws: bool)
    ensures Distinct(SummaryNames(useAbs, useCws))
  {
    SummaryLabelsDiffer();
    var s := SummaryNames(useAbs, useCws);
    assert s[0] == TotalCorrect && s[1] == Accuracy && s[2] == MeanConf;
    assert |s| == 3 + (if useAbs then 1 else 0) + (if useCws then 1 else 0);
    assert useAbs ==> s[3] == TotalAbs;
    assert useCws ==> s[|s| - 1] == TotalCws;
  }

  /** On success the summary columns are assigned after the existing ones. */
  lemma AddSummaryScoresNames(f: Frame, n: nat, useAbs: bool, useCws: bool)
    requires Valid(f) && AddSummaryScores(f, n, useAbs, useCws).Success?
    ensures AddSummaryScores(f, n, useAbs, useCws).value.names == AppendMissing(f.names, SummaryNames(useAbs, useCws))
  {
  }

  /** The columns read, in the order they are read: every `correct_i`, every `conf_i`, then `abs_i` and `cws_i` when enabled. */
  function SummaryInputs(n: nat, useAbs: bool, useCws: bool): seq<string> {
    Labels(CorrectPrefix, n) + Labels(ConfPrefix, n)
      + (if useAbs then Labels(AbsPrefix, n) else []) + (if useCws then Labels(CwsPrefix, n) else [])
  }

  /** Every column the summaries read exists and holds no text. */
  predicate SummaryReady(f: Frame, n: nat, useAbs: bool, useCws: bool) {
    && AllNumeric(f, Labels(CorrectPrefix, n))
    && AllNumeric(f, Labels(ConfPrefix, n))
    && (useAbs ==> AllNumeric(f, Labels(AbsPrefix, n)))
    && (useCws ==> AllNumeric(f, Labels(CwsPrefix, n)))
  }

  /** The row carries every column the summaries read. */
  predicate RowHasInputs(row: Row, n: nat, useAbs: bool, useCws: bool) {
    && HasColumns(row, Labels(CorrectPrefix, n))
    && HasColumns(row, Labels(ConfPrefix, n))
    && (useAbs ==> HasColumns(row, Labels(AbsPrefix, n)))
    && (useCws ==> HasColumns(row, Labels(CwsPrefix, n)))
  }

  // ---------- Reference totals, column by column ----------

  function NumOrZero(c: Cell): real {
    if c.Num? then c.value else 0.0
  }

  /** Sum of the numbers among the row's `cols` cells. */
  function CellTotal(row: Row, cols: seq<string>): real
    requires HasColumns(row, cols)
  {
    if cols == [] then 0.0 else NumOrZero(row[cols[0]]) + CellTotal(row, cols[1..])
  }

  /** How many of the row's `cols` cells hold a number. */
  function PresentCount(row: Row, cols: seq<string>): nat
    requires HasColumns(row, cols)
  {
    if cols == [] then 0 else (if row[cols[0]].Num? then 1 else 0) + PresentCount(row, cols[1..])
  }

  /** How many of the row's `cols` cells hold exactly 1. */
  function OnesCount(row: Row, cols: seq<string>): nat
    requires HasColumns(row, cols)
  {
    if cols == [] then 0 else (if row[cols[0]] == Num(1.0) then 1 else 0) + OnesCount(row, cols[1..])
  }

  /** The row-wise skipping sum and count agree with the cell-by-cell reference. */
  lemma {:induction false} SkipnaMatchesReference(row: Row, cols: seq<string>)
    requires HasColumns(row, cols)
    ensures SkipnaSum(Values(row, cols)) == CellTotal(row, cols)
    ensures |DropMissing(Values(row, cols))| == PresentCount(row, cols)
  {
    if cols != [] {
      var xs := Values(row, cols);
      SkipnaMatchesReference(row, cols[1..]);
      assert xs[1..] == Values(row, cols[1..]);
      var head := if xs[0].Some? then [xs[0].value] else [];
      assert DropMissing(xs) == head + DropMissing(xs[1..]);
      TotalAppend(head, DropMissing(xs[1..]));
    }
  }

  /** Present values in [lo, hi] give a total between `count * lo` and `count * hi`, with at most |cols| present. */
  lemma {:induction false} CellTotalBounds(row: Row, cols: seq<string>, lo: real, hi: real)
    requires HasColumns(row, cols)
    requires forall j :: 0 <= j < |cols| && row[cols[j]].Num? ==> lo <= row[cols[j]].value <= hi
    ensures PresentCount(row, cols) <= |cols|
    ensures PresentCount(row, cols) as real * lo <= CellTotal(row, cols) <= PresentCount(row, cols) as real * hi
  {
    if cols != [] {
      var rest := cols[1..];
      assert forall j :: 0 <= j < |rest| ==> rest[j] == cols[j + 1];
      CellTotalBounds(row, rest, lo, hi);
      var c := PresentCount(row, rest) as real;
      var t := CellTotal(row, rest);
      if row[cols[0]].Num? {
        var v := row[cols[0]].value;
        assert lo <= v <= hi;
        assert CellTotal(row, cols) == v + t;
        BoundStep(c, t, v, lo, hi);
        assert PresentCount(row, cols) as real == c + 1.0;
      } else {
        assert CellTotal(row, cols) == t;
        assert PresentCount(row, cols) as real == c;
      }
    }
  }

  /** Adding one value in [lo, hi] to a total of `c` such values keeps the bounds for `c + 1`. */
  lemma BoundStep(c: real, t: real, v: real, lo: real, hi: real)
    requires c * lo <= t <= c * hi && lo <= v <= hi
    ensures (c + 1.0) * lo <= v + t <= (c + 1.0) * hi
  {
    assert (c + 1.0) * lo == c * lo + lo;
    assert (c + 1.0) * hi == c * hi + hi;
  }

  /** With every cell 0, 1 or missing, the total is the number of ones. */
  lemma {:induction false} TotalCountsOnes(row: Row, cols: seq<string>)
    requires HasColumns(row, cols)
    requires forall j :: 0 <= j < |cols| ==> row[cols[j]] in {Missing, Num(0.0), Num(1.0)}
    ensures CellTotal(row, cols) == OnesCount(row, cols) as real
  {
    if cols != [] {
      TotalCountsOnes(row, cols[1..]);
    }
  }

  // ---------- add_summary_scores ----------

  /** A total over a count as pandas divides it: 0 / 0 is NaN. */
  function Ratio(total: real, count: nat): (r: Cell)
    ensures r.Num? <==> count > 0
    ensures r.Num? ==> r.value * count as real == total
  {
    if count == 0 then Missing else Num(total / count as real)
  }

  /** `df[cols].sum(axis=1)` in one row: the total of the present numbers, 0 when none is present. */
  function RowSum(row: Row, cols: seq<string>): (r: real)
    requires HasColumns(row, cols)
    ensures r == CellTotal(row, cols)
  {
    SkipnaMatchesReference(row, cols);
    SkipnaSum(Values(row, cols))
  }

  /** `df[cols].mean(axis=1)` in one row: the mean of the present numbers, NaN when none is present. */
  function RowMean(row: Row, cols: seq<string>): (r: Cell)
    requires HasColumns(row, cols)
    ensures r == Ratio(CellTotal(row, cols), PresentCount(row, cols))
  {
    SkipnaMatchesReference(row, cols);
    OfNumber(SkipnaMean(Values(row, cols)))
  }

  /** One row with its summary cells assigned. */
  function SummaryRow(row: Row, n: nat, useAbs: bool, useCws: bool): (r: Row)
    requires RowHasInputs(row, n, useAbs, useCws)
    ensures r.Keys == row.Keys + NameSet(SummaryNames(useAbs, useCws))
  {
    var total := RowSum(row, Labels(CorrectPrefix, n));
    var base := row[TotalCorrect := Num(total)]
      [Accuracy := Ratio(total, n)]
      [MeanConf := RowMean(row, Labels(ConfPrefix, n))];
    var withAbs := if useAbs then base[TotalAbs := Num(RowSum(row, Labels(AbsPrefix, n)))] else base;
    if useCws then withAbs[TotalCws := Num(RowSum(row, Labels(CwsPrefix, n)))] else withAbs
  }

  /** Readiness over the whole input list is readiness of each of its four parts. */
  lemma SummaryReadyIff(f: Frame, n: nat, useAbs: bool, useCws: bool)
    ensures AllNumeric(f, SummaryInputs(n, useAbs, useCws)) <==> SummaryReady(f, n, useAbs, useCws)
  {
    var a := if useAbs then Labels(AbsPrefix, n) else [];
    var c := if useCws then Labels(CwsPrefix, n) else [];
    AllNumericAppend(f, Labels(CorrectPrefix, n), Labels(ConfPrefix, n));
    AllNumericAppend(f, Labels(CorrectPrefix, n) + Labels(ConfPrefix, n), a);
    AllNumericAppend(f, Labels(CorrectPrefix, n) + Labels(ConfPrefix, n) + a, c);
  }

  /** A ready frame carries every input in every row. */
  lemma ReadyRows(f: Frame, n: nat, useAbs: bool, useCws: bool)
    requires SummaryReady(f, n, useAbs, useCws)
    ensures forall k :: 0 <= k < |f.rows| ==> RowHasInputs(f.rows[k], n, useAbs, useCws)
  {
  }

  /**
   * `add_summary_scores(df, n, use_abs, use_cws)`. The source reads the
   * correctness columns, then confidence, then ABS, then CWS, one list at
   * a time; the first list with an absent column raises a `KeyError` that
   * lists all of that list's absent labels, while the model reports only
   * the first failing column in that order. Reading everything first and
   * then writing fails on the same list, since no write touches an input.
   */
  function AddSummaryScores(f: Frame, n: nat, useAbs: bool, useCws: bool): (r: Result<Frame, Error>)
    requires Valid(f)
    ensures r.Success? <==> SummaryReady(f, n, useAbs, useCws)
    ensures r.Success? ==> Valid(r.value) && |r.value.rows| == |f.rows|
    ensures r.Failure? ==> exists j ::
      && 0 <= j < |SummaryInputs(n, useAbs, useCws)|
      && !NumericColumn(f, SummaryInputs(n, useAbs, useCws)[j])
      && r.error == CheckNumeric(f, SummaryInputs(n, useAbs, useCws)[j]).error
      && forall j' :: 0 <= j' < j ==> NumericColumn(f, SummaryInputs(n, useAbs, useCws)[j'])
  {
    SummaryReadyIff(f, n, useAbs, useCws);
    :- CheckAllNumeric(f, SummaryInputs(n, useAbs, useCws));
    ReadyRows(f, n, useAbs, useCws);
    Success(Frame(
      AppendMissing(f.names, SummaryNames(useAbs, useCws)),
      seq(|f.rows|, k requires 0 <= k < |f.rows| => SummaryRow(f.rows[k], n, useAbs, useCws))))
  }

  /** `total_correct` and `accuracy` of one row, stated through the reference total. */
  predicate CorrectSummarised(src: Row, out: Row, n: nat)
    requires HasColumns(src, Labels(CorrectPrefix, n))
  {
    var total := CellTotal(src, Labels(CorrectPrefix, n));
    && TotalCorrect in out && out[TotalCorrect] == Num(total)
    && Accuracy in out && out[Accuracy] == Ratio(total, n)
  }

  /** `mean_conf` of one row: NaN when no confidence is present, else the mean of those present. */
  predicate ConfSummarised(src: Row, out: Row, n: nat)
    requires HasColumns(src, Labels(ConfPrefix, n))
  {
    var conf := Labels(ConfPrefix, n);
    MeanConf in out && out[MeanConf] == Ratio(CellTotal(src, conf), PresentCount(src, conf))
  }

  /** `total_abs` and `total_cws` of one row, when enabled. */
  predicate ScoresSummarised(src: Row, out: Row, n: nat, useAbs: bool, useCws: bool)
    requires RowHasInputs(src, n, useAbs, useCws)
  {
    && (useAbs ==> TotalAbs in out && out[TotalAbs] == Num(CellTotal(src, Labels(AbsPrefix, n))))
    && (useCws ==> TotalCws in out && out[TotalCws] == Num(CellTotal(src, Labels(CwsPrefix, n))))
  }

  /** The summary cells of one row, stated through the cell-by-cell reference totals. */
  predicate RowSummarised(src: Row, out: Row, n: nat, useAbs: bool, useCws: bool) {
    && RowHasInputs(src, n, useAbs, useCws)
    && CorrectSummarised(src, out, n)
    && ConfSummarised(src, out, n)
    && ScoresSummarised(src, out, n, useAbs, useCws)
  }

  lemma SummaryRowCorrect(row: Row, n: nat, useAbs: bool, useCws: bool)
    requires RowHasInputs(row, n, useAbs, useCws)
    ensures CorrectSummarised(row, SummaryRow(row, n, useAbs, useCws), n)
  {
  }

  lemma SummaryRowConf(row: Row, n: nat, useAbs: bool, useCws: bool)
    requires RowHasInputs(row, n, useAbs, useCws)
    ensures ConfSummarised(row, SummaryRow(row, n, useAbs, useCws), n)
  {
    SummaryLabelsDiffer();
  }

  lemma SummaryRowScores(row: Row, n: nat, useAbs: bool, useCws: bool)
    requires RowHasInputs(row, n, useAbs, useCws)
    ensures ScoresSummarised(row, SummaryRow(row, n, useAbs, useCws), n, useAbs, useCws)
  {
  }

  lemma SummaryRowKeeps(row: Row, n: nat, useAbs: bool, useCws: bool)
    requires RowHasInputs(row, n, useAbs, useCws)
    ensures Untouched(row, SummaryRow(row, n, useAbs, useCws), SummaryNames(useAbs, useCws))
  {
  }

  lemma SummaryRowSpec(row: Row, n: nat, useAbs: bool, useCws: bool)
    requires RowHasInputs(row, n, useAbs, useCws)
    ensures RowSummarised(row, SummaryRow(row, n, useAbs, useCws), n, useAbs, useCws)
    ensures Untouched(row, SummaryRow(row, n, useAbs, useCws), SummaryNames(useAbs, useCws))
  {
    SummaryRowCorrect(row, n, useAbs, useCws);
    SummaryRowConf(row, n, useAbs, useCws);
    SummaryRowScores(row, n, useAbs, useCws);
    SummaryRowKeeps(row, n, useAbs, useCws);
  }

  /**
   * On success every row gains `total_correct` (sum of present
   * correctness values, 0 when all are missing), `accuracy` (that total
   * over n, NaN for n = 0), `mean_conf` (mean of the present confidences,
   * NaN when none is present) and, when enabled, `total_abs` and
   * `total_cws`; new columns are appended in that order and every other
   * cell is kept.
   */
  lemma AddSummaryScoresSpec(f: Frame, n: nat, useAbs: bool, useCws: bool)
    requires Valid(f) && AddSummaryScores(f, n, useAbs, useCws).Success?
    ensures var g := AddSummaryScores(f, n, useAbs, useCws).value;
      && g.names == AppendMissing(f.names, SummaryNames(useAbs, useCws))
      && RowsUntouched(f, g, SummaryNames(useAbs, useCws))
      && forall k :: 0 <= k < |f.rows| ==> RowSummarised(f.rows[k], g.rows[k], n, useAbs, useCws)
  {
    var g := AddSummaryScores(f, n, useAbs, useCws).value;
    forall k | 0 <= k < |f.rows|
      ensures RowSummarised(f.rows[k], g.rows[k], n, useAbs, useCws)
      ensures Untouched(f.rows[k], g.rows[k], SummaryNames(useAbs, useCws))
    {
      SummaryRowSpec(f.rows[k], n, useAbs, useCws);
    }
  }

  /** Present cells of `cols` lie in [0, hi]. */
  predicate CellsWithin(row: Row, cols: seq<string>, hi: real)
    requires HasColumns(row, cols)
  {
    forall j :: 0 <= j < |cols| && row[cols[j]].Num? ==> 0.0 <= row[cols[j]].value <= hi
  }

  /** A ratio of a total lying between `count * lo` and `count * hi` lies in [lo, hi]. */
  lemma RatioBounds(total: real, count: nat, lo: real, hi: real)
    requires count as real * lo <= total <= count as real * hi
    ensures Ratio(total, count).Num? ==> lo <= Ratio(total, count).value <= hi
  {
    if count > 0 {
      var m := Ratio(total, count).value;
      assert m * count as real == total;
      ScaledBounds(m, count as real, lo, hi);
    }
  }

  /**
   * For correctness cells holding 0, 1 or nothing, `total_correct` counts
   * the correct answers, lies in [0, n], and accuracy lies in [0, 1].
   */
  lemma CorrectRanges(src: Row, out: Row, n: nat)
    requires HasColumns(src, Labels(CorrectPrefix, n)) && CorrectSummarised(src, out, n)
    requires forall j :: 0 <= j < n ==> src[Labels(CorrectPrefix, n)[j]] in {Missing, Num(0.0), Num(1.0)}
    ensures out[TotalCorrect] == Num(OnesCount(src, Labels(CorrectPrefix, n)) as real)
    ensures 0.0 <= out[TotalCorrect].value <= n as real
    ensures out[Accuracy].Num? ==> 0.0 <= out[Accuracy].value <= 1.0
  {
    var correct := Labels(CorrectPrefix, n);
    TotalCountsOnes(src, correct);
    CellTotalBounds(src, correct, 0.0, 1.0);
    RatioBounds(CellTotal(src, correct), n, 0.0, 1.0);
  }

  /** For ratings in [1, 7], `mean_conf` (when present) lies in [1, 7]. */
  lemma ConfRange(src: Row, out: Row, n: nat)
    requires HasColumns(src, Labels(ConfPrefix, n)) && ConfSummarised(src, out, n)
    requires forall j :: 0 <= j < n && src[Labels(ConfPrefix, n)[j]].Num? ==>
      1.0 <= src[Labels(ConfPrefix, n)[j]].value <= 7.0
    ensures out[MeanConf].Num? ==> 1.0 <= out[MeanConf].value <= 7.0
  {
    var conf := Labels(ConfPrefix, n);
    CellTotalBounds(src, conf, 1.0, 7.0);
    RatioBounds(CellTotal(src, conf), PresentCount(src, conf), 1.0, 7.0);
  }

  /** Per-question ABS in [0, 1.5] and CWS in [0, 1] give totals in [0, 1.5 n] and [0, n]. */
  lemma ScoreTotalRanges(src: Row, out: Row, n: nat, useAbs: bool, useCws: bool)
    requires RowHasInputs(src, n, useAbs, useCws) && ScoresSummarised(src, out, n, useAbs, useCws)
    requires useAbs ==> CellsWithin(src, Labels(AbsPrefix, n), 1.5)
    requires useCws ==> CellsWithin(src, Labels(CwsPrefix, n), 1.0)
    ensures useAbs ==> 0.0 <= out[TotalAbs].value <= 1.5 * n as real
    ensures useCws ==> 0.0 <= out[TotalCws].value <= n as real
  {
    if useAbs {
      var abs := Labels(AbsPrefix, n);
      CellTotalBounds(src, abs, 0.0, 1.5);
      var c := PresentCount(src, abs) as real;
      assert c <= n as real;
      assert c * 1.5 <= 1.5 * n as real;
      assert out[TotalAbs].value == CellTotal(src, abs);
    }
    if useCws {
      var cws := Labels(CwsPrefix, n);
      CellTotalBounds(src, cws, 0.0, 1.0);
      assert out[TotalCws].value == CellTotal(src, cws);
    }
  }

  /** Summarising an already summarised frame again returns it unchanged. */
  lemma AddSummaryScoresIdempotent(f: Frame, n: nat, useAbs: bool, useCws: bool)
    requires Valid(f) && AddSummaryScores(f, n, useAbs, useCws).Success?
    ensures var g := AddSummaryScores(f, n, useAbs, useCws).value;
      AddSummaryScores(g, n, useAbs, useCws) == Success(g)
  {
    var g := AddSummaryScores(f, n, useAbs, useCws).value;
    AddSummaryScoresKeeps(f, n, useAbs, useCws);
    SummaryKeepsInputs(f, g, n, useAbs, useCws);
    SummaryNamesFixed(g, n, useAbs, useCws);
    SummaryRowsFixed(f, g, n, useAbs, useCws);
    var h := AddSummaryScores(g, n, useAbs, useCws).value;
    assert h.names == g.names && h.rows == g.rows;
  }

  /** Summarising a frame that already has every summary column adds no column. */
  lemma SummaryNamesFixed(g: Frame, n: nat, useAbs: bool, useCws: bool)
    requires Valid(g) && SummaryReady(g, n, useAbs, useCws)
    requires NameSet(SummaryNames(useAbs, useCws)) <= NameSet(g.names)
    ensures AddSummaryScores(g, n, useAbs, useCws).value.names == g.names
  {
    var names := SummaryNames(useAbs, useCws);
    forall j | 0 <= j < |names|
      ensures names[j] in g.names
    {
      assert names[j] in NameSet(names);
      assert names[j] in NameSet(g.names);
    }
    AppendMissingPresent(g.names, names);
  }

  /** Every row of a summarised frame is unchanged by summarising it again. */
  lemma SummaryRowsFixed(f: Frame, g: Frame, n: nat, useAbs: bool, useCws: bool)
    requires Valid(f) && Valid(g) && AddSummaryScores(f, n, useAbs, useCws) == Success(g)
    requires AddSummaryScores(g, n, useAbs, useCws).Success?
    requires forall k :: 0 <= k < |f.rows| ==> InputsSame(f.rows[k], g.rows[k], n, useAbs, useCws)
    ensures AddSummaryScores(g, n, useAbs, useCws).value.rows == g.rows
  {
    var h := AddSummaryScores(g, n, useAbs, useCws).value;
    forall k | 0 <= k < |g.rows|
      ensures h.rows[k] == g.rows[k]
    {
      SummaryRowFixed(f, g, n, useAbs, useCws, k);
    }
  }

  /** Row `k` of a summarised frame is unchanged by summarising it again. */
  lemma SummaryRowFixed(f: Frame, g: Frame, n: nat, useAbs: bool, useCws: bool, k: nat)
    requires Valid(f) && Valid(g) && AddSummaryScores(f, n, useAbs, useCws) == Success(g)
    requires AddSummaryScores(g, n, useAbs, useCws).Success? && k < |g.rows|
    requires InputsSame(f.rows[k], g.rows[k], n, useAbs, useCws)
    ensures AddSummaryScores(g, n, useAbs, useCws).value.rows[k] == g.rows[k]
  {
    AddSummaryScoresRow(f, n, useAbs, useCws, k);
    SummaryRowAgain(f.rows[k], g.rows[k], n, useAbs, useCws);
    AddSummaryScoresRow(g, n, useAbs, useCws, k);
  }

  /** The summaries are appended after the existing columns and every other cell is kept. */
  lemma AddSummaryScoresKeeps(f: Frame, n: nat, useAbs: bool, useCws: bool)
    requires Valid(f) && AddSummaryScores(f, n, useAbs, useCws).Success?
    ensures var g := AddSummaryScores(f, n, useAbs, useCws).value;
      && g.names == AppendMissing(f.names, SummaryNames(useAbs, useCws))
      && RowsUntouched(f, g, SummaryNames(useAbs, useCws))
  {
    var g := AddSummaryScores(f, n, useAbs, useCws).value;
    forall k | 0 <= k < |f.rows|
      ensures Untouched(f.rows[k], g.rows[k], SummaryNames(useAbs, useCws))
    {
      AddSummaryScoresRow(f, n, useAbs, useCws, k);
      SummaryRowKeeps(f.rows[k], n, useAbs, useCws);
    }
  }

  /** Row `k` of the result is row `k` of the input with its summary cells assigned. */
  lemma AddSummaryScoresRow(f: Frame, n: nat, useAbs: bool, useCws: bool, k: nat)
    requires Valid(f) && AddSummaryScores(f, n, useAbs, useCws).Success? && k < |f.rows|
    ensures RowHasInputs(f.rows[k], n, useAbs, useCws)
    ensures AddSummaryScores(f, n, useAbs, useCws).value.rows[k] == SummaryRow(f.rows[k], n, useAbs, useCws)
  {
    ReadyRows(f, n, useAbs, useCws);
  }

  /** No question label is a summary column. */
  lemma LabelNotSummary(prefix: string, i: nat, useAbs: bool, useCws: bool)
    ensures Label(prefix, i) !in SummaryNames(useAbs, useCws)
  {
    forall x | x in SummaryNames(useAbs, useCws)
      ensures x != Label(prefix, i)
    {
      PlainNameIsNoLabel(x, prefix, i);
    }
  }

  /** No label of `Labels(prefix, n)` is a summary column. */
  lemma LabelsNotSummary(prefix: string, n: nat, useAbs: bool, useCws: bool)
    ensures forall j :: 0 <= j < n ==> Labels(prefix, n)[j] !in SummaryNames(useAbs, useCws)
  {
    forall j | 0 <= j < n
      ensures Labels(prefix, n)[j] !in SummaryNames(useAbs, useCws)
    {
      LabelNotSummary(prefix, j + 1, useAbs, useCws);
    }
  }

  /** The cells the summaries read are the same in both rows. */
  predicate InputsSame(r1: Row, r2: Row, n: nat, useAbs: bool, useCws: bool) {
    && SameCells(r1, r2, Labels(CorrectPrefix, n))
    && SameCells(r1, r2, Labels(ConfPrefix, n))
    && SameCells(r1, r2, Labels(AbsPrefix, n))
    && SameCells(r1, r2, Labels(CwsPrefix, n))
  }

  /** Writing the summaries leaves every input readable and unchanged. */
  lemma SummaryKeepsInputs(f: Frame, g: Frame, n: nat, useAbs: bool, useCws: bool)
    requires Valid(f) && Valid(g)
    requires NameSet(g.names) == NameSet(f.names) + NameSet(SummaryNames(useAbs, useCws))
    requires RowsUntouched(f, g, SummaryNames(useAbs, useCws)) && SummaryReady(f, n, useAbs, useCws)
    ensures SummaryReady(g, n, useAbs, useCws)
    ensures forall k :: 0 <= k < |f.rows| ==> InputsSame(f.rows[k], g.rows[k], n, useAbs, useCws)
  {
    var names := SummaryNames(useAbs, useCws);
    LabelsNotSummary(CorrectPrefix, n, useAbs, useCws);
    LabelsNotSummary(ConfPrefix, n, useAbs, useCws);
    LabelsNotSummary(AbsPrefix, n, useAbs, useCws);
    LabelsNotSummary(CwsPrefix, n, useAbs, useCws);
    ColumnsKept(f, g, names, Labels(CorrectPrefix, n));
    ColumnsKept(f, g, names, Labels(ConfPrefix, n));
    ColumnsKept(f, g, names, Labels(AbsPrefix, n));
    ColumnsKept(f, g, names, Labels(CwsPrefix, n));
  }

  /** The reference total and count read only the cells of `cols`. */
  lemma {:induction false} CellTotalSame(r1: Row, r2: Row, cols: seq<string>)
    requires HasColumns(r1, cols) && SameCells(r1, r2, cols)
    ensures HasColumns(r2, cols)
    ensures CellTotal(r2, cols) == CellTotal(r1, cols) && PresentCount(r2, cols) == PresentCount(r1, cols)
  {
    if cols != [] {
      CellTotalSame(r1, r2, cols[1..]);
    }
  }

  /** Two summarised rows over the same inputs carry the same summary cells. */
  lemma SummaryCellsAgree(src: Row, out: Row, again: Row, n: nat, useAbs: bool, useCws: bool)
    requires RowSummarised(src, out, n, useAbs, useCws) && RowSummarised(out, again, n, useAbs, useCws)
    requires InputsSame(src, out, n, useAbs, useCws)
    ensures forall x :: x in SummaryNames(useAbs, useCws) ==> x in out && x in again && again[x] == out[x]
  {
    CellTotalSame(src, out, Labels(CorrectPrefix, n));
    CellTotalSame(src, out, Labels(ConfPrefix, n));
    if useAbs {
      CellTotalSame(src, out, Labels(AbsPrefix, n));
    }
    if useCws {
      CellTotalSame(src, out, Labels(CwsPrefix, n));
    }
  }

  /** A row whose inputs are unchanged and whose summary cells are already right is a fixed point. */
  lemma SummaryRowAgain(src: Row, out: Row, n: nat, useAbs: bool, useCws: bool)
    requires RowHasInputs(src, n, useAbs, useCws) && InputsSame(src, out, n, useAbs, useCws)
    requires out == SummaryRow(src, n, useAbs, useCws)
    ensures RowHasInputs(out, n, useAbs, useCws)
    ensures SummaryRow(out, n, useAbs, useCws) == out
  {
    CellTotalSame(src, out, Labels(CorrectPrefix, n));
    CellTotalSame(src, out, Labels(ConfPrefix, n));
    if useAbs {
      CellTotalSame(src, out, Labels(AbsPrefix, n));
    }
    if useCws {
      CellTotalSame(src, out, Labels(CwsPrefix, n));
    }
    SummaryRowSpec(src, n, useAbs, useCws);
    SummaryRowSpec(out, n, useAbs, useCws);
    var again := SummaryRow(out, n, useAbs, useCws);
    SummaryCellsAgree(src, out, again, n, useAbs, useCws);
    assert again.Keys == out.Keys;
    forall x | x in out
      ensures again[x] == out[x]
    {
      if x in SummaryNames(useAbs, useCws) {
      } else {
        assert again[x] == out[x];
      }
    }
  }
}
