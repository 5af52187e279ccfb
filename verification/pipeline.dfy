/**
 * `make_processed`: stack the two sheets, tidy them, add the per-question
 * scores with ABS and CWS switched on, then the participant totals. Writing
 * the CSV file and the printed messages are not modelled.
 */
module Pipeline {
  import opened Wrappers
  import opened Strings
  import opened Seqs
  import opened Frames
  import opened Scoring
  import opened Summary
  import opened Cleaning
  import opened Combine

  function MakeProcessed(cg: Frame, eg: Frame, n: nat, isDate: Cell -> bool,
                         parse: string -> Option<real>, render: Cell -> string): (r: Result<Frame, Error>)
    requires Valid(cg) && Valid(eg)
    ensures r.Success? ==> Valid(r.value)
  {
    var tidy :- TidyColumns(LoadAndCombine(cg, eg, isDate), n, parse, render);
    var scored :- AddQuestionScores(tidy.table, n, true, true);
    AddSummaryScores(scored, n, true, true)
  }

  /** A tidied table has readable `correct_i` and `conf_i` columns for every question. */
  lemma TidyReady(f: Frame, n: nat, parse: string -> Option<real>, render: Cell -> string)
    requires Valid(f) && TidyColumns(f, n, parse, render).Success?
    ensures InputsReady(TidyColumns(f, n, parse, render).value.table, n, true, true)
  {
    forall i | 1 <= i <= n
      ensures QuestionReady(TidyColumns(f, n, parse, render).value.table, i, true, true)
    {
      TidyColumnsNumeric(f, n, parse, render, i);
    }
  }

  /** After scoring, every input of the totals is readable: the kept inputs and the new ABS/CWS columns. */
  lemma ScoredSummaryReady(t: Frame, n: nat)
    requires Valid(t) && InputsReady(t, n, true, true)
    ensures AddQuestionScores(t, n, true, true).Success?
    ensures SummaryReady(AddQuestionScores(t, n, true, true).value, n, true, true)
  {
    AddQuestionScoresSucceeds(t, n, true, true);
    var g := AddQuestionScores(t, n, true, true).value;
    AddQuestionScoresSpec(t, n, true, true);
    ScoredInputsKept(t, g, n);
    ScoredScoresNumeric(t, g, n);
  }

  /** Scoring writes only `p_i`, `abs_i`, `cws_i`, so readable `correct_i` / `conf_i` columns stay readable. */
  lemma ScoredInputsKept(t: Frame, g: Frame, n: nat)
    requires Valid(t) && Valid(g) && InputsReady(t, n, true, true)
    requires g.names == AppendMissing(t.names, ScoreNames(n, true, true))
    requires RowsUntouched(t, g, ScoreNames(n, true, true))
    ensures AllNumeric(g, Labels(CorrectPrefix, n)) && AllNumeric(g, Labels(ConfPrefix, n))
  {
    var written := ScoreNames(n, true, true);
    var correct := Labels(CorrectPrefix, n);
    var conf := Labels(ConfPrefix, n);
    forall j | 0 <= j < n
      ensures correct[j] !in written && conf[j] !in written
      ensures NumericColumn(t, correct[j]) && NumericColumn(t, conf[j])
    {
      InputsNotWritten(n, true, true, j + 1);
      assert QuestionReady(t, j + 1, true, true);
    }
    ColumnsKept(t, g, written, correct);
    ColumnsKept(t, g, written, conf);
  }

  lemma ScoredScoresNumeric(t: Frame, g: Frame, n: nat)
    requires Valid(t) && Valid(g)
    requires g.names == AppendMissing(t.names, ScoreNames(n, true, true)) && |g.rows| == |t.rows|
    requires forall k :: 0 <= k < |t.rows| ==> AllScored(t.rows[k], g.rows[k], n, true, true)
    ensures AllNumeric(g, Labels(AbsPrefix, n)) && AllNumeric(g, Labels(CwsPrefix, n))
  {
    forall j | 0 <= j < n
      ensures NumericColumn(g, Labels(AbsPrefix, n)[j]) && NumericColumn(g, Labels(CwsPrefix, n)[j])
    {
      ScoredColumnNumeric(t, g, n, j + 1);
    }
  }

  /** The i-th ABS and CWS columns of a scored table exist and hold no text. */
  lemma ScoredColumnNumeric(t: Frame, g: Frame, n: nat, i: nat)
    requires Valid(t) && Valid(g) && 1 <= i <= n
    requires g.names == AppendMissing(t.names, ScoreNames(n, true, true)) && |g.rows| == |t.rows|
    requires forall k :: 0 <= k < |t.rows| ==> AllScored(t.rows[k], g.rows[k], n, true, true)
    ensures NumericColumn(g, AbsCol(i)) && NumericColumn(g, CwsCol(i))
  {
    ScoreNamesContains(n, i, true, true, AbsCol(i));
    ScoreNamesContains(n, i, true, true, CwsCol(i));
    assert AbsCol(i) in NameSet(g.names) && CwsCol(i) in NameSet(g.names);
    forall k | 0 <= k < |g.rows|
      ensures AbsCol(i) in g.rows[k] && !g.rows[k][AbsCol(i)].Text?
      ensures CwsCol(i) in g.rows[k] && !g.rows[k][CwsCol(i)].Text?
    {
      assert RowScored(t.rows[k], g.rows[k], i, true, true);
    }
  }

  /**
   * The pipeline fails only where `tidy_columns` fails: once the columns
   * are tidied, scoring and the totals always find readable inputs.
   */
  lemma MakeProcessedSucceeds(cg: Frame, eg: Frame, n: nat, isDate: Cell -> bool,
                              parse: string -> Option<real>, render: Cell -> string)
    requires Valid(cg) && Valid(eg)
    ensures MakeProcessed(cg, eg, n, isDate, parse, render).Success? <==>
      TidyColumns(LoadAndCombine(cg, eg, isDate), n, parse, render).Success?
  {
    var f := LoadAndCombine(cg, eg, isDate);
    if TidyColumns(f, n, parse, render).Success? {
      var t := TidyColumns(f, n, parse, render).value.table;
      TidyReady(f, n, parse, render);
      ScoredSummaryReady(t, n);
    }
  }

  /** A derived score column never collides with a tidied column. */
  lemma ScoreNamesFresh(n: nat, x: string)
    requires x in ScoreNames(n, true, true)
    ensures x !in TidyNames(n)
  {
    ScoreNamesMember(n, true, true, x);
    var i :| 1 <= i <= n && x in QuestionNames(i, true, true);
    QuestionNamesCases(i, true, true, x);
    DerivedNotTidy(n, i, x);
  }

  /** A derived column of question `i` sits at no position of the tidied columns. */
  lemma DerivedNotTidy(n: nat, i: nat, x: string)
    requires x == ProbCol(i) || x == AbsCol(i) || x == CwsCol(i)
    ensures x !in TidyNames(n)
  {
    forall k | 0 <= k < |TidyNames(n)|
      ensures TidyNames(n)[k] != x
    {
      TidyAtNotDerived(n, i, k);
    }
  }

  /** Position `k` of the tidied columns holds none of question `i`'s derived columns. */
  lemma TidyAtNotDerived(n: nat, i: nat, k: nat)
    requires k < |TidyNames(n)|
    ensures var y := TidyNames(n)[k]; y != ProbCol(i) && y != AbsCol(i) && y != CwsCol(i)
  {
    if k < 2 {
      TidyNameAt(n, k);
      KeysNotDerived(i);
    } else if k < 2 + n {
      TidyCorrectAt(n, k - 1);
      InputsNotDerived(i, k - 1);
    } else {
      TidyConfAt(n, k - 1 - n);
      InputsNotDerived(i, k - 1 - n);
    }
  }

  /** The key columns are never derived columns. */
  lemma KeysNotDerived(i: nat)
    ensures Participant != ProbCol(i) && Participant != AbsCol(i) && Participant != CwsCol(i)
    ensures Group != ProbCol(i) && Group != AbsCol(i) && Group != CwsCol(i)
  {
    PlainNameIsNoLabel(Participant, ProbPrefix, i);
    PlainNameIsNoLabel(Participant, AbsPrefix, i);
    PlainNameIsNoLabel(Participant, CwsPrefix, i);
    PlainNameIsNoLabel(Group, ProbPrefix, i);
    PlainNameIsNoLabel(Group, AbsPrefix, i);
    PlainNameIsNoLabel(Group, CwsPrefix, i);
  }

  /** A summary column never collides with a tidied or a derived column. */
  lemma SummaryNamesFresh(n: nat, x: string)
    requires x in SummaryNames(true, true)
    ensures x !in TidyNames(n) + ScoreNames(n, true, true)
  {
    if x in TidyNames(n) {
      TidyNamesMember(n, x);
      if x != Participant && x != Group {
        var j :| 1 <= j <= n && (x == CorrectCol(j) || x == ConfCol(j));
        LabelNotSummary(CorrectPrefix, j, true, true);
        LabelNotSummary(ConfPrefix, j, true, true);
      }
    }
    if x in ScoreNames(n, true, true) {
      ScoreNamesMember(n, true, true, x);
      var i :| 1 <= i <= n && x in QuestionNames(i, true, true);
      LabelNotSummary(ProbPrefix, i, true, true);
      LabelNotSummary(AbsPrefix, i, true, true);
      LabelNotSummary(CwsPrefix, i, true, true);
    }
  }

  /**
   * The processed table's columns are exactly `participant, group,
   * correct_1..N, conf_1..N`, then `p_i, abs_i, cws_i` question by
   * question, then `total_correct, accuracy, mean_conf, total_abs,
   * total_cws`: every step appends only new columns.
   */
  lemma MakeProcessedNames(cg: Frame, eg: Frame, n: nat, isDate: Cell -> bool,
                           parse: string -> Option<real>, render: Cell -> string)
    requires Valid(cg) && Valid(eg) && MakeProcessed(cg, eg, n, isDate, parse, render).Success?
    ensures MakeProcessed(cg, eg, n, isDate, parse, render).value.names ==
      TidyNames(n) + ScoreNames(n, true, true) + SummaryNames(true, true)
  {
    var t := TidyColumns(LoadAndCombine(cg, eg, isDate), n, parse, render).value.table;
    ScoredNames(t, n);
    SummarisedNames(AddQuestionScores(t, n, true, true).value, n);
  }

  /** Scoring a tidied table appends `p_i, abs_i, cws_i` for every question after the tidied columns. */
  lemma ScoredNames(t: Frame, n: nat)
    requires Valid(t) && t.names == TidyNames(n) && AddQuestionScores(t, n, true, true).Success?
    ensures AddQuestionScores(t, n, true, true).value.names == TidyNames(n) + ScoreNames(n, true, true)
  {
    AddQuestionScoresNames(t, n, true, true);
    ScoreNamesDistinct(n, true, true);
    forall j | 0 <= j < |ScoreNames(n, true, true)|
      ensures ScoreNames(n, true, true)[j] !in t.names
    {
      ScoreNamesFresh(n, ScoreNames(n, true, true)[j]);
    }
    AppendMissingFresh(t.names, ScoreNames(n, true, true));
  }

  /** The totals of a scored table are appended after all its columns. */
  lemma SummarisedNames(g: Frame, n: nat)
    requires Valid(g) && g.names == TidyNames(n) + ScoreNames(n, true, true)
    requires AddSummaryScores(g, n, true, true).Success?
    ensures AddSummaryScores(g, n, true, true).value.names == g.names + SummaryNames(true, true)
  {
    AddSummaryScoresNames(g, n, true, true);
    SummaryNamesDistinct(true, true);
    forall j | 0 <= j < |SummaryNames(true, true)|
      ensures SummaryNames(true, true)[j] !in g.names
    {
      SummaryNamesFresh(n, SummaryNames(true, true)[j]);
    }
    AppendMissingFresh(g.names, SummaryNames(true, true));
  }

  // ---------- Ranges carried through the pipeline ----------

  /** The survey's scales: every `correct_i` is 0, 1 or missing, every present `conf_i` a rating in [1, 7]. */
  predicate OnScale(row: Row, n: nat) {
    forall i :: 1 <= i <= n ==>
      && CorrectCol(i) in row && row[CorrectCol(i)] in {Missing, Num(0.0), Num(1.0)}
      && ConfCol(i) in row && (row[ConfCol(i)].Num? ==> 1.0 <= row[ConfCol(i)].value <= 7.0)
  }

  /** On the survey's scales every ABS cell lies in [0, 1.5] and every CWS cell in [0, 1]. */
  lemma ScoredCellsInRange(src: Row, out: Row, n: nat)
    requires OnScale(src, n) && AllScored(src, out, n, true, true)
    ensures HasColumns(out, Labels(AbsPrefix, n)) && HasColumns(out, Labels(CwsPrefix, n))
    ensures CellsWithin(out, Labels(AbsPrefix, n), 1.5) && CellsWithin(out, Labels(CwsPrefix, n), 1.0)
  {
    var abs := Labels(AbsPrefix, n);
    var cws := Labels(CwsPrefix, n);
    forall j | 0 <= j < n
      ensures abs[j] in out && (out[abs[j]].Num? ==> 0.0 <= out[abs[j]].value <= 1.5)
      ensures cws[j] in out && (out[cws[j]].Num? ==> 0.0 <= out[cws[j]].value <= 1.0)
    {
      var i := j + 1;
      assert abs[j] == AbsCol(i) && cws[j] == CwsCol(i);
      assert RowScored(src, out, i, true, true);
      var p := ProbCell(src[ConfCol(i)]);
      if p.Num? {
        AugmentedBrierRange(p.value);
        ConfidenceWeightedRange(p.value);
      }
    }
  }

  /** Cells of `correct_i` / `conf_i` are the same in two rows. */
  predicate SameInputs(r1: Row, r2: Row, n: nat) {
    forall i :: 1 <= i <= n ==>
      && CorrectCol(i) in r1 && CorrectCol(i) in r2 && r1[CorrectCol(i)] == r2[CorrectCol(i)]
      && ConfCol(i) in r1 && ConfCol(i) in r2 && r1[ConfCol(i)] == r2[ConfCol(i)]
  }

  /** Steps that write only derived or summary columns leave `correct_i` / `conf_i` as they were. */
  lemma InputsCarried(t: Row, g: Row, h: Row, n: nat)
    requires forall i :: 1 <= i <= n ==> CorrectCol(i) in t && ConfCol(i) in t
    requires Untouched(t, g, ScoreNames(n, true, true)) && Untouched(g, h, SummaryNames(true, true))
    ensures SameInputs(t, h, n) && SameInputs(g, h, n)
  {
    forall i | 1 <= i <= n
      ensures CorrectCol(i) !in ScoreNames(n, true, true) && ConfCol(i) !in ScoreNames(n, true, true)
      ensures CorrectCol(i) !in SummaryNames(true, true) && ConfCol(i) !in SummaryNames(true, true)
    {
      InputsNotWritten(n, true, true, i);
      LabelNotSummary(CorrectPrefix, i, true, true);
      LabelNotSummary(ConfPrefix, i, true, true);
    }
  }

  /**
   * The participant totals within their ranges: `total_correct` between 0
   * and N, `accuracy` in [0, 1], `mean_conf` in [1, 7], `total_abs` in
   * [0, 1.5 N] and `total_cws` in [0, N] (a missing ratio is allowed).
   */
  predicate TotalsInRange(h: Row, n: nat) {
    && TotalCorrect in h && h[TotalCorrect].Num? && 0.0 <= h[TotalCorrect].value <= n as real
    && Accuracy in h && (h[Accuracy].Num? ==> 0.0 <= h[Accuracy].value <= 1.0)
    && MeanConf in h && (h[MeanConf].Num? ==> 1.0 <= h[MeanConf].value <= 7.0)
    && TotalAbs in h && h[TotalAbs].Num? && 0.0 <= h[TotalAbs].value <= 1.5 * n as real
    && TotalCws in h && h[TotalCws].Num? && 0.0 <= h[TotalCws].value <= n as real
  }

  /**
   * For one participant whose answers are on the survey's scales, the
   * totals land in their ranges: `total_correct` counts the correct
   * answers (between 0 and N), `accuracy` is in [0, 1], `mean_conf` in
   * [1, 7], `total_abs` in [0, 1.5 N] and `total_cws` in [0, N].
   */
  lemma RowTotalsInRange(t: Row, g: Row, h: Row, n: nat)
    requires OnScale(t, n) && AllScored(t, g, n, true, true) && RowSummarised(g, h, n, true, true)
    requires SameInputs(t, g, n)
    ensures TotalsInRange(h, n)
    ensures h[TotalCorrect] == Num(OnesCount(g, Labels(CorrectPrefix, n)) as real)
  {
    var correct := Labels(CorrectPrefix, n);
    var conf := Labels(ConfPrefix, n);
    forall j | 0 <= j < n
      ensures g[correct[j]] in {Missing, Num(0.0), Num(1.0)}
      ensures g[conf[j]].Num? ==> 1.0 <= g[conf[j]].value <= 7.0
    {
      assert correct[j] == CorrectCol(j + 1) && conf[j] == ConfCol(j + 1);
    }
    CorrectRanges(g, h, n);
    ConfRange(g, h, n);
    ScoredCellsInRange(t, g, n);
    ScoreTotalRanges(g, h, n, true, true);
  }

  /**
   * In the processed table, a participant whose `correct_i` and `conf_i`
   * cells are on the survey's scales has every ABS cell in [0, 1.5],
   * every CWS cell in [0, 1], and totals within their ranges.
   */
  lemma MakeProcessedRanges(cg: Frame, eg: Frame, n: nat, isDate: Cell -> bool,
                            parse: string -> Option<real>, render: Cell -> string, k: nat)
    requires Valid(cg) && Valid(eg) && MakeProcessed(cg, eg, n, isDate, parse, render).Success?
    requires k < |MakeProcessed(cg, eg, n, isDate, parse, render).value.rows|
    requires OnScale(MakeProcessed(cg, eg, n, isDate, parse, render).value.rows[k], n)
    ensures var h := MakeProcessed(cg, eg, n, isDate, parse, render).value.rows[k];
      && HasColumns(h, Labels(AbsPrefix, n)) && HasColumns(h, Labels(CwsPrefix, n))
      && CellsWithin(h, Labels(AbsPrefix, n), 1.5) && CellsWithin(h, Labels(CwsPrefix, n), 1.0)
      && TotalsInRange(h, n)
  {
    var f := LoadAndCombine(cg, eg, isDate);
    var t := TidyColumns(f, n, parse, render).value.table;
    var g := AddQuestionScores(t, n, true, true).value;
    var h := AddSummaryScores(g, n, true, true).value;
    AddQuestionScoresSpec(t, n, true, true);
    AddSummaryScoresSpec(g, n, true, true);
    TidyReady(f, n, parse, render);
    forall i | 1 <= i <= n
      ensures CorrectCol(i) in t.rows[k] && ConfCol(i) in t.rows[k]
    {
      assert QuestionReady(t, i, true, true);
    }
    RowStagesInRange(t.rows[k], g.rows[k], h.rows[k], n);
  }

  /** One row through scoring and totals: on the survey's scales its ABS, CWS and totals stay in range. */
  lemma RowStagesInRange(t: Row, g: Row, h: Row, n: nat)
    requires OnScale(h, n) && forall i :: 1 <= i <= n ==> CorrectCol(i) in t && ConfCol(i) in t
    requires AllScored(t, g, n, true, true) && Untouched(t, g, ScoreNames(n, true, true))
    requires RowSummarised(g, h, n, true, true) && Untouched(g, h, SummaryNames(true, true))
    ensures HasColumns(h, Labels(AbsPrefix, n)) && HasColumns(h, Labels(CwsPrefix, n))
    ensures CellsWithin(h, Labels(AbsPrefix, n), 1.5) && CellsWithin(h, Labels(CwsPrefix, n), 1.0)
    ensures TotalsInRange(h, n)
  {
    InputsCarried(t, g, h, n);
    assert OnScale(t, n);
    assert SameInputs(t, g, n);
    RowTotalsInRange(t, g, h, n);
    ScoredCellsInRange(t, g, n);
    ScoresCarried(g, h, n);
  }

  /** The totals step leaves the ABS and CWS cells as they were. */
  lemma ScoresCarried(g: Row, h: Row, n: nat)
    requires HasColumns(g, Labels(AbsPrefix, n)) && HasColumns(g, Labels(CwsPrefix, n))
    requires Untouched(g, h, SummaryNames(true, true))
    ensures HasColumns(h, Labels(AbsPrefix, n)) && HasColumns(h, Labels(CwsPrefix, n))
    ensures SameCells(g, h, Labels(AbsPrefix, n)) && SameCells(g, h, Labels(CwsPrefix, n))
  {
    LabelsNotSummary(AbsPrefix, n, true, true);
    LabelsNotSummary(CwsPrefix, n, true, true);
  }
}
