/**
 * Per-question scoring of the study: confidence ratings become
 * probabilities, and each (probability, correctness) pair gets an
 * Augmented Brier Score and a confidence-weighted score.
 */
module Scoring {
  import opened Wrappers
  import opened Strings
  import opened Seqs
  import opened Frames

  // ---------- Formulas on exact reals ----------

  /** Maps a 1-7 confidence rating linearly onto [0, 1]; no clamping, so any real extrapolates. */
  function ConfidenceToProb(c: real): (p: real)
    ensures 6.0 * p + 1.0 == c
    ensures 1.0 <= c <= 7.0 <==> 0.0 <= p <= 1.0
  {
    (c - 1.0) / 6.0
  }

  /** Fixed points of the rating scale and the unit step of the linear map. */
  lemma ConfidenceToProbScale(c: real)
    ensures ConfidenceToProb(1.0) == 0.0 && ConfidenceToProb(7.0) == 1.0 && ConfidenceToProb(4.0) == 0.5
    ensures ConfidenceToProb(c + 6.0) - ConfidenceToProb(c) == 1.0
    ensures c < 1.0 ==> ConfidenceToProb(c) < 0.0
    ensures c > 7.0 ==> ConfidenceToProb(c) > 1.0
  {
  }

  /** Products of non-negative (positive) reals are non-negative (positive). */
  lemma ProductSign(a: real, b: real)
    ensures a >= 0.0 && b >= 0.0 ==> a * b >= 0.0
    ensures a > 0.0 && b > 0.0 ==> a * b > 0.0
  {
  }

  /** Augmented Brier Score `(1 - (p - y)^2) + 0.5 y`. */
  function AugmentedBrier(p: real, y: real): (s: real)
    ensures y == 0.0 ==> s == 1.0 - p * p
    ensures y == 1.0 ==> s == 1.5 - (1.0 - p) * (1.0 - p)
  {
    (1.0 - (p - y) * (p - y)) + 0.5 * y
  }

  /** For p in [0, 1], a wrong answer scores in [0, 1] and a correct one in [0.5, 1.5]. */
  lemma AugmentedBrierRange(p: real)
    requires 0.0 <= p <= 1.0
    ensures 0.0 <= AugmentedBrier(p, 0.0) <= 1.0
    ensures 0.5 <= AugmentedBrier(p, 1.0) <= 1.5
  {
    ProductSign(p, p);
    ProductSign(p, 1.0 - p);
    ProductSign(1.0 - p, 1.0 - p);
    ProductSign(1.0 - p, p);
    assert p * p == p - p * (1.0 - p);
    assert (1.0 - p) * (1.0 - p) == (1.0 - p) - (1.0 - p) * p;
  }

  /** The corner values of ABS. */
  lemma AugmentedBrierCorners()
    ensures AugmentedBrier(1.0, 1.0) == 1.5 && AugmentedBrier(0.0, 1.0) == 0.5
    ensures AugmentedBrier(1.0, 0.0) == 0.0 && AugmentedBrier(0.0, 0.0) == 1.0
  {
  }

  /** More confidence lowers the score of a wrong answer and raises that of a correct one. */
  lemma AugmentedBrierMonotone(p: real, q: real)
    requires 0.0 <= p <= q <= 1.0
    ensures AugmentedBrier(q, 0.0) <= AugmentedBrier(p, 0.0)
    ensures AugmentedBrier(p, 1.0) <= AugmentedBrier(q, 1.0)
  {
    var d := q - p;
    assert q * q - p * p == d * (q + p);
    assert (1.0 - p) * (1.0 - p) - (1.0 - q) * (1.0 - q) == d * (2.0 - p - q);
    ProductSign(d, q + p);
    ProductSign(d, 2.0 - p - q);
  }

  /**
   * The expected ABS of a forecaster whose true chance of being right is
   * `q` and who reports `p`.
   */
  function ExpectedAugmentedBrier(q: real, p: real): real {
    q * AugmentedBrier(p, 1.0) + (1.0 - q) * AugmentedBrier(p, 0.0)
  }

  /**
   * Reporting `p` instead of the true chance `q` costs exactly the squared
   * error `(p - q)^2` in expected ABS, so honest reporting is optimal.
   */
  lemma AugmentedBrierIsProper(q: real, p: real)
    ensures ExpectedAugmentedBrier(q, q) - ExpectedAugmentedBrier(q, p) == (p - q) * (p - q)
  {
    ExpectedAugmentedBrierPolynomial(q, p);
    ExpectedAugmentedBrierPolynomial(q, q);
    assert (p - q) * (p - q) == p * p - 2.0 * q * p + q * q;
  }

  /** The expected ABS multiplied out as a polynomial in `q` and `p`. */
  lemma ExpectedAugmentedBrierPolynomial(q: real, p: real)
    ensures ExpectedAugmentedBrier(q, p) == 1.0 - 0.5 * q + 2.0 * q * p - p * p
  {
    assert (1.0 - p) * (1.0 - p) == 1.0 - 2.0 * p + p * p;
    assert AugmentedBrier(p, 1.0) == 0.5 + 2.0 * p - p * p;
    assert AugmentedBrier(p, 0.0) == 1.0 - p * p;
    assert q * (0.5 + 2.0 * p - p * p) == 0.5 * q + 2.0 * q * p - q * (p * p);
    assert (1.0 - q) * (1.0 - p * p) == 1.0 - p * p - q + q * (p * p);
  }

  /** Confidence-weighted score: `0.6 + 0.4 p` when correct, `0.4 - 0.4 p` when wrong. */
  function ConfidenceWeighted(p: real, y: real): (s: real)
    ensures y == 1.0 ==> s == 0.6 + 0.4 * p
    ensures y == 0.0 ==> s == 0.4 - 0.4 * p
  {
    y * (0.6 + 0.4 * p) + (1.0 - y) * (0.4 - 0.4 * p)
  }

  /** For p in [0, 1], a correct answer scores in [0.6, 1.0] and a wrong one in [0.0, 0.4]. */
  lemma ConfidenceWeightedRange(p: real)
    requires 0.0 <= p <= 1.0
    ensures 0.6 <= ConfidenceWeighted(p, 1.0) <= 1.0
    ensures 0.0 <= ConfidenceWeighted(p, 0.0) <= 0.4
  {
  }

  /** Any correct answer outscores any wrong answer, whatever the two confidences. */
  lemma CorrectBeatsWrong(p: real, q: real)
    requires 0.0 <= p <= 1.0 && 0.0 <= q <= 1.0
    ensures ConfidenceWeighted(p, 1.0) > ConfidenceWeighted(q, 0.0)
  {
  }

  /** Confident-correct > guessed-correct > unconfident-wrong > confident-wrong. */
  lemma ConfidenceWeightedOrdering()
    ensures ConfidenceWeighted(1.0, 1.0) == 1.0 && ConfidenceWeighted(0.0, 1.0) == 0.6
    ensures ConfidenceWeighted(0.0, 0.0) == 0.4 && ConfidenceWeighted(1.0, 0.0) == 0.0
  {
  }

  // ---------- Element-wise scoring of cells (NaN propagates) ----------

  function ProbCell(conf: Cell): (r: Cell)
    ensures r.Num? <==> conf.Num?
    ensures r.Num? ==> 6.0 * r.value + 1.0 == conf.value
  {
    if conf.Num? then Num(ConfidenceToProb(conf.value)) else Missing
  }

  function AbsCell(p: Cell, y: Cell): (r: Cell)
    ensures r.Num? <==> p.Num? && y.Num?
  {
    if p.Num? && y.Num? then Num(AugmentedBrier(p.value, y.value)) else Missing
  }

  function CwsCell(p: Cell, y: Cell): (r: Cell)
    ensures r.Num? <==> p.Num? && y.Num?
  {
    if p.Num? && y.Num? then Num(ConfidenceWeighted(p.value, y.value)) else Missing
  }

  // ---------- Column labels ----------

  const CorrectPrefix := "correct_"
  const ConfPrefix := "conf_"
  const ProbPrefix := "p_"
  const AbsPrefix := "abs_"
  const CwsPrefix := "cws_"

  function CorrectCol(i: nat): string { Label(CorrectPrefix, i) }
  function ConfCol(i: nat): string { Label(ConfPrefix, i) }
  function ProbCol(i: nat): string { Label(ProbPrefix, i) }
  function AbsCol(i: nat): string { Label(AbsPrefix, i) }
  function CwsCol(i: nat): string { Label(CwsPrefix, i) }

  /** The labels of questions 1..n under one prefix, `[f"{prefix}{i}" for i in range(1, n + 1)]`. */
  function Labels(prefix: string, n: nat): (r: seq<string>)
    ensures |r| == n
    ensures forall i :: 0 <= i < n ==> r[i] == Label(prefix, i + 1)
  {
    seq(n, i requires 0 <= i < n => Label(prefix, i + 1))
  }

  /** The label set of questions 1..n grows by one label per question. */
  lemma LabelSetStep(prefix: string, n: nat)
    requires n >= 1
    ensures NameSet(Labels(prefix, n)) == NameSet(Labels(prefix, n - 1)) + {Label(prefix, n)}
  {
    assert Labels(prefix, n) == Labels(prefix, n - 1) + [Label(prefix, n)];
  }

  /** Label i is among the labels of questions 1..n. */
  lemma LabelInSet(prefix: string, n: nat, i: nat)
    requires 1 <= i <= n
    ensures Label(prefix, i) in NameSet(Labels(prefix, n))
  {
    assert Labels(prefix, n)[i - 1] == Label(prefix, i);
  }

  /** The column prefixes contain no digit, so a label's number starts right after its prefix. */
  lemma PrefixesHaveNoDigits()
    ensures NoDigits(CorrectPrefix) && NoDigits(ConfPrefix) && NoDigits(ProbPrefix)
    ensures NoDigits(AbsPrefix) && NoDigits(CwsPrefix)
  {
  }

  /** Different questions have different `correct_i` columns. */
  lemma CorrectColsDiffer(i: nat, j: nat)
    requires i != j
    ensures CorrectCol(i) != CorrectCol(j)
  {
    PrefixesHaveNoDigits();
    LabelInjective(CorrectPrefix, i, CorrectPrefix, j);
  }

  /** Different questions have different `conf_i` columns. */
  lemma ConfColsDiffer(i: nat, j: nat)
    requires i != j
    ensures ConfCol(i) != ConfCol(j)
  {
    PrefixesHaveNoDigits();
    LabelInjective(ConfPrefix, i, ConfPrefix, j);
  }

  /** No `correct_i` column is a `conf_j` column. */
  lemma CorrectConfDiffer(i: nat, j: nat)
    ensures CorrectCol(i) != ConfCol(j)
  {
    PrefixesHaveNoDigits();
    LabelInjective(CorrectPrefix, i, ConfPrefix, j);
  }

  /** An input column (`correct_j`, `conf_j`) is never a derived column of any question. */
  lemma InputsNotDerived(i: nat, j: nat)
    ensures CorrectCol(j) != ProbCol(i) && CorrectCol(j) != AbsCol(i) && CorrectCol(j) != CwsCol(i)
    ensures ConfCol(j) != ProbCol(i) && ConfCol(j) != AbsCol(i) && ConfCol(j) != CwsCol(i)
  {
    PrefixesHaveNoDigits();
    LabelInjective(CorrectPrefix, j, ProbPrefix, i);
    LabelInjective(CorrectPrefix, j, AbsPrefix, i);
    LabelInjective(CorrectPrefix, j, CwsPrefix, i);
    LabelInjective(ConfPrefix, j, ProbPrefix, i);
    LabelInjective(ConfPrefix, j, AbsPrefix, i);
    LabelInjective(ConfPrefix, j, CwsPrefix, i);
  }

  /** The five columns of one question are five different names. */
  lemma SameQuestionDistinct(i: nat)
    ensures ProbCol(i) != AbsCol(i) && ProbCol(i) != CwsCol(i) && AbsCol(i) != CwsCol(i)
    ensures CorrectCol(i) != ConfCol(i)
    ensures CorrectCol(i) != ProbCol(i) && CorrectCol(i) != AbsCol(i) && CorrectCol(i) != CwsCol(i)
    ensures ConfCol(i) != ProbCol(i) && ConfCol(i) != AbsCol(i) && ConfCol(i) != CwsCol(i)
  {
    DerivedWithin(i);
    InputsNotDerived(i, i);
    CorrectConfDiffer(i, i);
  }

  /** The derived columns of one question are three different names. */
  lemma DerivedWithin(i: nat)
    ensures ProbCol(i) != AbsCol(i) && ProbCol(i) != CwsCol(i) && AbsCol(i) != CwsCol(i)
  {
    PrefixesHaveNoDigits();
    LabelInjective(ProbPrefix, i, AbsPrefix, i);
    LabelInjective(ProbPrefix, i, CwsPrefix, i);
    LabelInjective(AbsPrefix, i, CwsPrefix, i);
  }

  /** Different questions never share a derived column. */
  lemma DerivedAcross(i: nat, j: nat)
    requires i != j
    ensures ProbCol(i) != ProbCol(j) && ProbCol(i) != AbsCol(j) && ProbCol(i) != CwsCol(j)
    ensures AbsCol(i) != ProbCol(j) && AbsCol(i) != AbsCol(j) && AbsCol(i) != CwsCol(j)
    ensures CwsCol(i) != ProbCol(j) && CwsCol(i) != AbsCol(j) && CwsCol(i) != CwsCol(j)
  {
    PrefixesHaveNoDigits();
    var ps := [ProbPrefix, AbsPrefix, CwsPrefix];
    forall a, b | 0 <= a < 3 && 0 <= b < 3
      ensures Label(ps[a], i) != Label(ps[b], j)
    {
      LabelInjective(ps[a], i, ps[b], j);
    }
    assert ProbCol(i) == Label(ps[0], i) && AbsCol(i) == Label(ps[1], i) && CwsCol(i) == Label(ps[2], i);
    assert ProbCol(j) == Label(ps[0], j) && AbsCol(j) == Label(ps[1], j) && CwsCol(j) == Label(ps[2], j);
  }

  // ---------- add_question_scores ----------

  /** The columns question `i` writes, in the order it writes them. */
  function QuestionNames(i: nat, useAbs: bool, useCws: bool): seq<string> {
    [ProbCol(i)] + (if useAbs then [AbsCol(i)] else []) + (if useCws then [CwsCol(i)] else [])
  }

  /** The columns questions 1..n write, in order: `p_1, abs_1, cws_1, p_2, ...`. */
  function ScoreNames(n: nat, useAbs: bool, useCws: bool): seq<string> {
    if n == 0 then [] else ScoreNames(n - 1, useAbs, useCws) + QuestionNames(n, useAbs, useCws)
  }

  /** Every column written for questions 1..n belongs to one of those questions. */
  lemma {:induction false} ScoreNamesMember(n: nat, useAbs: bool, useCws: bool, x: string)
    requires x in ScoreNames(n, useAbs, useCws)
    ensures exists i :: 1 <= i <= n && x in QuestionNames(i, useAbs, useCws)
  {
    if x !in QuestionNames(n, useAbs, useCws) {
      ScoreNamesMember(n - 1, useAbs, useCws, x);
    }
  }

  /** Scoring never writes over a correctness or confidence column. */
  lemma InputsNotWritten(n: nat, useAbs: bool, useCws: bool, j: nat)
    ensures ConfCol(j) !in ScoreNames(n, useAbs, useCws)
    ensures CorrectCol(j) !in ScoreNames(n, useAbs, useCws)
  {
    if ConfCol(j) in ScoreNames(n, useAbs, useCws) {
      ScoreNamesMember(n, useAbs, useCws, ConfCol(j));
      var i :| 1 <= i <= n && ConfCol(j) in QuestionNames(i, useAbs, useCws);
      QuestionNamesCases(i, useAbs, useCws, ConfCol(j));
      InputsNotDerived(i, j);
    }
    if CorrectCol(j) in ScoreNames(n, useAbs, useCws) {
      ScoreNamesMember(n, useAbs, useCws, CorrectCol(j));
      var i :| 1 <= i <= n && CorrectCol(j) in QuestionNames(i, useAbs, useCws);
      QuestionNamesCases(i, useAbs, useCws, CorrectCol(j));
      InputsNotDerived(i, j);
    }
  }

  /** The columns question `i` writes are its `p_i`, and `abs_i` / `cws_i` when enabled. */
  lemma QuestionNamesCases(i: nat, useAbs: bool, useCws: bool, x: string)
    requires x in QuestionNames(i, useAbs, useCws)
    ensures x == ProbCol(i) || (useAbs && x == AbsCol(i)) || (useCws && x == CwsCol(i))
  {
  }

  /** Questions write disjoint sets of columns. */
  lemma QuestionNamesDisjoint(i: nat, j: nat, useAbs: bool, useCws: bool, x: string)
    requires i != j && x in QuestionNames(i, useAbs, useCws)
    ensures x !in QuestionNames(j, useAbs, useCws)
  {
    QuestionNamesCases(i, useAbs, useCws, x);
    DerivedAcross(i, j);
    if x in QuestionNames(j, useAbs, useCws) {
      QuestionNamesCases(j, useAbs, useCws, x);
    }
  }

  /** Question `i`'s derived cells in `out`, computed from `src`'s confidence and correctness. */
  predicate RowScored(src: Row, out: Row, i: nat, useAbs: bool, useCws: bool) {
    && ConfCol(i) in src && ProbCol(i) in out
    && out[ProbCol(i)] == ProbCell(src[ConfCol(i)])
    && ((useAbs || useCws) ==> CorrectCol(i) in src)
    && (useAbs ==> AbsCol(i) in out && out[AbsCol(i)] == AbsCell(ProbCell(src[ConfCol(i)]), src[CorrectCol(i)]))
    && (useCws ==> CwsCol(i) in out && out[CwsCol(i)] == CwsCell(ProbCell(src[ConfCol(i)]), src[CorrectCol(i)]))
  }

  /** Questions 1..n all scored from `src` into `out`. */
  predicate AllScored(src: Row, out: Row, n: nat, useAbs: bool, useCws: bool) {
    forall i :: 1 <= i <= n ==> RowScored(src, out, i, useAbs, useCws)
  }

  /** The confidence (and, when a score is wanted, correctness) columns of question `i` can be read. */
  predicate QuestionReady(f: Frame, i: nat, useAbs: bool, useCws: bool) {
    NumericColumn(f, ConfCol(i)) && ((useAbs || useCws) ==> NumericColumn(f, CorrectCol(i)))
  }

  /** One iteration of the loop in `add_question_scores`. */
  function ScoreQuestion(f: Frame, i: nat, useAbs: bool, useCws: bool): (r: Result<Frame, Error>)
    requires Valid(f)
    ensures r.Success? <==> QuestionReady(f, i, useAbs, useCws)
    ensures r.Success? ==> Valid(r.value) && |r.value.rows| == |f.rows|
  {
    SameQuestionDistinct(i);
    :- CheckNumeric(f, ConfCol(i));
    var g := WithProb(f, i);
    if !useAbs && !useCws then
      Success(g)
    else
      :- CheckNumeric(g, CorrectCol(i));
      var h := if useAbs then WithAbs(g, i) else g;
      Success(if useCws then WithCws(h, i) else h)
  }

  /** `df[p_col] = confidence_to_prob(df[conf_col])`. */
  function WithProb(f: Frame, i: nat): (g: Frame)
    requires Valid(f) && NumericColumn(f, ConfCol(i))
    ensures Valid(g) && |g.rows| == |f.rows| && g.names == AppendMissing(f.names, [ProbCol(i)])
    ensures forall k :: 0 <= k < |g.rows| ==> ProbCol(i) in g.rows[k] && g.rows[k][ProbCol(i)] == ProbCell(f.rows[k][ConfCol(i)])
    ensures forall k, x :: 0 <= k < |g.rows| && x in f.rows[k] && x != ProbCol(i) ==> x in g.rows[k] && g.rows[k][x] == f.rows[k][x]
    ensures forall x :: x != ProbCol(i) ==> (NumericColumn(g, x) <==> NumericColumn(f, x))
  {
    var vals := seq(|f.rows|, k requires 0 <= k < |f.rows| => ProbCell(f.rows[k][ConfCol(i)]));
    forall x | x != ProbCol(i)
      ensures NumericColumn(SetColumn(f, ProbCol(i), vals), x) <==> NumericColumn(f, x)
    {
      SetColumnKeepsNumeric(f, ProbCol(i), vals, x);
    }
    SetColumn(f, ProbCol(i), seq(|f.rows|, k requires 0 <= k < |f.rows| => ProbCell(f.rows[k][ConfCol(i)])))
  }

  /** `df[f"abs_{i}"] = abs_for_question(df[p_col], df[y_col])`. */
  function WithAbs(g: Frame, i: nat): (h: Frame)
    requires Valid(g) && ProbCol(i) in g.names && CorrectCol(i) in g.names
    ensures Valid(h) && |h.rows| == |g.rows| && h.names == AppendMissing(g.names, [AbsCol(i)])
    ensures forall k :: 0 <= k < |h.rows| ==> AbsCol(i) in h.rows[k] && h.rows[k][AbsCol(i)] == AbsCell(g.rows[k][ProbCol(i)], g.rows[k][CorrectCol(i)])
    ensures forall k, x :: 0 <= k < |h.rows| && x in g.rows[k] && x != AbsCol(i) ==> x in h.rows[k] && h.rows[k][x] == g.rows[k][x]
  {
    SetColumn(g, AbsCol(i), seq(|g.rows|, k requires 0 <= k < |g.rows| =>
      AbsCell(g.rows[k][ProbCol(i)], g.rows[k][CorrectCol(i)])))
  }

  /** `df[f"cws_{i}"] = cws_for_question(df[p_col], df[y_col])`. */
  function WithCws(h: Frame, i: nat): (r: Frame)
    requires Valid(h) && ProbCol(i) in h.names && CorrectCol(i) in h.names
    ensures Valid(r) && |r.rows| == |h.rows| && r.names == AppendMissing(h.names, [CwsCol(i)])
    ensures forall k :: 0 <= k < |r.rows| ==> CwsCol(i) in r.rows[k] && r.rows[k][CwsCol(i)] == CwsCell(h.rows[k][ProbCol(i)], h.rows[k][CorrectCol(i)])
    ensures forall k, x :: 0 <= k < |r.rows| && x in h.rows[k] && x != CwsCol(i) ==> x in r.rows[k] && r.rows[k][x] == h.rows[k][x]
  {
    SetColumn(h, CwsCol(i), seq(|h.rows|, k requires 0 <= k < |h.rows| =>
      CwsCell(h.rows[k][ProbCol(i)], h.rows[k][CorrectCol(i)])))
  }

  /** What one question adds: its derived columns, nothing else changed. */
  lemma ScoreQuestionSpec(f: Frame, i: nat, useAbs: bool, useCws: bool)
    requires Valid(f) && QuestionReady(f, i, useAbs, useCws)
    ensures var g := ScoreQuestion(f, i, useAbs, useCws).value;
      && g.names == AppendMissing(f.names, QuestionNames(i, useAbs, useCws))
      && forall k :: 0 <= k < |f.rows| ==>
        && RowScored(f.rows[k], g.rows[k], i, useAbs, useCws)
        && Untouched(f.rows[k], g.rows[k], QuestionNames(i, useAbs, useCws))
  {
    ScoreQuestionNames(f, i, useAbs, useCws);
    forall k | 0 <= k < |f.rows|
      ensures var g := ScoreQuestion(f, i, useAbs, useCws).value;
        && RowScored(f.rows[k], g.rows[k], i, useAbs, useCws)
        && Untouched(f.rows[k], g.rows[k], QuestionNames(i, useAbs, useCws))
    {
      ScoreQuestionRow(f, i, useAbs, useCws, k);
    }
  }

  lemma ScoreQuestionUntouched(f: Frame, i: nat, useAbs: bool, useCws: bool)
    requires Valid(f) && QuestionReady(f, i, useAbs, useCws)
    ensures RowsUntouched(f, ScoreQuestion(f, i, useAbs, useCws).value, QuestionNames(i, useAbs, useCws))
  {
    forall k | 0 <= k < |f.rows|
      ensures Untouched(f.rows[k], ScoreQuestion(f, i, useAbs, useCws).value.rows[k], QuestionNames(i, useAbs, useCws))
    {
      ScoreQuestionRow(f, i, useAbs, useCws, k);
    }
  }

  lemma ScoreQuestionNames(f: Frame, i: nat, useAbs: bool, useCws: bool)
    requires Valid(f) && QuestionReady(f, i, useAbs, useCws)
    ensures ScoreQuestion(f, i, useAbs, useCws).value.names == AppendMissing(f.names, QuestionNames(i, useAbs, useCws))
  {
    InputsNotDerived(i, i);
    var absPart := if useAbs then [AbsCol(i)] else [];
    var cwsPart := if useCws then [CwsCol(i)] else [];
    AppendMissingConcat(f.names, [ProbCol(i)], absPart);
    AppendMissingConcat(f.names, [ProbCol(i)] + absPart, cwsPart);
    assert QuestionNames(i, useAbs, useCws) == [ProbCol(i)] + absPart + cwsPart;
  }

  lemma ScoreQuestionRow(f: Frame, i: nat, useAbs: bool, useCws: bool, k: nat)
    requires Valid(f) && QuestionReady(f, i, useAbs, useCws) && k < |f.rows|
    ensures var g := ScoreQuestion(f, i, useAbs, useCws).value;
      && RowScored(f.rows[k], g.rows[k], i, useAbs, useCws)
      && Untouched(f.rows[k], g.rows[k], QuestionNames(i, useAbs, useCws))
  {
    SameQuestionDistinct(i);
    var g := WithProb(f, i);
    if useAbs || useCws {
      var h := if useAbs then WithAbs(g, i) else g;
      var r := if useCws then WithCws(h, i) else h;
      assert r == ScoreQuestion(f, i, useAbs, useCws).value;
      assert g.rows[k][CorrectCol(i)] == f.rows[k][CorrectCol(i)];
      assert h.rows[k][ProbCol(i)] == g.rows[k][ProbCol(i)];
      assert h.rows[k][CorrectCol(i)] == g.rows[k][CorrectCol(i)];
    }
  }

  /**
   * `add_question_scores(df, n, use_abs, use_cws)`: questions 1..n in turn,
   * each adding `p_i` and, when enabled, `abs_i` and `cws_i`.
   */
  function AddQuestionScores(f: Frame, n: nat, useAbs: bool, useCws: bool): (r: Result<Frame, Error>)
    requires Valid(f)
    ensures r.Success? ==> Valid(r.value) && |r.value.rows| == |f.rows|
    decreases n
  {
    if n == 0 then Success(f)
    else
      var g :- AddQuestionScores(f, n - 1, useAbs, useCws);
      ScoreQuestion(g, n, useAbs, useCws)
  }

  /** Every question 1..n can read its inputs. */
  predicate InputsReady(f: Frame, n: nat, useAbs: bool, useCws: bool) {
    forall i :: 1 <= i <= n ==> QuestionReady(f, i, useAbs, useCws)
  }

  /** Derived cells survive later steps that write elsewhere. */
  lemma RowScoredKept(src: Row, out: Row, out': Row, i: nat, useAbs: bool, useCws: bool, written: seq<string>)
    requires RowScored(src, out, i, useAbs, useCws) && Untouched(out, out', written)
    requires forall x :: x in QuestionNames(i, useAbs, useCws) ==> x !in written
    ensures RowScored(src, out', i, useAbs, useCws)
  {
    assert ProbCol(i) in QuestionNames(i, useAbs, useCws);
    if useAbs {
      assert AbsCol(i) in QuestionNames(i, useAbs, useCws);
    }
    if useCws {
      assert CwsCol(i) in QuestionNames(i, useAbs, useCws);
    }
  }

  /** Derived cells depend only on the question's confidence and correctness cells. */
  lemma RowScoredSource(src: Row, src': Row, out: Row, i: nat, useAbs: bool, useCws: bool)
    requires RowScored(src, out, i, useAbs, useCws)
    requires ConfCol(i) in src' && src'[ConfCol(i)] == src[ConfCol(i)]
    requires (useAbs || useCws) ==> CorrectCol(i) in src' && src'[CorrectCol(i)] == src[CorrectCol(i)]
    ensures RowScored(src', out, i, useAbs, useCws)
  {
  }

  /** A question's inputs read the same after the earlier questions have been scored. */
  lemma ReadyKept(f: Frame, g: Frame, n: nat, useAbs: bool, useCws: bool)
    requires n >= 1 && Valid(f) && Valid(g)
    requires g.names == AppendMissing(f.names, ScoreNames(n - 1, useAbs, useCws))
    requires RowsUntouched(f, g, ScoreNames(n - 1, useAbs, useCws))
    ensures QuestionReady(g, n, useAbs, useCws) <==> QuestionReady(f, n, useAbs, useCws)
  {
    var before := ScoreNames(n - 1, useAbs, useCws);
    InputsNotWritten(n - 1, useAbs, useCws, n);
    NumericColumnKept(f, g, before, ConfCol(n));
    NumericColumnKept(f, g, before, CorrectCol(n));
  }

  /** The new columns come after the existing ones, in loop order `p_1, abs_1, cws_1, p_2, ...`. */
  lemma {:induction false} AddQuestionScoresNames(f: Frame, n: nat, useAbs: bool, useCws: bool)
    requires Valid(f) && AddQuestionScores(f, n, useAbs, useCws).Success?
    ensures AddQuestionScores(f, n, useAbs, useCws).value.names == AppendMissing(f.names, ScoreNames(n, useAbs, useCws))
    decreases n
  {
    if n > 0 {
      var g := AddQuestionScores(f, n - 1, useAbs, useCws).value;
      AddQuestionScoresNames(f, n - 1, useAbs, useCws);
      assert AddQuestionScores(f, n, useAbs, useCws) == ScoreQuestion(g, n, useAbs, useCws);
      ScoreQuestionNames(g, n, useAbs, useCws);
      AppendMissingConcat(f.names, ScoreNames(n - 1, useAbs, useCws), QuestionNames(n, useAbs, useCws));
    }
  }

  /** Every cell outside the derived columns is left as it was. */
  lemma {:induction false} AddQuestionScoresUntouched(f: Frame, n: nat, useAbs: bool, useCws: bool)
    requires Valid(f) && AddQuestionScores(f, n, useAbs, useCws).Success?
    ensures RowsUntouched(f, AddQuestionScores(f, n, useAbs, useCws).value, ScoreNames(n, useAbs, useCws))
    decreases n
  {
    if n > 0 {
      var g := AddQuestionScores(f, n - 1, useAbs, useCws).value;
      AddQuestionScoresUntouched(f, n - 1, useAbs, useCws);
      assert AddQuestionScores(f, n, useAbs, useCws) == ScoreQuestion(g, n, useAbs, useCws);
      ScoreQuestionUntouched(g, n, useAbs, useCws);
      var r := ScoreQuestion(g, n, useAbs, useCws).value;
      forall k | 0 <= k < |f.rows|
        ensures Untouched(f.rows[k], r.rows[k], ScoreNames(n, useAbs, useCws))
      {
        UntouchedTrans(f.rows[k], g.rows[k], r.rows[k], ScoreNames(n - 1, useAbs, useCws), QuestionNames(n, useAbs, useCws));
      }
    }
  }

  /** Question n's inputs are ready exactly when those of 1..n-1 and of n are. */
  lemma InputsReadyStep(f: Frame, n: nat, useAbs: bool, useCws: bool)
    requires n >= 1
    ensures InputsReady(f, n, useAbs, useCws) <==> InputsReady(f, n - 1, useAbs, useCws) && QuestionReady(f, n, useAbs, useCws)
  {
  }

  /** A ready question's input cells are present in every row. */
  lemma ReadyRow(f: Frame, i: nat, useAbs: bool, useCws: bool, k: nat)
    requires QuestionReady(f, i, useAbs, useCws) && k < |f.rows|
    ensures ConfCol(i) in f.rows[k] && ((useAbs || useCws) ==> CorrectCol(i) in f.rows[k])
  {
  }

  /** `add_question_scores` raises exactly when some question's inputs cannot be read. */
  lemma {:induction false} AddQuestionScoresSucceeds(f: Frame, n: nat, useAbs: bool, useCws: bool)
    requires Valid(f)
    ensures AddQuestionScores(f, n, useAbs, useCws).Success? <==> InputsReady(f, n, useAbs, useCws)
    decreases n
  {
    if n > 0 {
      AddQuestionScoresSucceeds(f, n - 1, useAbs, useCws);
      InputsReadyStep(f, n, useAbs, useCws);
      var prev := AddQuestionScores(f, n - 1, useAbs, useCws);
      if prev.Success? {
        AddQuestionScoresNames(f, n - 1, useAbs, useCws);
        AddQuestionScoresUntouched(f, n - 1, useAbs, useCws);
        ReadyKept(f, prev.value, n, useAbs, useCws);
        assert AddQuestionScores(f, n, useAbs, useCws) == ScoreQuestion(prev.value, n, useAbs, useCws);
      }
    }
  }

  /**
   * Each derived cell `p_i`, `abs_i` (only with `use_abs`) and `cws_i` (only
   * with `use_cws`) is computed from that question's own cells, so a missing
   * input gives a missing output for that question only.
   */
  lemma {:induction false} AddQuestionScoresRows(f: Frame, n: nat, useAbs: bool, useCws: bool)
    requires Valid(f) && AddQuestionScores(f, n, useAbs, useCws).Success?
    ensures var g := AddQuestionScores(f, n, useAbs, useCws).value;
      forall k :: 0 <= k < |f.rows| ==> AllScored(f.rows[k], g.rows[k], n, useAbs, useCws)
    decreases n
  {
    if n > 0 {
      var g := AddQuestionScores(f, n - 1, useAbs, useCws).value;
      AddQuestionScoresRows(f, n - 1, useAbs, useCws);
      AddQuestionScoresNames(f, n - 1, useAbs, useCws);
      AddQuestionScoresUntouched(f, n - 1, useAbs, useCws);
      assert AddQuestionScores(f, n, useAbs, useCws) == ScoreQuestion(g, n, useAbs, useCws);
      ReadyKept(f, g, n, useAbs, useCws);
      ScoreQuestionSpec(g, n, useAbs, useCws);
      AddQuestionScoresStepRows(f, g, ScoreQuestion(g, n, useAbs, useCws).value, n, useAbs, useCws);
    }
  }

  /** The inductive step of `AddQuestionScoresRows`, row by row. */
  lemma AddQuestionScoresStepRows(f: Frame, g: Frame, r: Frame, n: nat, useAbs: bool, useCws: bool)
    requires n >= 1 && QuestionReady(f, n, useAbs, useCws)
    requires |g.rows| == |f.rows| && |r.rows| == |f.rows|
    requires forall k :: 0 <= k < |f.rows| ==> AllScored(f.rows[k], g.rows[k], n - 1, useAbs, useCws)
    requires RowsUntouched(f, g, ScoreNames(n - 1, useAbs, useCws))
    requires forall k :: 0 <= k < |g.rows| ==>
      && RowScored(g.rows[k], r.rows[k], n, useAbs, useCws)
      && Untouched(g.rows[k], r.rows[k], QuestionNames(n, useAbs, useCws))
    ensures forall k :: 0 <= k < |f.rows| ==> AllScored(f.rows[k], r.rows[k], n, useAbs, useCws)
  {
    forall k | 0 <= k < |f.rows|
      ensures AllScored(f.rows[k], r.rows[k], n, useAbs, useCws)
    {
      ReadyRow(f, n, useAbs, useCws, k);
      AddQuestionScoresStepRow(f.rows[k], g.rows[k], r.rows[k], n, useAbs, useCws);
    }
  }

  /** Everything `add_question_scores` promises on success, in one statement. */
  lemma AddQuestionScoresSpec(f: Frame, n: nat, useAbs: bool, useCws: bool)
    requires Valid(f) && AddQuestionScores(f, n, useAbs, useCws).Success?
    ensures var g := AddQuestionScores(f, n, useAbs, useCws).value;
      && g.names == AppendMissing(f.names, ScoreNames(n, useAbs, useCws))
      && RowsUntouched(f, g, ScoreNames(n, useAbs, useCws))
      && forall k :: 0 <= k < |f.rows| ==> AllScored(f.rows[k], g.rows[k], n, useAbs, useCws)
  {
    AddQuestionScoresNames(f, n, useAbs, useCws);
    AddQuestionScoresUntouched(f, n, useAbs, useCws);
    AddQuestionScoresRows(f, n, useAbs, useCws);
  }

  /** The inductive step of `AddQuestionScoresSpec` for one row. */
  lemma AddQuestionScoresStepRow(src: Row, mid: Row, out: Row, n: nat, useAbs: bool, useCws: bool)
    requires n >= 1
    requires AllScored(src, mid, n - 1, useAbs, useCws)
    requires Untouched(src, mid, ScoreNames(n - 1, useAbs, useCws))
    requires RowScored(mid, out, n, useAbs, useCws)
    requires Untouched(mid, out, QuestionNames(n, useAbs, useCws))
    requires ConfCol(n) in src && ((useAbs || useCws) ==> CorrectCol(n) in src)
    ensures AllScored(src, out, n, useAbs, useCws)
  {
    LatestScored(src, mid, out, n, useAbs, useCws);
    forall i | 1 <= i < n
      ensures RowScored(src, out, i, useAbs, useCws)
    {
      EarlierStillScored(src, mid, out, n, i, useAbs, useCws);
    }
  }

  /** Question `n`'s cells, computed from `mid`, are those `src` gives, as earlier steps kept its inputs. */
  lemma LatestScored(src: Row, mid: Row, out: Row, n: nat, useAbs: bool, useCws: bool)
    requires n >= 1
    requires Untouched(src, mid, ScoreNames(n - 1, useAbs, useCws))
    requires RowScored(mid, out, n, useAbs, useCws)
    requires ConfCol(n) in src && ((useAbs || useCws) ==> CorrectCol(n) in src)
    ensures RowScored(src, out, n, useAbs, useCws)
  {
    InputsNotWritten(n - 1, useAbs, useCws, n);
    RowScoredSource(mid, src, out, n, useAbs, useCws);
  }

  /** An earlier question's cells survive scoring question `n`, which writes other columns. */
  lemma EarlierStillScored(src: Row, mid: Row, out: Row, n: nat, i: nat, useAbs: bool, useCws: bool)
    requires 1 <= i < n
    requires RowScored(src, mid, i, useAbs, useCws)
    requires Untouched(mid, out, QuestionNames(n, useAbs, useCws))
    ensures RowScored(src, out, i, useAbs, useCws)
  {
    forall x | x in QuestionNames(i, useAbs, useCws)
      ensures x !in QuestionNames(n, useAbs, useCws)
    {
      QuestionNamesDisjoint(i, n, useAbs, useCws, x);
    }
    RowScoredKept(src, mid, out, i, useAbs, useCws, QuestionNames(n, useAbs, useCws));
  }

  /** No derived column is written twice: the names of all questions' scores are distinct. */
  lemma {:induction false} ScoreNamesDistinct(n: nat, useAbs: bool, useCws: bool)
    ensures Distinct(ScoreNames(n, useAbs, useCws))
    decreases n
  {
    if n > 0 {
      ScoreNamesDistinct(n - 1, useAbs, useCws);
      var prev := ScoreNames(n - 1, useAbs, useCws);
      var q := QuestionNames(n, useAbs, useCws);
      SameQuestionDistinct(n);
      forall a, b | 0 <= a < |prev| && 0 <= b < |q|
        ensures prev[a] != q[b]
      {
        ScoreNamesMember(n - 1, useAbs, useCws, prev[a]);
        var i :| 1 <= i <= n - 1 && prev[a] in QuestionNames(i, useAbs, useCws);
        QuestionNamesDisjoint(i, n, useAbs, useCws, prev[a]);
      }
    }
  }

  /** Every column question `i` writes is among those questions 1..n write. */
  lemma {:induction false} ScoreNamesContains(n: nat, i: nat, useAbs: bool, useCws: bool, x: string)
    requires 1 <= i <= n && x in QuestionNames(i, useAbs, useCws)
    ensures x in ScoreNames(n, useAbs, useCws)
    decreases n
  {
    if i < n {
      ScoreNamesContains(n - 1, i, useAbs, useCws, x);
    }
  }

  /** Question `i` is already scored in `h`: its inputs read and its derived cells agree with them. */
  predicate QuestionScored(h: Frame, i: nat, useAbs: bool, useCws: bool) {
    && QuestionReady(h, i, useAbs, useCws)
    && (forall x :: x in QuestionNames(i, useAbs, useCws) ==> x in h.names)
    && forall k :: 0 <= k < |h.rows| ==> RowScored(h.rows[k], h.rows[k], i, useAbs, useCws)
  }

  /** Scoring a question whose derived cells already hold their values changes nothing. */
  lemma ScoreQuestionFixed(h: Frame, i: nat, useAbs: bool, useCws: bool)
    requires Valid(h) && QuestionScored(h, i, useAbs, useCws)
    ensures ScoreQuestion(h, i, useAbs, useCws) == Success(h)
  {
    SameQuestionDistinct(i);
    assert ProbCol(i) in QuestionNames(i, useAbs, useCws);
    AppendMissingPresent(h.names, [ProbCol(i)]);
    FramesEqual(h, WithProb(h, i));
    if useAbs {
      assert AbsCol(i) in QuestionNames(i, useAbs, useCws);
      AppendMissingPresent(h.names, [AbsCol(i)]);
      FramesEqual(h, WithAbs(h, i));
    }
    if useCws {
      assert CwsCol(i) in QuestionNames(i, useAbs, useCws);
      AppendMissingPresent(h.names, [CwsCol(i)]);
      FramesEqual(h, WithCws(h, i));
    }
  }

  /** Running the loop over questions that are all already scored returns the frame unchanged. */
  lemma {:induction false} AddQuestionScoresFixed(h: Frame, n: nat, useAbs: bool, useCws: bool)
    requires Valid(h) && forall i :: 1 <= i <= n ==> QuestionScored(h, i, useAbs, useCws)
    ensures AddQuestionScores(h, n, useAbs, useCws) == Success(h)
    decreases n
  {
    if n > 0 {
      AddQuestionScoresFixed(h, n - 1, useAbs, useCws);
      assert AddQuestionScores(h, n - 1, useAbs, useCws) == Success(h);
      assert QuestionScored(h, n, useAbs, useCws);
      ScoreQuestionFixed(h, n, useAbs, useCws);
    }
  }

  /** After `add_question_scores`, every question 1..n is scored in the result. */
  lemma AddQuestionScoresLeavesScored(f: Frame, n: nat, i: nat, useAbs: bool, useCws: bool)
    requires Valid(f) && AddQuestionScores(f, n, useAbs, useCws).Success? && 1 <= i <= n
    ensures QuestionScored(AddQuestionScores(f, n, useAbs, useCws).value, i, useAbs, useCws)
  {
    var g := AddQuestionScores(f, n, useAbs, useCws).value;
    var written := ScoreNames(n, useAbs, useCws);
    AddQuestionScoresSpec(f, n, useAbs, useCws);
    AddQuestionScoresSucceeds(f, n, useAbs, useCws);
    assert QuestionReady(f, i, useAbs, useCws);
    InputsNotWritten(n, useAbs, useCws, i);
    NumericColumnKept(f, g, written, ConfCol(i));
    NumericColumnKept(f, g, written, CorrectCol(i));
    forall x | x in QuestionNames(i, useAbs, useCws)
      ensures x in g.names
    {
      ScoreNamesContains(n, i, useAbs, useCws, x);
      assert x in NameSet(g.names);
    }
    forall k | 0 <= k < |g.rows|
      ensures RowScored(g.rows[k], g.rows[k], i, useAbs, useCws)
    {
      assert RowScored(f.rows[k], g.rows[k], i, useAbs, useCws);
      RowScoredSource(f.rows[k], g.rows[k], g.rows[k], i, useAbs, useCws);
    }
  }

  /** Scoring an already scored frame again returns it unchanged. */
  lemma AddQuestionScoresIdempotent(f: Frame, n: nat, useAbs: bool, useCws: bool)
    requires Valid(f) && AddQuestionScores(f, n, useAbs, useCws).Success?
    ensures var g := AddQuestionScores(f, n, useAbs, useCws).value;
      AddQuestionScores(g, n, useAbs, useCws) == Success(g)
  {
    var g := AddQuestionScores(f, n, useAbs, useCws).value;
    forall i | 1 <= i <= n
      ensures QuestionScored(g, i, useAbs, useCws)
    {
      AddQuestionScoresLeavesScored(f, n, i, useAbs, useCws);
    }
    AddQuestionScoresFixed(g, n, useAbs, useCws);
  }
}
