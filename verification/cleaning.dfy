/**
 * Cleaning of the raw questionnaire export: tagging and stacking the two
 * sheets (`load_and_combine`) and reducing the wide form export to one
 * row per participant with `correct_i` / `conf_i` columns
 * (`tidy_columns`). Number and date parsing, and rendering a cell as
 * text, are parameters: the model does not fix pandas' parsers.
 */
module Cleaning {
  import opened Wrappers
  import opened Strings
  import opened Seqs
  import opened Frames
  import opened Scoring

  const ScoreSuffix := "[Score]"
  const ConfidencePrefix := "How confident"
  const NamePhrase := "What is your name"
  const Timestamp := "Timestamp"
  const Group := "group"
  const Participant := "participant"

  predicate IsScoreColumn(c: string) { EndsWith(c, ScoreSuffix) }
  predicate IsConfColumn(c: string) { StartsWith(c, ConfidencePrefix) }
  predicate IsNameColumn(c: string) { Contains(c, NamePhrase) }

  // ---------- Column discovery ----------

  /** `[c for c in df.columns if c.endswith("[Score]")]`. */
  function ScoreColumns(names: seq<string>): seq<string> {
    Filter(names, IsScoreColumn)
  }

  /** `[c for c in df.columns if c.startswith("How confident")]`. */
  function ConfColumns(names: seq<string>): seq<string> {
    Filter(names, IsConfColumn)
  }

  /**
   * The score columns are exactly the columns ending in `[Score]`, without
   * repeats and in the frame's left-to-right order, so sorting them by
   * position changes nothing; likewise for the confidence columns.
   */
  lemma DiscoveredColumns(names: seq<string>, x: string)
    requires Distinct(names)
    ensures x in ScoreColumns(names) <==> x in names && IsScoreColumn(x)
    ensures x in ConfColumns(names) <==> x in names && IsConfColumn(x)
    ensures Distinct(ScoreColumns(names)) && Distinct(ConfColumns(names))
    ensures forall i, j :: 0 <= i < j < |ScoreColumns(names)| ==>
      IndexOf(names, ScoreColumns(names)[i]) < IndexOf(names, ScoreColumns(names)[j])
    ensures forall i, j :: 0 <= i < j < |ConfColumns(names)| ==>
      IndexOf(names, ConfColumns(names)[i]) < IndexOf(names, ConfColumns(names)[j])
  {
    FilterDistinct(names, IsScoreColumn);
    FilterDistinct(names, IsConfColumn);
    FilterInOriginalOrder(names, IsScoreColumn);
    FilterInOriginalOrder(names, IsConfColumn);
    if x in names {
      var k :| 0 <= k < |names| && names[k] == x;
    }
  }

  // ---------- Participant identifier ----------

  /** Where the participant identifier comes from. */
  datatype NameSource = NameColumn(column: string) | TimestampText | RowNumber

  /**
   * The first column whose label contains "What is your name"; failing
   * that the `Timestamp` column rendered as text; failing that the row
   * number counted from 1.
   */
  function ChooseNameSource(names: seq<string>): (r: NameSource)
    ensures r.NameColumn? ==> r.column in names && IsNameColumn(r.column)
    ensures r.NameColumn? ==> exists i ::
      && 0 <= i < |names| && names[i] == r.column
      && forall j :: 0 <= j < i ==> !IsNameColumn(names[j])
    ensures !r.NameColumn? <==> forall j :: 0 <= j < |names| ==> !IsNameColumn(names[j])
    ensures r.TimestampText? <==> !r.NameColumn? && Timestamp in names
  {
    var candidates := Filter(names, IsNameColumn);
    if candidates != [] then
      FilterFirst(names, IsNameColumn);
      NameColumn(candidates[0])
    else if Timestamp in names then TimestampText
    else RowNumber
  }

  /** The identifier cell of the `k`-th surviving row (0-based). */
  function ParticipantCell(source: NameSource, row: Row, k: nat, render: Cell -> string): Cell
    requires source.NameColumn? ==> source.column in row
    requires source.TimestampText? ==> Timestamp in row
  {
    match source
    case NameColumn(c) => row[c]
    case TimestampText => Text(render(row[Timestamp]))
    case RowNumber => Num((k + 1) as real)
  }

  // ---------- Row filter ----------

  /** `pd.to_numeric(row[col], errors="coerce").notna()`. */
  function ParsesAt(col: string, parse: string -> Option<real>): Row -> bool {
    (row: Row) => col in row && ToNumeric(parse, row[col]).Some?
  }

  // ---------- Pairing and projection ----------

  /** `pd.to_numeric(cell, errors="coerce")` stored back in a cell. */
  function Coerce(parse: string -> Option<real>, c: Cell): (r: Cell)
    ensures !r.Text?
    ensures r.Num? <==> ToNumeric(parse, c).Some?
  {
    OfNumber(ToNumeric(parse, c))
  }

  /** The output columns: `participant, group, correct_1..n, conf_1..n`. */
  function TidyNames(n: nat): seq<string> {
    [Participant, Group] + Labels(CorrectPrefix, n) + Labels(ConfPrefix, n)
  }

  /** Every tidied column is `participant`, `group` or some question's `correct_i` / `conf_i`. */
  lemma TidyNamesMember(n: nat, x: string)
    requires x in TidyNames(n)
    ensures x == Participant || x == Group || exists i :: 1 <= i <= n && (x == CorrectCol(i) || x == ConfCol(i))
  {
    var k :| 0 <= k < |TidyNames(n)| && TidyNames(n)[k] == x;
    if k >= 2 + n {
      assert x == ConfCol(k - 1 - n);
    } else if k >= 2 {
      assert x == CorrectCol(k - 1);
    }
  }

  /** Position `k` of the output columns. */
  lemma TidyNameAt(n: nat, k: nat)
    requires k < |TidyNames(n)|
    ensures TidyNames(n)[k] ==
      if k == 0 then Participant
      else if k == 1 then Group
      else if k < 2 + n then CorrectCol(k - 1)
      else ConfCol(k - 1 - n)
  {
  }

  /** Two different positions of the output columns hold different names. */
  lemma TidyNamesDiffer(n: nat, a: nat, b: nat)
    requires a < b < |TidyNames(n)|
    ensures TidyNames(n)[a] != TidyNames(n)[b]
  {
    if a < 2 {
      if b >= 2 {
        PlainBeforeLabels(n, a, b);
      }
    } else if a < 2 + n {
      CorrectBeforeLater(n, a, b);
    } else {
      ConfBeforeLater(n, a, b);
    }
  }

  /** A `correct_i` column differs from every later column. */
  lemma CorrectBeforeLater(n: nat, a: nat, b: nat)
    requires 2 <= a < 2 + n && a < b < |TidyNames(n)|
    ensures TidyNames(n)[a] != TidyNames(n)[b]
  {
    TidyCorrectAt(n, a - 1);
    if b < 2 + n {
      TidyCorrectAt(n, b - 1);
      CorrectColsDiffer(a - 1, b - 1);
    } else {
      TidyConfAt(n, b - 1 - n);
      CorrectConfDiffer(a - 1, b - 1 - n);
    }
  }

  /** A `conf_i` column differs from every later column. */
  lemma ConfBeforeLater(n: nat, a: nat, b: nat)
    requires 2 + n <= a < b < |TidyNames(n)|
    ensures TidyNames(n)[a] != TidyNames(n)[b]
  {
    TidyConfAt(n, a - 1 - n);
    TidyConfAt(n, b - 1 - n);
    ConfColsDiffer(a - 1 - n, b - 1 - n);
  }

  lemma TidyCorrectAt(n: nat, i: nat)
    requires 1 <= i <= n
    ensures TidyNames(n)[i + 1] == CorrectCol(i)
  {
  }

  lemma TidyConfAt(n: nat, i: nat)
    requires 1 <= i <= n
    ensures TidyNames(n)[i + 1 + n] == ConfCol(i)
  {
  }

  /** `participant` and `group` are no question label. */
  lemma PlainBeforeLabels(n: nat, a: nat, b: nat)
    requires a < 2 <= b < |TidyNames(n)|
    ensures TidyNames(n)[a] != TidyNames(n)[b]
  {
    TidyNameAt(n, a);
    TidyNameAt(n, b);
    var name := TidyNames(n)[a];
    assert name == Participant || name == Group;
    assert !IsDigit(name[|name| - 1]);
    if b >= 2 + n {
      PlainNameIsNoLabel(name, ConfPrefix, b - 1 - n);
    } else {
      PlainNameIsNoLabel(name, CorrectPrefix, b - 1);
    }
  }

  /** The output columns are pairwise distinct. */
  lemma TidyNamesDistinct(n: nat)
    ensures Distinct(TidyNames(n))
  {
    forall a, b | 0 <= a < b < |TidyNames(n)|
      ensures TidyNames(n)[a] != TidyNames(n)[b]
    {
      TidyNamesDiffer(n, a, b);
    }
  }



  /** The question cells of one row: `correct_i` and `conf_i` from the i-th (score, confidence) pair. */
  function PairCells(row: Row, pairs: seq<(string, string)>, n: nat, parse: string -> Option<real>): (r: Row)
    requires n <= |pairs|
    requires forall j :: 0 <= j < n ==> pairs[j].0 in row && pairs[j].1 in row
    ensures r.Keys == NameSet(Labels(CorrectPrefix, n)) + NameSet(Labels(ConfPrefix, n))
  {
    if n == 0 then map[]
    else
      LabelSetStep(CorrectPrefix, n);
      LabelSetStep(ConfPrefix, n);
      PairCells(row, pairs, n - 1, parse)
        [CorrectCol(n) := Coerce(parse, row[pairs[n - 1].0])]
        [ConfCol(n) := Coerce(parse, row[pairs[n - 1].1])]
  }

  /** Question i's cells are the coerced cells of the i-th score and confidence columns. */
  lemma {:induction false} PairCellsValues(row: Row, pairs: seq<(string, string)>, n: nat, parse: string -> Option<real>, i: nat)
    requires n <= |pairs|
    requires forall j :: 0 <= j < n ==> pairs[j].0 in row && pairs[j].1 in row
    requires 1 <= i <= n
    ensures CorrectCol(i) in PairCells(row, pairs, n, parse) && ConfCol(i) in PairCells(row, pairs, n, parse)
    ensures PairCells(row, pairs, n, parse)[CorrectCol(i)] == Coerce(parse, row[pairs[i - 1].0])
    ensures PairCells(row, pairs, n, parse)[ConfCol(i)] == Coerce(parse, row[pairs[i - 1].1])
  {
    if i == n {
      CorrectConfDiffer(n, n);
    } else {
      PairCellsValues(row, pairs, n - 1, parse, i);
      CorrectColsDiffer(i, n);
      ConfColsDiffer(i, n);
      CorrectConfDiffer(i, n);
      CorrectConfDiffer(n, i);
    }
  }

  /** The row carries every column one output row is built from. */
  predicate TidyInputs(row: Row, source: NameSource, pairs: seq<(string, string)>, n: nat) {
    && n <= |pairs| && Group in row
    && (forall j :: 0 <= j < n ==> pairs[j].0 in row && pairs[j].1 in row)
    && (source.NameColumn? ==> source.column in row)
    && (source.TimestampText? ==> Timestamp in row)
  }

  /** One output row. */
  function TidyRow(row: Row, k: nat, source: NameSource, pairs: seq<(string, string)>, n: nat,
                   parse: string -> Option<real>, render: Cell -> string): (r: Row)
    requires TidyInputs(row, source, pairs, n)
    ensures r.Keys == NameSet(TidyNames(n))
  {
    PairCells(row, pairs, n, parse)[Participant := ParticipantCell(source, row, k, render)][Group := row[Group]]
  }

  /** The (score, confidence) pairs `zip(score_cols, conf_cols)`. */
  function Pairs(names: seq<string>): (r: seq<(string, string)>)
    ensures |r| == Min(|ScoreColumns(names)|, |ConfColumns(names)|)
    ensures forall j :: 0 <= j < |r| ==> r[j].0 == ScoreColumns(names)[j] && r[j].1 == ConfColumns(names)[j]
    ensures forall j :: 0 <= j < |r| ==> r[j].0 in names && r[j].1 in names
  {
    Zip(ScoreColumns(names), ConfColumns(names))
  }

  /** In a frame with a `group` column, every row carries what `tidy_columns` reads. */
  lemma TidyInputsHold(g: Frame, n: nat)
    requires Valid(g) && Group in g.names && n <= |Pairs(g.names)|
    ensures forall k :: 0 <= k < |g.rows| ==> TidyInputs(g.rows[k], ChooseNameSource(g.names), Pairs(g.names), n)
  {
  }

  /** The projected table: one output row per surviving row, in order. */
  function TidyTable(f: Frame, n: nat, parse: string -> Option<real>, render: Cell -> string): (t: Frame)
    requires Valid(f) && ScoreColumns(f.names) != [] && Group in f.names && n <= |Pairs(f.names)|
    ensures Valid(t) && t.names == TidyNames(n)
  {
    var kept := KeepRows(f, ParsesAt(ScoreColumns(f.names)[0], parse));
    TidyInputsHold(kept, n);
    TidyNamesDistinct(n);
    Frame(TidyNames(n), seq(|kept.rows|, k requires 0 <= k < |kept.rows| =>
      TidyRow(kept.rows[k], k, ChooseNameSource(f.names), Pairs(f.names), n, parse, render)))
  }

  /** The cleaned table with the two count warnings `tidy_columns` prints. */
  datatype Tidied = Tidied(table: Frame, scoreWarning: bool, confWarning: bool)

  /**
   * `tidy_columns(df, n)`. Fails with no score column at all (the first
   * one is needed to filter rows), without a `group` column, and when
   * fewer than n (score, confidence) pairs exist, since the projection
   * then asks for a `correct_i` that was never built. A count other than
   * n only raises a warning flag.
   */
  function TidyColumns(f: Frame, n: nat, parse: string -> Option<real>, render: Cell -> string): (r: Result<Tidied, Error>)
    requires Valid(f)
    ensures r == Failure(NoScoreColumns) <==> ScoreColumns(f.names) == []
    ensures r == Failure(MissingColumn(Group)) <==> ScoreColumns(f.names) != [] && Group !in f.names
    ensures var m := Min(|ScoreColumns(f.names)|, |ConfColumns(f.names)|);
      r == Failure(MissingColumn(CorrectCol(m + 1))) <==> ScoreColumns(f.names) != [] && Group in f.names && m < n
    ensures r.Success? <==>
      && ScoreColumns(f.names) != [] && Group in f.names
      && Min(|ScoreColumns(f.names)|, |ConfColumns(f.names)|) >= n
    ensures r.Success? ==> Valid(r.value.table) && r.value.table.names == TidyNames(n)
    ensures r.Success? ==> (r.value.scoreWarning <==> |ScoreColumns(f.names)| != n)
    ensures r.Success? ==> (r.value.confWarning <==> |ConfColumns(f.names)| != n)
  {
    var scores := ScoreColumns(f.names);
    if scores == [] then Failure(NoScoreColumns)
    else if Group !in f.names then Failure(MissingColumn(Group))
    else if |Pairs(f.names)| < n then
      PlainNameIsNoLabel(Group, CorrectPrefix, |Pairs(f.names)| + 1);
      Failure(MissingColumn(CorrectCol(|Pairs(f.names)| + 1)))
    else
      Success(Tidied(TidyTable(f, n, parse, render), |scores| != n, |ConfColumns(f.names)| != n))
  }

  /** The rows `tidy_columns` keeps: those whose first score cell reads as a number, in their original order. */
  function Survivors(f: Frame, parse: string -> Option<real>): seq<Row>
    requires ScoreColumns(f.names) != []
  {
    Filter(f.rows, ParsesAt(ScoreColumns(f.names)[0], parse))
  }

  /** A row survives exactly when its first score cell reads as a number; survivors keep their original order. */
  lemma SurvivorsExact(f: Frame, parse: string -> Option<real>, row: Row)
    requires Valid(f) && ScoreColumns(f.names) != []
    ensures var first := ScoreColumns(f.names)[0];
      row in Survivors(f, parse) <==> row in f.rows && first in row && ToNumeric(parse, row[first]).Some?
    ensures var kept := Survivors(f, parse);
      var idx := KeptIndices(f.rows, ParsesAt(ScoreColumns(f.names)[0], parse), 0);
      && |kept| == |idx|
      && forall i :: 0 <= i < |kept| ==> kept[i] == f.rows[idx[i]]
  {
    FilterSubsequence(f.rows, ParsesAt(ScoreColumns(f.names)[0], parse));
    if row in f.rows {
      var k :| 0 <= k < |f.rows| && f.rows[k] == row;
    }
  }

  /** Output row `k` of `tidy_columns` takes `group` from its source row and the participant identifier from the chosen source. */
  lemma TidyRowHead(row: Row, k: nat, source: NameSource, pairs: seq<(string, string)>, n: nat,
                    parse: string -> Option<real>, render: Cell -> string)
    requires TidyInputs(row, source, pairs, n)
    ensures var out := TidyRow(row, k, source, pairs, n, parse, render);
      && out[Group] == row[Group]
      && (source.NameColumn? ==> out[Participant] == row[source.column])
      && (source.TimestampText? ==> out[Participant] == Text(render(row[Timestamp])))
      && (source.RowNumber? ==> out[Participant] == Num((k + 1) as real))
  {
    assert Participant != Group;
  }

  /** Output row `k` holds in `correct_i` and `conf_i` the i-th score and confidence cells of its source row, coerced to numbers. */
  lemma TidyRowPair(row: Row, k: nat, source: NameSource, pairs: seq<(string, string)>, n: nat,
                    parse: string -> Option<real>, render: Cell -> string, i: nat)
    requires TidyInputs(row, source, pairs, n) && 1 <= i <= n
    ensures var out := TidyRow(row, k, source, pairs, n, parse, render);
      CorrectCol(i) in out && ConfCol(i) in out
    ensures var out := TidyRow(row, k, source, pairs, n, parse, render);
      && out[CorrectCol(i)] == Coerce(parse, row[pairs[i - 1].0])
      && out[ConfCol(i)] == Coerce(parse, row[pairs[i - 1].1])
  {
    var cells := PairCells(row, pairs, n, parse);
    PairCellsValues(row, pairs, n, parse, i);
    assert TidyRow(row, k, source, pairs, n, parse, render)
        == cells[Participant := ParticipantCell(source, row, k, render)][Group := row[Group]];
    PlainNameIsNoLabel(Participant, CorrectPrefix, i);
    PlainNameIsNoLabel(Participant, ConfPrefix, i);
    PlainNameIsNoLabel(Group, CorrectPrefix, i);
    PlainNameIsNoLabel(Group, ConfPrefix, i);
  }

  /**
   * On success the table has one row per surviving row, in order; row `k`
   * takes `group` from its source row, the participant identifier from
   * the chosen source, and `correct_i` / `conf_i` from the i-th score and
   * confidence columns, coerced to numbers.
   */
  lemma TidyColumnsSpec(f: Frame, n: nat, parse: string -> Option<real>, render: Cell -> string)
    requires Valid(f) && TidyColumns(f, n, parse, render).Success?
    ensures var t := TidyColumns(f, n, parse, render).value.table;
      var src := Survivors(f, parse);
      && |t.rows| == |src|
      && forall k :: 0 <= k < |src| ==>
        && TidyInputs(src[k], ChooseNameSource(f.names), Pairs(f.names), n)
        && t.rows[k] == TidyRow(src[k], k, ChooseNameSource(f.names), Pairs(f.names), n, parse, render)
  {
    var kept := KeepRows(f, ParsesAt(ScoreColumns(f.names)[0], parse));
    TidyInputsHold(kept, n);
  }

  /** For n >= 1 every output row has a number in `correct_1`: the row filter guarantees it. */
  lemma TidyFirstCorrectPresent(f: Frame, n: nat, parse: string -> Option<real>, render: Cell -> string, k: nat)
    requires Valid(f) && TidyColumns(f, n, parse, render).Success? && n >= 1
    requires k < |TidyColumns(f, n, parse, render).value.table.rows|
    ensures CorrectCol(1) in TidyColumns(f, n, parse, render).value.table.rows[k]
    ensures TidyColumns(f, n, parse, render).value.table.rows[k][CorrectCol(1)].Num?
  {
    TidyColumnsSpec(f, n, parse, render);
    var src := Survivors(f, parse);
    TidyRowPair(src[k], k, ChooseNameSource(f.names), Pairs(f.names), n, parse, render, 1);
    assert src[k] in src;
    SurvivorsExact(f, parse, src[k]);
  }

  /** Every `correct_i` and `conf_i` column of the table is free of text, so scoring can read it. */
  lemma TidyColumnsNumeric(f: Frame, n: nat, parse: string -> Option<real>, render: Cell -> string, i: nat)
    requires Valid(f) && TidyColumns(f, n, parse, render).Success? && 1 <= i <= n
    ensures var t := TidyColumns(f, n, parse, render).value.table;
      NumericColumn(t, CorrectCol(i)) && NumericColumn(t, ConfCol(i))
  {
    var t := TidyColumns(f, n, parse, render).value.table;
    TidyColumnsSpec(f, n, parse, render);
    var src := Survivors(f, parse);
    forall k | 0 <= k < |t.rows|
      ensures CorrectCol(i) in t.rows[k] && !t.rows[k][CorrectCol(i)].Text?
      ensures ConfCol(i) in t.rows[k] && !t.rows[k][ConfCol(i)].Text?
    {
      TidyRowPair(src[k], k, ChooseNameSource(f.names), Pairs(f.names), n, parse, render, i);
      PairCellsValues(src[k], Pairs(f.names), n, parse, i);
      LabelInSet(CorrectPrefix, n, i);
      LabelInSet(ConfPrefix, n, i);
    }
    LabelInSet(CorrectPrefix, n, i);
    LabelInSet(ConfPrefix, n, i);
    assert CorrectCol(i) in NameSet(t.names) && ConfCol(i) in NameSet(t.names);
  }
}
