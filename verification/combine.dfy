/**
 * `load_and_combine`: each of the two questionnaire sheets keeps only the
 * rows whose `Timestamp` reads as a date (when the sheet has that column),
 * is tagged with its group code in a `group` column, and the two sheets
 * are stacked, control group first. Reading the workbook is not modelled:
 * the two sheets are inputs, and date parsing is the parameter `isDate`.
 */
module Combine {
  import opened Seqs
  import opened Frames
  import opened Cleaning

  const ControlCode := "CG"
  const ExperimentCode := "EG"

  /**
   * The row test of the date filter: `pd.to_datetime(..., errors="coerce").notna()`.
   * A missing timestamp converts to NaT whatever the parser, so it never passes.
   */
  function Dated(isDate: Cell -> bool): Row -> bool {
    (row: Row) => Timestamp in row && !row[Timestamp].Missing? && isDate(row[Timestamp])
  }

  /** The rows of a sheet that pass the date filter; a sheet without `Timestamp` keeps every row. */
  function DatedRows(f: Frame, isDate: Cell -> bool): (r: Frame)
    requires Valid(f)
    ensures Valid(r) && r.names == f.names
  {
    if Timestamp in f.names then KeepRows(f, Dated(isDate)) else f
  }

  /** One sheet, filtered and with every row's `group` set to `code`. */
  function TagSheet(f: Frame, code: string, isDate: Cell -> bool): (r: Frame)
    requires Valid(f)
    ensures Valid(r)
    ensures NameSet(r.names) == NameSet(f.names) + {Group}
    ensures |r.rows| == |DatedRows(f, isDate).rows|
    ensures forall k :: 0 <= k < |r.rows| ==> r.rows[k][Group] == Text(code)
    ensures forall k, x :: 0 <= k < |r.rows| && x in f.names && x != Group ==>
      r.rows[k][x] == DatedRows(f, isDate).rows[k][x]
  {
    var kept := DatedRows(f, isDate);
    SetColumn(kept, Group, seq(|kept.rows|, _ => Text(code)))
  }

  /** A row widened to the columns `names`; columns it lacks become missing. */
  function Fill(row: Row, names: seq<string>): (r: Row)
    ensures r.Keys == NameSet(names)
  {
    map x | x in NameSet(names) :: if x in row then row[x] else Missing
  }

  /**
   * `pd.concat([f, g], ignore_index=True)`: the columns of `f`, then those
   * of `g` that `f` lacks; the rows of `f`, then those of `g`.
   */
  function Concat(f: Frame, g: Frame): (r: Frame)
    requires Valid(f) && Valid(g)
    ensures Valid(r)
    ensures NameSet(r.names) == NameSet(f.names) + NameSet(g.names)
    ensures |f.names| <= |r.names| && r.names[..|f.names|] == f.names
    ensures |r.rows| == |f.rows| + |g.rows|
    ensures forall k :: 0 <= k < |f.rows| ==> r.rows[k] == Fill(f.rows[k], r.names)
    ensures forall k :: 0 <= k < |g.rows| ==> r.rows[|f.rows| + k] == Fill(g.rows[k], r.names)
  {
    var names := AppendMissing(f.names, g.names);
    Frame(names, FillAll(f.rows, names) + FillAll(g.rows, names))
  }

  lemma FillAt(row: Row, names: seq<string>, x: string)
    requires x in names
    ensures x in Fill(row, names) && Fill(row, names)[x] == if x in row then row[x] else Missing
  {
    assert x in NameSet(names);
  }

  /** Every row widened to the columns `names`. */
  function FillAll(rows: seq<Row>, names: seq<string>): (r: seq<Row>)
    ensures |r| == |rows|
    ensures forall k :: 0 <= k < |rows| ==> r[k] == Fill(rows[k], names)
  {
    seq(|rows|, k requires 0 <= k < |rows| => Fill(rows[k], names))
  }

  function LoadAndCombine(cg: Frame, eg: Frame, isDate: Cell -> bool): (r: Frame)
    requires Valid(cg) && Valid(eg)
    ensures Valid(r)
  {
    Concat(TagSheet(cg, ControlCode, isDate), TagSheet(eg, ExperimentCode, isDate))
  }

  /**
   * A row passes the date filter exactly when the sheet has no `Timestamp`
   * column or its `Timestamp` is present and reads as a date; the
   * survivors are the sheet's rows at increasing positions.
   */
  lemma DatedRowsSpec(f: Frame, isDate: Cell -> bool, row: Row)
    requires Valid(f)
    ensures row in DatedRows(f, isDate).rows <==>
      row in f.rows && (Timestamp in f.names ==> !row[Timestamp].Missing? && isDate(row[Timestamp]))
    ensures Timestamp in f.names ==>
      && |DatedRows(f, isDate).rows| == |KeptIndices(f.rows, Dated(isDate), 0)|
      && forall i :: 0 <= i < |DatedRows(f, isDate).rows| ==>
           DatedRows(f, isDate).rows[i] == f.rows[KeptIndices(f.rows, Dated(isDate), 0)[i]]
  {
    if Timestamp in f.names {
      FilterSubsequence(f.rows, Dated(isDate));
      if row in f.rows {
        var k :| 0 <= k < |f.rows| && f.rows[k] == row;
        assert Timestamp in row;
      }
    }
  }

  /** Whatever the date parser, no surviving row of a sheet with a `Timestamp` column has that cell missing. */
  lemma MissingTimestampDropped(f: Frame, isDate: Cell -> bool, k: nat)
    requires Valid(f) && Timestamp in f.names && k < |DatedRows(f, isDate).rows|
    ensures Timestamp in DatedRows(f, isDate).rows[k] && !DatedRows(f, isDate).rows[k][Timestamp].Missing?
  {
    var row := DatedRows(f, isDate).rows[k];
    DatedRowsSpec(f, isDate, row);
    var j :| 0 <= j < |f.rows| && f.rows[j] == row;
    CellPresent(f, j, Timestamp);
  }

  /** Row `k` of the first sheet keeps its cells; a column only the second sheet has is missing. */
  lemma ConcatFirst(f: Frame, g: Frame, k: nat, x: string)
    requires Valid(f) && Valid(g) && k < |f.rows| && x in Concat(f, g).names
    ensures x in Concat(f, g).rows[k]
    ensures Concat(f, g).rows[k][x] == if x in f.names then f.rows[k][x] else Missing
  {
  }

  /** Row `k` of the second sheet lands at `|f.rows| + k` and keeps its cells; other columns are missing. */
  lemma ConcatSecond(f: Frame, g: Frame, k: nat, x: string)
    requires Valid(f) && Valid(g) && k < |g.rows| && x in Concat(f, g).names
    ensures x in Concat(f, g).rows[|f.rows| + k]
    ensures Concat(f, g).rows[|f.rows| + k][x] == if x in g.names then g.rows[k][x] else Missing
  {
    FillAt(g.rows[k], Concat(f, g).names, x);
    CellPresent(g, k, x);
  }

  /** Cell `x` of row `k` of a tagged sheet: its code in `group`, the surviving row's cell elsewhere. */
  lemma TagSheetCell(f: Frame, code: string, isDate: Cell -> bool, k: nat, x: string)
    requires Valid(f) && k < |DatedRows(f, isDate).rows|
    ensures k < |TagSheet(f, code, isDate).rows|
    ensures x in TagSheet(f, code, isDate).names <==> x == Group || x in f.names
    ensures x in TagSheet(f, code, isDate).names ==>
      && x in TagSheet(f, code, isDate).rows[k]
      && TagSheet(f, code, isDate).rows[k][x] == if x == Group then Text(code) else DatedRows(f, isDate).rows[k][x]
  {
    var t := TagSheet(f, code, isDate);
    assert x in t.names <==> x in NameSet(t.names);
    assert x in f.names <==> x in NameSet(f.names);
  }

  /**
   * The combined table has the columns of both sheets plus `group`, and
   * holds the surviving control rows followed by the surviving
   * experimental rows.
   */
  lemma LoadAndCombineShape(cg: Frame, eg: Frame, isDate: Cell -> bool)
    requires Valid(cg) && Valid(eg)
    ensures var r := LoadAndCombine(cg, eg, isDate);
      && NameSet(r.names) == NameSet(cg.names) + NameSet(eg.names) + {Group}
      && |r.rows| == |DatedRows(cg, isDate).rows| + |DatedRows(eg, isDate).rows|
  {
    var c := TagSheet(cg, ControlCode, isDate);
    var e := TagSheet(eg, ExperimentCode, isDate);
    assert NameSet(LoadAndCombine(cg, eg, isDate).names) == NameSet(c.names) + NameSet(e.names);
  }

  /** Row `k` of the control sheet's survivors is row `k` of the result, tagged "CG", other cells kept or missing. */
  lemma LoadAndCombineControl(cg: Frame, eg: Frame, isDate: Cell -> bool, k: nat, x: string)
    requires Valid(cg) && Valid(eg) && k < |DatedRows(cg, isDate).rows|
    requires x in LoadAndCombine(cg, eg, isDate).names
    ensures k < |LoadAndCombine(cg, eg, isDate).rows| && x in LoadAndCombine(cg, eg, isDate).rows[k]
    ensures LoadAndCombine(cg, eg, isDate).rows[k][x] ==
      if x == Group then Text(ControlCode)
      else if x in cg.names then DatedRows(cg, isDate).rows[k][x]
      else Missing
  {
    var c := TagSheet(cg, ControlCode, isDate);
    var e := TagSheet(eg, ExperimentCode, isDate);
    ConcatFirst(c, e, k, x);
    assert x in c.names <==> x in NameSet(c.names);
  }

  /** Row `k` of the experimental sheet's survivors follows all control rows, tagged "EG", other cells kept or missing. */
  lemma LoadAndCombineExperiment(cg: Frame, eg: Frame, isDate: Cell -> bool, k: nat, x: string)
    requires Valid(cg) && Valid(eg) && k < |DatedRows(eg, isDate).rows|
    requires x in LoadAndCombine(cg, eg, isDate).names
    ensures var at := |DatedRows(cg, isDate).rows| + k;
      at < |LoadAndCombine(cg, eg, isDate).rows| && x in LoadAndCombine(cg, eg, isDate).rows[at]
    ensures LoadAndCombine(cg, eg, isDate).rows[|DatedRows(cg, isDate).rows| + k][x] ==
      if x == Group then Text(ExperimentCode)
      else if x in eg.names then DatedRows(eg, isDate).rows[k][x]
      else Missing
  {
    var c := TagSheet(cg, ControlCode, isDate);
    var e := TagSheet(eg, ExperimentCode, isDate);
    ConcatSecond(c, e, k, x);
    TagSheetCell(eg, ExperimentCode, isDate, k, x);
  }

}
