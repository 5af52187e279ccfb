/**
 * A pandas DataFrame reduced to what the study pipeline relies on: an
 * ordered list of distinct column names and rows keyed by those names.
 * NaN / NaT cells are `Missing`.
 */
module Frames {
  import opened Wrappers
  import opened Seqs

  datatype Cell = Missing | Num(value: real) | Text(text: string)

  type Row = map<string, Cell>

  datatype Frame = Frame(names: seq<string>, rows: seq<Row>)

  /** The exceptions the pipeline can raise: KeyError, TypeError, IndexError. */
  datatype Error =
    | MissingColumn(column: string)
    | NotNumeric(column: string)
    | NoScoreColumns

  function NameSet(names: seq<string>): set<string> {
    set x | x in names
  }

  /** Column labels are unique and every row has exactly the frame's columns. */
  predicate Valid(f: Frame) {
    && Distinct(f.names)
    && forall k :: 0 <= k < |f.rows| ==> f.rows[k].Keys == NameSet(f.names)
  }

  /** In a valid frame a row has a cell for `x` exactly when `x` is a column. */
  lemma CellPresent(f: Frame, k: nat, x: string)
    requires Valid(f) && k < |f.rows|
    ensures x in f.rows[k] <==> x in f.names
  {
    assert x in NameSet(f.names) <==> x in f.names;
  }

  function AsNumber(c: Cell): Option<real> {
    if c.Num? then Some(c.value) else None
  }

  function OfNumber(o: Option<real>): Cell {
    if o.Some? then Num(o.value) else Missing
  }

  /** Numbers stored in cells and read back are unchanged, and so are numeric cells. */
  lemma NumberCellRoundTrip(o: Option<real>, c: Cell)
    ensures AsNumber(OfNumber(o)) == o
    ensures !c.Text? ==> OfNumber(AsNumber(c)) == c
  {
  }

  /**
   * `pd.to_numeric(cell, errors="coerce")`: numbers pass through, a missing
   * cell stays missing, and text is handed to the (unmodelled) string parser.
   */
  function ToNumeric(parse: string -> Option<real>, c: Cell): (r: Option<real>)
    ensures c.Num? ==> r == Some(c.value)
    ensures c.Missing? ==> r.None?
  {
    match c
    case Missing => None
    case Num(x) => Some(x)
    case Text(s) => parse(s)
  }

  /** A column that exists and holds no text, so pandas arithmetic on it does not raise. */
  predicate NumericColumn(f: Frame, name: string) {
    && name in f.names
    && forall k :: 0 <= k < |f.rows| ==> name in f.rows[k] && !f.rows[k][name].Text?
  }

  /** Reading a column for arithmetic: KeyError if absent, TypeError if it holds text. */
  function CheckNumeric(f: Frame, name: string): (r: Outcome<Error>)
    requires Valid(f)
    ensures r.Pass? <==> NumericColumn(f, name)
    ensures r.Fail? && name !in f.names ==> r.error == MissingColumn(name)
    ensures r.Fail? && name in f.names ==> r.error == NotNumeric(name)
  {
    if name !in f.names then Fail(MissingColumn(name))
    else if exists k :: 0 <= k < |f.rows| && f.rows[k][name].Text? then Fail(NotNumeric(name))
    else Pass
  }

  /** Every column of `cols` can be read as numbers. */
  predicate AllNumeric(f: Frame, cols: seq<string>) {
    forall j :: 0 <= j < |cols| ==> NumericColumn(f, cols[j])
  }

  lemma AllNumericAppend(f: Frame, a: seq<string>, b: seq<string>)
    ensures AllNumeric(f, a + b) <==> AllNumeric(f, a) && AllNumeric(f, b)
  {
    if AllNumeric(f, a) && AllNumeric(f, b) {
      forall j | 0 <= j < |a + b|
        ensures NumericColumn(f, (a + b)[j])
      {
        if j >= |a| {
          assert (a + b)[j] == b[j - |a|];
        }
      }
    }
    if AllNumeric(f, a + b) {
      forall j | 0 <= j < |a|
        ensures NumericColumn(f, a[j])
      {
        assert (a + b)[j] == a[j];
      }
      forall j | 0 <= j < |b|
        ensures NumericColumn(f, b[j])
      {
        assert (a + b)[|a| + j] == b[j];
      }
    }
  }

  /** Reading a list of columns `df[cols]` for arithmetic; the first bad column is reported. */
  function CheckAllNumeric(f: Frame, cols: seq<string>): (r: Outcome<Error>)
    requires Valid(f)
    ensures r.Pass? <==> AllNumeric(f, cols)
    ensures r.Fail? ==> exists i ::
      && 0 <= i < |cols| && r == CheckNumeric(f, cols[i])
      && forall j :: 0 <= j < i ==> NumericColumn(f, cols[j])
  {
    if cols == [] then Pass
    else if CheckNumeric(f, cols[0]).Fail? then CheckNumeric(f, cols[0])
    else CheckAllNumeric(f, cols[1..])
  }

  /** The row carries every column of `cols`. */
  predicate HasColumns(row: Row, cols: seq<string>) {
    forall j :: 0 <= j < |cols| ==> cols[j] in row
  }

  /** The numeric values of `cols` in one row; missing and text cells read as `None`. */
  function Values(row: Row, cols: seq<string>): (r: seq<Option<real>>)
    requires HasColumns(row, cols)
    ensures |r| == |cols|
    ensures forall i :: 0 <= i < |cols| ==> r[i] == AsNumber(row[cols[i]])
  {
    seq(|cols|, i requires 0 <= i < |cols| => AsNumber(row[cols[i]]))
  }

  /**
   * The column list after assigning each of `extra` in turn: a name already
   * present keeps its place, a new one is appended at the end.
   */
  function AppendMissing(names: seq<string>, extra: seq<string>): (r: seq<string>)
    ensures |names| <= |r| && r[..|names|] == names
    ensures NameSet(r) == NameSet(names) + NameSet(extra)
    ensures Distinct(names) ==> Distinct(r)
    decreases |extra|
  {
    if extra == [] then names
    else
      var init := AppendMissing(names, extra[..|extra| - 1]);
      var x := extra[|extra| - 1];
      assert extra == extra[..|extra| - 1] + [x];
      if x in init then init
      else
        assert (init + [x])[..|names|] == init[..|names|];
        assert NameSet(init + [x]) == NameSet(init) + {x};
        init + [x]
  }

  lemma {:induction false} AppendMissingConcat(names: seq<string>, a: seq<string>, b: seq<string>)
    ensures AppendMissing(names, a + b) == AppendMissing(AppendMissing(names, a), b)
    decreases |b|
  {
    if b == [] {
      assert a + b == a;
    } else {
      var b' := b[..|b| - 1];
      assert (a + b)[..|a + b| - 1] == a + b';
      assert (a + b)[|a + b| - 1] == b[|b| - 1];
      AppendMissingConcat(names, a, b');
    }
  }

  /** Assigning only columns that already exist leaves the column list as it was. */
  lemma {:induction false} AppendMissingPresent(names: seq<string>, extra: seq<string>)
    requires forall i :: 0 <= i < |extra| ==> extra[i] in names
    ensures AppendMissing(names, extra) == names
    decreases |extra|
  {
    if extra != [] {
      AppendMissingPresent(names, extra[..|extra| - 1]);
    }
  }

  /** Assigning distinct new columns appends them in order. */
  lemma {:induction false} AppendMissingFresh(names: seq<string>, extra: seq<string>)
    requires Distinct(extra)
    requires forall i :: 0 <= i < |extra| ==> extra[i] !in names
    ensures AppendMissing(names, extra) == names + extra
    decreases |extra|
  {
    if extra != [] {
      var init := extra[..|extra| - 1];
      AppendMissingFresh(names, init);
      assert extra == init + [extra[|extra| - 1]];
      assert extra[|extra| - 1] !in names + init;
    }
  }

  /**
   * `df[name] = vals`: every row gets its new cell, an existing column is
   * overwritten where it stands, a new one is appended.
   */
  function SetColumn(f: Frame, name: string, vals: seq<Cell>): (r: Frame)
    requires Valid(f) && |vals| == |f.rows|
    ensures Valid(r)
    ensures r.names == AppendMissing(f.names, [name])
    ensures |r.rows| == |f.rows|
    ensures forall k :: 0 <= k < |r.rows| ==> name in r.rows[k] && r.rows[k][name] == vals[k]
    ensures forall k, x :: 0 <= k < |r.rows| && x in f.rows[k] && x != name ==>
      x in r.rows[k] && r.rows[k][x] == f.rows[k][x]
  {
    Frame(AppendMissing(f.names, [name]), seq(|f.rows|, k requires 0 <= k < |f.rows| => f.rows[k][name := vals[k]]))
  }

  /** Every cell of `src` outside `written` reappears unchanged in `out`. */
  predicate Untouched(src: Row, out: Row, written: seq<string>) {
    forall x :: x in src && x !in written ==> x in out && out[x] == src[x]
  }

  /** Row by row, every cell outside `written` survives from `f` to `g`. */
  predicate RowsUntouched(f: Frame, g: Frame, written: seq<string>) {
    |g.rows| == |f.rows| && forall k :: 0 <= k < |f.rows| ==> Untouched(f.rows[k], g.rows[k], written)
  }

  /** Two steps that each leave a cell alone leave it alone together. */
  lemma UntouchedTrans(a: Row, b: Row, c: Row, w1: seq<string>, w2: seq<string>)
    requires Untouched(a, b, w1) && Untouched(b, c, w2)
    ensures Untouched(a, c, w1 + w2)
  {
  }

  /** A column no step wrote to reads the same after the steps as before. */
  lemma NumericColumnKept(f: Frame, g: Frame, written: seq<string>, x: string)
    requires Valid(f) && Valid(g)
    requires NameSet(g.names) == NameSet(f.names) + NameSet(written)
    requires RowsUntouched(f, g, written)
    requires x !in written
    ensures NumericColumn(g, x) <==> NumericColumn(f, x)
  {
    assert x in g.names <==> x in f.names by {
      assert x in NameSet(g.names) <==> x in NameSet(f.names);
    }
  }

  /** Every cell of `cols` present in `r1` is present in `r2` with the same value. */
  predicate SameCells(r1: Row, r2: Row, cols: seq<string>) {
    forall j :: 0 <= j < |cols| && cols[j] in r1 ==> cols[j] in r2 && r2[cols[j]] == r1[cols[j]]
  }

  /** Columns no step wrote to read the same, cell for cell, after the steps as before. */
  lemma ColumnsKept(f: Frame, g: Frame, written: seq<string>, cols: seq<string>)
    requires Valid(f) && Valid(g)
    requires NameSet(g.names) == NameSet(f.names) + NameSet(written)
    requires RowsUntouched(f, g, written)
    requires forall j :: 0 <= j < |cols| ==> cols[j] !in written
    ensures AllNumeric(g, cols) <==> AllNumeric(f, cols)
    ensures forall k :: 0 <= k < |f.rows| ==> SameCells(f.rows[k], g.rows[k], cols)
  {
    forall j | 0 <= j < |cols|
      ensures NumericColumn(g, cols[j]) <==> NumericColumn(f, cols[j])
    {
      NumericColumnKept(f, g, written, cols[j]);
    }
  }

  /** Assigning one column does not change whether another column can be read as numbers. */
  lemma SetColumnKeepsNumeric(f: Frame, name: string, vals: seq<Cell>, x: string)
    requires Valid(f) && |vals| == |f.rows| && x != name
    ensures NumericColumn(SetColumn(f, name, vals), x) <==> NumericColumn(f, x)
  {
    var r := SetColumn(f, name, vals);
    assert x in r.names <==> x in f.names by {
      assert x in NameSet(r.names) <==> x in NameSet(f.names);
    }
  }

  /** Writing back the values a column already holds changes nothing. */
  lemma SetColumnSame(f: Frame, name: string, vals: seq<Cell>)
    requires Valid(f) && |vals| == |f.rows| && name in f.names
    requires forall k :: 0 <= k < |f.rows| ==> vals[k] == f.rows[k][name]
    ensures SetColumn(f, name, vals) == f
  {
    var r := SetColumn(f, name, vals);
    AppendMissingPresent(f.names, [name]);
    forall k | 0 <= k < |f.rows|
      ensures r.rows[k] == f.rows[k]
    {
      assert r.rows[k].Keys == f.rows[k].Keys;
    }
    assert r.rows == f.rows;
  }

  /** Two valid frames with the same columns and the same cells are the same frame. */
  lemma FramesEqual(f: Frame, g: Frame)
    requires Valid(f) && Valid(g) && g.names == f.names && |g.rows| == |f.rows|
    requires forall k, x :: 0 <= k < |f.rows| && x in f.rows[k] ==> x in g.rows[k] && g.rows[k][x] == f.rows[k][x]
    ensures g == f
  {
    forall k | 0 <= k < |f.rows|
      ensures g.rows[k] == f.rows[k]
    {
      assert g.rows[k].Keys == f.rows[k].Keys;
    }
  }

  /** Boolean-mask row selection `df[mask]`: the columns stay, the rows are filtered in order. */
  function KeepRows(f: Frame, keep: Row -> bool): (r: Frame)
    requires Valid(f)
    ensures Valid(r) && r.names == f.names
    ensures r.rows == Filter(f.rows, keep)
  {
    var rows := Filter(f.rows, keep);
    assert Valid(Frame(f.names, rows)) by {
      forall k | 0 <= k < |rows|
        ensures rows[k].Keys == NameSet(f.names)
      {
        assert rows[k] in f.rows;
      }
    }
    Frame(f.names, rows)
  }
}
