/** The optimize stage: a column whose label mentions a date goes through
    `pd.to_datetime(errors='coerce')`, and an `object` column with few distinct
    values becomes `category`. Values change only in converted date columns. */
module Optimize {
  import opened Seqs
  import opened Names
  import opened Table

  /** What the date parser makes of one present cell: an instant, something it does
      not recognise (coerced to NaT), or an error that makes `to_datetime` raise. */
  datatype DateParse = Parsed(instant: real) | Unparseable | ParserError

  /** One cell after `to_datetime(errors='coerce')`: a timestamp or NaT. */
  function ToDatetime(c: Cell, parse: Cell -> DateParse): (d: Cell)
    ensures !d.Text?
    ensures d.Num? <==> IsPresent(c) && parse(c).Parsed?
  {
    if c.Missing? then Missing
    else
      match parse(c)
      case Parsed(t) => Num(t)
      case _ => Missing
  }

  /** `to_datetime` raises on the column (the stage catches it and moves on). */
  predicate ParseFails(col: seq<Cell>, parse: Cell -> DateParse) {
    exists i :: 0 <= i < |col| && IsPresent(col[i]) && parse(col[i]).ParserError?
  }

  /** `nunique()`: how many distinct values the column holds, NaN not counted. */
  function NUnique(col: seq<Cell>): (n: nat)
    ensures n <= |col|
    ensures n == 0 <==> forall i :: 0 <= i < |col| ==> col[i].Missing?
  {
    var vals := Present(col);
    assert vals != [] ==> vals[0] in vals && Dedup(vals) != [];
    assert forall i :: 0 <= i < |col| && !col[i].Missing? ==> col[i] in vals;
    |Dedup(vals)|
  }

  /** The column's label mentions 'fecha' or 'date' and parsing does not raise.
      Its ensures only spell out the body, so the solver need not unfold it; it
      states no property. */
  function ConvertFlags(df: Frame, parse: Cell -> DateParse): (conv: seq<bool>)
    requires WellFormed(df)
    ensures |conv| == |df.names|
    ensures forall j :: 0 <= j < |df.names| ==>
      (conv[j] <==> IsTemporalName(df.names[j]) && !ParseFails(Column(df.rows, j), parse))
  {
    seq(|df.names|, j requires 0 <= j < |df.names| =>
      IsTemporalName(df.names[j]) && !ParseFails(Column(df.rows, j), parse))
  }

  /** The first column whose label is shared: `df[col].dtype` raises there, because
      `df[col]` is a DataFrame (its `to_datetime` failure is caught before). */
  function OptimizeStop(df: Frame): nat
    requires WellFormed(df)
  {
    FirstAmbiguous(df.names, AllColumns(|df.names|))
  }

  /** The dtype of column `j` after its step: `datetime64` when converted, else
      `category` for an `object` column with `nunique / len < 0.1`. */
  function OptimizedKind(df: Frame, conv: seq<bool>, j: nat): (k: Kind)
    requires WellFormed(df) && |conv| == |df.names| && j < |df.names|
    ensures k != df.kinds[j] ==> k == Datetime || (k == Categorical && df.kinds[j] == Object)
    ensures k == Categorical && df.kinds[j] != Categorical ==> !conv[j] && 10 * NUnique(Column(df.rows, j)) < |df.rows|
  {
    if conv[j] then Datetime
    else if df.kinds[j] == Object && |df.rows| > 0 && 10 * NUnique(Column(df.rows, j)) < |df.rows| then Categorical
    else df.kinds[j]
  }

  /** The dtypes once the loop has settled the columns before `stop`.
      Its ensures only spell out the body, so the solver need not unfold it; it
      states no property. */
  function OptimizedKinds(df: Frame, conv: seq<bool>, stop: nat): (kinds: seq<Kind>)
    requires WellFormed(df) && |conv| == |df.names|
    ensures |kinds| == |df.names|
    ensures forall j :: 0 <= j < |df.names| ==>
      kinds[j] == if j < stop then OptimizedKind(df, conv, j) else df.kinds[j]
  {
    seq(|df.names|, j requires 0 <= j < |df.names| =>
      if j < stop then OptimizedKind(df, conv, j) else df.kinds[j])
  }

  /** One more step of the loop settles the dtype of column `j`. */
  lemma OptimizedKindsStep(df: Frame, conv: seq<bool>, j: nat)
    requires WellFormed(df) && |conv| == |df.names| && j < |df.names|
    ensures OptimizedKinds(df, conv, j + 1) == OptimizedKinds(df, conv, j)[j := OptimizedKind(df, conv, j)]
  {
  }

  /** The loop's rewrite of the cells: the converted columns through `to_datetime`. */
  function ConvertColumns(conv: seq<bool>, parse: Cell -> DateParse): (nat, Cell) -> Cell {
    (j: nat, c: Cell) => if j < |conv| && conv[j] then ToDatetime(c, parse) else c
  }

  /** `pd.to_datetime(errors='coerce')` on one column. */
  function DatetimeWith(parse: Cell -> DateParse): Cell -> Cell {
    c => ToDatetime(c, parse)
  }

  /** One step of the column loop on the cells: the loop finds column `j` as
      loaded, and converts it exactly when its label mentions a date and parsing
      does not raise. */
  lemma OptimizeStep(df: Frame, parse: Cell -> DateParse, j: nat)
    requires WellFormed(df) && j < |df.names|
    ensures var conv := ConvertFlags(df, parse);
      var g := ConvertColumns(conv, parse);
      var rows := MapColumnsBelow(df.rows, |df.names|, j, g);
      var col := Column(rows, j);
      && col == Column(df.rows, j)
      && conv[j] == (IsTemporalName(df.names[j]) && !ParseFails(col, parse))
      && MapColumnsBelow(df.rows, |df.names|, j + 1, g) ==
           if conv[j] then MapColumn(rows, j, DatetimeWith(parse)) else rows
  {
    var conv := ConvertFlags(df, parse);
    var g := ConvertColumns(conv, parse);
    MapColumnsBelowColumn(df.rows, |df.names|, j, g);
    if conv[j] {
      MapColumnsBelowStep(df.rows, |df.names|, j, g, DatetimeWith(parse));
    } else {
      MapColumnsBelowSkip(df.rows, |df.names|, j, g);
    }
  }

  /** The table after the stage; an empty table is left as it is. */
  function Optimized(df: Frame, parse: Cell -> DateParse): (r: Frame)
    requires WellFormed(df)
    ensures WellFormed(r)
  {
    if IsEmpty(df) then df
    else
      var stop, conv := OptimizeStop(df), ConvertFlags(df, parse);
      var kinds := OptimizedKinds(df, conv, stop);
      var rows := MapColumnsBelow(df.rows, |df.names|, stop, ConvertColumns(conv, parse));
      assert forall i, j :: 0 <= i < |rows| && 0 <= j < |df.names| && HoldsNumbers(kinds[j]) ==> !rows[i][j].Text? by {
        forall i, j | 0 <= i < |rows| && 0 <= j < |df.names| && HoldsNumbers(kinds[j])
          ensures !rows[i][j].Text?
        {
          if !(j < stop && conv[j]) {
            assert kinds[j] == df.kinds[j];
          }
        }
      }
      Frame(df.names, kinds, rows)
  }

  function OptimizeStatus(df: Frame): Status
    requires WellFormed(df)
  {
    if IsEmpty(df) then Done else StopStatus(df.names, OptimizeStop(df))
  }

  /** `nunique()` is the number of distinct present values. */
  lemma NUniqueCountsValues(col: seq<Cell>)
    ensures NUnique(col) == |set c | c in col && IsPresent(c)|
  {
    var d := Dedup(Present(col));
    DistinctCardinality(d);
    assert (set c | c in d) == (set c | c in col && IsPresent(c));
  }

  /** The stage changes no label and no row count, and nothing from the stop column
      on; the cells of a column that is not converted do not change. */
  lemma OptimizeKeepsLabelsAndValues(df: Frame, parse: Cell -> DateParse)
    requires WellFormed(df) && !IsEmpty(df)
    ensures var r, stop := Optimized(df, parse), OptimizeStop(df);
      && r.names == df.names && |r.rows| == |df.rows|
      && (forall j :: stop <= j < |df.names| ==> r.kinds[j] == df.kinds[j])
      && (forall i, j :: 0 <= i < |df.rows| && stop <= j < |df.names| ==> r.rows[i][j] == df.rows[i][j])
      && (forall i, j :: 0 <= i < |df.rows| && 0 <= j < |df.names| && !ConvertFlags(df, parse)[j] ==>
            r.rows[i][j] == df.rows[i][j])
  {
  }

  /** Before the stop column, a column whose label mentions a date and whose cells
      all parse without error becomes `datetime64`: a missing cell stays missing, a
      parsed cell becomes its instant, and an unrecognised one becomes NaT. */
  lemma OptimizeConvertsDates(df: Frame, parse: Cell -> DateParse, j: nat)
    requires WellFormed(df) && !IsEmpty(df) && j < OptimizeStop(df)
    requires IsTemporalName(df.names[j]) && !ParseFails(Column(df.rows, j), parse)
    ensures var r := Optimized(df, parse);
      && r.kinds[j] == Datetime
      && (forall i :: 0 <= i < |df.rows| && df.rows[i][j].Missing? ==> r.rows[i][j].Missing?)
      && (forall i :: 0 <= i < |df.rows| && IsPresent(df.rows[i][j]) && parse(df.rows[i][j]).Parsed? ==>
            r.rows[i][j] == Num(parse(df.rows[i][j]).instant))
      && (forall i :: 0 <= i < |df.rows| && IsPresent(df.rows[i][j]) && !parse(df.rows[i][j]).Parsed? ==>
            r.rows[i][j].Missing?)
  {
    var r := Optimized(df, parse);
    forall i | 0 <= i < |df.rows| && IsPresent(df.rows[i][j])
      ensures !parse(df.rows[i][j]).ParserError?
    {
      assert Column(df.rows, j)[i] == df.rows[i][j];
    }
  }

  /** Before the stop column, a column that is not converted becomes `category`
      exactly when it is `object` and fewer than a tenth of its rows hold distinct
      values; any other dtype stays as it is. */
  lemma OptimizeCategorizes(df: Frame, parse: Cell -> DateParse, j: nat)
    requires WellFormed(df) && !IsEmpty(df) && j < OptimizeStop(df)
    requires !(IsTemporalName(df.names[j]) && !ParseFails(Column(df.rows, j), parse))
    ensures var r, distinct := Optimized(df, parse), set c | c in Column(df.rows, j) && IsPresent(c);
      && (r.kinds[j] == Categorical <==>
            df.kinds[j] == Categorical || (df.kinds[j] == Object && 10 * |distinct| < |df.rows|))
      && (r.kinds[j] != Categorical ==> r.kinds[j] == df.kinds[j])
  {
    NUniqueCountsValues(Column(df.rows, j));
  }

  /** Every column is looked up, so the stage raises exactly when two columns share a
      label, and it reports the first such label. */
  lemma OptimizeRaisesOnSharedLabel(df: Frame)
    requires WellFormed(df) && !IsEmpty(df)
    ensures OptimizeStatus(df).Raised? <==> exists j :: 0 <= j < |df.names| && Duplicated(df.names, j)
    ensures OptimizeStatus(df).Raised? ==> OptimizeStatus(df).error == AmbiguousLabel(df.names[OptimizeStop(df)])
  {
    var stop := OptimizeStop(df);
    if exists j :: 0 <= j < |df.names| && Duplicated(df.names, j) {
      var j :| 0 <= j < |df.names| && Duplicated(df.names, j);
      assert stop <= j;
    }
  }

  /** One column of a finished run goes through a second run unchanged. */
  lemma OptimizeColumnStable(df: Frame, parse: Cell -> DateParse, j: nat)
    requires WellFormed(df) && !IsEmpty(df) && OptimizeStop(df) == |df.names| && j < |df.names|
    requires forall t :: parse(Num(t)) == Parsed(t)
    ensures var once := Optimized(df, parse);
      OptimizeStop(once) == |df.names| ==>
      && Optimized(once, parse).kinds[j] == once.kinds[j]
      && forall i :: 0 <= i < |df.rows| ==> Optimized(once, parse).rows[i][j] == once.rows[i][j]
  {
    var once := Optimized(df, parse);
    var col, col1 := Column(df.rows, j), Column(once.rows, j);
    if ConvertFlags(df, parse)[j] {
      forall i | 0 <= i < |df.rows| && IsPresent(col1[i]) ensures !parse(col1[i]).ParserError? {
        assert col1[i] == once.rows[i][j];
      }
      assert ConvertFlags(once, parse)[j];
    } else {
      assert col1 == col;
      assert !ConvertFlags(once, parse)[j];
      NUniqueCountsValues(col);
    }
  }

  /** When the stage does not raise, and the parser reads a timestamp back as the
      same instant, a second run changes nothing. */
  lemma OptimizeIdempotent(df: Frame, parse: Cell -> DateParse)
    requires WellFormed(df) && OptimizeStatus(df) == Done
    requires forall t :: parse(Num(t)) == Parsed(t)
    ensures Optimized(Optimized(df, parse), parse) == Optimized(df, parse)
    ensures OptimizeStatus(Optimized(df, parse)) == Done
  {
    if !IsEmpty(df) {
      var once := Optimized(df, parse);
      var width := |df.names|;
      assert OptimizeStop(once) == OptimizeStop(df) == width;
      var twice := Optimized(once, parse);
      forall j | 0 <= j < width ensures twice.kinds[j] == once.kinds[j] {
        OptimizeColumnStable(df, parse, j);
      }
      forall i, j | 0 <= i < |df.rows| && 0 <= j < width ensures twice.rows[i][j] == once.rows[i][j] {
        OptimizeColumnStable(df, parse, j);
      }
      assert twice.kinds == once.kinds;
      RowsEqual(twice.rows, once.rows, width);
    }
  }
}
