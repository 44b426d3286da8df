/** The impute stage: every column with a missing cell counts as imputed and has
    its missing cells filled, with the median for a number dtype and with the
    mode for any other dtype. */
module Impute {
  import opened Seqs
  import opened Table
  import opened Stats

  /** `fillna`'s value for a column: `Series.median()` for a number dtype,
      `Series.mode()[0]` otherwise; `None` when there is no value to fill with
      (the median is NaN, or the mode is empty). */
  function FillValue(kind: Kind, col: seq<Cell>): (v: Option<Cell>)
    ensures v.Some? ==> IsPresent(v.value)
    ensures v.Some? && kind != Numeric ==> v.value in col
  {
    if kind == Numeric then
      var xs := Numbers(col);
      if xs == [] then None else Some(Num(Median(xs)))
    else
      Mode(Present(col))
  }

  /** There is no fill value exactly when the column has no number (for a number
      dtype) or no present cell (otherwise). */
  lemma FillValueFacts(kind: Kind, col: seq<Cell>)
    ensures var v := FillValue(kind, col);
      (v.None? <==> forall i :: 0 <= i < |col| ==> if kind == Numeric then !col[i].Num? else col[i].Missing?)
  {
    if kind == Numeric {
      var xs := Numbers(col);
      if xs != [] {
        assert xs[0] in xs && Num(xs[0]) in col;
        var k :| 0 <= k < |col| && col[k] == Num(xs[0]);
        assert col[k].Num?;
      }
      forall i | 0 <= i < |col| && col[i].Num? ensures col[i].value in xs {
        assert Num(col[i].value) in col;
      }
    } else {
      var vals := Present(col);
      if vals != [] {
        assert vals[0] in vals;
      }
      forall i | 0 <= i < |col| && !col[i].Missing? ensures col[i] in vals {
      }
    }
  }

  function FilledCell(c: Cell, fill: Option<Cell>): Cell {
    if c.Missing? && fill.Some? then fill.value else c
  }

  /** The first column whose label is shared, where the stage raises; the width when there is none. */
  function ImputeStop(df: Frame): nat
    requires WellFormed(df)
  {
    FirstAmbiguous(df.names, AllColumns(|df.names|))
  }

  /** Each column's fill value.
      Its ensures only spell out the body, so the solver need not unfold it; it
      states no property. */
  function Fills(df: Frame): (fills: seq<Option<Cell>>)
    requires WellFormed(df)
    ensures |fills| == |df.names|
    ensures forall j :: 0 <= j < |df.names| ==> fills[j] == FillValue(df.kinds[j], Column(df.rows, j))
  {
    seq(|df.names|, j requires 0 <= j < |df.names| => FillValue(df.kinds[j], Column(df.rows, j)))
  }

  /** The column loop's rewrite: `fillna` with each column's fill value. */
  function FillColumns(fills: seq<Option<Cell>>): (nat, Cell) -> Cell {
    (j: nat, c: Cell) => if j < |fills| then FilledCell(c, fills[j]) else c
  }

  /** `fillna(fill)` on one column. */
  function FillWith(fill: Option<Cell>): Cell -> Cell {
    c => FilledCell(c, fill)
  }

  /** The table after the stage; an empty table is left as it is. */
  function Imputed(df: Frame): (r: Frame)
    requires WellFormed(df)
    ensures WellFormed(r)
  {
    if IsEmpty(df) then df
    else
      var stop, fills := ImputeStop(df), Fills(df);
      forall j: nat, c: Cell | j < |df.names| && HoldsNumbers(df.kinds[j]) && !c.Text?
        ensures !FillColumns(fills)(j, c).Text?
      {
        FillValueFacts(df.kinds[j], Column(df.rows, j));
        if fills[j].Some? && df.kinds[j] != Numeric {
          var col := Column(df.rows, j);
          var k :| 0 <= k < |col| && col[k] == fills[j].value;
        }
      }
      MapColumnsBelowWellFormed(df, stop, FillColumns(fills));
      df.(rows := MapColumnsBelow(df.rows, |df.names|, stop, FillColumns(fills)))
  }

  /** For each column, whether it has a missing cell (`isnull().any()`).
      Its ensures only spell out the body, so the solver need not unfold it; it
      states no property. */
  function MissingFlags(df: Frame): (flags: seq<bool>)
    requires WellFormed(df)
    ensures |flags| == |df.names|
    ensures forall j :: 0 <= j < |df.names| ==> flags[j] == (Missing in Column(df.rows, j))
  {
    seq(|df.names|, j requires 0 <= j < |df.names| => Missing in Column(df.rows, j))
  }

  /** One step of the column loop: the loop finds column `j` as loaded, and rewrites
      it exactly when it has a missing cell and a value to fill with. */
  lemma ImputeStep(df: Frame, j: nat)
    requires WellFormed(df) && j < |df.names|
    ensures var g := FillColumns(Fills(df));
      var rows := MapColumnsBelow(df.rows, |df.names|, j, g);
      var col := Column(rows, j);
      var fill := FillValue(df.kinds[j], col);
      && col == Column(df.rows, j)
      && MissingFlags(df)[j] == (Missing in col)
      && MapColumnsBelow(df.rows, |df.names|, j + 1, g) ==
           if Missing in col && fill.Some? then MapColumn(rows, j, FillWith(fill)) else rows
  {
    var g := FillColumns(Fills(df));
    var col := Column(df.rows, j);
    MapColumnsBelowColumn(df.rows, |df.names|, j, g);
    var fill := FillValue(df.kinds[j], col);
    if Missing in col && fill.Some? {
      MapColumnsBelowStep(df.rows, |df.names|, j, g, FillWith(fill));
    } else {
      forall i | 0 <= i < |df.rows| ensures g(j, df.rows[i][j]) == df.rows[i][j] {
        assert col[i] == df.rows[i][j];
      }
      MapColumnsBelowSkip(df.rows, |df.names|, j, g);
    }
  }

  /** `imputed_count`: the columns before the stop column that have a missing cell. */
  function ImputedCount(df: Frame): nat
    requires WellFormed(df)
  {
    if IsEmpty(df) then 0 else CountTrue(MissingFlags(df)[..ImputeStop(df)])
  }

  function ImputeStatus(df: Frame): Status
    requires WellFormed(df)
  {
    if IsEmpty(df) then Done else StopStatus(df.names, ImputeStop(df))
  }

  /** The stage changes no label, dtype or row count, and no present cell; it
      changes no column from the stop column on. */
  lemma ImputeKeepsPresentCells(df: Frame)
    requires WellFormed(df)
    ensures var r := Imputed(df);
      && r.names == df.names && r.kinds == df.kinds && |r.rows| == |df.rows|
      && (forall i, j :: 0 <= i < |df.rows| && 0 <= j < |df.names| && IsPresent(df.rows[i][j]) ==> r.rows[i][j] == df.rows[i][j])
      && (forall i, j :: 0 <= i < |df.rows| && ImputeStop(df) <= j < |df.names| ==> r.rows[i][j] == df.rows[i][j])
  {
  }

  /** Before the stop column, a column's cells are `fillna` with its fill value. */
  lemma ImputedColumn(df: Frame, j: nat)
    requires WellFormed(df) && !IsEmpty(df) && j < ImputeStop(df)
    ensures forall i :: 0 <= i < |df.rows| ==>
      Imputed(df).rows[i][j] == FilledCell(df.rows[i][j], FillValue(df.kinds[j], Column(df.rows, j)))
  {
  }

  /** Before the stop column, a column with a present value is left with no missing
      cell, and an entirely missing column stays entirely missing. */
  lemma ImputeFillsColumns(df: Frame, j: nat)
    requires WellFormed(df) && !IsEmpty(df) && j < ImputeStop(df)
    ensures var r := Imputed(df);
      && ((exists i :: 0 <= i < |df.rows| && IsPresent(df.rows[i][j])) ==> forall i :: 0 <= i < |df.rows| ==> IsPresent(r.rows[i][j]))
      && ((forall i :: 0 <= i < |df.rows| ==> df.rows[i][j].Missing?) ==> forall i :: 0 <= i < |df.rows| ==> r.rows[i][j].Missing?)
  {
    if exists i :: 0 <= i < |df.rows| && IsPresent(df.rows[i][j]) {
      var k :| 0 <= k < |df.rows| && IsPresent(df.rows[k][j]);
      ImputeFillsPresentColumn(df, j, k);
    } else {
      ImputeKeepsMissingColumn(df, j);
    }
  }

  lemma ImputeFillsPresentColumn(df: Frame, j: nat, k: nat)
    requires WellFormed(df) && !IsEmpty(df) && j < ImputeStop(df)
    requires k < |df.rows| && IsPresent(df.rows[k][j])
    ensures forall i :: 0 <= i < |df.rows| ==> IsPresent(Imputed(df).rows[i][j])
  {
    var col := Column(df.rows, j);
    ImputedColumn(df, j);
    assert col[k] == df.rows[k][j];
    FillValueOfPresent(df.kinds[j], col, k);
  }

  lemma ImputeKeepsMissingColumn(df: Frame, j: nat)
    requires WellFormed(df) && !IsEmpty(df) && j < ImputeStop(df)
    requires forall i :: 0 <= i < |df.rows| ==> df.rows[i][j].Missing?
    ensures forall i :: 0 <= i < |df.rows| ==> Imputed(df).rows[i][j].Missing?
  {
    ImputedColumn(df, j);
    FillValueOfMissing(df.kinds[j], Column(df.rows, j));
  }

  lemma FillValueOfPresent(kind: Kind, col: seq<Cell>, k: nat)
    requires k < |col| && IsPresent(col[k]) && (kind == Numeric ==> !col[k].Text?)
    ensures FillValue(kind, col).Some? && IsPresent(FillValue(kind, col).value)
  {
    FillValueFacts(kind, col);
  }

  lemma FillValueOfMissing(kind: Kind, col: seq<Cell>)
    requires forall i :: 0 <= i < |col| ==> col[i].Missing?
    ensures FillValue(kind, col).None?
  {
    FillValueFacts(kind, col);
  }

  /** Before the stop column, a missing cell of a number column that gets filled
      becomes the median of the column's numbers, and one of any other column the
      smallest of its most frequent present values. */
  lemma ImputeFillValues(df: Frame, j: nat)
    requires WellFormed(df) && !IsEmpty(df) && j < ImputeStop(df)
    ensures var r, col := Imputed(df), Column(df.rows, j);
      forall i :: 0 <= i < |df.rows| && df.rows[i][j].Missing? && IsPresent(r.rows[i][j]) ==>
        if df.kinds[j] == Numeric then Numbers(col) != [] && r.rows[i][j] == Num(Median(Numbers(col)))
        else IsSmallestMostFrequent(r.rows[i][j], Present(col))
  {
    ImputedColumn(df, j);
    var col := Column(df.rows, j);
    var fill := FillValue(df.kinds[j], col);
    if df.kinds[j] != Numeric && fill.Some? {
      ModeIsSmallestMostFrequent(Present(col), fill.value);
    }
  }

  /** When the stage does not raise, `imputed_count` is the number of columns with a
      missing cell, and it is 0 exactly when no cell is missing. */
  lemma ImputedCountCountsColumns(df: Frame)
    requires WellFormed(df) && !IsEmpty(df) && ImputeStatus(df) == Done
    ensures ImputedCount(df) == CountTrue(MissingFlags(df))
    ensures ImputedCount(df) == 0 <==> forall i, j :: 0 <= i < |df.rows| && 0 <= j < |df.names| ==> !df.rows[i][j].Missing?
  {
    var flags := MissingFlags(df);
    assert flags[..ImputeStop(df)] == flags;
    if ImputedCount(df) != 0 {
      var j :| 0 <= j < |flags| && flags[j];
      var col := Column(df.rows, j);
      var i :| 0 <= i < |col| && col[i] == Missing;
      assert df.rows[i][j].Missing?;
    } else {
      forall i, j | 0 <= i < |df.rows| && 0 <= j < |df.names| ensures !df.rows[i][j].Missing? {
        assert !flags[j];
        assert Column(df.rows, j)[i] == df.rows[i][j];
      }
    }
  }

  /** When the stage does not raise, a second run fills nothing more. */
  lemma ImputeIdempotent(df: Frame)
    requires WellFormed(df) && ImputeStatus(df) == Done
    ensures Imputed(Imputed(df)) == Imputed(df)
    ensures ImputeStatus(Imputed(df)) == Done
  {
    if !IsEmpty(df) {
      var once := Imputed(df);
      ImputeKeepsPresentCells(df);
      assert ImputeStop(once) == ImputeStop(df) == |df.names|;
      var twice := Imputed(once);
      forall i, j | 0 <= i < |df.rows| && 0 <= j < |df.names|
        ensures twice.rows[i][j] == once.rows[i][j]
      {
        ImputeFillsColumns(df, j);
        if once.rows[i][j].Missing? {
          assert forall k :: 0 <= k < |df.rows| ==> once.rows[k][j].Missing?;
          var col := Column(once.rows, j);
          FillValueFacts(once.kinds[j], col);
          assert FillValue(once.kinds[j], col).None?;
        }
      }
      RowsEqual(twice.rows, once.rows, |df.names|);
    }
  }
}
