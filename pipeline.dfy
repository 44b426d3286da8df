/** `UltimateDataPipeline`: one table held in `self.df`, rewritten in place by the
    stages, each of which returns the pipeline so that calls can be chained. The
    column loops of the stages work on the table as a value; the stage methods of
    the class store what they give back in `df`, and return what the stage
    computes (counts, and whether it raised) instead of the pipeline. */
module Pipeline {
  import opened Seqs
  import opened Names
  import opened Table
  import opened Stats
  import opened Standardize
  import opened Garbage
  import opened Impute
  import opened Outliers
  import opened Optimize

  /** Every stage leaves a table with no row or no column as it is, and does not raise. */
  lemma EmptyTableUntouched(df: Frame, render: real -> string, threshold: real, strategy: string, parse: Cell -> DateParse)
    requires WellFormed(df) && IsEmpty(df)
    ensures Standardized(df, render) == df && StandardizeStatus(df) == Done
    ensures GarbageRemoved(df) == df
    ensures Imputed(df) == df && ImputeStatus(df) == Done && ImputedCount(df) == 0
    ensures OutliersHandled(df, threshold, strategy) == df && OutliersStatus(df, strategy) == Done
    ensures Optimized(df, parse) == df && OptimizeStatus(df) == Done
  {
  }

  /** One column of the standardize loop: its cells stripped when it is an
      `object` column. */
  method StripColumn(df: Frame, render: real -> string, rows: seq<seq<Cell>>, j: nat) returns (rows': seq<seq<Cell>>)
    requires WellFormed(df) && j < |df.names|
    requires rows == MapColumnsBelow(df.rows, |df.names|, j, StripObjects(df.kinds, render))
    ensures rows' == MapColumnsBelow(df.rows, |df.names|, j + 1, StripObjects(df.kinds, render))
  {
    StandardizeStep(df, render, j);
    rows' := rows;
    if df.kinds[j] == Object {
      rows' := MapColumn(rows, j, StripWith(render));
    }
  }

  /** The cell loop of the standardize stage, over columns labelled `names`: the
      `object` columns stripped one by one, until one whose label is shared. */
  method StripObjectColumns(df: Frame, render: real -> string, names: seq<string>) returns (rows: seq<seq<Cell>>, stop: nat)
    requires WellFormed(df) && |names| == |df.names|
    ensures stop == FirstAmbiguous(names, ObjectColumns(df.kinds))
    ensures rows == MapColumnsBelow(df.rows, |df.names|, stop, StripObjects(df.kinds, render))
  {
    ghost var last := FirstAmbiguous(names, ObjectColumns(df.kinds));
    MapColumnsBelowNone(df.rows, |df.names|, StripObjects(df.kinds, render));
    rows := df.rows;
    var width := |names|;
    var j := 0;
    while j < width
      invariant j <= width && j <= last
      invariant rows == MapColumnsBelow(df.rows, |df.names|, j, StripObjects(df.kinds, render))
    {
      if df.kinds[j] == Object && Duplicated(names, j) {
        return rows, j;
      }
      FirstAmbiguousAfter(names, ObjectColumns(df.kinds), j);
      rows := StripColumn(df, render, rows, j);
      j := j + 1;
    }
    stop := j;
  }

  /** The standardize stage: the columns renamed through the name chain, then the
      text of every `object` column stripped, column by column, until an object
      column whose new label is shared. */
  method StandardizeTable(df: Frame, render: real -> string) returns (r: Frame, status: Status)
    requires WellFormed(df)
    ensures r == Standardized(df, render)
    ensures status == StandardizeStatus(df)
  {
    if IsEmpty(df) {
      return df, Done;
    }
    var names := NormalizedNames(df.names);
    var rows, stop := StripObjectColumns(df, render, names);
    r := Frame(names, df.kinds, rows);
    status := if stop < |names| then Raised(AmbiguousLabel(names[stop])) else Done;
    StandardizedAtStop(df, render);
  }

  /** The standardize stage in terms of its stop column. */
  lemma StandardizedAtStop(df: Frame, render: real -> string)
    requires WellFormed(df) && !IsEmpty(df)
    ensures var stop := StandardizeStop(df);
      && Standardized(df, render) ==
           Frame(NormalizedNames(df.names), df.kinds, MapColumnsBelow(df.rows, |df.names|, stop, StripObjects(df.kinds, render)))
      && StandardizeStatus(df) == StopStatus(NormalizedNames(df.names), stop)
  {
  }

  /** What the impute loop has done once it reaches column `j`, with `g` the
      stage's rewrite and `flags` which columns have a missing cell: the columns
      before `j` filled, and the ones among them with a missing cell counted. */
  predicate ImputedUpTo(df: Frame, g: (nat, Cell) -> Cell, flags: seq<bool>, j: nat, rows: seq<seq<Cell>>, imputedCount: nat)
    requires WellFormed(df) && j <= |df.names| && j <= |flags|
  {
    && rows == MapColumnsBelow(df.rows, |df.names|, j, g)
    && imputedCount == CountTrue(flags[..j])
  }

  /** One column of the impute loop: when the column has a missing cell, it is
      counted and filled with its median or mode. */
  method ImputeColumn(df: Frame, ghost g: (nat, Cell) -> Cell, ghost flags: seq<bool>, rows: seq<seq<Cell>>, imputedCount: nat, j: nat)
    returns (rows': seq<seq<Cell>>, imputedCount': nat)
    requires WellFormed(df) && j < |df.names|
    requires g == FillColumns(Fills(df)) && flags == MissingFlags(df)
    requires ImputedUpTo(df, g, flags, j, rows, imputedCount)
    ensures ImputedUpTo(df, g, flags, j + 1, rows', imputedCount')
  {
    ImputeStep(df, j);
    CountTruePrefix(flags, j);
    rows', imputedCount' := rows, imputedCount;
    var col := Column(rows, j);
    if Missing in col {
      imputedCount' := imputedCount + 1;
      var fill := FillValue(df.kinds[j], col);
      if fill.Some? {
        rows' := MapColumn(rows, j, FillWith(fill));
      }
    }
  }

  /** The column loop of the impute stage: column by column, a column with a
      missing cell is counted and filled, until the first shared label. */
  method FillMissingColumns(df: Frame) returns (rows: seq<seq<Cell>>, stop: nat, imputedCount: nat)
    requires WellFormed(df)
    ensures stop == ImputeStop(df)
    ensures rows == MapColumnsBelow(df.rows, |df.names|, stop, FillColumns(Fills(df)))
    ensures imputedCount == CountTrue(MissingFlags(df)[..stop])
  {
    ghost var last := ImputeStop(df);
    ghost var g := FillColumns(Fills(df));
    ghost var flags := MissingFlags(df);
    MapColumnsBelowNone(df.rows, |df.names|, g);
    assert flags[..0] == [];
    rows := df.rows;
    var width := |df.names|;
    imputedCount := 0;
    var j := 0;
    while j < width && !Duplicated(df.names, j)
      invariant j <= width && j <= last
      invariant ImputedUpTo(df, g, flags, j, rows, imputedCount)
    {
      FirstAmbiguousAfter(df.names, AllColumns(|df.names|), j);
      rows, imputedCount := ImputeColumn(df, g, flags, rows, imputedCount, j);
      j := j + 1;
    }
    stop := j;
  }

  /** The impute stage: the column loop, then the table it leaves and whether it raised. */
  method ImputeTable(df: Frame) returns (r: Frame, status: Status, imputedCount: nat)
    requires WellFormed(df)
    ensures r == Imputed(df)
    ensures status == ImputeStatus(df)
    ensures imputedCount == ImputedCount(df)
  {
    if IsEmpty(df) {
      return df, Done, 0;
    }
    var rows, stop;
    rows, stop, imputedCount := FillMissingColumns(df);
    r := df.(rows := rows);
    status := if stop < |df.names| then Raised(AmbiguousLabel(df.names[stop])) else Done;
  }

  /** One number column of the 'remove' loop: `mask &= col.between(lower, upper)`
      when the column has fences. */
  method NarrowMask(df: Frame, threshold: real, mask: seq<bool>, j: nat) returns (mask': seq<bool>)
    requires WellFormed(df) && j < |df.names| && df.kinds[j] == Numeric && |mask| == |df.rows|
    requires forall i :: 0 <= i < |mask| ==> mask[i] == WithinBefore(df.rows[i], AllBounds(df, threshold), j)
    ensures |mask'| == |df.rows|
    ensures forall i :: 0 <= i < |mask'| ==> mask'[i] == WithinBefore(df.rows[i], AllBounds(df, threshold), j + 1)
  {
    mask' := mask;
    var b := IqrBounds(Numbers(Column(df.rows, j)), threshold);
    if b.Some? {
      var colMask := seq(|df.rows|, i requires 0 <= i < |df.rows| => Within(df.rows[i][j], b.value));
      mask' := seq(|mask|, i requires 0 <= i < |mask| => mask[i] && colMask[i]);
    }
    forall i | 0 <= i < |mask'| ensures mask'[i] == WithinBefore(df.rows[i], AllBounds(df, threshold), j + 1) {
      WithinBeforeStep(df.rows[i], AllBounds(df, threshold), j);
    }
  }

  /** A column that is not a number column leaves the mask as it is. */
  lemma MaskSkipsColumn(df: Frame, threshold: real, mask: seq<bool>, j: nat)
    requires WellFormed(df) && j < |df.names| && df.kinds[j] != Numeric && |mask| == |df.rows|
    requires forall i :: 0 <= i < |mask| ==> mask[i] == WithinBefore(df.rows[i], AllBounds(df, threshold), j)
    ensures forall i :: 0 <= i < |mask| ==> mask[i] == WithinBefore(df.rows[i], AllBounds(df, threshold), j + 1)
  {
    forall i | 0 <= i < |mask| ensures mask[i] == WithinBefore(df.rows[i], AllBounds(df, threshold), j + 1) {
      WithinBeforeStep(df.rows[i], AllBounds(df, threshold), j);
    }
  }

  /** The mask over every column keeps exactly the rows within all their fences. */
  lemma MaskSelectsRowsWithin(df: Frame, threshold: real, mask: seq<bool>)
    requires WellFormed(df) && |mask| == |df.rows|
    requires forall i :: 0 <= i < |mask| ==> mask[i] == WithinBefore(df.rows[i], AllBounds(df, threshold), |df.names|)
    ensures Select(df.rows, mask) == Filter(df.rows, RowWithinAll(AllBounds(df, threshold)))
  {
    forall i | 0 <= i < |mask| ensures mask[i] == RowWithinAll(AllBounds(df, threshold))(df.rows[i]) {
      WithinBeforeAll(df.rows[i], AllBounds(df, threshold));
    }
    SelectIsFilter(df.rows, mask, RowWithinAll(AllBounds(df, threshold)));
  }

  /** 'remove': one mask over the rows, narrowed by each number column with fences,
      and applied only after the last column. */
  method RemoveOutlierRows(df: Frame, threshold: real) returns (r: Frame, status: Status, removed: nat)
    requires WellFormed(df) && !IsEmpty(df)
    ensures r == Removed(df, threshold)
    ensures status == OutliersStatus(df, "remove")
    ensures removed == |df.rows| - |r.rows|
  {
    ghost var stop := OutlierStop(df);
    var width := |df.names|;
    var mask := seq(|df.rows|, _ => true);
    var j := 0;
    while j < width
      invariant j <= width && j <= stop
      invariant |mask| == |df.rows|
      invariant forall i :: 0 <= i < |mask| ==> mask[i] == WithinBefore(df.rows[i], AllBounds(df, threshold), j)
    {
      if df.kinds[j] == Numeric {
        if Duplicated(df.names, j) {
          assert j == stop;
          return df, Raised(AmbiguousLabel(df.names[j])), 0;
        }
        mask := NarrowMask(df, threshold, mask, j);
      } else {
        MaskSkipsColumn(df, threshold, mask, j);
      }
      j := j + 1;
    }
    MaskSelectsRowsWithin(df, threshold, mask);
    r := df.(rows := Select(df.rows, mask));
    removed := |df.rows| - |r.rows|;
    status := Done;
  }

  /** The two `np.where` steps on column `j`: values below the lower fence raised
      to it, then values above the upper fence lowered to it. */
  method ClipColumn(rows: seq<seq<Cell>>, j: nat, b: Bounds) returns (rows': seq<seq<Cell>>)
    requires forall i :: 0 <= i < |rows| ==> j < |rows[i]|
    ensures rows' == MapColumn(rows, j, CapWith(b))
  {
    var raised := MapColumn(rows, j, RaiseTo(b.lower));
    rows' := MapColumn(raised, j, ClipTo(b.upper));
    CapTwice(rows, j, b);
  }

  /** One number column of the 'cap' loop: whether it has fences and a value
      outside them, and the table with the column clipped to the fences (both
      `np.where` steps) when it has. */
  method CapColumn(df: Frame, threshold: real, ghost g: (nat, Cell) -> Cell, ghost flags: seq<bool>, r: Frame, j: nat)
    returns (r': Frame, hasOutlier: bool)
    requires WellFormed(df) && j < |df.names| && df.kinds[j] == Numeric
    requires g == CapColumns(AllBounds(df, threshold)) && flags == OutlierFlags(df, threshold)
    requires r.names == df.names && r.kinds == df.kinds
    requires r.rows == MapColumnsBelow(df.rows, |df.names|, j, g)
    ensures r'.names == df.names && r'.kinds == df.kinds
    ensures r'.rows == MapColumnsBelow(df.rows, |df.names|, j + 1, g)
    ensures hasOutlier == flags[j]
  {
    CapStep(df, threshold, j);
    r' := r;
    var col := Column(r.rows, j);
    var b := IqrBounds(Numbers(col), threshold);
    hasOutlier := b.Some? && HasOutlier(col, b.value);
    if hasOutlier {
      var rows := ClipColumn(r.rows, j, b.value);
      r' := r.(rows := rows);
    }
  }

  /** 'cap': each number column with a value outside its fences is clipped to them
      by two `np.where` steps; `outlierCols` counts those columns. */
  method CapOutlierColumns(df: Frame, threshold: real) returns (r: Frame, status: Status, outlierCols: nat)
    requires WellFormed(df) && !IsEmpty(df)
    ensures r == Capped(df, threshold)
    ensures status == OutliersStatus(df, "cap")
    ensures outlierCols == CappedCount(df, threshold)
  {
    ghost var stop := OutlierStop(df);
    ghost var g := CapColumns(AllBounds(df, threshold));
    ghost var flags := OutlierFlags(df, threshold);
    MapColumnsBelowNone(df.rows, |df.names|, g);
    r := df;
    var width := |df.names|;
    outlierCols := 0;
    var j := 0;
    while j < width
      invariant j <= width && j <= stop
      invariant r.names == df.names && r.kinds == df.kinds
      invariant r.rows == MapColumnsBelow(df.rows, |df.names|, j, g)
      invariant outlierCols == CountTrue(flags[..j])
    {
      CountTruePrefix(flags, j);
      if r.kinds[j] == Numeric {
        if Duplicated(r.names, j) {
          assert j == stop;
          return r, Raised(AmbiguousLabel(r.names[j])), outlierCols;
        }
        var hasOutlier;
        r, hasOutlier := CapColumn(df, threshold, g, flags, r, j);
        if hasOutlier {
          outlierCols := outlierCols + 1;
        }
      } else {
        CapStep(df, threshold, j);
      }
      j := j + 1;
    }
    assert flags[..j] == flags[..stop];
    status := Done;
  }

  /** One column of the optimize loop: a date-named column that parses becomes
      `datetime64`, and otherwise an `object` column with few distinct values
      becomes `category`. */
  method OptimizeColumn(df: Frame, parse: Cell -> DateParse, r: Frame, j: nat) returns (r': Frame)
    requires WellFormed(df) && j < |df.names|
    requires r.names == df.names && r.kinds == OptimizedKinds(df, ConvertFlags(df, parse), j)
    requires r.rows == MapColumnsBelow(df.rows, |df.names|, j, ConvertColumns(ConvertFlags(df, parse), parse))
    ensures r'.names == df.names && r'.kinds == OptimizedKinds(df, ConvertFlags(df, parse), j + 1)
    ensures r'.rows == MapColumnsBelow(df.rows, |df.names|, j + 1, ConvertColumns(ConvertFlags(df, parse), parse))
  {
    OptimizedKindsStep(df, ConvertFlags(df, parse), j);
    OptimizeStep(df, parse, j);
    r' := r;
    if IsTemporalName(r'.names[j]) && !ParseFails(Column(r'.rows, j), parse) {
      r' := r'.(rows := MapColumn(r'.rows, j, DatetimeWith(parse)), kinds := r'.kinds[j := Datetime]);
    }
    if r'.kinds[j] == Object && |r'.rows| > 0 && 10 * NUnique(Column(r'.rows, j)) < |r'.rows| {
      r' := r'.(kinds := r'.kinds[j := Categorical]);
    }
  }

  /** The optimize stage: column by column, a date-named column that parses becomes
      `datetime64` and an `object` column with few distinct values `category`,
      until the first shared label. */
  method OptimizeTable(df: Frame, parse: Cell -> DateParse) returns (r: Frame, status: Status)
    requires WellFormed(df)
    ensures r == Optimized(df, parse)
    ensures status == OptimizeStatus(df)
  {
    if IsEmpty(df) {
      return df, Done;
    }
    ghost var stop := OptimizeStop(df);
    MapColumnsBelowNone(df.rows, |df.names|, ConvertColumns(ConvertFlags(df, parse), parse));
    r := df;
    var width := |df.names|;
    var j := 0;
    while j < width
      invariant j <= width && j <= stop
      invariant r.names == df.names && r.kinds == OptimizedKinds(df, ConvertFlags(df, parse), j)
      invariant r.rows == MapColumnsBelow(df.rows, |df.names|, j, ConvertColumns(ConvertFlags(df, parse), parse))
    {
      // On a shared label `to_datetime` gets a DataFrame and its error is caught;
      // `.dtype` then raises.
      if Duplicated(r.names, j) {
        assert j == stop;
        return r, Raised(AmbiguousLabel(r.names[j]));
      }
      r := OptimizeColumn(df, parse, r, j);
      j := j + 1;
    }
    status := Done;
  }

  class DataPipeline {
    /** `self.df` */
    var df: Frame
    /** `self.report["initial_shape"]`: rows and columns of the table as loaded. */
    var initialShape: (nat, nat)

    predicate Valid()
      reads this
    {
      WellFormed(df)
    }

    /** The table as `_ingest` loaded it (an empty one when loading failed). */
    constructor (table: Frame)
      requires WellFormed(table)
      ensures Valid() && df == table
      ensures initialShape == (|table.rows|, |table.names|)
    {
      df := table;
      initialShape := (|table.rows|, |table.names|);
    }

    method Standardize(render: real -> string) returns (status: Status)
      requires Valid()
      modifies this
      ensures Valid() && initialShape == old(initialShape)
      ensures df == Standardized(old(df), render)
      ensures status == StandardizeStatus(old(df))
    {
      df, status := StandardizeTable(df, render);
    }

    /** `drop_duplicates()` then `dropna(how='all')`; `removed` is how many rows went. */
    method HandleGarbage() returns (removed: nat)
      requires Valid()
      modifies this
      ensures Valid() && initialShape == old(initialShape)
      ensures df == GarbageRemoved(old(df))
      ensures removed == |old(df).rows| - |df.rows|
    {
      if IsEmpty(df) {
        return 0;
      }
      var before := |df.rows|;
      df := df.(rows := Dedup(df.rows));
      df := df.(rows := Filter(df.rows, HasPresentCell));
      removed := before - |df.rows|;
      assert df == GarbageRemoved(old(df));
    }

    method ImputeMissing() returns (status: Status, imputedCount: nat)
      requires Valid()
      modifies this
      ensures Valid() && initialShape == old(initialShape)
      ensures df == Imputed(old(df))
      ensures status == ImputeStatus(old(df))
      ensures imputedCount == ImputedCount(old(df))
    {
      df, status, imputedCount := ImputeTable(df);
    }

    /** 'remove', 'cap', or a ValueError for any other method, with the table untouched. */
    method HandleOutliers(threshold: real, strategy: string) returns (status: Status, removed: nat, outlierCols: nat)
      requires Valid()
      modifies this
      ensures Valid() && initialShape == old(initialShape)
      ensures df == OutliersHandled(old(df), threshold, strategy)
      ensures status == OutliersStatus(old(df), strategy)
      ensures strategy == "remove" ==> removed == |old(df).rows| - |df.rows|
      ensures strategy == "cap" && !IsEmpty(old(df)) ==> outlierCols == CappedCount(old(df), threshold)
    {
      if IsEmpty(df) {
        return Done, 0, 0;
      }
      if strategy == "remove" {
        df, status, removed := RemoveOutlierRows(df, threshold);
        outlierCols := 0;
      } else if strategy == "cap" {
        df, status, outlierCols := CapOutlierColumns(df, threshold);
        removed := 0;
      } else {
        status, removed, outlierCols := Raised(InvalidMethod(strategy)), 0, 0;
      }
    }

    /** `handle_outliers()` called without arguments: multiplier 1.5 and method 'cap'. */
    method HandleOutliersWithDefaults() returns (status: Status, removed: nat, outlierCols: nat)
      requires Valid()
      modifies this
      ensures Valid() && initialShape == old(initialShape)
      ensures df == OutliersHandled(old(df), 1.5, "cap")
      ensures status == OutliersStatus(old(df), "cap")
      ensures !IsEmpty(old(df)) ==> outlierCols == CappedCount(old(df), 1.5)
    {
      status, removed, outlierCols := HandleOutliers(1.5, "cap");
    }

    method Optimize(parse: Cell -> DateParse) returns (status: Status)
      requires Valid()
      modifies this
      ensures Valid() && initialShape == old(initialShape)
      ensures df == Optimized(old(df), parse)
      ensures status == OptimizeStatus(old(df))
    {
      df, status := OptimizeTable(df, parse);
    }
  }
}
