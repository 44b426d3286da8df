/** The outlier stage: for every number column, the fences `Q1 - t*IQR` and
    `Q3 + t*IQR` of its values; 'cap' clips the values outside the fences to
    them, 'remove' drops every row with a value outside the fences of some
    column, and any other method is rejected with a ValueError. */
module Outliers {
  import opened Seqs
  import opened Table
  import opened Stats

  /** `select_dtypes(include=[np.number])` as a mask over the columns.
      Its ensures only spell out the body, so the solver need not unfold it; it
      states no property. */
  function NumericColumns(kinds: seq<Kind>): (r: seq<bool>)
    ensures |r| == |kinds|
    ensures forall j :: 0 <= j < |kinds| ==> r[j] == (kinds[j] == Numeric)
  {
    seq(|kinds|, j requires 0 <= j < |kinds| => kinds[j] == Numeric)
  }

  /** The number column whose label is shared, where the column loop raises; the
      width when there is none. */
  function OutlierStop(df: Frame): nat
    requires WellFormed(df)
  {
    FirstAmbiguous(df.names, NumericColumns(df.kinds))
  }

  /** The fences of every column: `None` for a column that is not a number column
      or that the loop skips.
      Its ensures only spell out the body, so the solver need not unfold it; it
      states no property. */
  function AllBounds(df: Frame, threshold: real): (bs: seq<Option<Bounds>>)
    requires WellFormed(df)
    ensures |bs| == |df.names|
    ensures forall j :: 0 <= j < |df.names| ==>
      bs[j] == if df.kinds[j] == Numeric then IqrBounds(Numbers(Column(df.rows, j)), threshold) else None
  {
    seq(|df.names|, j requires 0 <= j < |df.names| =>
      if df.kinds[j] == Numeric then IqrBounds(Numbers(Column(df.rows, j)), threshold) else None)
  }

  /** A missing cell, or a number between the fences (both included): the mask of
      'remove', and the negation of the outlier test of 'cap'. */
  predicate Within(c: Cell, b: Bounds)
    ensures Within(c, b) <==> !(c.Num? && (c.value < b.lower || c.value > b.upper))
  {
    !c.Num? || (b.lower <= c.value && c.value <= b.upper)
  }

  /** The two `np.where` steps: a value below the lower fence becomes the lower
      fence, then a value above the upper fence becomes the upper fence. */
  function CapCell(c: Cell, b: Bounds): (d: Cell)
    ensures !c.Num? ==> d == c
    ensures d.Num? && d != c ==> d.value == b.lower || d.value == b.upper
  {
    var raised := if c.Num? && c.value < b.lower then Num(b.lower) else c;
    if raised.Num? && raised.value > b.upper then Num(b.upper) else raised
  }

  /** The 'cap' loop's rewrite: every column with fences capped to them. */
  function CapColumns(bs: seq<Option<Bounds>>): (nat, Cell) -> Cell {
    (j: nat, c: Cell) => if j < |bs| && bs[j].Some? then CapCell(c, bs[j].value) else c
  }

  /** The first `np.where`: a value below `lower` becomes `lower`. */
  function RaiseTo(lower: real): Cell -> Cell {
    (c: Cell) => if c.Num? && c.value < lower then Num(lower) else c
  }

  /** The second `np.where`: a value above `upper` becomes `upper`. */
  function ClipTo(upper: real): Cell -> Cell {
    (c: Cell) => if c.Num? && c.value > upper then Num(upper) else c
  }

  /** The table after 'cap'. */
  function Capped(df: Frame, threshold: real): (r: Frame)
    requires WellFormed(df) && !IsEmpty(df)
    ensures WellFormed(r)
  {
    var stop, bs := OutlierStop(df), AllBounds(df, threshold);
    MapColumnsBelowWellFormed(df, stop, CapColumns(bs));
    df.(rows := MapColumnsBelow(df.rows, |df.names|, stop, CapColumns(bs)))
  }

  /** `((col < lower) | (col > upper)).any()`. */
  predicate HasOutlier(col: seq<Cell>, b: Bounds) {
    exists i :: 0 <= i < |col| && !Within(col[i], b)
  }

  /** For each column, whether it has fences and a value outside them.
      Its ensures only spell out the body, so the solver need not unfold it; it
      states no property. */
  function OutlierFlags(df: Frame, threshold: real): (flags: seq<bool>)
    requires WellFormed(df)
    ensures |flags| == |df.names|
    ensures forall j :: 0 <= j < |df.names| ==>
      (flags[j] <==> AllBounds(df, threshold)[j].Some? && HasOutlier(Column(df.rows, j), AllBounds(df, threshold)[j].value))
  {
    var bs := AllBounds(df, threshold);
    seq(|df.names|, j requires 0 <= j < |df.names| => bs[j].Some? && HasOutlier(Column(df.rows, j), bs[j].value))
  }

  /** One step of the 'cap' loop: the loop finds column `j` as loaded, and the two
      `np.where` steps rewrite it exactly when it is a number column with fences
      and a value outside them. */
  lemma CapStep(df: Frame, threshold: real, j: nat)
    requires WellFormed(df) && j < |df.names|
    ensures var g := CapColumns(AllBounds(df, threshold));
      var rows := MapColumnsBelow(df.rows, |df.names|, j, g);
      var col := Column(rows, j);
      var b := IqrBounds(Numbers(col), threshold);
      && col == Column(df.rows, j)
      && OutlierFlags(df, threshold)[j] == (df.kinds[j] == Numeric && b.Some? && HasOutlier(col, b.value))
      && MapColumnsBelow(df.rows, |df.names|, j + 1, g) ==
           if OutlierFlags(df, threshold)[j] then MapColumn(rows, j, CapWith(b.value)) else rows
  {
    MapColumnsBelowColumn(df.rows, |df.names|, j, CapColumns(AllBounds(df, threshold)));
    CapColumnFacts(df, threshold, j);
    CapStepRows(df, threshold, j);
  }

  /** Column `j` has an outlier exactly when it is a number column whose fences
      exist and leave out one of its values. */
  lemma CapColumnFacts(df: Frame, threshold: real, j: nat)
    requires WellFormed(df) && j < |df.names|
    ensures var col := Column(df.rows, j);
      var b := IqrBounds(Numbers(col), threshold);
      && OutlierFlags(df, threshold)[j] == (df.kinds[j] == Numeric && b.Some? && HasOutlier(col, b.value))
      && (df.kinds[j] == Numeric ==> AllBounds(df, threshold)[j] == b)
  {
  }

  /** The rows after one more step of the 'cap' loop. */
  lemma CapStepRows(df: Frame, threshold: real, j: nat)
    requires WellFormed(df) && j < |df.names|
    ensures var bs := AllBounds(df, threshold);
      var rows := MapColumnsBelow(df.rows, |df.names|, j, CapColumns(bs));
      MapColumnsBelow(df.rows, |df.names|, j + 1, CapColumns(bs)) ==
        if OutlierFlags(df, threshold)[j] then MapColumn(rows, j, CapWith(bs[j].value)) else rows
  {
    var bs := AllBounds(df, threshold);
    var g := CapColumns(bs);
    if OutlierFlags(df, threshold)[j] {
      MapColumnsBelowStep(df.rows, |df.names|, j, g, CapWith(bs[j].value));
    } else {
      var col := Column(df.rows, j);
      forall i | 0 <= i < |df.rows| ensures g(j, df.rows[i][j]) == df.rows[i][j] {
        assert col[i] == df.rows[i][j];
      }
      MapColumnsBelowSkip(df.rows, |df.names|, j, g);
    }
  }

  /** Both `np.where` steps on one column. */
  function CapWith(b: Bounds): Cell -> Cell {
    (c: Cell) => CapCell(c, b)
  }

  /** The two `np.where` steps on a column are one rewrite with `CapCell`. */
  lemma CapTwice(rows: seq<seq<Cell>>, j: nat, b: Bounds)
    requires forall i :: 0 <= i < |rows| ==> j < |rows[i]|
    ensures MapColumn(MapColumn(rows, j, RaiseTo(b.lower)), j, ClipTo(b.upper)) == MapColumn(rows, j, CapWith(b))
  {
    MapColumnTwice(rows, j, RaiseTo(b.lower), ClipTo(b.upper), CapWith(b));
  }

  /** `outlier_cols`: the number columns before the stop column that have fences and a value outside them. */
  function CappedCount(df: Frame, threshold: real): nat
    requires WellFormed(df) && !IsEmpty(df)
  {
    CountTrue(OutlierFlags(df, threshold)[..OutlierStop(df)])
  }

  /** Every cell of `row` with fences lies within them. */
  predicate RowWithin(row: seq<Cell>, bs: seq<Option<Bounds>>) {
    forall j :: 0 <= j < |row| && j < |bs| && bs[j].Some? ==> Within(row[j], bs[j].value)
  }

  /** `RowWithin` for the first `n` columns only: what the mask says once the
      loop has passed them. */
  predicate WithinBefore(row: seq<Cell>, bs: seq<Option<Bounds>>, n: nat) {
    forall k :: 0 <= k < n && k < |row| && k < |bs| && bs[k].Some? ==> Within(row[k], bs[k].value)
  }

  lemma WithinBeforeStep(row: seq<Cell>, bs: seq<Option<Bounds>>, n: nat)
    requires n < |row| && n < |bs|
    ensures WithinBefore(row, bs, n + 1) <==> WithinBefore(row, bs, n) && (bs[n].Some? ==> Within(row[n], bs[n].value))
  {
  }

  lemma WithinBeforeAll(row: seq<Cell>, bs: seq<Option<Bounds>>)
    ensures WithinBefore(row, bs, |bs|) <==> RowWithin(row, bs)
  {
  }

  function RowWithinAll(bs: seq<Option<Bounds>>): seq<Cell> -> bool {
    row => RowWithin(row, bs)
  }

  /** The table after 'remove': the mask is applied only once every column has
      been checked, so a raise leaves the table as it was. */
  function Removed(df: Frame, threshold: real): (r: Frame)
    requires WellFormed(df) && !IsEmpty(df)
    ensures WellFormed(r)
  {
    if OutlierStop(df) < |df.names| then df
    else
      var rows := Filter(df.rows, RowWithinAll(AllBounds(df, threshold)));
      SubsetOfRowsWellFormed(df, rows);
      df.(rows := rows)
  }

  /** The table after the stage with the given method. */
  function OutliersHandled(df: Frame, threshold: real, strategy: string): (r: Frame)
    requires WellFormed(df)
    ensures WellFormed(r)
  {
    if IsEmpty(df) then df
    else if strategy == "remove" then Removed(df, threshold)
    else if strategy == "cap" then Capped(df, threshold)
    else df
  }

  function OutliersStatus(df: Frame, strategy: string): Status
    requires WellFormed(df)
  {
    if IsEmpty(df) then Done
    else if strategy == "remove" || strategy == "cap" then StopStatus(df.names, OutlierStop(df))
    else Raised(InvalidMethod(strategy))
  }

  /** A method other than 'cap' and 'remove' raises on a non-empty table and leaves it as it is. */
  lemma InvalidMethodRejected(df: Frame, threshold: real, strategy: string)
    requires WellFormed(df) && !IsEmpty(df) && strategy != "cap" && strategy != "remove"
    ensures OutliersHandled(df, threshold, strategy) == df
    ensures OutliersStatus(df, strategy) == Raised(InvalidMethod(strategy))
  {
  }

  /** With a non-negative multiplier a capped value lies within its fences. */
  lemma CapCellWithin(c: Cell, b: Bounds)
    requires b.lower <= b.upper
    ensures Within(CapCell(c, b), b)
    ensures Within(c, b) ==> CapCell(c, b) == c
    ensures c.Num? && c.value < b.lower ==> CapCell(c, b) == Num(b.lower)
    ensures c.Num? && c.value > b.upper ==> CapCell(c, b) == Num(b.upper)
  {
  }

  /** 'cap' leaves labels, dtypes and row count as they are; before the stop column,
      every cell of a number column with fences ends within them, a value outside
      becomes the fence it crossed, and a value within (or a missing cell) stays;
      every other cell stays. */
  lemma CapClipsToFences(df: Frame, threshold: real)
    requires WellFormed(df) && !IsEmpty(df) && threshold >= 0.0
    ensures var r, bs, stop := Capped(df, threshold), AllBounds(df, threshold), OutlierStop(df);
      && r.names == df.names && r.kinds == df.kinds && |r.rows| == |df.rows|
      && (forall i, j :: 0 <= i < |df.rows| && 0 <= j < stop && bs[j].Some? ==>
            && Within(r.rows[i][j], bs[j].value)
            && (Within(df.rows[i][j], bs[j].value) ==> r.rows[i][j] == df.rows[i][j])
            && (df.rows[i][j].Num? && df.rows[i][j].value < bs[j].value.lower ==> r.rows[i][j] == Num(bs[j].value.lower))
            && (df.rows[i][j].Num? && df.rows[i][j].value > bs[j].value.upper ==> r.rows[i][j] == Num(bs[j].value.upper)))
      && (forall i, j :: 0 <= i < |df.rows| && 0 <= j < |df.names| && (j >= stop || bs[j].None?) ==>
            r.rows[i][j] == df.rows[i][j])
  {
    var bs, stop := AllBounds(df, threshold), OutlierStop(df);
    forall i, j | 0 <= i < |df.rows| && 0 <= j < stop && bs[j].Some? {
      CapClipsCell(df, threshold, i, j);
    }
  }

  /** `CapClipsToFences` for one cell. */
  lemma CapClipsCell(df: Frame, threshold: real, i: nat, j: nat)
    requires WellFormed(df) && !IsEmpty(df) && threshold >= 0.0
    requires i < |df.rows| && j < OutlierStop(df) && AllBounds(df, threshold)[j].Some?
    ensures var r, c, b := Capped(df, threshold), df.rows[i][j], AllBounds(df, threshold)[j].value;
      && Within(r.rows[i][j], b)
      && (Within(c, b) ==> r.rows[i][j] == c)
      && (c.Num? && c.value < b.lower ==> r.rows[i][j] == Num(b.lower))
      && (c.Num? && c.value > b.upper ==> r.rows[i][j] == Num(b.upper))
  {
    var c, b := df.rows[i][j], AllBounds(df, threshold)[j].value;
    IqrBoundsEncloseQuartiles(Numbers(Column(df.rows, j)), threshold);
    assert Capped(df, threshold).rows[i][j] == CapCell(c, b);
    CapCellWithin(c, b);
  }

  /** Only columns that are not number columns, or that the loop skips, have no fences. */
  lemma FencesOnlyOnNumberColumns(df: Frame, threshold: real, j: nat)
    requires WellFormed(df) && j < |df.names|
    ensures AllBounds(df, threshold)[j].Some? <==>
      df.kinds[j] == Numeric && Numbers(Column(df.rows, j)) != []
      && FirstQuartile(Numbers(Column(df.rows, j))) != ThirdQuartile(Numbers(Column(df.rows, j)))
  {
  }

  /** When 'cap' does not raise, `outlier_cols` is the number of columns with fences
      and a value outside them, and it is 0 exactly when no value is outside its fences. */
  lemma CappedCountCountsColumns(df: Frame, threshold: real)
    requires WellFormed(df) && !IsEmpty(df) && OutliersStatus(df, "cap") == Done
    ensures CappedCount(df, threshold) == CountTrue(OutlierFlags(df, threshold))
    ensures var bs := AllBounds(df, threshold);
      CappedCount(df, threshold) == 0 <==>
        forall i, j :: 0 <= i < |df.rows| && 0 <= j < |df.names| && bs[j].Some? ==> Within(df.rows[i][j], bs[j].value)
  {
    var flags, bs := OutlierFlags(df, threshold), AllBounds(df, threshold);
    assert flags[..OutlierStop(df)] == flags;
    if CappedCount(df, threshold) != 0 {
      var j :| 0 <= j < |flags| && flags[j];
      var col := Column(df.rows, j);
      var i :| 0 <= i < |col| && !Within(col[i], bs[j].value);
      assert !Within(df.rows[i][j], bs[j].value);
    } else {
      forall i, j | 0 <= i < |df.rows| && 0 <= j < |df.names| && bs[j].Some?
        ensures Within(df.rows[i][j], bs[j].value)
      {
        assert !flags[j];
        assert Column(df.rows, j)[i] == df.rows[i][j];
      }
    }
  }

  /** When 'remove' does not raise, a row is kept exactly when every value of it lies
      within its column's fences; so every dropped row has a value outside the fences
      of some column, and the kept rows keep their order. */
  lemma RemoveKeepsRowsWithinFences(df: Frame, threshold: real)
    requires WellFormed(df) && !IsEmpty(df) && OutliersStatus(df, "remove") == Done
    ensures var r, bs := Removed(df, threshold), AllBounds(df, threshold);
      && r.names == df.names && r.kinds == df.kinds
      && (forall row :: row in r.rows <==> row in df.rows && RowWithin(row, bs))
      && (forall row :: row in df.rows && row !in r.rows ==>
            exists j :: 0 <= j < |row| && j < |bs| && bs[j].Some? && !Within(row[j], bs[j].value))
      && r.rows == Filter(df.rows, RowWithinAll(bs))
  {
  }

  /** When 'remove' raises, no row is dropped. */
  lemma RemoveRaisesBeforeDropping(df: Frame, threshold: real)
    requires WellFormed(df) && !IsEmpty(df) && OutliersStatus(df, "remove").Raised?
    ensures Removed(df, threshold) == df
  {
  }

  lemma AgesSorted(ages: seq<real>, sorted: seq<real>)
    requires ages == [25.0, 30.0, 25.0, 120.0] && sorted == [25.0, 25.0, 30.0, 120.0]
    ensures Sort(ages) == sorted
  {
    AgesSameValues(ages, sorted);
    AgesInOrder(sorted);
    SortedPermutationUnique(Sort(ages), sorted);
  }

  lemma AgesSameValues(ages: seq<real>, sorted: seq<real>)
    requires ages == [25.0, 30.0, 25.0, 120.0] && sorted == [25.0, 25.0, 30.0, 120.0]
    ensures multiset(ages) == multiset(sorted)
  {
    assert sorted == [ages[0], ages[2], ages[1], ages[3]];
    assert multiset([ages[0], ages[2], ages[1], ages[3]]) == multiset{ages[0], ages[2], ages[1], ages[3]};
    assert ages == [ages[0], ages[1], ages[2], ages[3]];
    assert multiset([ages[0], ages[1], ages[2], ages[3]]) == multiset{ages[0], ages[1], ages[2], ages[3]};
  }

  lemma AgesInOrder(sorted: seq<real>)
    requires sorted == [25.0, 25.0, 30.0, 120.0]
    ensures Sorted(sorted)
  {
  }

  lemma AgesFirstQuartile(sorted: seq<real>)
    requires sorted == [25.0, 25.0, 30.0, 120.0]
    ensures Quantile(sorted, 0.25) == 25.0
  {
    QuantileAt(sorted, 0.25, 0, 0.75);
  }

  lemma AgesThirdQuartile(sorted: seq<real>)
    requires sorted == [25.0, 25.0, 30.0, 120.0]
    ensures Quantile(sorted, 0.75) == 52.5
  {
    QuantileAt(sorted, 0.75, 2, 0.25);
  }

  lemma AgesFences(ages: seq<real>)
    requires ages == [25.0, 30.0, 25.0, 120.0]
    ensures IqrBounds(ages, 1.5) == Some(Bounds(-16.25, 93.75))
  {
    var sorted := [25.0, 25.0, 30.0, 120.0];
    AgesSorted(ages, sorted);
    AgesFirstQuartile(sorted);
    AgesThirdQuartile(sorted);
    assert FirstQuartile(ages) == 25.0 && ThirdQuartile(ages) == 52.5;
  }

  lemma AgesAgainstFences(ages: seq<real>, b: Bounds)
    requires ages == [25.0, 30.0, 25.0, 120.0] && b == Bounds(-16.25, 93.75)
    ensures !Within(Num(ages[3]), b)
    ensures forall i :: 0 <= i < 3 ==> Within(Num(ages[i]), b)
  {
  }

  /** The ages 25, 30, 25 and 120 with multiplier 1.5: Q1 is 25, Q3 is 52.5, so the
      fences are -16.25 and 93.75, and 120 lies above the upper one. */
  lemma AgesExample(ages: seq<real>)
    requires ages == [25.0, 30.0, 25.0, 120.0]
    ensures var b := IqrBounds(ages, 1.5);
      && b == Some(Bounds(-16.25, 93.75))
      && !Within(Num(ages[3]), b.value)
      && forall i :: 0 <= i < 3 ==> Within(Num(ages[i]), b.value)
  {
    AgesFences(ages);
    AgesAgainstFences(ages, IqrBounds(ages, 1.5).value);
  }
}
