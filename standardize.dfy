/** The standardize stage: every column label goes through the name chain, and
    every cell of an `object` column becomes its text form with the surrounding
    whitespace stripped (`astype(str).str.strip()`). */
module Standardize {
  import opened Names
  import opened Table

  /** `str(v)` of a cell as `astype(str)` renders it: a missing cell becomes the
      text `"nan"`; `render` stands for Python's `str` of a float. */
  function Rendered(c: Cell, render: real -> string): string {
    match c
    case Missing => "nan"
    case Num(x) => render(x)
    case Text(s) => s
  }

  /** An `object` cell after `astype(str).str.strip()`. */
  function StrippedCell(c: Cell, render: real -> string): (d: Cell)
    ensures d.Text? && Trimmed(d.text)
    ensures c.Missing? ==> d == Text("nan")
    ensures c.Text? ==> d == Text(Strip(c.text))
    ensures c.Num? ==> d == Text(Strip(render(c.value)))
    ensures c.Text? && Trimmed(c.text) ==> d == c
  {
    assert Trimmed("nan");
    Text(Strip(Rendered(c, render)))
  }

  /** The labels after the chain: each is its old label through `Normalize`, holds no
      plain space and only `\w` or whitespace characters, and is no longer than before. */
  function NormalizedNames(names: seq<string>): (r: seq<string>)
    ensures |r| == |names|
    ensures forall j :: 0 <= j < |names| ==> r[j] == Normalize(names[j])
    ensures forall j :: 0 <= j < |names| ==>
      ' ' !in r[j] && |r[j]| <= |names[j]| && forall k :: 0 <= k < |r[j]| ==> KeptInName(r[j][k])
  {
    seq(|names|, j requires 0 <= j < |names| => Normalize(names[j]))
  }

  /** `select_dtypes(include=['object'])` as a mask over the columns.
      Its ensures only spell out the body, so the solver need not unfold it; it
      states no property. */
  function ObjectColumns(kinds: seq<Kind>): (r: seq<bool>)
    ensures |r| == |kinds|
    ensures forall j :: 0 <= j < |kinds| ==> r[j] == (kinds[j] == Object)
  {
    seq(|kinds|, j requires 0 <= j < |kinds| => kinds[j] == Object)
  }

  /** The object column whose new label is shared with another column, where the
      cell loop raises; the width when there is none. */
  function StandardizeStop(df: Frame): nat
    requires WellFormed(df)
  {
    FirstAmbiguous(NormalizedNames(df.names), ObjectColumns(df.kinds))
  }

  /** The cell loop's rewrite: the cells of `object` columns stripped. */
  function StripObjects(kinds: seq<Kind>, render: real -> string): (nat, Cell) -> Cell {
    (j: nat, c: Cell) => if j < |kinds| && kinds[j] == Object then StrippedCell(c, render) else c
  }

  /** `astype(str).str.strip()` on one column. */
  function StripWith(render: real -> string): Cell -> Cell {
    c => StrippedCell(c, render)
  }

  /** One step of the cell loop: column `j` is stripped exactly when it is an
      `object` column. */
  lemma StandardizeStep(df: Frame, render: real -> string, j: nat)
    requires WellFormed(df) && j < |df.names|
    ensures var g := StripObjects(df.kinds, render);
      var rows := MapColumnsBelow(df.rows, |df.names|, j, g);
      MapColumnsBelow(df.rows, |df.names|, j + 1, g) ==
        if df.kinds[j] == Object then MapColumn(rows, j, StripWith(render)) else rows
  {
    var g := StripObjects(df.kinds, render);
    if df.kinds[j] == Object {
      MapColumnsBelowStep(df.rows, |df.names|, j, g, StripWith(render));
    } else {
      MapColumnsBelowSkip(df.rows, |df.names|, j, g);
    }
  }

  /** The table after the stage: new labels, and the object columns before the
      stop column stripped. An empty table is left as it is. */
  function Standardized(df: Frame, render: real -> string): (r: Frame)
    requires WellFormed(df)
    ensures WellFormed(r)
  {
    if IsEmpty(df) then df
    else
      var stop := StandardizeStop(df);
      Frame(NormalizedNames(df.names), df.kinds,
            MapColumnsBelow(df.rows, |df.names|, stop, StripObjects(df.kinds, render)))
  }

  function StandardizeStatus(df: Frame): Status
    requires WellFormed(df)
  {
    if IsEmpty(df) then Done else StopStatus(NormalizedNames(df.names), StandardizeStop(df))
  }

  /** Each new label is its old label through the name chain; the labels keep no
      plain space and only word characters and whitespace. */
  lemma StandardizeRenames(df: Frame, render: real -> string)
    requires WellFormed(df) && !IsEmpty(df)
    ensures |Standardized(df, render).names| == |df.names|
    ensures forall j :: 0 <= j < |df.names| ==> Standardized(df, render).names[j] == Normalize(df.names[j])
    ensures forall j :: 0 <= j < |df.names| ==> ' ' !in Standardized(df, render).names[j]
    ensures forall j, k :: 0 <= j < |df.names| && 0 <= k < |Standardized(df, render).names[j]| ==>
      KeptInName(Standardized(df, render).names[j][k])
  {
  }

  /** When no two object columns end up sharing a label, every object cell becomes
      its text with the surrounding whitespace stripped (a missing one the text
      `nan`, a number its rendering), text that was already stripped stays, and the other columns, the dtypes and the row count do not change. */
  lemma StandardizeCells(df: Frame, render: real -> string)
    requires WellFormed(df) && !IsEmpty(df) && StandardizeStatus(df) == Done
    ensures var r := Standardized(df, render);
      && r.kinds == df.kinds && |r.rows| == |df.rows|
      && forall i, j :: 0 <= i < |df.rows| && 0 <= j < |df.names| ==>
           var c, d := df.rows[i][j], r.rows[i][j];
           if df.kinds[j] == Object then
             && d.Text? && Trimmed(d.text)
             && (c.Missing? ==> d == Text("nan"))
             && (c.Text? ==> d == Text(Strip(c.text)))
             && (c.Num? ==> d == Text(Strip(render(c.value))))
             && (c.Text? && Trimmed(c.text) ==> d == c)
           else d == c
  {
    assert StandardizeStop(df) == |df.names|;
    forall i, j | 0 <= i < |df.rows| && 0 <= j < |df.names| {
      StandardizedCell(df, render, i, j);
    }
  }

  /** Where a cell of the table ends up: stripped in an object column before the
      stop column, as it was anywhere else. */
  lemma StandardizedCell(df: Frame, render: real -> string, i: nat, j: nat)
    requires WellFormed(df) && !IsEmpty(df) && i < |df.rows| && j < |df.names|
    ensures Standardized(df, render).rows[i][j] ==
      if j < StandardizeStop(df) && df.kinds[j] == Object then StrippedCell(df.rows[i][j], render) else df.rows[i][j]
  {
  }

  /** The stage raises at an object column whose new label another column also gets. */
  lemma StandardizeRaisesOnCollision(df: Frame)
    requires WellFormed(df) && !IsEmpty(df) && StandardizeStatus(df).Raised?
    ensures var stop := StandardizeStop(df);
      && stop < |df.names| && df.kinds[stop] == Object
      && StandardizeStatus(df).error == AmbiguousLabel(Normalize(df.names[stop]))
      && exists k :: 0 <= k < |df.names| && k != stop && Normalize(df.names[k]) == Normalize(df.names[stop])
  {
    var names := NormalizedNames(df.names);
    var stop := StandardizeStop(df);
    assert Duplicated(names, stop);
    var k :| 0 <= k < |names| && k != stop && names[k] == names[stop];
    assert Normalize(df.names[k]) == Normalize(df.names[stop]);
  }

  /** The object columns before the stop column are stripped; every column from
      it on, and every column that is not `object`, is untouched. */
  lemma StandardizeTouchesOnlyObjectColumns(df: Frame, render: real -> string)
    requires WellFormed(df) && !IsEmpty(df)
    ensures var stop, r := StandardizeStop(df), Standardized(df, render);
      && (forall i, j :: 0 <= i < |df.rows| && stop <= j < |df.names| ==> r.rows[i][j] == df.rows[i][j])
      && (forall i, j :: 0 <= i < |df.rows| && 0 <= j < |df.names| && df.kinds[j] != Object ==> r.rows[i][j] == df.rows[i][j])
      && (forall i, j :: 0 <= i < |df.rows| && 0 <= j < stop && df.kinds[j] == Object ==>
            r.rows[i][j] == StrippedCell(df.rows[i][j], render))
  {
    forall i, j | 0 <= i < |df.rows| && 0 <= j < |df.names| {
      StandardizedCell(df, render, i, j);
    }
  }

  lemma NormalizedNamesIdempotent(names: seq<string>)
    requires forall j :: 0 <= j < |names| ==> OnlyPlainSpaces(names[j])
    ensures NormalizedNames(NormalizedNames(names)) == NormalizedNames(names)
  {
    forall j | 0 <= j < |names| ensures Normalize(Normalize(names[j])) == Normalize(names[j]) {
      NormalizeIdempotent(names[j]);
    }
  }

  /** For labels whose only whitespace is the plain space, a second run changes
      nothing and ends the same way. */
  lemma StandardizeIdempotent(df: Frame, render: real -> string)
    requires WellFormed(df)
    requires forall j :: 0 <= j < |df.names| ==> OnlyPlainSpaces(df.names[j])
    ensures Standardized(Standardized(df, render), render) == Standardized(df, render)
    ensures StandardizeStatus(Standardized(df, render)) == StandardizeStatus(df)
  {
    if !IsEmpty(df) {
      var once := Standardized(df, render);
      NormalizedNamesIdempotent(df.names);
      var stop := StandardizeStop(df);
      assert StandardizeStop(once) == stop;
      var twice := Standardized(once, render);
      forall i, j | 0 <= i < |df.rows| && 0 <= j < |df.names|
        ensures twice.rows[i][j] == once.rows[i][j]
      {
        if j < stop && df.kinds[j] == Object {
          assert once.rows[i][j] == StrippedCell(df.rows[i][j], render);
          assert twice.rows[i][j] == StrippedCell(once.rows[i][j], render);
        }
      }
      RowsEqual(twice.rows, once.rows, |df.names|);
    }
  }
}
