/** The in-memory table (a pandas DataFrame) that every stage reads and rewrites:
    an ordered list of column labels, one dtype per column, and rows of cells. */
module Table {
  import opened Seqs

  datatype Option<T> = None | Some(value: T)

  /** One cell: NaN/None/NaT is `Missing`; numbers and timestamps are `Num`. */
  datatype Cell = Missing | Num(value: real) | Text(text: string)

  /** The dtypes the stages distinguish: a number dtype, `object`, `category`, `datetime64`. */
  datatype Kind = Numeric | Object | Categorical | Datetime

  /** Column labels may repeat: normalising names can make two of them collide. */
  datatype Frame = Frame(names: seq<string>, kinds: seq<Kind>, rows: seq<seq<Cell>>)

  /** Why a stage stopped by raising: a label that names several columns
      (`df[label]` is then a DataFrame, on which the stage's Series calls fail),
      or an outlier method other than 'cap' and 'remove' (a ValueError). */
  datatype StageError = AmbiguousLabel(column: string) | InvalidMethod(name: string)

  datatype Status = Done | Raised(error: StageError)

  /** dtypes whose cells are numbers or missing, never text. */
  predicate HoldsNumbers(k: Kind) {
    k == Numeric || k == Datetime
  }

  predicate Rectangular(rows: seq<seq<Cell>>, width: nat) {
    forall i :: 0 <= i < |rows| ==> |rows[i]| == width
  }

  /** One dtype per column, one cell per column in every row, and no text in a
      number or datetime column. */
  predicate WellFormed(df: Frame) {
    && |df.kinds| == |df.names|
    && Rectangular(df.rows, |df.names|)
    && forall i, j :: 0 <= i < |df.rows| && 0 <= j < |df.names| && HoldsNumbers(df.kinds[j]) ==> !df.rows[i][j].Text?
  }

  /** pandas `df.empty`: no rows or no columns. */
  predicate IsEmpty(df: Frame) {
    |df.rows| == 0 || |df.names| == 0
  }

  /** Column `j` of the rows.
      Its ensures only spell out the body, so the solver need not unfold it; it
      states no property. */
  function Column(rows: seq<seq<Cell>>, j: nat): (col: seq<Cell>)
    requires forall i :: 0 <= i < |rows| ==> j < |rows[i]|
    ensures |col| == |rows|
    ensures forall i {:trigger col[i]} :: 0 <= i < |rows| ==> col[i] == rows[i][j]
  {
    seq(|rows|, i requires 0 <= i < |rows| => rows[i][j])
  }

  /** `df[col] = f(df[col])` for a function applied cell by cell. */
  function MapColumn(rows: seq<seq<Cell>>, j: nat, f: Cell -> Cell): (r: seq<seq<Cell>>)
    requires forall i :: 0 <= i < |rows| ==> j < |rows[i]|
    ensures |r| == |rows|
    ensures forall i {:trigger r[i]} :: 0 <= i < |rows| ==> |r[i]| == |rows[i]|
    ensures forall i, k {:trigger r[i][k]} :: 0 <= i < |rows| && 0 <= k < |rows[i]| ==> r[i][k] == if k == j then f(rows[i][j]) else rows[i][k]
  {
    seq(|rows|, i requires 0 <= i < |rows| => rows[i][j := f(rows[i][j])])
  }

  predicate IsPresent(c: Cell) {
    !c.Missing?
  }

  /** The non-missing cells of a column, in order and each as often as in the
      column (what `dropna()` keeps). */
  function Present(col: seq<Cell>): (r: seq<Cell>)
    ensures forall c :: c in r <==> c in col && IsPresent(c)
    ensures forall c {:trigger multiset(r)[c]} :: multiset(r)[c] == if IsPresent(c) then multiset(col)[c] else 0
  {
    Filter(col, IsPresent)
  }

  /** The numbers of a column, in order and each as often as in the column,
      skipping missing cells. */
  function Numbers(col: seq<Cell>): (xs: seq<real>)
    ensures |xs| <= |col|
    ensures forall x :: x in xs <==> Num(x) in col
    ensures forall x {:trigger multiset(xs)[x]} :: multiset(xs)[x] == multiset(col)[Num(x)]
    decreases |col|
  {
    if col == [] then []
    else
      var init, last := col[..|col| - 1], col[|col| - 1];
      assert col == init + [last];
      assert multiset(col) == multiset(init) + multiset{last};
      if last.Num? then Numbers(init) + [last.value] else Numbers(init)
  }

  /** Label `names[j]` also names another column. */
  predicate Duplicated(names: seq<string>, j: nat)
    requires j < |names|
  {
    exists k :: 0 <= k < |names| && k != j && names[k] == names[j]
  }

  /** The first column, among those a stage looks up by label (`touched`), whose label
      is shared with another column: the stage raises there. `|names|` if none. */
  function FirstAmbiguous(names: seq<string>, touched: seq<bool>): (k: nat)
    requires |touched| == |names|
    ensures k <= |names|
    ensures k < |names| ==> touched[k] && Duplicated(names, k)
    ensures forall j :: 0 <= j < k ==> !(touched[j] && Duplicated(names, j))
  {
    var flags := seq(|names|, j requires 0 <= j < |names| => touched[j] && Duplicated(names, j));
    var k := FirstTrue(flags);
    forall j | 0 <= j < k ensures !(touched[j] && Duplicated(names, j)) {
      assert !flags[j];
    }
    k
  }

  /** A column loop that passes column `j` without raising has not reached the stop column. */
  lemma FirstAmbiguousAfter(names: seq<string>, touched: seq<bool>, j: nat)
    requires |touched| == |names| && j < |names| && j <= FirstAmbiguous(names, touched)
    requires !(touched[j] && Duplicated(names, j))
    ensures j + 1 <= FirstAmbiguous(names, touched)
  {
  }

  /** A stage that looks up every column by label. */
  function AllColumns(n: nat): (r: seq<bool>)
    ensures |r| == n && forall j :: 0 <= j < n ==> r[j]
  {
    seq(n, _ => true)
  }

  /** The cells of the columns before `upto` replaced by `g` of their column index
      and value: what a column loop has done once it reaches column `upto`. */
  function MapColumnsBelow(rows: seq<seq<Cell>>, width: nat, upto: nat, g: (nat, Cell) -> Cell): (r: seq<seq<Cell>>)
    requires Rectangular(rows, width)
    ensures |r| == |rows| && Rectangular(r, width)
    ensures forall i, j {:trigger r[i][j]} :: 0 <= i < |rows| && 0 <= j < width ==>
      r[i][j] == if j < upto then g(j, rows[i][j]) else rows[i][j]
  {
    seq(|rows|, i requires 0 <= i < |rows| =>
      seq(width, j requires 0 <= j < width => if j < upto then g(j, rows[i][j]) else rows[i][j]))
  }

  /** A rewrite that puts no text into a number or datetime column keeps the table well formed. */
  lemma MapColumnsBelowWellFormed(df: Frame, upto: nat, g: (nat, Cell) -> Cell)
    requires WellFormed(df)
    requires forall j: nat, c: Cell :: j < |df.names| && HoldsNumbers(df.kinds[j]) && !c.Text? ==> !g(j, c).Text?
    ensures WellFormed(df.(rows := MapColumnsBelow(df.rows, |df.names|, upto, g)))
  {
  }

  /** A column loop that has not started has changed nothing. */
  lemma MapColumnsBelowNone(rows: seq<seq<Cell>>, width: nat, g: (nat, Cell) -> Cell)
    requires Rectangular(rows, width)
    ensures MapColumnsBelow(rows, width, 0, g) == rows
  {
    RowsEqual(MapColumnsBelow(rows, width, 0, g), rows, width);
  }

  /** A column loop reads column `j` before rewriting it, as the table had it. */
  lemma MapColumnsBelowColumn(rows: seq<seq<Cell>>, width: nat, j: nat, g: (nat, Cell) -> Cell)
    requires Rectangular(rows, width) && j < width
    ensures Column(MapColumnsBelow(rows, width, j, g), j) == Column(rows, j)
  {
  }

  /** One more step of a column loop: rewriting column `j` with `f`. */
  lemma MapColumnsBelowStep(rows: seq<seq<Cell>>, width: nat, j: nat, g: (nat, Cell) -> Cell, f: Cell -> Cell)
    requires Rectangular(rows, width) && j < width
    requires forall i :: 0 <= i < |rows| ==> f(rows[i][j]) == g(j, rows[i][j])
    ensures MapColumnsBelow(rows, width, j + 1, g) == MapColumn(MapColumnsBelow(rows, width, j, g), j, f)
  {
    RowsEqual(MapColumnsBelow(rows, width, j + 1, g), MapColumn(MapColumnsBelow(rows, width, j, g), j, f), width);
  }

  /** One more step of a column loop that leaves column `j` as it is. */
  lemma MapColumnsBelowSkip(rows: seq<seq<Cell>>, width: nat, j: nat, g: (nat, Cell) -> Cell)
    requires Rectangular(rows, width) && j < width
    requires forall i :: 0 <= i < |rows| ==> g(j, rows[i][j]) == rows[i][j]
    ensures MapColumnsBelow(rows, width, j + 1, g) == MapColumnsBelow(rows, width, j, g)
  {
    RowsEqual(MapColumnsBelow(rows, width, j + 1, g), MapColumnsBelow(rows, width, j, g), width);
  }

  /** Two rewrites of the same column in a row are one rewrite with their composition. */
  lemma MapColumnTwice(rows: seq<seq<Cell>>, j: nat, f1: Cell -> Cell, f2: Cell -> Cell, f: Cell -> Cell)
    requires forall i :: 0 <= i < |rows| ==> j < |rows[i]|
    requires forall i :: 0 <= i < |rows| ==> f(rows[i][j]) == f2(f1(rows[i][j]))
    ensures MapColumn(MapColumn(rows, j, f1), j, f2) == MapColumn(rows, j, f)
  {
    var a, b := MapColumn(MapColumn(rows, j, f1), j, f2), MapColumn(rows, j, f);
    forall i | 0 <= i < |rows| ensures a[i] == b[i] {
      assert |a[i]| == |b[i]|;
    }
  }

  /** The outcome of a stage that stops at column `stop`. */
  function StopStatus(names: seq<string>, stop: nat): (st: Status)
    ensures st.Done? <==> stop >= |names|
  {
    if stop < |names| then Raised(AmbiguousLabel(names[stop])) else Done
  }

  /** Two rectangular tables with equal cells are equal. */
  lemma {:induction false} RowsEqual(a: seq<seq<Cell>>, b: seq<seq<Cell>>, width: nat)
    requires |a| == |b| && Rectangular(a, width) && Rectangular(b, width)
    requires forall i, j :: 0 <= i < |a| && 0 <= j < width ==> a[i][j] == b[i][j]
    ensures a == b
  {
    forall i | 0 <= i < |a| ensures a[i] == b[i] {
      assert |a[i]| == |b[i]| == width;
    }
  }

  /** A table whose rows are all rows of a well-formed table is well formed. */
  lemma SubsetOfRowsWellFormed(df: Frame, rows: seq<seq<Cell>>)
    requires WellFormed(df)
    requires forall r :: r in rows ==> r in df.rows
    ensures WellFormed(df.(rows := rows))
  {
    forall i, j | 0 <= i < |rows| && 0 <= j < |df.names|
      ensures |rows[i]| == |df.names|
      ensures HoldsNumbers(df.kinds[j]) ==> !rows[i][j].Text?
    {
      assert rows[i] in df.rows;
      var k :| 0 <= k < |df.rows| && df.rows[k] == rows[i];
    }
    forall i | 0 <= i < |rows| ensures |rows[i]| == |df.names| {
      assert rows[i] in df.rows;
    }
  }
}
