/** The garbage stage: `drop_duplicates()` keeps the first of equal rows (two
    missing cells count as equal), then `dropna(how='all')` drops the rows whose
    every cell is missing. */
module Garbage {
  import opened Seqs
  import opened Table

  predicate AllMissing(row: seq<Cell>) {
    forall j :: 0 <= j < |row| ==> row[j].Missing?
  }

  predicate HasPresentCell(row: seq<Cell>) {
    !AllMissing(row)
  }

  /** The table after the stage; an empty table is left as it is. */
  function GarbageRemoved(df: Frame): (r: Frame)
    requires WellFormed(df)
    ensures WellFormed(r)
    ensures r.names == df.names && r.kinds == df.kinds
  {
    if IsEmpty(df) then df
    else
      var rows := Filter(Dedup(df.rows), HasPresentCell);
      SubsetOfRowsWellFormed(df, rows);
      df.(rows := rows)
  }

  /** The rows left are pairwise different, none is entirely missing, and a row is
      left exactly when it was in the table and has a present cell. */
  lemma GarbageRemovedRows(df: Frame)
    requires WellFormed(df) && !IsEmpty(df)
    ensures var rows := GarbageRemoved(df).rows;
      && Distinct(rows)
      && |rows| <= |df.rows|
      && (forall i :: 0 <= i < |rows| ==> !AllMissing(rows[i]))
      && (forall row :: row in rows <==> row in df.rows && !AllMissing(row))
  {
    FilterKeepsDistinct(Dedup(df.rows), HasPresentCell);
    var rows := GarbageRemoved(df).rows;
    forall i | 0 <= i < |rows| ensures !AllMissing(rows[i]) {
      assert rows[i] in rows;
    }
  }

  /** The rows left keep the order of their first occurrence. */
  lemma GarbageRemovedKeepsOrder(df: Frame)
    requires WellFormed(df) && !IsEmpty(df)
    ensures var rows := GarbageRemoved(df).rows;
      forall i, j :: 0 <= i < j < |rows| ==> Position(df.rows, rows[i]) < Position(df.rows, rows[j])
  {
    DedupKeepsFirstOccurrenceOrder(df.rows);
    FilterKeepsPositionOrder(Dedup(df.rows), HasPresentCell, df.rows);
  }

  /** Dropping the empty rows first would give the same table. */
  lemma GarbageOrderOfStepsIrrelevant(df: Frame)
    requires WellFormed(df) && !IsEmpty(df)
    ensures GarbageRemoved(df).rows == Dedup(Filter(df.rows, HasPresentCell))
  {
    FilterDedupCommute(df.rows, HasPresentCell);
  }

  /** A second run removes nothing. */
  lemma GarbageRemovedIdempotent(df: Frame)
    requires WellFormed(df)
    ensures GarbageRemoved(GarbageRemoved(df)) == GarbageRemoved(df)
  {
    var once := GarbageRemoved(df);
    if !IsEmpty(df) && !IsEmpty(once) {
      GarbageRemovedRows(df);
      DedupOfDistinct(once.rows);
      FilterKeepsAll(once.rows, HasPresentCell);
    }
  }
}
