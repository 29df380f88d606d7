/**
 * The four fixed queries of the Table contract, specified over the flat
 * buffer of a row-major table:
 *   columnSum                 SELECT SUM(col0)
 *   predicatedColumnSum       SELECT SUM(col0) WHERE col1 > t1 AND col2 < t2
 *   predicatedAllColumnsSum   SELECT SUM(col0) + ... + SUM(coln) WHERE col0 > t
 *   predicatedUpdate          UPDATE col3 = col1 + col2 WHERE col0 < t
 *                             (answer: the number of rows updated)
 * ScanSum is what a full scan over rows 0 .. numRows-1 computes; SumBy is
 * what a walk over any list of row ids accumulates. SumByCovers says when
 * the two agree: the walk must visit every selected row exactly once.
 */
module Queries {
  import opened Layout
  import opened Buckets

  datatype Query =
    | ColumnSum
    | PredicatedColumnSum(threshold1: i32, threshold2: i32)
    | PredicatedAllColumnsSum(threshold: i32)
    | PredicatedUpdate(threshold: i32)

  /** Whether row rowId satisfies the query's WHERE clause. */
  predicate Selects(q: Query, cells: seq<i32>, numCols: nat, rowId: nat)
  {
    match q
    case ColumnSum => true
    case PredicatedColumnSum(t1, t2) =>
      Field(cells, numCols, rowId, 1) > t1 && Field(cells, numCols, rowId, 2) < t2
    case PredicatedAllColumnsSum(t) => Field(cells, numCols, rowId, 0) > t
    case PredicatedUpdate(t) => Field(cells, numCols, rowId, 0) < t
  }

  /** Sum of the first `width` fields of row rowId. */
  function RowSum(cells: seq<i32>, numCols: nat, rowId: nat, width: nat): int
  {
    if width == 0 then 0 else RowSum(cells, numCols, rowId, width - 1) + Field(cells, numCols, rowId, width - 1)
  }

  /** What a selected row adds to the answer (for the update: one updated row). */
  function Weight(q: Query, cells: seq<i32>, numCols: nat, rowId: nat): int
  {
    match q
    case ColumnSum => Field(cells, numCols, rowId, 0)
    case PredicatedColumnSum(_, _) => Field(cells, numCols, rowId, 0)
    case PredicatedAllColumnsSum(_) => RowSum(cells, numCols, rowId, numCols)
    case PredicatedUpdate(_) => 1
  }

  function Term(q: Query, cells: seq<i32>, numCols: nat, rowId: nat): int
  {
    if Selects(q, cells, numCols, rowId) then Weight(q, cells, numCols, rowId) else 0
  }

  /** The query's answer over rows 0 .. numRows-1, as a full scan computes it. */
  function ScanSum(q: Query, cells: seq<i32>, numCols: nat, numRows: nat): int
  {
    if numRows == 0 then 0 else ScanSum(q, cells, numCols, numRows - 1) + Term(q, cells, numCols, numRows - 1)
  }

  /** RowSum reads only the fields of its own row. */
  lemma {:induction false} RowSumSameRow(a: seq<i32>, b: seq<i32>, numCols: nat, rowId: nat, width: nat)
    requires forall c: nat | c < width :: Field(a, numCols, rowId, c) == Field(b, numCols, rowId, c)
    ensures RowSum(a, numCols, rowId, width) == RowSum(b, numCols, rowId, width)
  {
    if width > 0 {
      RowSumSameRow(a, b, numCols, rowId, width - 1);
    }
  }

  /** The answer accumulated by visiting the row ids of `ids` in order. */
  function SumBy(q: Query, cells: seq<i32>, numCols: nat, ids: seq<nat>): int
  {
    if ids == [] then 0 else SumBy(q, cells, numCols, ids[..|ids| - 1]) + Term(q, cells, numCols, ids[|ids| - 1])
  }

  lemma {:induction false} SumByConcat(q: Query, cells: seq<i32>, numCols: nat, a: seq<nat>, b: seq<nat>)
    ensures SumBy(q, cells, numCols, a + b) == SumBy(q, cells, numCols, a) + SumBy(q, cells, numCols, b)
  {
    if b == [] {
      assert a + b == a;
    } else {
      var b' := b[..|b| - 1];
      assert (a + b)[..|a + b| - 1] == a + b';
      SumByConcat(q, cells, numCols, a, b');
    }
  }

  /** Visiting one more row adds that row's term. */
  lemma SumByAppend(q: Query, cells: seq<i32>, numCols: nat, ids: seq<nat>, x: nat)
    ensures SumBy(q, cells, numCols, ids + [x]) == SumBy(q, cells, numCols, ids) + Term(q, cells, numCols, x)
  {
    assert (ids + [x])[..|ids|] == ids;
  }

  /** Taking one visit of x out of a walk takes x's contribution out of its sum. */
  lemma {:induction false} SumByRemoveFirst(q: Query, cells: seq<i32>, numCols: nat, ids: seq<nat>, x: nat)
    requires x in ids
    ensures SumBy(q, cells, numCols, ids) == SumBy(q, cells, numCols, RemoveFirst(ids, x)) + Term(q, cells, numCols, x)
  {
    assert ids == [ids[0]] + ids[1..];
    SumByConcat(q, cells, numCols, [ids[0]], ids[1..]);
    assert SumBy(q, cells, numCols, [ids[0]]) == Term(q, cells, numCols, ids[0]) by {
      assert [ids[0]][..0] == [];
    }
    if ids[0] != x {
      SumByRemoveFirst(q, cells, numCols, ids[1..], x);
      SumByConcat(q, cells, numCols, [ids[0]], RemoveFirst(ids[1..], x));
    }
  }

  /**
   * A walk that visits row ids below numRows, none twice, and every row the
   * query selects, computes the full-scan answer, whatever its order and
   * whatever unselected rows it also visits.
   */
  lemma {:induction false} SumByCovers(q: Query, cells: seq<i32>, numCols: nat, ids: seq<nat>, numRows: nat)
    requires Distinct(ids)
    requires forall r: nat | r in ids :: r < numRows
    requires forall r: nat | r < numRows && Selects(q, cells, numCols, r) :: r in ids
    ensures SumBy(q, cells, numCols, ids) == ScanSum(q, cells, numCols, numRows)
    decreases numRows
  {
    if numRows == 0 {
      assert forall i | 0 <= i < |ids| :: ids[i] in ids;
    } else {
      var last: nat := numRows - 1;
      if last in ids {
        var rest := RemoveFirst(ids, last);
        SumByRemoveFirst(q, cells, numCols, ids, last);
        DistinctRemoveFirst(ids, last);
        SumByCovers(q, cells, numCols, rest, last);
      } else {
        SumByCovers(q, cells, numCols, ids, last);
      }
    }
  }

  /** The number of rows predicatedUpdate reports lies between 0 and numRows. */
  lemma {:induction false} UpdateCountBounds(threshold: i32, cells: seq<i32>, numCols: nat, numRows: nat)
    ensures 0 <= ScanSum(PredicatedUpdate(threshold), cells, numCols, numRows) <= numRows
  {
    if numRows > 0 {
      UpdateCountBounds(threshold, cells, numCols, numRows - 1);
    }
  }

  /** The value field (rowId, colId) takes after `UPDATE col3 = col1 + col2 WHERE col0 < threshold`. */
  function UpdatedField(cells: seq<i32>, numCols: nat, rowId: nat, colId: nat, threshold: i32): i32
  {
    if colId == 3 && Field(cells, numCols, rowId, 0) < threshold
    then Add32(Field(cells, numCols, rowId, 1), Field(cells, numCols, rowId, 2))
    else Field(cells, numCols, rowId, colId)
  }

  /** `after` is `before` with predicatedUpdate(threshold) applied to every row. */
  ghost predicate UpdateApplied(before: seq<i32>, after: seq<i32>, numRows: nat, numCols: nat, threshold: i32)
  {
    && |after| == |before|
    && forall r: nat, c: nat | r < numRows && c < numCols ::
         Field(after, numCols, r, c) == UpdatedField(before, numCols, r, c, threshold)
  }

  /** A scan of predicatedUpdate has handled rows 0 .. n-1 of `before` and none after. */
  ghost predicate UpdatedUpTo(before: seq<i32>, after: seq<i32>, numRows: nat, numCols: nat, threshold: i32, n: nat)
  {
    && |after| == |before|
    && forall r: nat, c: nat | r < numRows && c < numCols ::
         Field(after, numCols, r, c)
         == if r < n then UpdatedField(before, numCols, r, c, threshold) else Field(before, numCols, r, c)
  }

  /**
   * One step of the predicatedUpdate scan: row n still holds its original
   * columns 0 to 2, and writing col1 + col2 into its column 3 when col0 is
   * below the threshold (and nothing otherwise) handles row n.
   */
  lemma UpdateScanStep(before: seq<i32>, cur: seq<i32>, numRows: nat, numCols: nat, threshold: i32, n: nat)
    requires |before| == numRows * numCols && 4 <= numCols && n < numRows
    requires UpdatedUpTo(before, cur, numRows, numCols, threshold, n)
    ensures Slot(numCols, n, 3) < |cur|
    ensures forall c: nat | c < 3 :: Field(cur, numCols, n, c) == Field(before, numCols, n, c)
    ensures var next := if Field(before, numCols, n, 0) < threshold
                        then cur[Slot(numCols, n, 3) := Add32(Field(before, numCols, n, 1), Field(before, numCols, n, 2))]
                        else cur;
            UpdatedUpTo(before, next, numRows, numCols, threshold, n + 1)
  {
    assert Field(cur, numCols, n, 0) == Field(before, numCols, n, 0);
    assert Field(cur, numCols, n, 1) == Field(before, numCols, n, 1);
    assert Field(cur, numCols, n, 2) == Field(before, numCols, n, 2);
    var v := Add32(Field(before, numCols, n, 1), Field(before, numCols, n, 2));
    FieldAfterWrite(cur, numRows, numCols, n, 3, v);
  }

  /** An index walk of predicatedUpdate has handled exactly the rows in `touched`. */
  ghost predicate UpdatedRows(before: seq<i32>, after: seq<i32>, numRows: nat, numCols: nat, threshold: i32, touched: seq<nat>)
  {
    && |after| == |before|
    && forall r: nat, c: nat | r < numRows && c < numCols ::
         Field(after, numCols, r, c)
         == if r in touched then UpdatedField(before, numCols, r, c, threshold) else Field(before, numCols, r, c)
  }

  /**
   * One step of the predicatedUpdate index walk: a selected row n not yet
   * handled still holds its original columns 0 to 2, and writing col1 + col2
   * into its column 3 handles it.
   */
  lemma UpdateWalkStep(before: seq<i32>, cur: seq<i32>, numRows: nat, numCols: nat, threshold: i32,
                       touched: seq<nat>, n: nat)
    requires |before| == numRows * numCols && 4 <= numCols && n < numRows
    requires UpdatedRows(before, cur, numRows, numCols, threshold, touched)
    requires n !in touched && Field(before, numCols, n, 0) < threshold
    ensures Slot(numCols, n, 3) < |cur|
    ensures forall c: nat | c < 3 :: Field(cur, numCols, n, c) == Field(before, numCols, n, c)
    ensures UpdatedRows(before, cur[Slot(numCols, n, 3) := Add32(Field(before, numCols, n, 1), Field(before, numCols, n, 2))],
                        numRows, numCols, threshold, touched + [n])
  {
    assert Field(cur, numCols, n, 0) == Field(before, numCols, n, 0);
    assert Field(cur, numCols, n, 1) == Field(before, numCols, n, 1);
    assert Field(cur, numCols, n, 2) == Field(before, numCols, n, 2);
    var v := Add32(Field(before, numCols, n, 1), Field(before, numCols, n, 2));
    FieldAfterWrite(cur, numRows, numCols, n, 3, v);
    var next := cur[Slot(numCols, n, 3) := v];
    forall r: nat, c: nat | r < numRows && c < numCols
      ensures Field(next, numCols, r, c)
              == if r in touched + [n] then UpdatedField(before, numCols, r, c, threshold) else Field(before, numCols, r, c)
    {
      assert r in touched + [n] <==> r in touched || r == n;
    }
  }

  /**
   * A walk that has handled exactly the rows whose col0 is below the
   * threshold has applied predicatedUpdate to the whole table.
   */
  lemma UpdateWalkDone(before: seq<i32>, after: seq<i32>, numRows: nat, numCols: nat, threshold: i32, touched: seq<nat>)
    requires UpdatedRows(before, after, numRows, numCols, threshold, touched)
    requires forall r: nat | r < numRows :: r in touched <==> Field(before, numCols, r, 0) < threshold
    ensures UpdateApplied(before, after, numRows, numCols, threshold)
  {
    forall r: nat, c: nat | r < numRows && c < numCols
      ensures Field(after, numCols, r, c) == UpdatedField(before, numCols, r, c, threshold)
    {
      if r !in touched {
        assert Field(before, numCols, r, 0) >= threshold;
      }
    }
  }

  /**
   * The rows predicatedUpdate selects depend on column 0 alone, which it does
   * not write: counted on the updated table, the same rows are selected.
   */
  lemma {:induction false} UpdateCountStable(before: seq<i32>, after: seq<i32>, numRows: nat, numCols: nat, threshold: i32)
    requires 4 <= numCols
    requires UpdateApplied(before, after, numRows, numCols, threshold)
    ensures ScanSum(PredicatedUpdate(threshold), after, numCols, numRows)
         == ScanSum(PredicatedUpdate(threshold), before, numCols, numRows)
  {
    if numRows > 0 {
      assert UpdateApplied(before, after, numRows - 1, numCols, threshold);
      UpdateCountStable(before, after, numRows - 1, numCols, threshold);
      assert Field(after, numCols, numRows - 1, 0) == Field(before, numCols, numRows - 1, 0);
    }
  }

  /**
   * Running predicatedUpdate(threshold) a second time reports the same count
   * and leaves every field as the first run left it.
   */
  lemma UpdateIdempotent(c0: seq<i32>, c1: seq<i32>, c2: seq<i32>, numRows: nat, numCols: nat, threshold: i32)
    requires 4 <= numCols
    requires UpdateApplied(c0, c1, numRows, numCols, threshold)
    requires UpdateApplied(c1, c2, numRows, numCols, threshold)
    ensures ScanSum(PredicatedUpdate(threshold), c1, numCols, numRows)
         == ScanSum(PredicatedUpdate(threshold), c0, numCols, numRows)
    ensures forall r: nat, c: nat | r < numRows && c < numCols :: Field(c2, numCols, r, c) == Field(c1, numCols, r, c)
  {
    UpdateCountStable(c0, c1, numRows, numCols, threshold);
    forall r: nat, c: nat | r < numRows && c < numCols
      ensures Field(c2, numCols, r, c) == Field(c1, numCols, r, c)
    {
      assert Field(c1, numCols, r, 0) == Field(c0, numCols, r, 0);
      assert Field(c1, numCols, r, 1) == Field(c0, numCols, r, 1);
      assert Field(c1, numCols, r, 2) == Field(c0, numCols, r, 2);
    }
  }
}
