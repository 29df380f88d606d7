/**
 * The index walks of predicatedColumnSum (on column 1) and
 * predicatedAllColumnsSum (on column 0) as the source writes them: the key
 * range is `tailMap(threshold + 1)`, with threshold + 1 computed in 32 bits.
 * At threshold == INT_MAX the start wraps to INT_MIN, the walk visits every
 * key, and rows the WHERE clause rejects are counted. Below INT_MAX the
 * written walk and the scan agree. The table methods use KeysAbove instead,
 * which has no wrap.
 */
module TailMapWrap {
  import opened Layout
  import opened Queries
  import opened TreeIndex

  /**
   * What the written column-1 walk of predicatedColumnSum adds up: every row
   * in a bucket of SourceTailKeys(index, t1), filtered on col2 < t2 only.
   * With an index that agrees with the buffer those are exactly the rows
   * whose col1 is one of those keys. The walk only reaches rows through
   * the index: a row whose col1 is not a key never counts.
   */
  ghost function SourceColumnSumOnCol1(index: Index, cells: seq<i32>, numCols: nat, numRows: nat, t1: i32, t2: i32): (sum: int)
    ensures (forall r: nat | r < numRows :: Field(cells, numCols, r, 1) !in index) ==> sum == 0
  {
    if numRows == 0 then 0
    else SourceColumnSumOnCol1(index, cells, numCols, numRows - 1, t1, t2) + SourceColumnTerm(index, cells, numCols, numRows - 1, t1, t2)
  }

  /** What row r adds to the written column-1 walk. */
  ghost function SourceColumnTerm(index: Index, cells: seq<i32>, numCols: nat, r: nat, t1: i32, t2: i32): int
  {
    if Field(cells, numCols, r, 1) in SourceTailKeys(index, t1) && Field(cells, numCols, r, 2) < t2
    then Field(cells, numCols, r, 0) else 0
  }

  /**
   * What the written column-0 walk of predicatedAllColumnsSum adds up: every
   * field of every row in a bucket of SourceTailKeys(index, t), unfiltered.
   * A row whose col0 is not a key never counts.
   */
  ghost function SourceAllColumnsSumOnCol0(index: Index, cells: seq<i32>, numCols: nat, numRows: nat, t: i32): (sum: int)
    ensures (forall r: nat | r < numRows :: Field(cells, numCols, r, 0) !in index) ==> sum == 0
  {
    if numRows == 0 then 0
    else
      SourceAllColumnsSumOnCol0(index, cells, numCols, numRows - 1, t)
      + (if Field(cells, numCols, numRows - 1, 0) in SourceTailKeys(index, t)
         then RowSum(cells, numCols, numRows - 1, numCols) else 0)
  }

  /**
   * A row whose col1 is not a key of the index never counts in the written
   * column-1 walk: overwriting any other field of that row (its col0, its
   * col2 or a later column) leaves the walk's sum as it was.
   */
  lemma {:induction false} SourceColumnSumIgnoresUnkeyedRow(index: Index, cells: seq<i32>, n: nat, numCols: nat, numRows: nat,
                                                            t1: i32, t2: i32, r: nat, c: nat, v: i32)
    requires 3 <= numCols && |cells| == n * numCols && numRows <= n && r < n && c < numCols && c != 1
    requires Field(cells, numCols, r, 1) !in index
    ensures Slot(numCols, r, c) < |cells|
    ensures SourceColumnSumOnCol1(index, cells[Slot(numCols, r, c) := v], numCols, numRows, t1, t2)
            == SourceColumnSumOnCol1(index, cells, numCols, numRows, t1, t2)
  {
    SlotInBounds(n, numCols, r, c);
    if numRows > 0 {
      SourceColumnSumIgnoresUnkeyedRow(index, cells, n, numCols, numRows - 1, t1, t2, r, c, v);
      var m := numRows - 1;
      FieldAfterWriteElsewhere(cells, numCols, r, c, v, m, 1);
      if m != r {
        FieldAfterWriteElsewhere(cells, numCols, r, c, v, m, 0);
        FieldAfterWriteElsewhere(cells, numCols, r, c, v, m, 2);
      }
    }
  }

  /**
   * A row whose col0 is not a key of the index never counts in the written
   * column-0 walk: overwriting any of its other fields leaves the sum as it was.
   */
  lemma {:induction false} SourceAllColumnsSumIgnoresUnkeyedRow(index: Index, cells: seq<i32>, n: nat, numCols: nat, numRows: nat,
                                                                t: i32, r: nat, c: nat, v: i32)
    requires |cells| == n * numCols && numRows <= n && r < n && 0 < c < numCols
    requires Field(cells, numCols, r, 0) !in index
    ensures Slot(numCols, r, c) < |cells|
    ensures SourceAllColumnsSumOnCol0(index, cells[Slot(numCols, r, c) := v], numCols, numRows, t)
            == SourceAllColumnsSumOnCol0(index, cells, numCols, numRows, t)
  {
    FieldAfterWrite(cells, n, numCols, r, c, v);
    if numRows > 0 {
      SourceAllColumnsSumIgnoresUnkeyedRow(index, cells, n, numCols, numRows - 1, t, r, c, v);
      if numRows - 1 != r {
        RowSumSameRow(cells[Slot(numCols, r, c) := v], cells, numCols, numRows - 1, numCols);
      }
    }
  }

  /**
   * Below INT_MAX the written column-1 walk gives the scan's answer, for any
   * index that has every row's col1 as a key (as an index that agrees with
   * the buffer has).
   */
  lemma {:induction false} SourceColumnSumAgreesBelowMax(index: Index, cells: seq<i32>, numCols: nat, numRows: nat, t1: i32, t2: i32)
    requires forall r: nat | r < numRows :: Field(cells, numCols, r, 1) in index
    requires t1 < INT_MAX
    ensures SourceColumnSumOnCol1(index, cells, numCols, numRows, t1, t2)
            == ScanSum(Query.PredicatedColumnSum(t1, t2), cells, numCols, numRows)
  {
    if numRows > 0 {
      SourceColumnSumAgreesBelowMax(index, cells, numCols, numRows - 1, t1, t2);
      var v := Field(cells, numCols, numRows - 1, 1);
      assert v in SourceTailKeys(index, t1) <==> v > t1;
    }
  }

  /**
   * Below INT_MAX the written column-0 walk gives the scan's answer, for any
   * index that has every row's col0 as a key.
   */
  lemma {:induction false} SourceAllColumnsSumAgreesBelowMax(index: Index, cells: seq<i32>, numCols: nat, numRows: nat, t: i32)
    requires forall r: nat | r < numRows :: Field(cells, numCols, r, 0) in index
    requires t < INT_MAX
    ensures SourceAllColumnsSumOnCol0(index, cells, numCols, numRows, t)
            == ScanSum(Query.PredicatedAllColumnsSum(t), cells, numCols, numRows)
  {
    if numRows > 0 {
      SourceAllColumnsSumAgreesBelowMax(index, cells, numCols, numRows - 1, t);
      var v := Field(cells, numCols, numRows - 1, 0);
      assert v in SourceTailKeys(index, t) <==> v > t;
    }
  }

  /**
   * One row [7, INT_MIN, 0] indexed on column 1, predicatedColumnSum(INT_MAX, 1):
   * no col1 exceeds INT_MAX, so the answer is 0, yet the written walk starts
   * at INT_MAX + 1, which wraps to INT_MIN, and adds the row's 7.
   */
  lemma ColumnSumWrapCounterexample()
    ensures Indexes(map[INT_MIN := [0]], [7, INT_MIN, 0], 3, 1, 1)
    ensures SourceColumnSumOnCol1(map[INT_MIN := [0]], [7, INT_MIN, 0], 3, 1, INT_MAX, 1) == 7
    ensures ScanSum(Query.PredicatedColumnSum(INT_MAX, 1), [7, INT_MIN, 0], 3, 1) == 0
  {
    var index: Index := map[INT_MIN := [0]];
    var cells: seq<i32> := [7, INT_MIN, 0];
    assert Field(cells, 3, 0, 1) == INT_MIN;
    assert Listed(index, cells, 3, 1, 0);
    assert multiset(index[INT_MIN]) == multiset{0};
    assert INT_MIN in SourceTailKeys(index, INT_MAX);
  }

  /**
   * One row [5] indexed on column 0, predicatedAllColumnsSum(INT_MAX): no
   * col0 exceeds INT_MAX, so the answer is 0, yet the written walk visits
   * every key and adds the row's 5.
   */
  lemma AllColumnsSumWrapCounterexample()
    ensures Indexes(map[5 := [0]], [5], 1, 0, 1)
    ensures SourceAllColumnsSumOnCol0(map[5 := [0]], [5], 1, 1, INT_MAX) == 5
    ensures ScanSum(Query.PredicatedAllColumnsSum(INT_MAX), [5], 1, 1) == 0
  {
    var index: Index := map[5 := [0]];
    var cells: seq<i32> := [5];
    assert Field(cells, 1, 0, 0) == 5;
    assert Listed(index, cells, 1, 0, 0);
    assert multiset(index[5]) == multiset{0};
    assert 5 in SourceTailKeys(index, INT_MAX);
    assert RowSum(cells, 1, 0, 1) == 5;
  }
}
