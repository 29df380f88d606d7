/**
 * IndexedRowTable: the row-major layout of RowTable plus an ordered index on
 * one column, `indexColumn`, fixed at construction. The index maps each value
 * of that column to the ids of the rows holding it; every write to the
 * indexed column moves the row to the bucket of its new value. Queries whose
 * predicate restricts the indexed column walk the index over the matching
 * key range; the others scan every row.
 */
module IndexedRowTables {
  import opened Layout
  import opened Buckets
  import opened Queries
  import opened TreeIndex

  class IndexedRowTable {
    var numCols: nat
    var numRows: nat
    /** The `TreeMap<Integer, IntArrayList>` from indexed values to row ids. */
    var index: Index
    /** The backing buffer, one element per field. */
    var rows: array<i32>
    const indexColumn: int

    /** The buffer holds numRows * numCols fields and the index agrees with it. */
    ghost predicate Valid()
      reads this, rows
    {
      && rows.Length == numRows * numCols
      && IndexValid(index, rows[..], numRows, numCols, indexColumn)
    }

    /** The buffer's contents. */
    ghost function Cells(): seq<i32>
      reads this, rows
    {
      rows[..]
    }

    /** A table indexing column `indexColumn`, before `load`: no rows, no columns, an empty index. */
    constructor (indexColumn: int)
      ensures Valid() && numRows == 0 && numCols == 0 && index == map[]
      ensures this.indexColumn == indexColumn
    {
      this.indexColumn := indexColumn;
      numCols := 0;
      numRows := 0;
      index := map[];
      rows := new i32[0];
    }

    /**
     * `load`: copies the loader's rows into a fresh buffer, as RowTable does,
     * and builds a fresh index: each time the field of the indexed column is
     * written, the row id is appended to the bucket of its value, created if
     * absent.
     */
    method Load(loaderCols: nat, loaderRows: seq<seq<i32>>)
      requires forall i | 0 <= i < |loaderRows| :: |loaderRows[i]| >= loaderCols
      modifies this
      ensures Valid() && fresh(rows)
      ensures numCols == loaderCols && numRows == |loaderRows|
      ensures forall r: nat, c: nat | r < numRows && c < numCols :: Field(Cells(), numCols, r, c) == loaderRows[r][c]
      ensures IndexValid(index, Cells(), numRows, numCols, indexColumn)
    {
      var idx: Index := map[];
      var n := |loaderRows|;
      var buffer := new i32[n * loaderCols];
      for rowId := 0 to n
        invariant forall r: nat, c: nat | r < rowId && c < loaderCols ::
                    Field(buffer[..], loaderCols, r, c) == loaderRows[r][c]
        invariant IndexValid(idx, buffer[..], rowId, loaderCols, indexColumn)
      {
        idx := LoadRow(buffer, idx, loaderCols, indexColumn, loaderRows, rowId);
      }
      numCols, numRows := loaderCols, n;
      rows := buffer;
      index := idx;
    }

    /**
     * One iteration of `load`'s row loop: copies loader row rowId into the
     * buffer field by field and, at the indexed column, appends rowId to the
     * bucket of its value.
     */
    static method LoadRow(buffer: array<i32>, idx0: Index, loaderCols: nat, indexColumn: int,
                          loaderRows: seq<seq<i32>>, rowId: nat) returns (idx: Index)
      requires forall i | 0 <= i < |loaderRows| :: |loaderRows[i]| >= loaderCols
      requires rowId < |loaderRows| && buffer.Length == |loaderRows| * loaderCols
      requires forall r: nat, c: nat | r < rowId && c < loaderCols ::
                 Field(buffer[..], loaderCols, r, c) == loaderRows[r][c]
      requires IndexValid(idx0, buffer[..], rowId, loaderCols, indexColumn)
      modifies buffer
      ensures forall r: nat, c: nat | r < rowId + 1 && c < loaderCols ::
                Field(buffer[..], loaderCols, r, c) == loaderRows[r][c]
      ensures IndexValid(idx, buffer[..], rowId + 1, loaderCols, indexColumn)
      ensures 0 <= indexColumn < loaderCols ==>
                var k := loaderRows[rowId][indexColumn];
                idx == idx0[k := (if k in idx0 then idx0[k] else []) + [rowId]]
      ensures !(0 <= indexColumn < loaderCols) ==> idx == idx0
    {
      var n := |loaderRows|;
      idx := idx0;
      for colId := 0 to loaderCols
        invariant forall r: nat, c: nat | (r < rowId && c < loaderCols) || (r == rowId && c < colId) ::
                    Field(buffer[..], loaderCols, r, c) == loaderRows[r][c]
        invariant IndexValid(idx, buffer[..], if colId > indexColumn then rowId + 1 else rowId, loaderCols, indexColumn)
        invariant 0 <= indexColumn < colId ==>
                    var k := loaderRows[rowId][indexColumn];
                    idx == idx0[k := (if k in idx0 then idx0[k] else []) + [rowId]]
        invariant !(0 <= indexColumn < colId) ==> idx == idx0
      {
        var field := loaderRows[rowId][colId];
        FieldAfterWrite(buffer[..], n, loaderCols, rowId, colId, field);
        LoadWriteKeepsIndex(idx, buffer[..], n, loaderCols, rowId, colId, field);
        buffer[Slot(loaderCols, rowId, colId)] := field;
        if colId == indexColumn {
          var value: seq<nat> := if field in idx then idx[field] else [];
          IndexesAddRow(idx, buffer[..], loaderCols, colId, rowId);
          idx := idx[field := value + [rowId]];
        }
      }
    }

    /**
     * While `load` fills row rowId, writing field (rowId, colId) keeps the
     * index of the rows filled so far valid: the write touches the indexed
     * column only of a row not yet indexed.
     */
    static lemma LoadWriteKeepsIndex(idx: Index, cells: seq<i32>, n: nat, numCols: nat, rowId: nat, colId: nat, v: i32)
      requires |cells| == n * numCols && rowId < n && colId < numCols
      ensures Slot(numCols, rowId, colId) < |cells|
      ensures forall m: nat, ic: int | m <= rowId || (m == rowId + 1 && colId != ic) ::
                IndexValid(idx, cells, m, numCols, ic) ==> IndexValid(idx, cells[Slot(numCols, rowId, colId) := v], m, numCols, ic)
    {
      FieldAfterWrite(cells, n, numCols, rowId, colId, v);
      forall m: nat, ic: int | (m <= rowId || (m == rowId + 1 && colId != ic)) && IndexValid(idx, cells, m, numCols, ic)
        ensures IndexValid(idx, cells[Slot(numCols, rowId, colId) := v], m, numCols, ic)
      {
        if 0 <= ic < numCols {
          IndexesStable(idx, cells, cells[Slot(numCols, rowId, colId) := v], numCols, ic as nat, m);
        }
      }
    }

    /** `getIntField`: the field at (rowId, colId). */
    method GetIntField(rowId: nat, colId: nat) returns (v: i32)
      requires Valid() && rowId < numRows && colId < numCols
      ensures v == Field(Cells(), numCols, rowId, colId)
    {
      SlotInBounds(numRows, numCols, rowId, colId);
      v := rows[Slot(numCols, rowId, colId)];
    }

    /**
     * `putIntField`: overwrites the field at (rowId, colId). On the indexed
     * column it then removes rowId from the bucket of the old value (`rem`;
     * the bucket stays even if emptied) and appends it to the bucket of the
     * new value, created if absent. Any other column leaves the index alone.
     */
    method PutIntField(rowId: nat, colId: nat, field: i32)
      requires Valid() && rowId < numRows && colId < numCols
      modifies this, rows
      ensures Valid()
      ensures rows == old(rows) && numRows == old(numRows) && numCols == old(numCols)
      ensures Slot(numCols, rowId, colId) < rows.Length
      ensures Cells() == old(Cells())[Slot(numCols, rowId, colId) := field]
      ensures Field(Cells(), numCols, rowId, colId) == field
      ensures forall r: nat, c: nat | r < numRows && c < numCols && (r, c) != (rowId, colId) ::
                Field(Cells(), numCols, r, c) == Field(old(Cells()), numCols, r, c)
      ensures colId != indexColumn ==> index == old(index)
      ensures colId == indexColumn ==>
                && Field(old(Cells()), numCols, rowId, colId) in old(index)
                && index == Reindex(old(index), rowId, Field(old(Cells()), numCols, rowId, colId), field)
    {
      ghost var before := rows[..];
      FieldAfterWrite(before, numRows, numCols, rowId, colId, field);
      var offset := Slot(numCols, rowId, colId);
      var origin := rows[offset];
      rows[offset] := field;
      assert rows[..] == before[offset := field];
      if colId == indexColumn {
        ReindexPreservesIndex(index, before, numRows, numCols, colId, rowId, field);
        MoveRow(rowId, origin, field);
      } else if 0 <= indexColumn < numCols {
        IndexesStable(index, before, rows[..], numCols, indexColumn as nat, numRows);
      }
    }

    /**
     * The index maintenance of `putIntField` on the indexed column: `rem`
     * rowId from the bucket of its old value, then `add` it to the bucket of
     * the new value, created if absent.
     */
    method MoveRow(rowId: nat, origin: i32, field: i32)
      requires origin in index
      modifies this
      ensures index == Reindex(old(index), rowId, origin, field)
      ensures rows == old(rows) && numRows == old(numRows) && numCols == old(numCols)
    {
      var value := index[origin];
      value := RemoveFirst(value, rowId);
      index := index[origin := value];
      var bucket: seq<nat> := if field in index then index[field] else [];
      index := index[field := bucket + [rowId]];
    }

    /** `columnSum`: SELECT SUM(col0), by a scan of every row (no index can narrow it). */
    method ColumnSum() returns (sum: int)
      requires Valid() && (numRows == 0 || numCols >= 1)
      ensures sum == ScanSum(Query.ColumnSum, Cells(), numCols, numRows)
    {
      sum := 0;
      for rowId := 0 to numRows
        invariant sum == ScanSum(Query.ColumnSum, Cells(), numCols, rowId)
      {
        var v := GetIntField(rowId, 0);
        sum := sum + v;
      }
    }

    /**
     * `predicatedColumnSum`: SELECT SUM(col0) WHERE col1 > threshold1 AND
     * col2 < threshold2. Indexed on column 1, it walks the keys above
     * threshold1 and filters on col2; indexed on column 2, it walks the keys
     * below threshold2 and filters on col1; otherwise it scans. Every branch
     * gives the full-scan answer.
     */
    method PredicatedColumnSum(threshold1: i32, threshold2: i32) returns (sum: int)
      requires Valid() && (numRows == 0 || numCols >= 3)
      ensures sum == ScanSum(Query.PredicatedColumnSum(threshold1, threshold2), Cells(), numCols, numRows)
    {
      ghost var q := Query.PredicatedColumnSum(threshold1, threshold2);
      sum := 0;
      if indexColumn == 1 {
        sum := SumIndexedOnCol1(threshold1, threshold2);
      } else if indexColumn == 2 {
        sum := SumIndexedOnCol2(threshold1, threshold2);
      } else {
        for rowId := 0 to numRows
          invariant sum == ScanSum(q, Cells(), numCols, rowId)
        {
          var c1 := GetIntField(rowId, 1);
          if c1 > threshold1 {
            var c2 := GetIntField(rowId, 2);
            if c2 < threshold2 {
              var c0 := GetIntField(rowId, 0);
              sum := sum + c0;
            }
          }
        }
      }
    }

    /**
     * `predicatedColumnSum` indexed on column 1: the buckets of the keys
     * above threshold1, in ascending key order, each filtered on col2.
     */
    method SumIndexedOnCol1(threshold1: i32, threshold2: i32) returns (sum: int)
      requires Valid() && (numRows == 0 || numCols >= 3) && indexColumn == 1
      ensures sum == ScanSum(Query.PredicatedColumnSum(threshold1, threshold2), Cells(), numCols, numRows)
    {
      ghost var q := Query.PredicatedColumnSum(threshold1, threshold2);
      sum := 0;
      IndexOn(index, Cells(), numRows, numCols, 1);
      var keys := AscendingKeys(KeysAbove(index, threshold1));
      ghost var done: set<i32> := {};
      ghost var visited: seq<nat> := [];
      for i := 0 to |keys|
        invariant forall k :: k in done <==> k in keys[..i]
        invariant Walked(Cells(), numRows, numCols, 1, done, visited)
        invariant sum == SumBy(q, Cells(), numCols, visited)
      {
        var key := keys[i];
        assert key in keys && key > threshold1;
        var bucket := index[key];
        AscendingFresh(keys, i);
        WalkStep(index, Cells(), numRows, numCols, 1, done, visited, key);
        var part := SumBucketFilteringCol2(bucket, threshold1, threshold2);
        SumByConcat(q, Cells(), numCols, visited, bucket);
        sum := sum + part;
        assert keys[..i + 1] == keys[..i] + [key];
        visited, done := visited + bucket, done + {key};
      }
      forall r: nat | r < numRows && Selects(q, Cells(), numCols, r)
        ensures InWalk(Cells(), numRows, numCols, 1, done, r)
      {
        assert Listed(index, Cells(), numCols, 1, r);
        assert keys[..|keys|] == keys;
      }
      WalkComputesScan(q, Cells(), numRows, numCols, 1, done, visited);
    }

    /**
     * `predicatedColumnSum` indexed on column 2: the buckets of the keys
     * below threshold2, in ascending key order, each filtered on col1.
     */
    method SumIndexedOnCol2(threshold1: i32, threshold2: i32) returns (sum: int)
      requires Valid() && (numRows == 0 || numCols >= 3) && indexColumn == 2
      ensures sum == ScanSum(Query.PredicatedColumnSum(threshold1, threshold2), Cells(), numCols, numRows)
    {
      ghost var q := Query.PredicatedColumnSum(threshold1, threshold2);
      sum := 0;
      IndexOn(index, Cells(), numRows, numCols, 2);
      var keys := AscendingKeys(HeadMap(index, threshold2));
      ghost var done: set<i32> := {};
      ghost var visited: seq<nat> := [];
      for i := 0 to |keys|
        invariant forall k :: k in done <==> k in keys[..i]
        invariant Walked(Cells(), numRows, numCols, 2, done, visited)
        invariant sum == SumBy(q, Cells(), numCols, visited)
      {
        var key := keys[i];
        assert key in keys && key < threshold2;
        var bucket := index[key];
        AscendingFresh(keys, i);
        WalkStep(index, Cells(), numRows, numCols, 2, done, visited, key);
        var part := SumBucketFilteringCol1(bucket, threshold1, threshold2);
        SumByConcat(q, Cells(), numCols, visited, bucket);
        sum := sum + part;
        assert keys[..i + 1] == keys[..i] + [key];
        visited, done := visited + bucket, done + {key};
      }
      forall r: nat | r < numRows && Selects(q, Cells(), numCols, r)
        ensures InWalk(Cells(), numRows, numCols, 2, done, r)
      {
        assert Listed(index, Cells(), numCols, 2, r);
        assert keys[..|keys|] == keys;
      }
      WalkComputesScan(q, Cells(), numRows, numCols, 2, done, visited);
    }

    /**
     * The inner loop of `predicatedColumnSum` indexed on column 1: every row
     * of the bucket already has col1 > threshold1, so only col2 is tested.
     */
    method SumBucketFilteringCol2(bucket: seq<nat>, threshold1: i32, threshold2: i32) returns (part: int)
      requires Valid() && (numRows == 0 || numCols >= 3)
      requires forall j | 0 <= j < |bucket| :: bucket[j] < numRows && Field(Cells(), numCols, bucket[j], 1) > threshold1
      ensures part == SumBy(Query.PredicatedColumnSum(threshold1, threshold2), Cells(), numCols, bucket)
    {
      ghost var q := Query.PredicatedColumnSum(threshold1, threshold2);
      part := 0;
      for j := 0 to |bucket|
        invariant part == SumBy(q, Cells(), numCols, bucket[..j])
      {
        var rowId := bucket[j];
        var c2 := GetIntField(rowId, 2);
        if c2 < threshold2 {
          var c0 := GetIntField(rowId, 0);
          part := part + c0;
        }
        SumByAppend(q, Cells(), numCols, bucket[..j], rowId);
        assert bucket[..j + 1] == bucket[..j] + [rowId];
      }
      assert bucket[..|bucket|] == bucket;
    }

    /**
     * The inner loop of `predicatedColumnSum` indexed on column 2: every row
     * of the bucket already has col2 < threshold2, so only col1 is tested.
     */
    method SumBucketFilteringCol1(bucket: seq<nat>, threshold1: i32, threshold2: i32) returns (part: int)
      requires Valid() && (numRows == 0 || numCols >= 3)
      requires forall j | 0 <= j < |bucket| :: bucket[j] < numRows && Field(Cells(), numCols, bucket[j], 2) < threshold2
      ensures part == SumBy(Query.PredicatedColumnSum(threshold1, threshold2), Cells(), numCols, bucket)
    {
      ghost var q := Query.PredicatedColumnSum(threshold1, threshold2);
      part := 0;
      for j := 0 to |bucket|
        invariant part == SumBy(q, Cells(), numCols, bucket[..j])
      {
        var rowId := bucket[j];
        var c1 := GetIntField(rowId, 1);
        if c1 > threshold1 {
          var c0 := GetIntField(rowId, 0);
          part := part + c0;
        }
        SumByAppend(q, Cells(), numCols, bucket[..j], rowId);
        assert bucket[..j + 1] == bucket[..j] + [rowId];
      }
      assert bucket[..|bucket|] == bucket;
    }

    /**
     * `predicatedAllColumnsSum`: the sum of every field of the rows with
     * col0 > threshold. Indexed on column 0, it walks the keys above the
     * threshold and adds up each listed row; otherwise it scans. Both give
     * the full-scan answer.
     */
    method PredicatedAllColumnsSum(threshold: i32) returns (sum: int)
      requires Valid() && (numRows == 0 || numCols >= 1)
      ensures sum == ScanSum(Query.PredicatedAllColumnsSum(threshold), Cells(), numCols, numRows)
    {
      ghost var q := Query.PredicatedAllColumnsSum(threshold);
      sum := 0;
      if indexColumn == 0 {
        sum := SumIndexedOnCol0(threshold);
      } else {
        for rowId := 0 to numRows
          invariant sum == ScanSum(q, Cells(), numCols, rowId)
        {
          var c0 := GetIntField(rowId, 0);
          if c0 > threshold {
            var rowSum := SumRow(rowId);
            sum := sum + rowSum;
          }
        }
      }
    }

    /**
     * `predicatedAllColumnsSum` indexed on column 0: the buckets of the keys
     * above the threshold, in ascending key order, every listed row added up.
     */
    method SumIndexedOnCol0(threshold: i32) returns (sum: int)
      requires Valid() && (numRows == 0 || numCols >= 1) && indexColumn == 0
      ensures sum == ScanSum(Query.PredicatedAllColumnsSum(threshold), Cells(), numCols, numRows)
    {
      ghost var q := Query.PredicatedAllColumnsSum(threshold);
      sum := 0;
      IndexOn(index, Cells(), numRows, numCols, 0);
      var keys := AscendingKeys(KeysAbove(index, threshold));
      ghost var done: set<i32> := {};
      ghost var visited: seq<nat> := [];
      for i := 0 to |keys|
        invariant forall k :: k in done <==> k in keys[..i]
        invariant Walked(Cells(), numRows, numCols, 0, done, visited)
        invariant sum == SumBy(q, Cells(), numCols, visited)
      {
        var key := keys[i];
        assert key in keys && key > threshold;
        var bucket := index[key];
        AscendingFresh(keys, i);
        WalkStep(index, Cells(), numRows, numCols, 0, done, visited, key);
        var part := SumBucketRows(bucket, threshold);
        SumByConcat(q, Cells(), numCols, visited, bucket);
        sum := sum + part;
        assert keys[..i + 1] == keys[..i] + [key];
        visited, done := visited + bucket, done + {key};
      }
      forall r: nat | r < numRows && Selects(q, Cells(), numCols, r)
        ensures InWalk(Cells(), numRows, numCols, 0, done, r)
      {
        assert Listed(index, Cells(), numCols, 0, r);
        assert keys[..|keys|] == keys;
      }
      WalkComputesScan(q, Cells(), numRows, numCols, 0, done, visited);
    }

    /**
     * The inner loop of `predicatedAllColumnsSum` indexed on column 0: every
     * row of the bucket already has col0 > threshold, so each is added up
     * without a test.
     */
    method SumBucketRows(bucket: seq<nat>, threshold: i32) returns (part: int)
      requires Valid() && (numRows == 0 || numCols >= 1)
      requires forall j | 0 <= j < |bucket| :: bucket[j] < numRows && Field(Cells(), numCols, bucket[j], 0) > threshold
      ensures part == SumBy(Query.PredicatedAllColumnsSum(threshold), Cells(), numCols, bucket)
    {
      ghost var q := Query.PredicatedAllColumnsSum(threshold);
      part := 0;
      for j := 0 to |bucket|
        invariant part == SumBy(q, Cells(), numCols, bucket[..j])
      {
        var rowId := bucket[j];
        var rowSum := SumRow(rowId);
        part := part + rowSum;
        SumByAppend(q, Cells(), numCols, bucket[..j], rowId);
        assert bucket[..j + 1] == bucket[..j] + [rowId];
      }
      assert bucket[..|bucket|] == bucket;
    }

    /** The column loop of `predicatedAllColumnsSum`: the sum of every field of one row. */
    method SumRow(rowId: nat) returns (rowSum: int)
      requires Valid() && rowId < numRows
      ensures rowSum == RowSum(Cells(), numCols, rowId, numCols)
    {
      rowSum := 0;
      for colId := 0 to numCols
        invariant rowSum == RowSum(Cells(), numCols, rowId, colId)
      {
        var v := GetIntField(rowId, colId);
        rowSum := rowSum + v;
      }
    }

    /**
     * `predicatedUpdate`: UPDATE col3 = col1 + col2 WHERE col0 < threshold;
     * returns the number of rows updated. Indexed on column 0, it walks the
     * keys below the threshold and updates every listed row (column 3 is not
     * the indexed column, so the walk never changes the index it iterates);
     * otherwise it scans. Both update the same rows and count them.
     */
    method PredicatedUpdate(threshold: i32) returns (cnt: nat)
      requires Valid() && (numRows == 0 || numCols >= 4)
      modifies this, rows
      ensures Valid()
      ensures rows == old(rows) && numRows == old(numRows) && numCols == old(numCols)
      ensures cnt == ScanSum(Query.PredicatedUpdate(threshold), old(Cells()), numCols, numRows)
      ensures UpdateApplied(old(Cells()), Cells(), numRows, numCols, threshold)
      ensures indexColumn != 3 ==> index == old(index)
    {
      if indexColumn == 0 {
        cnt := UpdateIndexedOnCol0(threshold);
      } else {
        cnt := UpdateByScan(threshold);
      }
    }

    /**
     * `predicatedUpdate` indexed on column 0: the buckets of the keys below
     * the threshold, in ascending key order, every listed row updated.
     */
    method UpdateIndexedOnCol0(threshold: i32) returns (cnt: nat)
      requires Valid() && (numRows == 0 || numCols >= 4) && indexColumn == 0
      modifies this, rows
      ensures Valid()
      ensures rows == old(rows) && numRows == old(numRows) && numCols == old(numCols)
      ensures cnt == ScanSum(Query.PredicatedUpdate(threshold), old(Cells()), numCols, numRows)
      ensures UpdateApplied(old(Cells()), Cells(), numRows, numCols, threshold)
      ensures index == old(index)
    {
      ghost var q := Query.PredicatedUpdate(threshold);
      ghost var cells0 := Cells();
      cnt := 0;
      IndexOn(index, cells0, numRows, numCols, 0);
      var keys := AscendingKeys(HeadMap(index, threshold));
      ghost var done: set<i32> := {};
      ghost var visited: seq<nat> := [];
      for i := 0 to |keys|
        invariant Valid() && rows == old(rows) && numRows == old(numRows) && numCols == old(numCols)
        invariant index == old(index)
        invariant forall k :: k in done <==> k in keys[..i]
        invariant Walked(cells0, numRows, numCols, 0, done, visited)
        invariant cnt == SumBy(q, cells0, numCols, visited)
        invariant UpdatedRows(cells0, Cells(), numRows, numCols, threshold, visited)
      {
        var key := keys[i];
        assert key in keys && key < threshold;
        var bucket := index[key];
        AscendingFresh(keys, i);
        WalkStep(index, cells0, numRows, numCols, 0, done, visited, key);
        var part := UpdateBucket(bucket, threshold, cells0, visited);
        SumByConcat(q, cells0, numCols, visited, bucket);
        cnt := cnt + part;
        assert keys[..i + 1] == keys[..i] + [key];
        visited, done := visited + bucket, done + {key};
      }
      assert keys[..|keys|] == keys;
      UpdateWalkFinish(index, cells0, Cells(), numRows, numCols, threshold, done, visited);
    }

    /**
     * After the walk of `predicatedUpdate` over every key below the
     * threshold, the rows visited are exactly the rows the scan updates, so
     * the count and the table are the scan's.
     */
    static lemma UpdateWalkFinish(index: Index, cells0: seq<i32>, cells: seq<i32>, numRows: nat, numCols: nat,
                                  threshold: i32, done: set<i32>, visited: seq<nat>)
      requires Indexes(index, cells0, numCols, 0, numRows)
      requires forall k :: k in done <==> k in index && k < threshold
      requires Walked(cells0, numRows, numCols, 0, done, visited)
      requires UpdatedRows(cells0, cells, numRows, numCols, threshold, visited)
      ensures SumBy(Query.PredicatedUpdate(threshold), cells0, numCols, visited)
              == ScanSum(Query.PredicatedUpdate(threshold), cells0, numCols, numRows)
      ensures UpdateApplied(cells0, cells, numRows, numCols, threshold)
    {
      forall r: nat | r < numRows
        ensures r in visited <==> Field(cells0, numCols, r, 0) < threshold
      {
        assert Listed(index, cells0, numCols, 0, r);
      }
      WalkComputesScan(Query.PredicatedUpdate(threshold), cells0, numRows, numCols, 0, done, visited);
      UpdateWalkDone(cells0, cells, numRows, numCols, threshold, visited);
    }

    /**
     * `predicatedUpdate` without a usable index: a scan of every row.
     */
    method UpdateByScan(threshold: i32) returns (cnt: nat)
      requires Valid() && (numRows == 0 || numCols >= 4)
      modifies this, rows
      ensures Valid()
      ensures rows == old(rows) && numRows == old(numRows) && numCols == old(numCols)
      ensures cnt == ScanSum(Query.PredicatedUpdate(threshold), old(Cells()), numCols, numRows)
      ensures UpdateApplied(old(Cells()), Cells(), numRows, numCols, threshold)
      ensures indexColumn != 3 ==> index == old(index)
    {
      ghost var q := Query.PredicatedUpdate(threshold);
      ghost var cells0 := Cells();
      cnt := 0;
      for rowId := 0 to numRows
        invariant Valid() && rows == old(rows) && numRows == old(numRows) && numCols == old(numCols)
        invariant indexColumn != 3 ==> index == old(index)
        invariant cnt == ScanSum(q, cells0, numCols, rowId)
        invariant UpdatedUpTo(cells0, Cells(), numRows, numCols, threshold, rowId)
      {
        UpdateScanStep(cells0, Cells(), numRows, numCols, threshold, rowId);
        var c0 := GetIntField(rowId, 0);
        if c0 < threshold {
          SetColumn3(rowId);
          cnt := cnt + 1;
        }
      }
    }

    /**
     * The inner loop of `predicatedUpdate` indexed on column 0: every row of
     * the bucket already has col0 < threshold, so each gets col3 = col1 +
     * col2 without a test, and is counted. `touched` are the rows updated
     * before, none of them in the bucket.
     */
    method UpdateBucket(bucket: seq<nat>, threshold: i32, ghost cells0: seq<i32>, ghost touched: seq<nat>)
      returns (part: nat)
      requires Valid() && (numRows == 0 || numCols >= 4) && indexColumn == 0 && |cells0| == numRows * numCols
      requires forall j | 0 <= j < |bucket| :: bucket[j] < numRows && Field(cells0, numCols, bucket[j], 0) < threshold
      requires Distinct(touched + bucket)
      requires UpdatedRows(cells0, Cells(), numRows, numCols, threshold, touched)
      modifies this, rows
      ensures Valid() && rows == old(rows) && numRows == old(numRows) && numCols == old(numCols)
      ensures index == old(index)
      ensures part == SumBy(Query.PredicatedUpdate(threshold), cells0, numCols, bucket)
      ensures UpdatedRows(cells0, Cells(), numRows, numCols, threshold, touched + bucket)
    {
      ghost var q := Query.PredicatedUpdate(threshold);
      part := 0;
      for j := 0 to |bucket|
        invariant Valid() && rows == old(rows) && numRows == old(numRows) && numCols == old(numCols)
        invariant index == old(index)
        invariant part == SumBy(q, cells0, numCols, bucket[..j])
        invariant UpdatedRows(cells0, Cells(), numRows, numCols, threshold, touched + bucket[..j])
      {
        var rowId := bucket[j];
        DistinctNotInPrefix(touched + bucket, |touched| + j);
        assert (touched + bucket)[..|touched| + j] == touched + bucket[..j];
        UpdateWalkStep(cells0, Cells(), numRows, numCols, threshold, touched + bucket[..j], rowId);
        SetColumn3(rowId);
        part := part + 1;
        SumByAppend(q, cells0, numCols, bucket[..j], rowId);
        assert bucket[..j + 1] == bucket[..j] + [rowId];
        assert touched + bucket[..j + 1] == (touched + bucket[..j]) + [rowId];
      }
      assert bucket[..|bucket|] == bucket;
    }
  
    /**
     * The assignment of `predicatedUpdate`: col3 := col1 + col2 (Java's
     * 32-bit addition) on one row, through `putIntField`.
     */
    method SetColumn3(rowId: nat)
      requires Valid() && rowId < numRows && 4 <= numCols
      modifies this, rows
      ensures Valid() && rows == old(rows) && numRows == old(numRows) && numCols == old(numCols)
      ensures Slot(numCols, rowId, 3) < rows.Length
      ensures Cells() == old(Cells())[Slot(numCols, rowId, 3) :=
                Add32(Field(old(Cells()), numCols, rowId, 1), Field(old(Cells()), numCols, rowId, 2))]
      ensures indexColumn != 3 ==> index == old(index)
    {
      var c1 := GetIntField(rowId, 1);
      var c2 := GetIntField(rowId, 2);
      PutIntField(rowId, 3, Add32(c1, c2));
    }
  }
}
