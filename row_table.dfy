/**
 * RowTable: the plain row-major layout. One flat buffer holds row 0, then
 * row 1, ..., each row numCols consecutive 32-bit fields; every query is a
 * linear scan over the rows.
 */
module RowTables {
  import opened Layout
  import opened Queries

  class RowTable {
    var numCols: nat
    var numRows: nat
    /** The backing buffer, one element per field (the source's ByteBuffer of FIELD_LEN-byte fields). */
    var rows: array<i32>

    /** The buffer holds exactly numRows * numCols fields. */
    ghost predicate Valid()
      reads this
    {
      rows.Length == numRows * numCols
    }

    /** The buffer's contents. */
    ghost function Cells(): seq<i32>
      reads this, rows
    {
      rows[..]
    }

    /** A table before `load`: no rows, no columns, an empty buffer. */
    constructor ()
      ensures Valid() && numRows == 0 && numCols == 0
    {
      numCols := 0;
      numRows := 0;
      rows := new i32[0];
    }

    /**
     * `load`: takes the column count and the rows the loader supplies,
     * allocates a fresh buffer and copies field c of row r into (r, c). Each
     * loader row must hold at least loaderCols fields; further fields are
     * not read.
     */
    method Load(loaderCols: nat, loaderRows: seq<seq<i32>>)
      requires forall i | 0 <= i < |loaderRows| :: |loaderRows[i]| >= loaderCols
      modifies this
      ensures Valid() && fresh(rows)
      ensures numCols == loaderCols && numRows == |loaderRows|
      ensures forall r: nat, c: nat | r < numRows && c < numCols :: Field(Cells(), numCols, r, c) == loaderRows[r][c]
    {
      var n := |loaderRows|;
      var buffer := new i32[n * loaderCols];
      for rowId := 0 to n
        invariant forall r: nat, c: nat | r < rowId && c < loaderCols ::
                    Field(buffer[..], loaderCols, r, c) == loaderRows[r][c]
      {
        for colId := 0 to loaderCols
          invariant forall r: nat, c: nat | (r < rowId && c < loaderCols) || (r == rowId && c < colId) ::
                      Field(buffer[..], loaderCols, r, c) == loaderRows[r][c]
        {
          FieldAfterWrite(buffer[..], n, loaderCols, rowId, colId, loaderRows[rowId][colId]);
          buffer[Slot(loaderCols, rowId, colId)] := loaderRows[rowId][colId];
        }
      }
      numCols, numRows := loaderCols, n;
      rows := buffer;
    }

    /** `getIntField`: the field at (rowId, colId). */
    method GetIntField(rowId: nat, colId: nat) returns (v: i32)
      requires Valid() && rowId < numRows && colId < numCols
      ensures v == Field(Cells(), numCols, rowId, colId)
    {
      SlotInBounds(numRows, numCols, rowId, colId);
      v := rows[Slot(numCols, rowId, colId)];
    }

    /**
     * `putIntField`: overwrites the field at (rowId, colId). Reading it back
     * gives `field`; every other field keeps its value.
     */
    method PutIntField(rowId: nat, colId: nat, field: i32)
      requires Valid() && rowId < numRows && colId < numCols
      modifies rows
      ensures Valid() && Slot(numCols, rowId, colId) < rows.Length
      ensures Cells() == old(Cells())[Slot(numCols, rowId, colId) := field]
      ensures Field(Cells(), numCols, rowId, colId) == field
      ensures forall r: nat, c: nat | r < numRows && c < numCols && (r, c) != (rowId, colId) ::
                Field(Cells(), numCols, r, c) == Field(old(Cells()), numCols, r, c)
    {
      FieldAfterWrite(rows[..], numRows, numCols, rowId, colId, field);
      rows[Slot(numCols, rowId, colId)] := field;
    }

    /** `columnSum`: SELECT SUM(col0), by a scan of every row. */
    method ColumnSum() returns (sum: int)
      requires Valid() && (numRows == 0 || numCols >= 1)
      ensures sum == ScanSum(Query.ColumnSum, Cells(), numCols, numRows)
    {
      sum := 0;
      for rowId := 0 to numRows
        invariant sum == ScanSum(Query.ColumnSum, Cells(), numCols, rowId)
      {
        var v := GetIntField(rowId, 0);
        sum := sum + v;
      }
    }

    /**
     * `predicatedColumnSum`: SELECT SUM(col0) WHERE col1 > threshold1 AND
     * col2 < threshold2, by a scan; col2 is read only when col1 passes.
     */
    method PredicatedColumnSum(threshold1: i32, threshold2: i32) returns (sum: int)
      requires Valid() && (numRows == 0 || numCols >= 3)
      ensures sum == ScanSum(Query.PredicatedColumnSum(threshold1, threshold2), Cells(), numCols, numRows)
    {
      sum := 0;
      for rowId := 0 to numRows
        invariant sum == ScanSum(Query.PredicatedColumnSum(threshold1, threshold2), Cells(), numCols, rowId)
      {
        var c1 := GetIntField(rowId, 1);
        if c1 > threshold1 {
          var c2 := GetIntField(rowId, 2);
          if c2 < threshold2 {
            var c0 := GetIntField(rowId, 0);
            sum := sum + c0;
          }
        }
      }
    }

    /**
     * `predicatedAllColumnsSum`: the sum of every field of the rows with
     * col0 > threshold, by a scan that adds the row's fields one by one.
     */
    method PredicatedAllColumnsSum(threshold: i32) returns (sum: int)
      requires Valid() && (numRows == 0 || numCols >= 1)
      ensures sum == ScanSum(Query.PredicatedAllColumnsSum(threshold), Cells(), numCols, numRows)
    {
      sum := 0;
      for rowId := 0 to numRows
        invariant sum == ScanSum(Query.PredicatedAllColumnsSum(threshold), Cells(), numCols, rowId)
      {
        var c0 := GetIntField(rowId, 0);
        if c0 > threshold {
          ghost var before := sum;
          for colId := 0 to numCols
            invariant sum == before + RowSum(Cells(), numCols, rowId, colId)
          {
            var v := GetIntField(rowId, colId);
            sum := sum + v;
          }
        }
      }
    }

    /**
     * `predicatedUpdate`: UPDATE col3 = col1 + col2 WHERE col0 < threshold,
     * by a scan; returns the number of rows updated. The addition is Java's
     * 32-bit one.
     */
    method PredicatedUpdate(threshold: i32) returns (cnt: nat)
      requires Valid() && (numRows == 0 || numCols >= 4)
      modifies rows
      ensures Valid()
      ensures cnt == ScanSum(Query.PredicatedUpdate(threshold), old(Cells()), numCols, numRows)
      ensures UpdateApplied(old(Cells()), Cells(), numRows, numCols, threshold)
    {
      cnt := 0;
      for rowId := 0 to numRows
        invariant Valid()
        invariant cnt == ScanSum(Query.PredicatedUpdate(threshold), old(Cells()), numCols, rowId)
        invariant UpdatedUpTo(old(Cells()), Cells(), numRows, numCols, threshold, rowId)
      {
        UpdateScanStep(old(Cells()), Cells(), numRows, numCols, threshold, rowId);
        var c0 := GetIntField(rowId, 0);
        if c0 < threshold {
          var c1 := GetIntField(rowId, 1);
          var c2 := GetIntField(rowId, 2);
          PutIntField(rowId, 3, Add32(c1, c2));
          cnt := cnt + 1;
        }
      }
    }
  }
}
