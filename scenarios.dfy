/**
 * Whole-table scenarios: the same rows loaded into a RowTable and into
 * IndexedRowTables on columns 0, 1 and 2 give the same predicatedColumnSum,
 * and two small worked examples give the answers worked out by hand.
 */
module Scenarios {
  import opened Layout
  import opened Queries
  import opened RowTables
  import opened IndexedRowTables

  /**
   * SUM(col0) WHERE col1 > t1 AND col2 < t2, computed directly on the rows a
   * loader supplies, independently of any table layout.
   */
  function LoaderColumnSum(loaderRows: seq<seq<i32>>, t1: i32, t2: i32): int
    requires forall i | 0 <= i < |loaderRows| :: |loaderRows[i]| >= 3
  {
    if loaderRows == [] then 0
    else
      var last := loaderRows[|loaderRows| - 1];
      LoaderColumnSum(loaderRows[..|loaderRows| - 1], t1, t2) + (if last[1] > t1 && last[2] < t2 then last[0] else 0)
  }

  /**
   * A buffer holding the loader's rows field for field answers
   * predicatedColumnSum as the loader's rows do.
   */
  lemma {:induction false} ScanMatchesLoader(cells: seq<i32>, numCols: nat, loaderRows: seq<seq<i32>>,
                                             t1: i32, t2: i32, n: nat)
    requires 3 <= numCols && n <= |loaderRows|
    requires forall i | 0 <= i < |loaderRows| :: |loaderRows[i]| >= numCols
    requires forall r: nat, c: nat | r < |loaderRows| && c < numCols :: Field(cells, numCols, r, c) == loaderRows[r][c]
    ensures ScanSum(Query.PredicatedColumnSum(t1, t2), cells, numCols, n) == LoaderColumnSum(loaderRows[..n], t1, t2)
  {
    if n > 0 {
      ScanMatchesLoader(cells, numCols, loaderRows, t1, t2, n - 1);
      assert loaderRows[..n][..n - 1] == loaderRows[..n - 1];
      assert Field(cells, numCols, n - 1, 0) == loaderRows[n - 1][0];
      assert Field(cells, numCols, n - 1, 1) == loaderRows[n - 1][1];
      assert Field(cells, numCols, n - 1, 2) == loaderRows[n - 1][2];
    }
  }

  /** A RowTable loaded with 5-column rows answers predicatedColumnSum as the rows do. */
  method RowTableColumnSum(loaderRows: seq<seq<i32>>, t1: i32, t2: i32) returns (sum: int)
    requires forall i | 0 <= i < |loaderRows| :: |loaderRows[i]| >= 5
    ensures sum == LoaderColumnSum(loaderRows, t1, t2)
  {
    assert loaderRows[..|loaderRows|] == loaderRows;
    var rt := new RowTable();
    rt.Load(5, loaderRows);
    sum := rt.PredicatedColumnSum(t1, t2);
    ScanMatchesLoader(rt.Cells(), 5, loaderRows, t1, t2, |loaderRows|);
  }

  /**
   * An IndexedRowTable on any column, loaded with 5-column rows, answers
   * predicatedColumnSum as the rows do.
   */
  method IndexedTableColumnSum(indexColumn: int, loaderRows: seq<seq<i32>>, t1: i32, t2: i32) returns (sum: int)
    requires forall i | 0 <= i < |loaderRows| :: |loaderRows[i]| >= 5
    ensures sum == LoaderColumnSum(loaderRows, t1, t2)
  {
    assert loaderRows[..|loaderRows|] == loaderRows;
    var it := new IndexedRowTable(indexColumn);
    it.Load(5, loaderRows);
    sum := it.PredicatedColumnSum(t1, t2);
    ScanMatchesLoader(it.Cells(), 5, loaderRows, t1, t2, |loaderRows|);
  }

  /**
   * The shape of the test of predicatedColumnSum: one 5-column loader feeds
   * a RowTable and IndexedRowTables on columns 0, 1 and 2; all four answer
   * the query alike, with the loader rows' own answer.
   */
  method PredicatedColumnSumAcrossTables(loaderRows: seq<seq<i32>>, t1: i32, t2: i32)
    returns (rowSum: int, sum0: int, sum1: int, sum2: int)
    requires forall i | 0 <= i < |loaderRows| :: |loaderRows[i]| >= 5
    ensures rowSum == LoaderColumnSum(loaderRows, t1, t2)
    ensures sum0 == rowSum && sum1 == rowSum && sum2 == rowSum
  {
    rowSum := RowTableColumnSum(loaderRows, t1, t2);
    sum0 := IndexedTableColumnSum(0, loaderRows, t1, t2);
    sum1 := IndexedTableColumnSum(1, loaderRows, t1, t2);
    sum2 := IndexedTableColumnSum(2, loaderRows, t1, t2);
  }

  /**
   * Loading the same rows into a RowTable and into an IndexedRowTable
   * produces the same buffer: both place field c of row r at the same slot.
   */
  method LoadBoth(rt: RowTable, it: IndexedRowTable, loaderCols: nat, loaderRows: seq<seq<i32>>)
    requires forall i | 0 <= i < |loaderRows| :: |loaderRows[i]| >= loaderCols
    modifies rt, it
    ensures rt.Valid() && it.Valid()
    ensures rt.numRows == it.numRows == |loaderRows| && rt.numCols == it.numCols == loaderCols
    ensures rt.Cells() == it.Cells()
  {
    rt.Load(loaderCols, loaderRows);
    it.Load(loaderCols, loaderRows);
    CellsDeterminedByFields(rt.Cells(), it.Cells(), |loaderRows|, loaderCols);
  }

  /** The three 5-column rows of the worked query example. */
  const ExampleRows: seq<seq<i32>> := [[1, 2, 10, 0, 0], [2, 4, 4, 0, 0], [3, 6, 2, 0, 0]]

  /**
   * A buffer holding ExampleRows answers columnSum with 1 + 2 + 3 and
   * predicatedColumnSum(3, 5) with 2 + 3: the first row fails col1 > 3.
   */
  lemma ExampleAnswers(cells: seq<i32>)
    requires forall r: nat, c: nat | r < 3 && c < 5 :: Field(cells, 5, r, c) == ExampleRows[r][c]
    ensures ScanSum(Query.ColumnSum, cells, 5, 3) == 6
    ensures ScanSum(Query.PredicatedColumnSum(3, 5), cells, 5, 3) == 5
  {
    assert Field(cells, 5, 0, 0) == 1 && Field(cells, 5, 1, 0) == 2 && Field(cells, 5, 2, 0) == 3;
    assert ScanSum(Query.ColumnSum, cells, 5, 1) == 1;
    assert ScanSum(Query.ColumnSum, cells, 5, 2) == 3;
    assert Field(cells, 5, 0, 1) == 2;
    assert Field(cells, 5, 1, 1) == 4 && Field(cells, 5, 1, 2) == 4;
    assert Field(cells, 5, 2, 1) == 6 && Field(cells, 5, 2, 2) == 2;
    assert ScanSum(Query.PredicatedColumnSum(3, 5), cells, 5, 1) == 0;
    assert ScanSum(Query.PredicatedColumnSum(3, 5), cells, 5, 2) == 2;
  }

  /**
   * ExampleRows indexed on column 1: columnSum is 6 and
   * predicatedColumnSum(3, 5) is 5.
   */
  method SumScenario() returns (total: int, predicated: int)
    ensures total == 6 && predicated == 5
  {
    var it := new IndexedRowTable(1);
    it.Load(5, ExampleRows);
    total := it.ColumnSum();
    predicated := it.PredicatedColumnSum(3, 5);
    ExampleAnswers(it.Cells());
  }

  /**
   * Rows [0,1,2,0] and [5,1,1,0] indexed on column 0, predicatedUpdate(3):
   * only the first row has col0 < 3; its col3 becomes 1 + 2, the second row
   * is untouched, and one row is counted.
   */
  method UpdateScenario() returns (cnt: nat, row0: seq<i32>, row1: seq<i32>)
    ensures cnt == 1 && row0 == [0, 1, 2, 3] && row1 == [5, 1, 1, 0]
  {
    var it := new IndexedRowTable(0);
    it.Load(4, [[0, 1, 2, 0], [5, 1, 1, 0]]);
    ghost var before := it.Cells();
    assert Field(before, 4, 0, 0) == 0 && Field(before, 4, 1, 0) == 5;
    cnt := it.PredicatedUpdate(3);
    assert ScanSum(Query.PredicatedUpdate(3), before, 4, 1) == 1;
    assert ScanSum(Query.PredicatedUpdate(3), before, 4, 2) == 1;
    row0 := RowOf(it, 0);
    row1 := RowOf(it, 1);
    assert Field(before, 4, 0, 1) == 1 && Field(before, 4, 0, 2) == 2;
    assert Field(before, 4, 1, 3) == 0;
  }

  /** The fields of one row of an indexed table, read with `getIntField` column by column. */
  method RowOf(it: IndexedRowTable, rowId: nat) returns (row: seq<i32>)
    requires it.Valid() && rowId < it.numRows
    ensures |row| == it.numCols
    ensures forall c | 0 <= c < |row| :: row[c] == Field(it.Cells(), it.numCols, rowId, c)
  {
    row := [];
    for c := 0 to it.numCols
      invariant |row| == c
      invariant forall j | 0 <= j < c :: row[j] == Field(it.Cells(), it.numCols, rowId, j)
    {
      var v := it.GetIntField(rowId, c);
      row := row + [v];
    }
  }
}
