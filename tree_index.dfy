/**
 * The secondary index of IndexedRowTable: an ordered multi-map
 * (`TreeMap<Integer, IntArrayList>`) from each value of the indexed column to
 * the ids of the rows holding it. The map is a Dafny map; its ordered key
 * iteration is AscendingKeys, its range views are TailMap and HeadMap.
 */
module TreeIndex {
  import opened Layout
  import opened Buckets
  import opened Queries

  type Index = map<i32, seq<nat>>

  /** The keys of `index.tailMap(fromKey)`: every key >= fromKey. */
  function TailMap(index: Index, fromKey: int): (keys: set<i32>)
    ensures forall k: i32 :: k in keys <==> k in index && k >= fromKey
  {
    set k | k in index && k >= fromKey
  }

  /** The keys of `index.headMap(toKey)`: every key < toKey. */
  function HeadMap(index: Index, toKey: int): (keys: set<i32>)
    ensures forall k: i32 :: k in keys <==> k in index && k < toKey
  {
    set k | k in index && k < toKey
  }

  /**
   * The keys `tailMap(threshold + 1)` selects as the source writes it: Java
   * computes threshold + 1 in 32 bits, so at INT_MAX the start wraps to
   * INT_MIN and every key is selected.
   */
  function SourceTailKeys(index: Index, threshold: i32): (keys: set<i32>)
    ensures threshold < INT_MAX ==> forall k: i32 :: k in keys <==> k in index && k > threshold
    ensures threshold == INT_MAX ==> keys == index.Keys
  {
    TailMap(index, Add32(threshold, 1))
  }

  /** The keys strictly greater than threshold, for every threshold. */
  function KeysAbove(index: Index, threshold: i32): (keys: set<i32>)
    ensures forall k: i32 :: k in keys <==> k in index && k > threshold
  {
    TailMap(index, threshold + 1)
  }

  /**
   * `index` maps each value of column `col` in rows 0 .. numRows-1 to
   * exactly the rows holding it: every listed row holds its key, no bucket
   * lists a row twice, and every row is listed under its own value.
   * Together these say each row occurs exactly once in the whole index.
   */
  ghost predicate Indexes(index: Index, cells: seq<i32>, numCols: nat, col: nat, numRows: nat)
  {
    && RowsHoldKeys(index, cells, numCols, col, numRows)
    && (forall k | k in index :: Distinct(index[k]))
    && (forall r: nat | r < numRows :: Listed(index, cells, numCols, col, r))
  }

  /** Row r is listed in the bucket of its own value of column col. */
  ghost predicate Listed(index: Index, cells: seq<i32>, numCols: nat, col: nat, r: nat)
  {
    Field(cells, numCols, r, col) in index && r in index[Field(cells, numCols, r, col)]
  }

  /** Every row id listed under key k is a row below numRows whose value of column col is k. */
  ghost predicate RowsHoldKeys(index: Index, cells: seq<i32>, numCols: nat, col: nat, numRows: nat)
  {
    forall k, i | k in index && 0 <= i < |index[k]| ::
      index[k][i] < numRows && Field(cells, numCols, index[k][i], col) == k
  }

  /** The index invariant: a valid indexed column is indexed; otherwise the index stays empty. */
  ghost predicate IndexValid(index: Index, cells: seq<i32>, numRows: nat, numCols: nat, indexColumn: int)
  {
    if 0 <= indexColumn < numCols then Indexes(index, cells, numCols, indexColumn as nat, numRows)
    else index == map[]
  }

  /** A row occurs in the bucket of every key it is listed under exactly once, and under no other key. */
  lemma IndexesExactlyOnce(index: Index, cells: seq<i32>, numCols: nat, col: nat, numRows: nat, r: nat)
    requires Indexes(index, cells, numCols, col, numRows) && r < numRows
    ensures forall k | k in index :: multiset(index[k])[r] == if k == Field(cells, numCols, r, col) then 1 else 0
  {
    assert Listed(index, cells, numCols, col, r);
    forall k | k in index
      ensures multiset(index[k])[r] == if k == Field(cells, numCols, r, col) then 1 else 0
    {
      if k == Field(cells, numCols, r, col) {
        assert multiset(index[k])[r] <= 1;
      } else {
        forall i | 0 <= i < |index[k]|
          ensures index[k][i] != r
        {
        }
        assert r !in index[k];
      }
    }
  }

  /** Changing only fields outside the indexed column keeps the index valid. */
  lemma IndexesStable(index: Index, before: seq<i32>, after: seq<i32>, numCols: nat, col: nat, numRows: nat)
    requires Indexes(index, before, numCols, col, numRows)
    requires forall r: nat | r < numRows :: Field(after, numCols, r, col) == Field(before, numCols, r, col)
    ensures Indexes(index, after, numCols, col, numRows)
  {
    forall k, i | k in index && 0 <= i < |index[k]|
      ensures index[k][i] < numRows && Field(after, numCols, index[k][i], col) == k
    {
    }
    forall r: nat | r < numRows
      ensures Listed(index, after, numCols, col, r)
    {
      assert Listed(index, before, numCols, col, r);
    }
  }

  /**
   * The step of `load` for row n: appending n to the bucket of its value
   * (created if absent) extends an index of rows 0 .. n-1 to rows 0 .. n.
   */
  lemma IndexesAddRow(index: Index, cells: seq<i32>, numCols: nat, col: nat, n: nat)
    requires Indexes(index, cells, numCols, col, n)
    ensures var k := Field(cells, numCols, n, col);
            Indexes(index[k := (if k in index then index[k] else []) + [n]], cells, numCols, col, n + 1)
  {
    var k := Field(cells, numCols, n, col);
    var bucket: seq<nat> := if k in index then index[k] else [];
    var m: Index := index[k := bucket + [n]];
    if k in index {
      forall i | 0 <= i < |bucket|
        ensures bucket[i] != n
      {
      }
      DistinctAppend(bucket, n);
    } else {
      assert Distinct([n]) by {
        assert multiset([n]) == multiset{n};
      }
    }
    forall k', i | k' in m && 0 <= i < |m[k']|
      ensures m[k'][i] < n + 1 && Field(cells, numCols, m[k'][i], col) == k'
    {
      if k' == k && i == |bucket| {
      } else if k' == k {
        assert m[k'][i] == index[k][i];
      } else {
        assert m[k'] == index[k'];
      }
    }
    forall r: nat | r < n + 1
      ensures Listed(m, cells, numCols, col, r)
    {
      if r == n {
        assert m[k][|bucket|] == n;
      } else {
        assert Listed(index, cells, numCols, col, r);
        var j :| 0 <= j < |index[Field(cells, numCols, r, col)]| && index[Field(cells, numCols, r, col)][j] == r;
        assert m[Field(cells, numCols, r, col)][j] == r;
      }
    }
  }

  /** The index with rowId removed (`rem`) from the bucket of its old value; the bucket stays, even if emptied. */
  function WithoutRow(index: Index, rowId: nat, oldValue: i32): (m: Index)
    requires oldValue in index
    ensures m.Keys == index.Keys
  {
    index[oldValue := RemoveFirst(index[oldValue], rowId)]
  }

  /**
   * `putIntField` on the indexed column: rowId is removed from the bucket of
   * its old value, then appended to the bucket of the new value, which is
   * created if absent. The emptied bucket stays as a key.
   */
  function Reindex(index: Index, rowId: nat, oldValue: i32, newValue: i32): (m: Index)
    requires oldValue in index
    ensures m.Keys == index.Keys + {newValue}
    ensures forall k | k in index && k != oldValue && k != newValue :: m[k] == index[k]
    ensures |m[newValue]| > 0 && m[newValue][|m[newValue]| - 1] == rowId
  {
    var removed := WithoutRow(index, rowId, oldValue);
    var bucket: seq<nat> := if newValue in removed then removed[newValue] else [];
    removed[newValue := bucket + [rowId]]
  }

  /**
   * With rowId taken out of the bucket of its value, every other row is
   * still listed once under its own value and rowId is listed nowhere.
   */
  lemma RemoveRowFromIndex(index: Index, cells: seq<i32>, numCols: nat, col: nat, numRows: nat, rowId: nat)
    requires Indexes(index, cells, numCols, col, numRows) && rowId < numRows
    ensures Field(cells, numCols, rowId, col) in index
    ensures var removed := WithoutRow(index, rowId, Field(cells, numCols, rowId, col));
            && RowsHoldKeys(removed, cells, numCols, col, numRows)
            && (forall k | k in removed :: rowId !in removed[k])
            && (forall k | k in removed :: Distinct(removed[k]))
            && (forall r: nat | r < numRows && r != rowId :: Listed(removed, cells, numCols, col, r))
  {
    assert Listed(index, cells, numCols, col, rowId);
    var origin := Field(cells, numCols, rowId, col);
    var removed := WithoutRow(index, rowId, origin);
    DistinctRemoveFirst(index[origin], rowId);
    forall k, i | k in removed && 0 <= i < |removed[k]|
      ensures removed[k][i] < numRows && Field(cells, numCols, removed[k][i], col) == k
    {
      if k == origin {
        var r := removed[k][i];
        assert r in removed[k];
        assert r in index[origin];
        var j :| 0 <= j < |index[origin]| && index[origin][j] == r;
      } else {
        assert removed[k] == index[k];
      }
    }
    forall k | k in removed
      ensures rowId !in removed[k]
    {
      if k != origin {
        forall i | 0 <= i < |index[k]|
          ensures index[k][i] != rowId
        {
        }
      }
    }
    forall r: nat | r < numRows && r != rowId
      ensures Listed(removed, cells, numCols, col, r)
    {
      assert Listed(index, cells, numCols, col, r);
    }
  }

  /**
   * `putIntField(rowId, indexColumn, v)` keeps the index invariant: after the
   * write and Reindex, rowId is listed once, under v, and no other row moves.
   * This holds also when v is the value rowId already had.
   */
  lemma ReindexPreservesIndex(index: Index, cells: seq<i32>, numRows: nat, numCols: nat, col: nat, rowId: nat, v: i32)
    requires |cells| == numRows * numCols && rowId < numRows && col < numCols
    requires Indexes(index, cells, numCols, col, numRows)
    ensures Field(cells, numCols, rowId, col) in index
    ensures Slot(numCols, rowId, col) < |cells|
    ensures Indexes(Reindex(index, rowId, Field(cells, numCols, rowId, col), v),
                    cells[Slot(numCols, rowId, col) := v], numCols, col, numRows)
  {
    WriteKeepsOtherRows(cells, numRows, numCols, col, rowId, v);
    RemoveRowFromIndex(index, cells, numCols, col, numRows, rowId);
    ReindexIndexes(index, cells, cells[Slot(numCols, rowId, col) := v], numRows, numCols, col, rowId, v);
  }

  /**
   * Appending rowId to the bucket of v, once it is listed nowhere else,
   * indexes the buffer `after` in which rowId's value is v.
   */
  lemma ReindexIndexes(index: Index, cells: seq<i32>, after: seq<i32>, numRows: nat, numCols: nat,
                       col: nat, rowId: nat, v: i32)
    requires rowId < numRows && Field(after, numCols, rowId, col) == v
    requires forall r: nat | r < numRows && r != rowId :: Field(after, numCols, r, col) == Field(cells, numCols, r, col)
    requires Field(cells, numCols, rowId, col) in index
    requires var removed := WithoutRow(index, rowId, Field(cells, numCols, rowId, col));
             && RowsHoldKeys(removed, cells, numCols, col, numRows)
             && (forall k | k in removed :: rowId !in removed[k])
             && (forall k | k in removed :: Distinct(removed[k]))
             && (forall r: nat | r < numRows && r != rowId :: Listed(removed, cells, numCols, col, r))
    ensures Indexes(Reindex(index, rowId, Field(cells, numCols, rowId, col), v), after, numCols, col, numRows)
  {
    var removed := WithoutRow(index, rowId, Field(cells, numCols, rowId, col));
    var bucket: seq<nat> := if v in removed then removed[v] else [];
    var m: Index := Reindex(index, rowId, Field(cells, numCols, rowId, col), v);
    assert m == removed[v := bucket + [rowId]];
    ReindexHoldsKeys(removed, bucket, m, cells, after, numRows, numCols, col, rowId, v);
    ReindexListsRows(removed, bucket, m, cells, after, numRows, numCols, col, rowId, v);
    ReindexDistinct(removed, bucket, m, rowId, v);
  }

  /** Appending rowId, listed nowhere, to one bucket keeps every bucket duplicate-free. */
  lemma ReindexDistinct(removed: Index, bucket: seq<nat>, m: Index, rowId: nat, v: i32)
    requires bucket == (if v in removed then removed[v] else []) && m == removed[v := bucket + [rowId]]
    requires forall k | k in removed :: Distinct(removed[k]) && rowId !in removed[k]
    ensures forall k | k in m :: Distinct(m[k])
  {
    assert Distinct(bucket) by {
      if v !in removed {
        assert multiset(bucket) == multiset{};
      }
    }
    DistinctAppend(bucket, rowId);
    forall k | k in m
      ensures Distinct(m[k])
    {
      if k != v {
        assert m[k] == removed[k];
      }
    }
  }

  /** After the write, every row listed in the reindexed buckets holds its key. */
  lemma ReindexHoldsKeys(removed: Index, bucket: seq<nat>, m: Index, cells: seq<i32>, after: seq<i32>,
                         numRows: nat, numCols: nat, col: nat, rowId: nat, v: i32)
    requires bucket == (if v in removed then removed[v] else []) && m == removed[v := bucket + [rowId]]
    requires rowId < numRows && Field(after, numCols, rowId, col) == v
    requires forall r: nat | r < numRows && r != rowId :: Field(after, numCols, r, col) == Field(cells, numCols, r, col)
    requires RowsHoldKeys(removed, cells, numCols, col, numRows)
    requires forall k | k in removed :: rowId !in removed[k]
    ensures RowsHoldKeys(m, after, numCols, col, numRows)
  {
    forall k, i | k in m && 0 <= i < |m[k]|
      ensures m[k][i] < numRows && Field(after, numCols, m[k][i], col) == k
    {
      if k == v && i == |bucket| {
      } else {
        assert m[k][i] == removed[k][i];
        assert removed[k][i] != rowId by {
          assert removed[k][i] in removed[k];
        }
      }
    }
  }

  /** After the write, every row is listed under its new value: rowId under v, the others where they were. */
  lemma ReindexListsRows(removed: Index, bucket: seq<nat>, m: Index, cells: seq<i32>, after: seq<i32>,
                         numRows: nat, numCols: nat, col: nat, rowId: nat, v: i32)
    requires bucket == (if v in removed then removed[v] else []) && m == removed[v := bucket + [rowId]]
    requires rowId < numRows && Field(after, numCols, rowId, col) == v
    requires forall r: nat | r < numRows && r != rowId :: Field(after, numCols, r, col) == Field(cells, numCols, r, col)
    requires forall r: nat | r < numRows && r != rowId :: Listed(removed, cells, numCols, col, r)
    ensures forall r: nat | r < numRows :: Listed(m, after, numCols, col, r)
  {
    forall r: nat | r < numRows
      ensures Listed(m, after, numCols, col, r)
    {
      if r == rowId {
        assert m[v][|bucket|] == rowId;
      } else {
        assert Listed(removed, cells, numCols, col, r);
        var key := Field(cells, numCols, r, col);
        var j :| 0 <= j < |removed[key]| && removed[key][j] == r;
        assert m[key][j] == r;
      }
    }
  }

  /** Writing v into (rowId, col) sets rowId's value of col and no other row's. */
  lemma WriteKeepsOtherRows(cells: seq<i32>, numRows: nat, numCols: nat, col: nat, rowId: nat, v: i32)
    requires |cells| == numRows * numCols && rowId < numRows && col < numCols
    ensures Slot(numCols, rowId, col) < |cells|
    ensures Field(cells[Slot(numCols, rowId, col) := v], numCols, rowId, col) == v
    ensures forall r: nat | r < numRows && r != rowId ::
              Field(cells[Slot(numCols, rowId, col) := v], numCols, r, col) == Field(cells, numCols, r, col)
  {
    FieldAfterWrite(cells, numRows, numCols, rowId, col, v);
    var after := cells[Slot(numCols, rowId, col) := v];
    forall r: nat | r < numRows && r != rowId
      ensures Field(after, numCols, r, col) == Field(cells, numCols, r, col)
    {
      assert (r, col) != (rowId, col);
    }
  }

  /**
   * Having walked the buckets of the keys in `done`, the walk `visited` holds,
   * once each, exactly the rows whose value of column col is in `done`.
   */
  ghost predicate Walked(cells: seq<i32>, numRows: nat, numCols: nat, col: nat, done: set<i32>, visited: seq<nat>)
  {
    && Distinct(visited)
    && forall r: nat :: r in visited <==> InWalk(cells, numRows, numCols, col, done, r)
  }

  /** Row r exists and its value of column col is one of the keys in `done`. */
  ghost predicate InWalk(cells: seq<i32>, numRows: nat, numCols: nat, col: nat, done: set<i32>, r: nat)
  {
    r < numRows && Field(cells, numCols, r, col) in done
  }

  /** Walking one more key's bucket extends the walk by exactly that key's rows. */
  lemma WalkStep(index: Index, cells: seq<i32>, numRows: nat, numCols: nat, col: nat,
                 done: set<i32>, visited: seq<nat>, k: i32)
    requires Indexes(index, cells, numCols, col, numRows)
    requires Walked(cells, numRows, numCols, col, done, visited)
    requires k in index && k !in done
    ensures Walked(cells, numRows, numCols, col, done + {k}, visited + index[k])
  {
    var bucket := index[k];
    forall x: nat | x in bucket
      ensures x !in visited && x < numRows && Field(cells, numCols, x, col) == k
    {
      var i :| 0 <= i < |bucket| && bucket[i] == x;
    }
    DistinctConcat(visited, bucket);
    forall r: nat
      ensures r in visited + bucket <==> InWalk(cells, numRows, numCols, col, done + {k}, r)
    {
      assert InWalk(cells, numRows, numCols, col, done + {k}, r)
             <==> InWalk(cells, numRows, numCols, col, done, r) || (r < numRows && Field(cells, numCols, r, col) == k);
      if r < numRows && Field(cells, numCols, r, col) == k {
        assert Listed(index, cells, numCols, col, r);
      }
    }
  }

  /**
   * A finished walk over the keys K computes the full-scan answer of q,
   * provided every row q selects has its indexed value in K.
   */
  lemma WalkComputesScan(q: Query, cells: seq<i32>, numRows: nat, numCols: nat, col: nat,
                         keys: set<i32>, visited: seq<nat>)
    requires Walked(cells, numRows, numCols, col, keys, visited)
    requires forall r: nat | r < numRows && Selects(q, cells, numCols, r) :: Field(cells, numCols, r, col) in keys
    ensures SumBy(q, cells, numCols, visited) == ScanSum(q, cells, numCols, numRows)
  {
    SumByCovers(q, cells, numCols, visited, numRows);
  }

  /** A set of keys holding x has a least key, found by descending from x. */
  lemma {:induction false} LeastKeyExists(keys: set<i32>, x: i32)
    requires x in keys
    ensures exists m :: m in keys && forall k | k in keys :: m <= k
    decreases x - INT_MIN
  {
    if exists y :: y in keys && y < x {
      var y :| y in keys && y < x;
      LeastKeyExists(keys, y);
    } else {
      assert forall k | k in keys :: x <= k;
    }
  }

  /** Strictly ascending. */
  predicate Ascending(ordered: seq<i32>)
  {
    forall i, j | 0 <= i < j < |ordered| :: ordered[i] < ordered[j]
  }

  /**
   * Part way through the ascending iteration of `keys`: `ordered` holds the
   * keys emitted so far, in ascending order, and every key still in `rest`
   * is above them.
   */
  ghost predicate EmittedBelow(keys: set<i32>, ordered: seq<i32>, rest: set<i32>)
  {
    && Ascending(ordered)
    && (forall k :: k in keys <==> k in ordered || k in rest)
    && (forall i, k | 0 <= i < |ordered| && k in rest :: ordered[i] < k)
  }

  /** Emitting the least key of `rest` keeps the iteration in order. */
  lemma EmitLeast(keys: set<i32>, ordered: seq<i32>, rest: set<i32>, m: i32)
    requires EmittedBelow(keys, ordered, rest)
    requires m in rest && forall k | k in rest :: m <= k
    ensures EmittedBelow(keys, ordered + [m], rest - {m})
  {
    var next := ordered + [m];
    forall i, j | 0 <= i < j < |next|
      ensures next[i] < next[j]
    {
      if j < |ordered| {
        assert next[i] == ordered[i] && next[j] == ordered[j];
      } else {
        assert next[i] == ordered[i];
      }
    }
    forall k
      ensures k in keys <==> k in next || k in rest - {m}
    {
      assert k in next <==> k in ordered || k == m;
    }
    forall i, k | 0 <= i < |next| && k in rest - {m}
      ensures next[i] < k
    {
      if i < |ordered| {
        assert next[i] == ordered[i];
      }
    }
  }

  /**
   * The order in which a TreeMap key set is iterated: every key once, in
   * strictly ascending order.
   */
  method AscendingKeys(keys: set<i32>) returns (ordered: seq<i32>)
    ensures Ascending(ordered)
    ensures forall k :: k in ordered <==> k in keys
  {
    ordered := [];
    var rest := keys;
    while rest != {}
      invariant EmittedBelow(keys, ordered, rest)
      decreases |rest|
    {
      var m := LeastKey(rest);
      EmitLeast(keys, ordered, rest, m);
      ordered, rest := ordered + [m], rest - {m};
    }
  }

  /** The least key of a non-empty key set (what a TreeMap iterates next). */
  method LeastKey(rest: set<i32>) returns (m: i32)
    requires rest != {}
    ensures m in rest && forall k | k in rest :: m <= k
  {
    var x :| x in rest;
    LeastKeyExists(rest, x);
    m :| m in rest && forall k | k in rest :: m <= k;
  }

  /** Strictly ascending keys: the key at position i is not among the earlier ones. */
  lemma AscendingFresh(ordered: seq<i32>, i: nat)
    requires Ascending(ordered) && i < |ordered|
    ensures ordered[i] !in ordered[..i]
  {
    forall j | 0 <= j < i
      ensures ordered[..i][j] != ordered[i]
    {
      assert ordered[..i][j] == ordered[j];
    }
  }

  /** With the indexed column present (or no rows at all), a valid index indexes that column. */
  lemma IndexOn(index: Index, cells: seq<i32>, numRows: nat, numCols: nat, col: nat)
    requires IndexValid(index, cells, numRows, numCols, col)
    requires numRows == 0 || col < numCols
    ensures Indexes(index, cells, numCols, col, numRows)
  {
  }
}
