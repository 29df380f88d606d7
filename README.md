# memstore tables in Dafny

A model of the two row-major table layouts of the `memstore` in-memory
storage engine and of the four fixed queries they answer.

- **`RowTable`** keeps `numRows × numCols` 32-bit integer fields in one flat
  buffer, with field `(rowId, colId)` at offset
  `FIELD_LEN * (rowId * numCols + colId)`. `getIntField` and `putIntField`
  read and write one field. The queries `columnSum`, `predicatedColumnSum`,
  `predicatedAllColumnsSum` and `predicatedUpdate` are linear scans.
- **`IndexedRowTable`** uses the same buffer. It adds an ordered index
  (`TreeMap<Integer, IntArrayList>`) from each value of one column,
  `indexColumn`, to the ids of the rows holding it.
  - `load` builds the index.
  - `putIntField` on the indexed column moves the row from the bucket of its
    old value to the bucket of its new value.
  - When a query's predicate restricts the indexed column, the query walks
    the matching key range in ascending key order (`tailMap` / `headMap`).
    It visits each bucket's rows and applies whatever remains of the
    predicate. Otherwise it scans.

Layout of the Dafny modules:

| file | module | contents |
|---|---|---|
| `layout.dfy` | `Layout` | `i32`, Java's 32-bit addition, slot and byte-offset arithmetic, `Field` |
| `buckets.dfy` | `Buckets` | the row-id lists of the index (`IntArrayList`): duplicate-freedom, `rem` |
| `queries.dfy` | `Queries` | the queries as specifications: `ScanSum` (full scan), `SumBy` (sum over a walk of row ids), `UpdateApplied` (the effect of `predicatedUpdate`) |
| `tree_index.dfy` | `TreeIndex` | the index as `map<i32, seq<nat>>` and its invariant `Indexes`; `tailMap`/`headMap` key ranges; index maintenance (`Reindex`); the walk lemmas; ascending key iteration |
| `row_table.dfy` | `RowTables` | `class RowTable` over an `array<i32>` |
| `indexed_row_table.dfy` | `IndexedRowTables` | `class IndexedRowTable`: the buffer, the index and the `indexColumn` |
| `scenarios.dfy` | `Scenarios` | whole-table scenarios: the shape of the `predicatedColumnSum` test, the two worked examples, equal buffers after `load` |
| `tail_map_wrap.dfy` | `TailMapWrap` | the `tailMap(threshold + 1)` walks as written, with their counterexamples |

Every query method of both classes is proved against the full-scan
specification `ScanSum`. Each index walk is proved equal to the scan on any
table whose index agrees with the buffer. That agreement is the class
invariant `Valid()`:

- `load` establishes it, and `putIntField` keeps it;
- every row is listed exactly once, in the bucket of its current value;
- every listed row holds its key;
- with the indexed column absent from the schema, the index is empty.

`predicatedUpdate` is proved to write exactly `col1 + col2` (wrapped to 32
bits) into column 3 of exactly the rows with `col0 < threshold`, and to leave
every other field unchanged. Its count is the number of those rows.

Inputs that the model takes as parameters:

- `load` takes the loader's column count and its rows as `seq<seq<i32>>`.
  The loader's file reading is not part of this model.
- Each loader row must hold at least `numCols` fields, as the source's
  `curRow.getInt(FIELD_LEN * colId)` requires.
- Queries require the schema to be wide enough for the columns they read
  (`numRows == 0 || numCols >= k`). A narrower schema is outside the
  operators' domain: the source reads columns 0 to 3 without checking.
- Row and column ids passed to `getIntField` / `putIntField` must be in
  range. The source does not check them either.

## Model

Paths are relative to the repository root.

| member | source | states |
|---|---|---|
| Layout.Add32 | src/main/java/memstore/table/RowTable.java:138 | Java's `int` addition: the exact sum when it fits in 32 bits, otherwise the sum minus or plus 2^32 |
| Layout.Slot | src/main/java/memstore/table/IndexedRowTable.java:67-70 | `getOffset` in fields: the slot of `(rowId, colId)` with a valid column lies in row rowId's block of `numCols` fields, between `rowId * numCols` and `(rowId + 1) * numCols` |
| Layout.ByteOffset | src/main/java/memstore/table/RowTable.java:23-26 | `getOffset` in bytes: a multiple of `FIELD_LEN` whose field number is the slot (the same formula sits at IndexedRowTable.java:67-70) |
| Layout.SlotInBounds | src/main/java/memstore/table/RowTable.java:23-26 | the slot of every valid `(rowId, colId)` lies inside a buffer of `numRows * numCols` fields |
| Layout.SlotRowOrder | src/main/java/memstore/table/RowTable.java:23-26 | row-major order: every slot of a row precedes every slot of a later row |
| Layout.SlotInjective | src/main/java/memstore/table/RowTable.java:23-26 | two valid `(rowId, colId)` pairs with the same slot are the same pair |
| Layout.ByteSlotsDisjoint | src/main/java/memstore/table/RowTable.java:39-44 | each valid field's `FIELD_LEN` bytes lie inside the `FIELD_LEN * numRows * numCols`-byte buffer, and the byte ranges of two different fields do not overlap |
| Layout.FieldAfterWriteElsewhere | src/main/java/memstore/table/RowTable.java:64-68 | a write at a valid `(rowId, colId)` leaves any other valid field of any row as it was, whatever the buffer's length |
| Layout.FieldAfterWrite | src/main/java/memstore/table/RowTable.java:64-68 | after writing v at `(rowId, colId)`, that field reads v and every other valid field reads what it read before |
| Layout.CellsDeterminedByFields | src/main/java/memstore/table/IndexedRowTable.java:45-52 | two buffers of `numRows * numCols` fields that agree on every valid field are equal |
| Buckets.RemoveFirst | src/main/java/memstore/table/IndexedRowTable.java:94 | `IntArrayList.rem(rowId)`: removes exactly one occurrence when present (multiset minus one, length minus one); without one, the list is unchanged |
| Buckets.RemoveFirstCutsAtFirst | src/main/java/memstore/table/IndexedRowTable.java:94 | `rem` removes the FIRST occurrence and keeps the order of the rest: with x at position i and nowhere before, the result is the list without position i |
| Buckets.DistinctRemoveFirst | src/main/java/memstore/table/IndexedRowTable.java:94 | removing a row id from a duplicate-free bucket leaves it duplicate-free, without that id, holding every other id it held |
| Buckets.DistinctAppend | src/main/java/memstore/table/IndexedRowTable.java:60 | appending an id a bucket does not hold keeps it duplicate-free |
| Queries.RowSumSameRow | src/main/java/memstore/table/IndexedRowTable.java:172-174 | the sum over a row's columns reads that row's fields only: two buffers agreeing on them give the same row sum |
| Queries.SumByCovers | src/main/java/memstore/table/IndexedRowTable.java:129-157 | a walk over row ids that are below numRows, with no id twice and every selected row present, sums to the full-scan answer, whatever its order and whatever unselected rows it visits |
| Queries.SumByRemoveFirst | src/main/java/memstore/table/IndexedRowTable.java:134 | taking one visit of a row out of a walk takes that row's contribution out of its sum |
| Queries.UpdateCountBounds | src/main/java/memstore/table/RowTable.java:133-143 | the count `predicatedUpdate` returns lies between 0 and numRows |
| Queries.UpdateScanStep | src/main/java/memstore/table/RowTable.java:136-141 | in the scan, row n still holds its original columns 0 to 2 when reached; the conditional write to its column 3 extends "rows 0..n-1 updated, the rest untouched" to row n |
| Queries.UpdateWalkStep | src/main/java/memstore/table/IndexedRowTable.java:201-205 | in the index walk, a selected row not yet updated still holds its original columns 0 to 2; writing `col1 + col2` to its column 3 adds it to the updated rows |
| Queries.UpdateWalkDone | src/main/java/memstore/table/IndexedRowTable.java:200-206 | when the walk has updated exactly the rows with `col0 < threshold`, the table is the scan's updated table |
| Queries.UpdateCountStable | src/main/java/memstore/table/RowTable.java:136-141 | selection reads only column 0, which the update does not write, so counting again on the updated table selects the same rows |
| Queries.UpdateIdempotent | src/main/java/memstore/table/RowTable.java:133-143 | a second `predicatedUpdate(threshold)` reports the same count and leaves every field as the first left it |
| TreeIndex.TailMap | src/main/java/memstore/table/IndexedRowTable.java:133 | `tailMap(fromKey).keySet()`: exactly the index's keys at or above fromKey (inclusive, as Java's `tailMap` is) |
| TreeIndex.HeadMap | src/main/java/memstore/table/IndexedRowTable.java:141 | `headMap(toKey).keySet()`: exactly the index's keys strictly below toKey |
| TreeIndex.SourceTailKeys | src/main/java/memstore/table/IndexedRowTable.java:133 | `tailMap(threshold + 1).keySet()` as written: the keys above threshold while threshold < INT_MAX; every key when threshold == INT_MAX |
| TreeIndex.KeysAbove | src/main/java/memstore/table/IndexedRowTable.java:170 | the keys strictly above threshold, for every threshold including INT_MAX |
| TreeIndex.IndexesExactlyOnce | src/main/java/memstore/table/IndexedRowTable.java:39-65 | under the index invariant, each row occurs exactly once in the bucket of its own value and in no other bucket |
| TreeIndex.IndexesStable | src/main/java/memstore/table/IndexedRowTable.java:87-103 | a write that leaves the indexed column alone keeps the index valid unchanged |
| TreeIndex.IndexesAddRow | src/main/java/memstore/table/IndexedRowTable.java:53-61 | the `load` step: appending row n to the bucket of its value (created if absent) extends an index of rows 0..n-1 to rows 0..n |
| TreeIndex.WithoutRow | src/main/java/memstore/table/IndexedRowTable.java:93-95 | `rem` from the old value's bucket keeps every key, including an emptied bucket |
| TreeIndex.Reindex | src/main/java/memstore/table/IndexedRowTable.java:93-101 | the keys become the old keys plus the new value; buckets of other keys are unchanged; the new value's bucket ends with rowId |
| TreeIndex.RemoveRowFromIndex | src/main/java/memstore/table/IndexedRowTable.java:93-95 | after `rem`, rowId is in no bucket, buckets stay duplicate-free, and every other row is still listed under its value |
| TreeIndex.ReindexPreservesIndex | src/main/java/memstore/table/IndexedRowTable.java:87-103 | writing v to the indexed column of rowId and applying Reindex keeps the index invariant, also when v equals the old value |
| TreeIndex.WalkStep | src/main/java/memstore/table/IndexedRowTable.java:133-134 | walking one more key's bucket keeps the walk duplicate-free and makes it exactly the rows whose value is among the keys walked |
| TreeIndex.WalkComputesScan | src/main/java/memstore/table/IndexedRowTable.java:133-139 | a finished walk over keys that include the value of every selected row gives the full-scan answer |
| TreeIndex.LeastKeyExists | src/main/java/memstore/table/IndexedRowTable.java:133 | a non-empty key set has a least key |
| TreeIndex.LeastKey | src/main/java/memstore/table/IndexedRowTable.java:133 | the next key of the ascending iteration: the least key still to be visited |
| TreeIndex.AscendingKeys | src/main/java/memstore/table/IndexedRowTable.java:133 | the iteration order of a TreeMap key set: strictly ascending, holding exactly the keys of the set |
| TreeIndex.AscendingFresh | src/main/java/memstore/table/IndexedRowTable.java:133 | in that order, no key repeats an earlier one |
| RowTables.RowTable.constructor | src/main/java/memstore/table/RowTable.java:20-21 | a table before `load`: no rows, no columns |
| RowTables.RowTable.Load | src/main/java/memstore/table/RowTable.java:35-48 | numCols and numRows come from the loader, and every valid field `(r, c)` is field c of loader row r, in a fresh buffer |
| RowTables.RowTable.GetIntField | src/main/java/memstore/table/RowTable.java:54-58 | returns the field at `(rowId, colId)` |
| RowTables.RowTable.PutIntField | src/main/java/memstore/table/RowTable.java:64-68 | that field then reads `field`; every other field is unchanged; the buffer is the old one with that slot overwritten |
| RowTables.RowTable.ColumnSum | src/main/java/memstore/table/RowTable.java:77-84 | the sum of column 0 over all rows; the buffer is not written |
| RowTables.RowTable.PredicatedColumnSum | src/main/java/memstore/table/RowTable.java:94-104 | the sum of col0 over exactly the rows with col1 > threshold1 and col2 < threshold2 (both strict) |
| RowTables.RowTable.PredicatedAllColumnsSum | src/main/java/memstore/table/RowTable.java:113-124 | the sum of every field of exactly the rows with col0 > threshold |
| RowTables.RowTable.PredicatedUpdate | src/main/java/memstore/table/RowTable.java:133-143 | exactly the rows with `col0 < threshold` (before the call) get col3 = col1 + col2 (32-bit); all other fields are unchanged; the count is the number of those rows |
| IndexedRowTables.IndexedRowTable.constructor | src/main/java/memstore/table/IndexedRowTable.java:28-30 | fixes indexColumn; a table before `load` with an empty index |
| IndexedRowTables.IndexedRowTable.LoadRow | src/main/java/memstore/table/IndexedRowTable.java:47-64 | one pass of `load`'s row loop: row rowId's fields equal the loader row's and the index of rows 0 .. rowId is valid; with indexColumn a column, the new index is the old one with rowId appended to the bucket of its value (a new bucket when the value is no key) and every other bucket kept; otherwise the index is unchanged |
| IndexedRowTables.IndexedRowTable.Load | src/main/java/memstore/table/IndexedRowTable.java:39-65 | the buffer holds the loader's rows at the same slots as RowTable, and the index invariant holds (an empty index when indexColumn is not a column) |
| IndexedRowTables.IndexedRowTable.GetIntField | src/main/java/memstore/table/IndexedRowTable.java:76-81 | returns the field at `(rowId, colId)` |
| IndexedRowTables.IndexedRowTable.PutIntField | src/main/java/memstore/table/IndexedRowTable.java:87-103 | put-then-get returns `field`, other fields are unchanged, the index invariant is kept; on the indexed column the index becomes Reindex of the old index, otherwise it is untouched |
| IndexedRowTables.IndexedRowTable.MoveRow | src/main/java/memstore/table/IndexedRowTable.java:93-101 | the index becomes Reindex(old index, rowId, origin, field) and nothing else changes |
| IndexedRowTables.IndexedRowTable.ColumnSum | src/main/java/memstore/table/IndexedRowTable.java:112-119 | the sum of column 0 over all rows |
| IndexedRowTables.IndexedRowTable.PredicatedColumnSum | src/main/java/memstore/table/IndexedRowTable.java:129-157 | for every indexColumn (1, 2 or any other) the answer equals the full scan of col1 > threshold1 and col2 < threshold2 |
| IndexedRowTables.IndexedRowTable.SumIndexedOnCol1 | src/main/java/memstore/table/IndexedRowTable.java:132-139 | walking the buckets of the keys above threshold1 in ascending order, filtering on col2 only, gives the full-scan answer |
| IndexedRowTables.IndexedRowTable.SumIndexedOnCol2 | src/main/java/memstore/table/IndexedRowTable.java:140-147 | walking the buckets of `headMap(threshold2)` in ascending order, filtering on col1 only, gives the full-scan answer |
| IndexedRowTables.IndexedRowTable.SumBucketFilteringCol2 | src/main/java/memstore/table/IndexedRowTable.java:134-138 | over a bucket whose rows all have col1 > threshold1, testing col2 alone adds up exactly those rows' query contributions |
| IndexedRowTables.IndexedRowTable.SumBucketFilteringCol1 | src/main/java/memstore/table/IndexedRowTable.java:142-146 | over a bucket whose rows all have col2 < threshold2, testing col1 alone adds up exactly those rows' query contributions |
| IndexedRowTables.IndexedRowTable.PredicatedAllColumnsSum | src/main/java/memstore/table/IndexedRowTable.java:166-187 | for every indexColumn the answer equals the full scan over the rows with col0 > threshold |
| IndexedRowTables.IndexedRowTable.SumIndexedOnCol0 | src/main/java/memstore/table/IndexedRowTable.java:169-176 | walking the buckets of the keys above threshold, summing every field of each listed row, gives the full-scan answer |
| IndexedRowTables.IndexedRowTable.SumBucketRows | src/main/java/memstore/table/IndexedRowTable.java:171-175 | over a bucket whose rows all have col0 > threshold, adding every row unfiltered gives their query contributions |
| IndexedRowTables.IndexedRowTable.SumRow | src/main/java/memstore/table/IndexedRowTable.java:172-174 | the sum of all numCols fields of one row |
| IndexedRowTables.IndexedRowTable.PredicatedUpdate | src/main/java/memstore/table/IndexedRowTable.java:196-216 | for every indexColumn, exactly the rows with `col0 < threshold` get col3 = col1 + col2 (32-bit), nothing else changes, the count is the scan's count; the index is unchanged unless column 3 is the indexed one |
| IndexedRowTables.IndexedRowTable.UpdateWalkFinish | src/main/java/memstore/table/IndexedRowTable.java:200-206 | once every key below the threshold is walked, the visited rows are exactly the scan's rows: the count is the scan's count and the table is the scan's table |
| IndexedRowTables.IndexedRowTable.UpdateIndexedOnCol0 | src/main/java/memstore/table/IndexedRowTable.java:200-206 | walking `headMap(threshold)` updates and counts exactly the scan's rows and leaves the index it iterates unchanged |
| IndexedRowTables.IndexedRowTable.UpdateByScan | src/main/java/memstore/table/IndexedRowTable.java:207-214 | the scan branch: the same updated table and count as RowTable's scan |
| IndexedRowTables.IndexedRowTable.UpdateBucket | src/main/java/memstore/table/IndexedRowTable.java:202-205 | updating every row of a bucket whose rows all have col0 < threshold adds those rows to the updated ones and counts them |
| IndexedRowTables.IndexedRowTable.SetColumn3 | src/main/java/memstore/table/IndexedRowTable.java:203 | the buffer becomes the old one with column 3 of the row set to col1 + col2 (32-bit); the index is untouched unless column 3 is indexed |
| Scenarios.ScanMatchesLoader | src/main/java/memstore/table/RowTable.java:94-104 | a buffer that holds the loader's rows field for field answers `predicatedColumnSum` exactly as the loader's rows do |
| Scenarios.RowTableColumnSum | src/test/java/memstore/table/PredicatedColumnSumTest.java:26-30 | a RowTable loaded from 5-column rows answers `predicatedColumnSum` with the rows' own answer |
| Scenarios.IndexedTableColumnSum | src/test/java/memstore/table/PredicatedColumnSumTest.java:39-55 | an IndexedRowTable on any column, loaded from 5-column rows, answers with the rows' own answer; for indexColumn 1 this is the corrected walk's answer (see Left out) |
| Scenarios.PredicatedColumnSumAcrossTables | src/test/java/memstore/table/PredicatedColumnSumTest.java:19-55 | one 5-column loader feeding a RowTable and IndexedRowTables on columns 0, 1 and 2: all four answers are equal, for every pair of thresholds, with column 1's table walking the corrected key range (see Left out) |
| Scenarios.LoadBoth | src/main/java/memstore/table/IndexedRowTable.java:45-52 | a RowTable and an IndexedRowTable loaded from the same rows hold identical buffers |
| Scenarios.ExampleAnswers | src/main/java/memstore/table/RowTable.java:77-104 | rows [1,2,10,0,0], [2,4,4,0,0], [3,6,2,0,0]: columnSum 6, predicatedColumnSum(3, 5) is 5 |
| Scenarios.SumScenario | src/main/java/memstore/table/IndexedRowTable.java:112-157 | those rows in an IndexedRowTable on column 1 give 6 and 5 |
| Scenarios.UpdateScenario | src/main/java/memstore/table/IndexedRowTable.java:196-216 | rows [0,1,2,0], [5,1,1,0] indexed on column 0, predicatedUpdate(3): count 1, rows become [0,1,2,3] and [5,1,1,0] |
| Scenarios.RowOf | src/main/java/memstore/table/IndexedRowTable.java:76-81 | reading a row field by field yields exactly that row's fields |
| TailMapWrap.SourceColumnSumOnCol1 | src/main/java/memstore/table/IndexedRowTable.java:132-139 | the column-1 walk as written, over the keys of `tailMap(threshold1+1)` with a 32-bit `+1`; its ensures: over an index that holds no row's col1 the walk sums to 0 (the per-row form is `SourceColumnSumIgnoresUnkeyedRow`) |
| TailMapWrap.SourceAllColumnsSumOnCol0 | src/main/java/memstore/table/IndexedRowTable.java:169-176 | the column-0 walk as written, over the keys of `tailMap(threshold+1)` with a 32-bit `+1`; its ensures: over an index that holds no row's col0 the walk sums to 0 (the per-row form is `SourceAllColumnsSumIgnoresUnkeyedRow`) |
| TailMapWrap.SourceColumnSumIgnoresUnkeyedRow | src/main/java/memstore/table/IndexedRowTable.java:132-139 | the written column-1 walk reaches rows only through the index: a row whose col1 is no key never counts, so overwriting its col0, its col2 or any later field leaves the walk's sum unchanged |
| TailMapWrap.SourceAllColumnsSumIgnoresUnkeyedRow | src/main/java/memstore/table/IndexedRowTable.java:169-176 | the written column-0 walk reaches rows only through the index: overwriting any non-key field of a row whose col0 is no key leaves the walk's sum unchanged |
| TailMapWrap.SourceColumnSumAgreesBelowMax | src/main/java/memstore/table/IndexedRowTable.java:132-139 | below INT_MAX, the column-1 walk as written gives the full-scan answer |
| TailMapWrap.SourceAllColumnsSumAgreesBelowMax | src/main/java/memstore/table/IndexedRowTable.java:169-176 | below INT_MAX, the column-0 walk as written gives the full-scan answer |
| TailMapWrap.ColumnSumWrapCounterexample | src/main/java/memstore/table/IndexedRowTable.java:133 | with a valid index, the walk as written returns 7 where the scan returns 0 (see Findings) |
| TailMapWrap.AllColumnsSumWrapCounterexample | src/main/java/memstore/table/IndexedRowTable.java:170 | with a valid index, the walk as written returns 5 where the scan returns 0 (see Findings) |

## Left out

- The data loader (`DataLoader`, `CSVLoader`) and the `IOException` path of `load` are file I/O. `load` takes the column count and the rows as parameters instead.
- The byte encoding of `ByteBuffer.getInt`/`putInt` (endianness, `ByteFormat`) is not modelled. The buffer holds one `i32` per field, and the byte-offset arithmetic is kept in `Layout.ByteOffset` and `Layout.ByteSlotsDisjoint`.
- The internals of `java.util.TreeMap` and fastutil `IntArrayList` are library code. The index is a `map<i32, seq<nat>>`; `tailMap`/`headMap` are key-set comprehensions; ascending iteration is `TreeIndex.AscendingKeys`; `rem` removes the first occurrence. The running time of the tree (logarithmic lookups) is not modelled.
- `ColumnTable`, which the test also uses, is not part of this model.
- The test's expected value 49 comes from a CSV fixture that is not part of this model. `Scenarios.PredicatedColumnSumAcrossTables` states the test's claim for every input instead: all four tables return the same answer. That agreement is proved for the corrected column-1 walk; the source's `IndexedRowTable(1)` differs from the other three at threshold1 == INT_MAX (see the next lines and Findings).
- `long` sums: the sums are unbounded integers, so Java's 64-bit overflow of the accumulators is not modelled.
- `int` arithmetic in `getOffset` and in the buffer size `FIELD_LEN * numRows * numCols` is unbounded here. The source overflows on tables of 2^29 fields or more.
- `RowTables.RowTable.PredicatedUpdate`, `IndexedRowTables.IndexedRowTable.PredicatedUpdate`: `cnt` is a `nat`, not a 32-bit `int`. The count is at most numRows (`Queries.UpdateCountBounds`).
- Unguarded misuse is not modelled: out-of-range row or column ids, and a schema narrower than the columns a query reads, are preconditions. Calling `load` twice is allowed and re-allocates everything, as the source does.
- A table before `load` has a null buffer (and index) in the source. The constructors model it as a 0×0 table with an empty buffer and index.
- `IndexedRowTables.IndexedRowTable.constructor`, `IndexedRowTables.IndexedRowTable.PredicatedColumnSum`, `IndexedRowTables.IndexedRowTable.PredicatedAllColumnsSum`, `IndexedRowTables.IndexedRowTable.PredicatedUpdate`: before `load` the source's `index` is null (IndexedRowTable.java:24), so a query that walks it throws `NullPointerException`: `predicatedColumnSum` with indexColumn 1 or 2 (lines 133, 141), `predicatedAllColumnsSum` and `predicatedUpdate` with indexColumn 0 (lines 170, 201). The model's empty index answers 0 there instead, the answer of the other branches, which on an unloaded table see zero rows. The exception is not modelled.
- `IndexedRowTables.IndexedRowTable.SumIndexedOnCol1`, `IndexedRowTables.IndexedRowTable.SumIndexedOnCol0`, and through them the public entry points `IndexedRowTables.IndexedRowTable.PredicatedColumnSum` and `IndexedRowTables.IndexedRowTable.PredicatedAllColumnsSum`: these walk `KeysAbove`, the keys strictly above the threshold. They do not walk the source's `tailMap(threshold + 1)`, which wraps at INT_MAX (see Findings). The as-written walk is `TailMapWrap.SourceColumnSumOnCol1` / `TailMapWrap.SourceAllColumnsSumOnCol0`, and `TailMapWrap.SourceColumnSumAgreesBelowMax` / `TailMapWrap.SourceAllColumnsSumAgreesBelowMax` prove it equal below INT_MAX.
- `Scenarios.IndexedTableColumnSum`, `Scenarios.PredicatedColumnSumAcrossTables`: their agreement with the loader rows' answer, for every pair of thresholds, is the corrected walk's. For indexColumn 1 and threshold1 == INT_MAX the source's table walks every key and can differ: one 5-column row [7, INT_MIN, 0, 0, 0] gives 7 there where the RowTable gives 0 (`TailMapWrap.ColumnSumWrapCounterexample` shows the same walk on a 3-column row).
- `TailMapWrap.SourceColumnSumOnCol1`, `TailMapWrap.SourceAllColumnsSumOnCol0`: they state the as-written walk as the rows whose indexed value is in `SourceTailKeys`. They do not repeat the loop over buckets; under the index invariant the buckets of those keys hold exactly those rows (`TreeIndex.WalkStep`).

## Findings

| source | as written | input that shows it | evidently intended | confidence | as-written member | corrected member |
|---|---|---|---|---|---|---|
| src/main/java/memstore/table/IndexedRowTable.java:133 | `index.tailMap(threshold1+1)`, with `threshold1+1` computed in 32-bit `int` | one row [7, INT_MIN, 0] on an index on column 1, `predicatedColumnSum(INT_MAX, 1)`: the start wraps to INT_MIN, the walk returns 7, and the scan returns 0 | the keys strictly greater than threshold1, i.e. none when threshold1 == INT_MAX | high, not executed | TailMapWrap.ColumnSumWrapCounterexample | IndexedRowTables.IndexedRowTable.SumIndexedOnCol1 |
| src/main/java/memstore/table/IndexedRowTable.java:170 | `index.tailMap(threshold+1)`, with `threshold+1` computed in 32-bit `int` | one row [5] on an index on column 0, `predicatedAllColumnsSum(INT_MAX)`: the walk visits every key and returns 5, and the scan returns 0 | the keys strictly greater than threshold, i.e. none when threshold == INT_MAX | high, not executed | TailMapWrap.AllColumnsSumWrapCounterexample | IndexedRowTables.IndexedRowTable.SumIndexedOnCol0 |
