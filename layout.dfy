/**
 * The field layout shared by RowTable and IndexedRowTable: a table of
 * numRows x numCols 32-bit signed fields kept in one flat buffer, row after
 * row. The source addresses the buffer in bytes (FIELD_LEN bytes per field);
 * the model addresses it in fields, and the byte view is kept as lemmas.
 */
module Layout {

  /** A Java `int`. */
  type i32 = x: int | -0x8000_0000 <= x < 0x8000_0000

  const INT_MIN: i32 := -0x8000_0000
  const INT_MAX: i32 := 0x7fff_ffff

  /** Bytes taken by one field in the byte buffer: one 4-byte `int`. */
  const FIELD_LEN: nat := 4

  /** Two's-complement wrap of an integer into 32 bits. */
  function Wrap32(x: int): (r: i32)
    ensures INT_MIN <= x <= INT_MAX ==> r == x
    ensures (x - r) % 0x1_0000_0000 == 0
  {
    (x + 0x8000_0000) % 0x1_0000_0000 - 0x8000_0000
  }

  /** Java's `int` addition `a + b`, which wraps around on overflow. */
  function Add32(a: i32, b: i32): (r: i32)
    ensures INT_MIN <= a + b <= INT_MAX ==> r == a + b
    ensures a + b > INT_MAX ==> r == a + b - 0x1_0000_0000
    ensures a + b < INT_MIN ==> r == a + b + 0x1_0000_0000
  {
    Wrap32(a + b)
  }

  /**
   * Position, counted in fields, of field (rowId, colId) in the buffer. For a
   * valid column the position lies in row rowId's block of numCols fields,
   * colId fields past its start.
   */
  function Slot(numCols: nat, rowId: nat, colId: nat): (s: nat)
    ensures colId < numCols ==> rowId * numCols <= s < (rowId + 1) * numCols
  {
    assert (rowId + 1) * numCols == rowId * numCols + numCols;
    rowId * numCols + colId
  }

  /**
   * `getOffset`: position, counted in bytes, of field (rowId, colId). It is
   * aligned to a whole field, and the field it starts is Slot's.
   */
  function ByteOffset(numCols: nat, rowId: nat, colId: nat): (off: nat)
    ensures off % FIELD_LEN == 0 && off / FIELD_LEN == Slot(numCols, rowId, colId)
  {
    FIELD_LEN * Slot(numCols, rowId, colId)
  }

  /** The field at (rowId, colId) of a buffer with numCols columns (0 outside the buffer). */
  function Field(cells: seq<i32>, numCols: nat, rowId: nat, colId: nat): i32
  {
    if Slot(numCols, rowId, colId) < |cells| then cells[Slot(numCols, rowId, colId)] else 0
  }

  /** Every valid (rowId, colId) has its slot inside a buffer of numRows * numCols fields. */
  lemma SlotInBounds(numRows: nat, numCols: nat, rowId: nat, colId: nat)
    requires rowId < numRows && colId < numCols
    ensures Slot(numCols, rowId, colId) < numRows * numCols
  {
    calc {
      Slot(numCols, rowId, colId);
      == rowId * numCols + colId;
      <  rowId * numCols + numCols;
      == (rowId + 1) * numCols;
      <= { MulMonotone(rowId + 1, numRows, numCols); }
         numRows * numCols;
    }
  }

  lemma MulMonotone(a: nat, b: nat, k: nat)
    ensures a <= b ==> a * k <= b * k
  {
    assert b * k == a * k + (b - a) * k;
  }

  /** Slots earlier rows come before slots of later rows. */
  lemma SlotRowOrder(numCols: nat, r1: nat, c1: nat, r2: nat, c2: nat)
    requires c1 < numCols && r1 < r2
    ensures Slot(numCols, r1, c1) < Slot(numCols, r2, c2)
  {
    calc {
      Slot(numCols, r1, c1);
      <  r1 * numCols + numCols;
      == (r1 + 1) * numCols;
      <= { MulMonotone(r1 + 1, r2, numCols); }
         r2 * numCols;
      <= Slot(numCols, r2, c2);
    }
  }

  /** Distinct valid fields never share a slot. */
  lemma SlotInjective(numCols: nat, r1: nat, c1: nat, r2: nat, c2: nat)
    requires c1 < numCols && c2 < numCols
    requires Slot(numCols, r1, c1) == Slot(numCols, r2, c2)
    ensures r1 == r2 && c1 == c2
  {
    if r1 < r2 {
      SlotRowOrder(numCols, r1, c1, r2, c2);
    } else if r2 < r1 {
      SlotRowOrder(numCols, r2, c2, r1, c1);
    }
  }

  /**
   * In the source's byte buffer of FIELD_LEN * numRows * numCols bytes, every
   * valid field occupies its own FIELD_LEN bytes, inside the buffer, and the
   * bytes of two different fields do not overlap.
   */
  lemma ByteSlotsDisjoint(numRows: nat, numCols: nat, r1: nat, c1: nat, r2: nat, c2: nat)
    requires r1 < numRows && c1 < numCols && r2 < numRows && c2 < numCols
    ensures ByteOffset(numCols, r1, c1) + FIELD_LEN <= FIELD_LEN * (numRows * numCols)
    ensures (r1, c1) != (r2, c2) ==>
              ByteOffset(numCols, r1, c1) + FIELD_LEN <= ByteOffset(numCols, r2, c2) ||
              ByteOffset(numCols, r2, c2) + FIELD_LEN <= ByteOffset(numCols, r1, c1)
  {
    SlotInBounds(numRows, numCols, r1, c1);
    if (r1, c1) != (r2, c2) && Slot(numCols, r1, c1) == Slot(numCols, r2, c2) {
      SlotInjective(numCols, r1, c1, r2, c2);
    }
  }

  /**
   * Writing v at (rowId, colId) makes that field v and leaves every other
   * valid field as it was.
   */
  lemma FieldAfterWrite(cells: seq<i32>, numRows: nat, numCols: nat, rowId: nat, colId: nat, v: i32)
    requires |cells| == numRows * numCols && rowId < numRows && colId < numCols
    ensures Slot(numCols, rowId, colId) < |cells|
    ensures Field(cells[Slot(numCols, rowId, colId) := v], numCols, rowId, colId) == v
    ensures forall r: nat, c: nat | r < numRows && c < numCols && (r, c) != (rowId, colId) ::
              Field(cells[Slot(numCols, rowId, colId) := v], numCols, r, c) == Field(cells, numCols, r, c)
  {
    SlotInBounds(numRows, numCols, rowId, colId);
    var after := cells[Slot(numCols, rowId, colId) := v];
    forall r: nat, c: nat | r < numRows && c < numCols && (r, c) != (rowId, colId)
      ensures Field(after, numCols, r, c) == Field(cells, numCols, r, c)
    {
      SlotInBounds(numRows, numCols, r, c);
      if Slot(numCols, r, c) == Slot(numCols, rowId, colId) {
        SlotInjective(numCols, r, c, rowId, colId);
      }
    }
  }

  /** Writing at (rowId, colId) leaves any other valid field (r, c) as it was. */
  lemma FieldAfterWriteElsewhere(cells: seq<i32>, numCols: nat, rowId: nat, colId: nat, v: i32, r: nat, c: nat)
    requires Slot(numCols, rowId, colId) < |cells| && colId < numCols && c < numCols && (r, c) != (rowId, colId)
    ensures Field(cells[Slot(numCols, rowId, colId) := v], numCols, r, c) == Field(cells, numCols, r, c)
  {
    if Slot(numCols, r, c) == Slot(numCols, rowId, colId) {
      SlotInjective(numCols, r, c, rowId, colId);
    }
  }

  /**
   * Two buffers of numRows * numCols fields that agree on every valid field
   * are the same buffer: the slots of the valid fields cover the buffer.
   */
  lemma CellsDeterminedByFields(a: seq<i32>, b: seq<i32>, numRows: nat, numCols: nat)
    requires |a| == numRows * numCols && |b| == numRows * numCols
    requires forall r: nat, c: nat | r < numRows && c < numCols :: Field(a, numCols, r, c) == Field(b, numCols, r, c)
    ensures a == b
  {
    forall i | 0 <= i < |a|
      ensures a[i] == b[i]
    {
      var r, c := i / numCols, i % numCols;
      assert Slot(numCols, r, c) == i;
      if numRows <= r {
        MulMonotone(numRows, r, numCols);
      }
      assert Field(a, numCols, r, c) == Field(b, numCols, r, c);
    }
  }
}
