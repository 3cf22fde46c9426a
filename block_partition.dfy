/** The block row partition of matrix_multiply in mpi4.py: the rows of A are
    split into size contiguous blocks, the first A_rows % size of them one row
    longer than the rest. Each rank computes its own block from its rank; the
    root recomputes every other rank's block with a second formula when it
    gathers the results. */
module BlockPartition {

  /** Rows start .. end-1 (start_row, end_row). */
  datatype Block = Block(start: nat, end: nat)

  /** The block rank computes for itself: rows_per_process = A_rows // size,
      extra_rows = A_rows % size, and then start_row / end_row by the two
      branches on rank < extra_rows. The block has rows_per_process rows,
      plus one for the first extra_rows ranks. */
  function RankBlock(aRows: nat, size: nat, rank: nat): (blk: Block)
    requires size >= 1
    ensures blk.start <= blk.end
    ensures blk.end - blk.start == aRows / size + (if rank < aRows % size then 1 else 0)
  {
    var rowsPerProcess: nat, extraRows: nat := aRows / size, aRows % size;
    if rank < extraRows then
      var startRow := rank * (rowsPerProcess + 1);
      Block(startRow, startRow + rowsPerProcess + 1)
    else
      var startRow := rank * rowsPerProcess + extraRows;
      Block(startRow, startRow + rowsPerProcess)
  }

  function Min(a: nat, b: nat): nat
  {
    if a < b then a else b
  }

  /** The block the root writes for rank i while gathering: proc_rows rows
      from proc_start_row = i * rows_per_process + min(i, extra_rows). This
      second formula gives exactly the start_row and end_row - start_row that
      rank i computed for itself. */
  function GatherBlock(aRows: nat, size: nat, i: nat): (blk: Block)
    requires size >= 1
    ensures blk == RankBlock(aRows, size, i)
  {
    var rowsPerProcess: nat, extraRows: nat := aRows / size, aRows % size;
    MulAddOne(i, rowsPerProcess);
    var procRows := if i < extraRows then rowsPerProcess + 1 else rowsPerProcess;
    var offset: nat := i * rowsPerProcess;
    var procStartRow := offset + Min(i, extraRows);
    Block(procStartRow, procStartRow + procRows)
  }

  lemma MulAddOne(a: nat, b: nat)
    ensures a * (b + 1) == a * b + a
  {
  }

  /** Rank rank's block starts at rank * rows_per_process + min(rank, extra_rows)
      and has rows_per_process rows, plus one when rank < extra_rows. */
  lemma RankBlockShape(aRows: nat, size: nat, rank: nat)
    requires size >= 1
    ensures RankBlock(aRows, size, rank).start == rank * (aRows / size) + Min(rank, aRows % size)
    ensures RankBlock(aRows, size, rank).end - RankBlock(aRows, size, rank).start
            == aRows / size + (if rank < aRows % size then 1 else 0)
    ensures RankBlock(aRows, size, rank).start <= RankBlock(aRows, size, rank).end
  {
    MulAddOne(rank, aRows / size);
  }

  /** One step of the root's gather: the block it writes for rank i is rank
      i's own block, it lies within the rows, and the next block starts where
      it ends. */
  lemma GatherStep(aRows: nat, size: nat, i: nat)
    requires size >= 1 && i < size
    ensures GatherBlock(aRows, size, i) == RankBlock(aRows, size, i)
    ensures RankBlock(aRows, size, i).end == RankBlock(aRows, size, i + 1).start
    ensures RankBlock(aRows, size, i).start <= RankBlock(aRows, size, i).end <= aRows
  {
    BlocksAreContiguous(aRows, size, i);
    BlockWithinRows(aRows, size, i);
  }

  /** Any two blocks differ in size by at most one row. */
  lemma BlockSizesBalanced(aRows: nat, size: nat, r1: nat, r2: nat)
    requires size >= 1
    ensures var b1, b2 := RankBlock(aRows, size, r1), RankBlock(aRows, size, r2);
            b1.end - b1.start <= b2.end - b2.start + 1
  {
    RankBlockShape(aRows, size, r1);
    RankBlockShape(aRows, size, r2);
  }

  /** Blocks follow each other: block 0 starts at row 0 and each block ends
      where the next one starts. */
  lemma BlocksAreContiguous(aRows: nat, size: nat, rank: nat)
    requires size >= 1
    ensures RankBlock(aRows, size, 0).start == 0
    ensures RankBlock(aRows, size, rank).end == RankBlock(aRows, size, rank + 1).start
  {
    RankBlockShape(aRows, size, rank);
    RankBlockShape(aRows, size, rank + 1);
    MulAddOne(rank, aRows / size);
    assert (rank + 1) * (aRows / size) == rank * (aRows / size) + aRows / size;
  }

  /** The last block ends at the last row. */
  lemma LastBlockEndsAtRows(aRows: nat, size: nat)
    requires size >= 1
    ensures RankBlock(aRows, size, size - 1).end == aRows
  {
    RankBlockShape(aRows, size, size - 1);
    MulAddOne(size - 1, aRows / size);
    assert (size - 1) * (aRows / size) + aRows / size == size * (aRows / size);
    assert aRows % size <= size - 1;
  }

  /** Block ends never decrease with the rank. */
  lemma {:induction false} BlockEndsMonotone(aRows: nat, size: nat, r1: nat, r2: nat)
    requires size >= 1 && r1 <= r2
    ensures RankBlock(aRows, size, r1).end <= RankBlock(aRows, size, r2).start ||
            (r1 == r2 && RankBlock(aRows, size, r1).start <= RankBlock(aRows, size, r2).end)
    decreases r2 - r1
  {
    RankBlockShape(aRows, size, r1);
    if r1 < r2 {
      BlocksAreContiguous(aRows, size, r1);
      if r1 + 1 < r2 {
        BlockEndsMonotone(aRows, size, r1 + 1, r2);
        RankBlockShape(aRows, size, r1 + 1);
      }
    }
  }

  /** Every rank's block lies within the rows of A. */
  lemma BlockWithinRows(aRows: nat, size: nat, rank: nat)
    requires size >= 1 && rank < size
    ensures RankBlock(aRows, size, rank).start <= RankBlock(aRows, size, rank).end <= aRows
  {
    RankBlockShape(aRows, size, rank);
    BlockEndsMonotone(aRows, size, rank, size - 1);
    RankBlockShape(aRows, size, size - 1);
    LastBlockEndsAtRows(aRows, size);
  }

  /** The rank whose block holds a given row. */
  function OwningRank(aRows: nat, size: nat, row: nat, from: nat): (rank: nat)
    requires size >= 1 && from < size && row < aRows
    requires RankBlock(aRows, size, from).start <= row
    ensures from <= rank < size
    ensures RankBlock(aRows, size, rank).start <= row < RankBlock(aRows, size, rank).end
    decreases size - from
  {
    LastBlockEndsAtRows(aRows, size);
    if row < RankBlock(aRows, size, from).end then from
    else
      BlocksAreContiguous(aRows, size, from);
      OwningRank(aRows, size, row, from + 1)
  }

  /** Every row of A lies in exactly one rank's block. */
  lemma EachRowInExactlyOneBlock(aRows: nat, size: nat, row: nat)
    requires size >= 1 && row < aRows
    ensures exists rank :: 0 <= rank < size &&
              RankBlock(aRows, size, rank).start <= row < RankBlock(aRows, size, rank).end
    ensures forall r1, r2 ::
              (0 <= r1 < size && 0 <= r2 < size &&
               RankBlock(aRows, size, r1).start <= row < RankBlock(aRows, size, r1).end &&
               RankBlock(aRows, size, r2).start <= row < RankBlock(aRows, size, r2).end) ==> r1 == r2
  {
    BlocksAreContiguous(aRows, size, 0);
    var rank := OwningRank(aRows, size, row, 0);
    forall r1, r2 | 0 <= r1 < size && 0 <= r2 < size &&
              RankBlock(aRows, size, r1).start <= row < RankBlock(aRows, size, r1).end &&
              RankBlock(aRows, size, r2).start <= row < RankBlock(aRows, size, r2).end
      ensures r1 == r2
    {
      if r1 < r2 {
        BlockEndsMonotone(aRows, size, r1, r2);
      } else if r2 < r1 {
        BlockEndsMonotone(aRows, size, r2, r1);
      }
    }
  }
}
