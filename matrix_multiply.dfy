/** matrix_multiply of mpi4.py: every rank multiplies its own block of rows of
    A by B, and the root (rank 0) gathers the blocks into C, writing each one
    at the offset it recomputes for the sending rank. The message passing is
    simulated: the block rank i sends is its local product, computed before
    the gather starts. */
module MatrixMultiply {
  import opened LinearAlgebra
  import opened BlockPartition

  /** The two assertion failures of the shape checks. */
  datatype ShapeError =
    | WrongSizes       // A_cols != B_rows
    | ResultWrongSize  // C is not A_rows x B_cols

  datatype Outcome = Done | Failed(error: ShapeError)

  /** Entry (i, j) of the product A·B over exact arithmetic; this stands in
      for np.matmul. */
  function ProductEntry(A: array2<real>, B: array2<real>, i: nat, j: nat): real
    requires A.Length1 == B.Length0 && i < A.Length0 && j < B.Length1
    reads A, B
  {
    Dot(Row(A, i), Column(B, j))
  }

  /** When column j of B is the j-th unit vector (as in the identity), entry
      (i, j) of A·B is A[i, j]. */
  lemma ProductWithUnitColumn(A: array2<real>, B: array2<real>, i: nat, j: nat)
    requires A.Length1 == B.Length0 && i < A.Length0 && j < B.Length1 && j < B.Length0
    requires forall k :: 0 <= k < B.Length0 ==> B[k, j] == if k == j then 1.0 else 0.0
    ensures ProductEntry(A, B, i, j) == A[i, j]
  {
    DotSingleRight(Row(A, i), Column(B, j), j);
  }

  /** np.matmul(A[blk.start:blk.end, :], B). */
  function LocalProduct(A: array2<real>, B: array2<real>, blk: Block): (m: Matrix)
    requires A.Length1 == B.Length0 && blk.start <= blk.end <= A.Length0
    reads A, B
    ensures IsMatrix(m, blk.end - blk.start, B.Length1)
  {
    seq(blk.end - blk.start, k requires 0 <= k < blk.end - blk.start reads A, B =>
      seq(B.Length1, j requires 0 <= j < B.Length1 reads A, B => ProductEntry(A, B, blk.start + k, j)))
  }

  /** local_C of rank rank: the product of its own block of rows with B. */
  function RankProduct(A: array2<real>, B: array2<real>, size: nat, rank: nat): (m: Matrix)
    requires A.Length1 == B.Length0 && size >= 1 && rank < size
    reads A, B
    ensures var blk := RankBlock(A.Length0, size, rank);
            blk.start <= blk.end <= A.Length0 &&
            IsMatrix(m, blk.end - blk.start, B.Length1) &&
            forall k, j :: 0 <= k < blk.end - blk.start && 0 <= j < B.Length1 ==>
              m[k][j] == ProductEntry(A, B, blk.start + k, j)
  {
    BlockWithinRows(A.Length0, size, rank);
    LocalProduct(A, B, RankBlock(A.Length0, size, rank))
  }

  /** C[start:start+rows, :] = block. */
  method WriteRows(C: array2<real>, start: nat, rows: nat, block: Matrix)
    requires start + rows <= C.Length0 && IsMatrix(block, rows, C.Length1)
    modifies C
    ensures forall r, c :: start <= r < start + rows && 0 <= c < C.Length1 ==> C[r, c] == block[r - start][c]
    ensures forall r, c :: 0 <= r < C.Length0 && !(start <= r < start + rows) && 0 <= c < C.Length1 ==>
              C[r, c] == old(C[r, c])
  {
    for k := 0 to rows
      invariant forall r, c :: 0 <= r < C.Length0 && 0 <= c < C.Length1 ==>
                  C[r, c] == if start <= r < start + k then block[r - start][c] else old(C[r, c])
    {
      for c := 0 to C.Length1
        invariant forall r, c' :: 0 <= r < C.Length0 && 0 <= c' < C.Length1 ==>
                    C[r, c'] == if start <= r < start + k || (r == start + k && c' < c)
                                then block[r - start][c'] else old(C[r, c'])
      {
        C[start + k, c] := block[k][c];
      }
    }
  }

  /** The blocks every rank computed, as the root receives them: block rank
      holds rows RankBlock(rank) of product. */
  predicate BlocksOfProduct(localC: seq<Matrix>, product: Matrix, aRows: nat, cols: nat, size: nat)
    requires size >= 1
  {
    |localC| == size && IsMatrix(product, aRows, cols) &&
    forall rank :: 0 <= rank < size ==>
      var blk := RankBlock(aRows, size, rank);
      blk.start <= blk.end <= aRows && IsMatrix(localC[rank], blk.end - blk.start, cols) &&
      forall k, c :: 0 <= k < blk.end - blk.start && 0 <= c < cols ==>
        localC[rank][k][c] == product[blk.start + k][c]
  }

  /** The block of one rank, taken out of BlocksOfProduct. */
  lemma BlockOfProduct(localC: seq<Matrix>, product: Matrix, aRows: nat, cols: nat, size: nat, rank: nat)
    requires size >= 1 && rank < size && BlocksOfProduct(localC, product, aRows, cols, size)
    ensures var blk := RankBlock(aRows, size, rank);
            blk.start <= blk.end <= aRows && IsMatrix(localC[rank], blk.end - blk.start, cols) &&
            forall k, c :: 0 <= k < blk.end - blk.start && 0 <= c < cols ==>
              localC[rank][k][c] == product[blk.start + k][c]
  {
  }

  /** C[start:start+rows, :] = block for the block of rank, which holds
      those rows of product; every other row is left as it was. */
  method ReceiveBlock(C: array2<real>, localC: seq<Matrix>, ghost product: Matrix, size: nat, rank: nat,
                      start: nat, rows: nat)
    requires size >= 1 && rank < size && BlocksOfProduct(localC, product, C.Length0, C.Length1, size)
    requires start == RankBlock(C.Length0, size, rank).start
    requires start + rows == RankBlock(C.Length0, size, rank).end
    modifies C
    ensures forall r, c :: start <= r < start + rows && 0 <= c < C.Length1 ==> C[r, c] == product[r][c]
    ensures forall r, c :: 0 <= r < C.Length0 && !(start <= r < start + rows) && 0 <= c < C.Length1 ==>
              C[r, c] == old(C[r, c])
  {
    BlockOfProduct(localC, product, C.Length0, C.Length1, size, rank);
    WriteRows(C, start, rows, localC[rank]);
    forall r, c | start <= r < start + rows && 0 <= c < C.Length1
      ensures C[r, c] == product[r][c]
    {
      assert C[r, c] == localC[rank][r - start][c];
    }
  }

  /** Multiplying each rank's block of rows of A by B gives exactly the
      matching rows of A·B: the row partition is a valid way to split the
      product. */
  lemma LocalProductsAreBlocksOfProduct(A: array2<real>, B: array2<real>, size: nat, localC: seq<Matrix>)
    requires A.Length1 == B.Length0 && size >= 1 && |localC| == size
    requires forall rank :: 0 <= rank < size ==> localC[rank] == RankProduct(A, B, size, rank)
    ensures BlocksOfProduct(localC, LocalProduct(A, B, Block(0, A.Length0)), A.Length0, B.Length1, size)
  {
    var product := LocalProduct(A, B, Block(0, A.Length0));
    forall rank | 0 <= rank < size
      ensures var blk := RankBlock(A.Length0, size, rank);
              blk.start <= blk.end <= A.Length0 && IsMatrix(localC[rank], blk.end - blk.start, B.Length1) &&
              forall k, c :: 0 <= k < blk.end - blk.start && 0 <= c < B.Length1 ==>
                localC[rank][k][c] == product[blk.start + k][c]
    {
      var blk := RankBlock(A.Length0, size, rank);
      var m := RankProduct(A, B, size, rank);
      assert localC[rank] == m;
      forall k, c | 0 <= k < blk.end - blk.start && 0 <= c < B.Length1
        ensures m[k][c] == product[blk.start + k][c]
      {
        assert m[k][c] == ProductEntry(A, B, blk.start + k, c);
      }
    }
  }

  /** Lines 36-44 at the root: its own block at start_row, then the block
      received from each rank i >= 1 at proc_start_row. Afterwards C holds
      every row of the product. */
  method GatherAtRoot(C: array2<real>, localC: seq<Matrix>, ghost product: Matrix, size: nat)
    requires size >= 1 && BlocksOfProduct(localC, product, C.Length0, C.Length1, size)
    modifies C
    ensures forall r, c :: 0 <= r < C.Length0 && 0 <= c < C.Length1 ==> C[r, c] == product[r][c]
  {
    var aRows := C.Length0;
    var rowsPerProcess: nat, extraRows: nat := aRows / size, aRows % size;
    var own := RankBlock(aRows, size, 0);
    GatherStep(aRows, size, 0);
    ReceiveBlock(C, localC, product, size, 0, own.start, own.end - own.start);
    BlocksAreContiguous(aRows, size, 0);
    ghost var written := own.end;
    for i := 1 to size
      invariant written == RankBlock(aRows, size, i).start <= aRows
      invariant forall r, c :: 0 <= r < written && 0 <= c < C.Length1 ==> C[r, c] == product[r][c]
      invariant forall r, c :: written <= r < C.Length0 && 0 <= c < C.Length1 ==> C[r, c] == old(C[r, c])
    {
      var procRows := if i < extraRows then rowsPerProcess + 1 else rowsPerProcess;
      var procStartRow := i * rowsPerProcess + Min(i, extraRows);
      GatherStep(aRows, size, i);
      ReceiveBlock(C, localC, product, size, i, procStartRow, procRows);
      written := written + procRows;
    }
    GatherStep(aRows, size, size - 1);
    LastBlockEndsAtRows(aRows, size);
  }

  /** The root's side of matrix_multiply: the shape checks, every rank's
      local product, then the gather. On success C holds A·B, taken from A
      and B as they were on entry (each rank multiplies before the gather,
      so C may even share storage with A or B). */
  method MatrixMultiplyAtRoot(A: array2<real>, B: array2<real>, C: array2<real>, size: nat)
    returns (outcome: Outcome)
    requires size >= 1
    modifies C
    ensures A.Length1 != B.Length0 ==> outcome == Failed(WrongSizes)
    ensures A.Length1 == B.Length0 && !(C.Length0 == A.Length0 && C.Length1 == B.Length1) ==>
              outcome == Failed(ResultWrongSize)
    ensures outcome == Done <==>
              A.Length1 == B.Length0 && C.Length0 == A.Length0 && C.Length1 == B.Length1
    ensures outcome != Done ==> unchanged(C)
    ensures outcome == Done ==>
              forall i, j :: 0 <= i < C.Length0 && 0 <= j < C.Length1 ==>
                C[i, j] == old(ProductEntry(A, B, i, j))
  {
    if A.Length1 != B.Length0 {
      return Failed(WrongSizes);
    }
    if !(C.Length0 == A.Length0 && C.Length1 == B.Length1) {
      return Failed(ResultWrongSize);
    }
    // local_C of every rank, computed before any block is gathered
    var localC := seq(size, rank requires 0 <= rank < size reads A, B => RankProduct(A, B, size, rank));
    ghost var product := LocalProduct(A, B, Block(0, A.Length0));
    assert forall i, j :: 0 <= i < C.Length0 && 0 <= j < C.Length1 ==>
             product[i][j] == ProductEntry(A, B, i, j);
    LocalProductsAreBlocksOfProduct(A, B, size, localC);
    GatherAtRoot(C, localC, product, size);
    return Done;
  }
}
