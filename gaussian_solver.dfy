/** solve_gaussian_elimination of mpi5.py, run in place on the arrays A and b.

    The process group is simulated sequentially. Every rank keeps a full copy
    of A and b, but only the owner of row j ever writes row j or b[j], and only
    rows a rank owns are ever read for its own updates; so one shared copy in
    which row j holds its owner's version of row j is exactly what the ranks
    compute together. A broadcast is the owner's value handed to every rank. */
module GaussianSolver {
  import opened LinearAlgebra
  import opened RowOwnership
  import opened GaussianSpec

  /** The whole of A, as a value. */
  ghost function Rows(A: array2<real>): (M: Matrix)
    reads A
    ensures IsMatrix(M, A.Length0, A.Length1)
  {
    seq(A.Length0, j requires 0 <= j < A.Length0 reads A => Row(A, j))
  }

  /** The system held in A and b, as a value. */
  ghost function SystemOf(A: array2<real>, b: array<real>): System
    reads A, b
  {
    System(Rows(A), b[..])
  }

  /** The shapes the solver relies on: A is n x n with n = len(b). */
  predicate Square(A: array2<real>, b: array<real>)
  {
    A.Length0 == A.Length1 == b.Length
  }

  // ---------------------------------------------------------------------
  // Forward elimination
  // ---------------------------------------------------------------------

  /** The owner of row i computes pivot_row = A[i] / A[i, i] and
      pivot_val = b[i] / A[i, i]. */
  method NormalizePivotRow(A: array2<real>, b: array<real>, i: nat) returns (pivotRow: Vector, pivotVal: real)
    requires Square(A, b) && i < b.Length && A[i, i] != 0.0
    ensures pivotRow == PivotRow(Rows(A), b.Length, i)
    ensures pivotVal == PivotVal(SystemOf(A, b), i)
  {
    var n := b.Length;
    pivotRow := [];
    for k := 0 to n
      invariant |pivotRow| == k
      invariant forall c :: 0 <= c < k ==> pivotRow[c] == A[i, c] / A[i, i]
    {
      pivotRow := pivotRow + [A[i, k] / A[i, i]];
    }
    assert Rows(A)[i] == Row(A, i);
    pivotVal := b[i] / A[i, i];
  }

  /** A[j] -= pivotRow * f, entry by entry; no other row changes. */
  method SubtractScaledRow(A: array2<real>, j: nat, pivotRow: Vector, f: real)
    requires j < A.Length0 && |pivotRow| == A.Length1
    modifies A
    ensures Row(A, j) == SubScaled(old(Row(A, j)), pivotRow, f)
    ensures forall r :: 0 <= r < A.Length0 && r != j ==> Row(A, r) == old(Row(A, r))
  {
    for k := 0 to A.Length1
      invariant forall c :: 0 <= c < k ==> A[j, c] == old(A[j, c]) - pivotRow[c] * f
      invariant forall c :: k <= c < A.Length1 ==> A[j, c] == old(A[j, c])
      invariant forall r, c :: 0 <= r < A.Length0 && r != j && 0 <= c < A.Length1 ==> A[r, c] == old(A[r, c])
    {
      A[j, k] := A[j, k] - pivotRow[k] * f;
    }
    assert forall c :: 0 <= c < A.Length1 ==> Row(A, j)[c] == SubScaled(old(Row(A, j)), pivotRow, f)[c];
    forall r | 0 <= r < A.Length0 && r != j ensures Row(A, r) == old(Row(A, r)) {
      assert forall c :: 0 <= c < A.Length1 ==> Row(A, r)[c] == old(Row(A, r))[c];
    }
  }

  /** The update of one row j in forward step i: A[j] -= pivot_row * A[j, i],
      then b[j] -= pivot_val * A[j, i], the second reading the A[j, i] that
      the first has just written. Nothing else changes. */
  method EliminateRow(A: array2<real>, b: array<real>, i: nat, j: nat, pivotRow: Vector, pivotVal: real)
    requires Square(A, b) && i < b.Length && j < b.Length && |pivotRow| == b.Length
    modifies A, b
    ensures Row(A, j) == EliminatedRow(old(Row(A, j)), pivotRow, i)
    ensures b[j] == EliminatedRhs(old(b[j]), pivotVal, old(Row(A, j)), pivotRow, i)
    ensures forall r :: 0 <= r < b.Length && r != j ==> Row(A, r) == old(Row(A, r)) && b[r] == old(b[r])
  {
    assert A[j, i] == Row(A, j)[i];
    SubtractScaledRow(A, j, pivotRow, A[j, i]);
    assert A[j, i] == Row(A, j)[i];
    b[j] := b[j] - pivotVal * A[j, i];
  }

  /** One rank's share of forward step i: it updates the rows j > i that it
      owns, A[j] -= pivot_row * A[j, i] and then b[j] -= pivot_val * A[j, i],
      the second reading the A[j, i] the first has just written. Rows at or
      above i and rows other ranks own are left as they were. */
  method EliminateOwnedRows(A: array2<real>, b: array<real>, size: nat, rank: nat, i: nat,
                            pivotRow: Vector, pivotVal: real)
    requires Square(A, b) && size >= 1 && i < b.Length && |pivotRow| == b.Length
    modifies A, b
    ensures forall j :: 0 <= j < b.Length ==>
              Row(A, j) == if i < j && IsOwner(j, size, rank)
                           then EliminatedRow(old(Row(A, j)), pivotRow, i) else old(Row(A, j))
    ensures forall j :: 0 <= j < b.Length ==>
              b[j] == if i < j && IsOwner(j, size, rank)
                      then EliminatedRhs(old(b[j]), pivotVal, old(Row(A, j)), pivotRow, i) else old(b[j])
  {
    var n := b.Length;
    for j := i + 1 to n
      invariant forall r :: 0 <= r < n ==>
                  Row(A, r) == if i < r < j && IsOwner(r, size, rank)
                               then EliminatedRow(old(Row(A, r)), pivotRow, i) else old(Row(A, r))
      invariant forall r :: 0 <= r < n ==>
                  b[r] == if i < r < j && IsOwner(r, size, rank)
                          then EliminatedRhs(old(b[r]), pivotVal, old(Row(A, r)), pivotRow, i) else old(b[r])
    {
      if j % size == rank {
        EliminateRow(A, b, i, j, pivotRow, pivotVal);
      }
    }
  }

  /** Step i with every rank taking part: rank Owner(i) normalises row i and
      broadcasts it; each rank then eliminates below i in the rows it owns. */
  method ForwardStepAllRanks(A: array2<real>, b: array<real>, size: nat, i: nat)
    requires Square(A, b) && size >= 1 && i < b.Length && A[i, i] != 0.0
    modifies A, b
    ensures Rows(A) == ForwardStep(old(SystemOf(A, b)), i).A
    ensures b[..] == ForwardStep(old(SystemOf(A, b)), i).b
  {
    var n := b.Length;
    ghost var start := SystemOf(A, b);
    assert start.A[i][i] == A[i, i];
    var pivotRow, pivotVal := NormalizePivotRow(A, b, i);
    for rank := 0 to size
      invariant forall j :: i < j < n && Owner(j, size) < rank ==>
                  Row(A, j) == EliminatedRow(start.A[j], pivotRow, i) &&
                  b[j] == EliminatedRhs(start.b[j], pivotVal, start.A[j], pivotRow, i)
      invariant forall j :: 0 <= j < n && !(i < j && Owner(j, size) < rank) ==>
                  Row(A, j) == start.A[j] && b[j] == start.b[j]
    {
      EliminateOwnedRows(A, b, size, rank, i, pivotRow, pivotVal);
    }
    ghost var next := ForwardStep(start, i);
    forall j | 0 <= j < n
      ensures Rows(A)[j] == next.A[j] && b[..][j] == next.b[j]
    {
      ForwardStepAt(start, i, j);
    }
  }

  /** The forward-elimination loop of the solver, steps i = 0 .. n-1. */
  method ForwardElimination(A: array2<real>, b: array<real>, size: nat)
    requires Square(A, b) && size >= 1
    requires PivotsNonzero(SystemOf(A, b), b.Length)
    modifies A, b
    ensures PivotsNonzero(old(SystemOf(A, b)), b.Length)
    ensures Rows(A) == Forward(old(SystemOf(A, b)), b.Length).A
    ensures b[..] == Forward(old(SystemOf(A, b)), b.Length).b
  {
    var n := b.Length;
    ghost var s := SystemOf(A, b);
    for i := 0 to n
      invariant PivotsNonzero(s, i)
      invariant Rows(A) == Forward(s, i).A && b[..] == Forward(s, i).b
    {
      ForwardNext(s, i);
      ghost var t := Forward(s, i);
      assert SystemOf(A, b) == t;
      assert A[i, i] == t.A[i][i];
      ForwardStepAllRanks(A, b, size, i);
    }
  }

  // ---------------------------------------------------------------------
  // Back substitution
  // ---------------------------------------------------------------------

  /** One rank's share of back-substitution step i: b[j] -= A[j, i] * x_i for
      the rows j < i that it owns. A is only read. */
  method SubstituteOwnedRows(A: array2<real>, b: array<real>, size: nat, rank: nat, i: nat, xi: real)
    requires Square(A, b) && size >= 1 && i < b.Length
    modifies b
    ensures forall j :: 0 <= j < b.Length ==>
              b[j] == if j < i && IsOwner(j, size, rank) then old(b[j]) - A[j, i] * xi else old(b[j])
  {
    for j := 0 to i
      invariant forall r :: 0 <= r < b.Length ==>
                  b[r] == if r < j && IsOwner(r, size, rank) then old(b[r]) - A[r, i] * xi else old(b[r])
    {
      if j % size == rank {
        b[j] := b[j] - A[j, i] * xi;
      }
    }
  }

  /** Back-substitution step i with every rank taking part: the owner of
      row i sets x[i] = b[i] / A[i, i] and broadcasts it; each rank then
      updates the rows j < i that it owns. */
  method BackStepAllRanks(A: array2<real>, b: array<real>, x: array<real>, size: nat, i: nat)
    requires Square(A, b) && size >= 1 && i < b.Length && x.Length == b.Length && A[i, i] != 0.0
    requires x != b
    modifies b, x
    ensures Substitution(b[..], x[..]) == BackStep(Rows(A), old(Substitution(b[..], x[..])), i)
  {
    var n := b.Length;
    ghost var M, before := Rows(A), Substitution(b[..], x[..]);
    assert A[i, i] == M[i][i];
    x[i] := b[i] / A[i, i];
    assert x[i] == before.b[i] / M[i][i];
    for rank := 0 to size
      invariant x[..] == before.x[i := before.b[i] / M[i][i]]
      invariant forall j :: 0 <= j < n ==>
                  b[j] == if j < i && Owner(j, size) < rank then before.b[j] - A[j, i] * x[i] else before.b[j]
    {
      SubstituteOwnedRows(A, b, size, rank, i, x[i]);
    }
    ghost var next := BackStep(M, before, i);
    forall j | 0 <= j < n ensures b[..][j] == next.b[j] {
      assert A[j, i] == M[j][i];
    }
    assert b[..] == next.b;
  }

  /** The back-substitution loop, i = n-1 down to 0, over x that starts all
      zero; when step i begins, x[k] is still zero for every k < i. */
  method BackSubstitution(A: array2<real>, b: array<real>, size: nat) returns (x: array<real>)
    requires Square(A, b) && size >= 1
    requires DiagonalNonzero(Rows(A), b.Length)
    modifies b
    ensures fresh(x) && x.Length == b.Length
    ensures x[..] == BackFrom(Rows(A), old(b[..]), 0).x
    ensures b[..] == BackFrom(Rows(A), old(b[..]), 0).b
  {
    var n := b.Length;
    ghost var M, b0 := Rows(A), b[..];
    x := new real[n](k => 0.0);
    assert x[..] == Zeros(n);
    var i := n;
    while i > 0
      invariant 0 <= i <= n && Rows(A) == M
      invariant forall k :: 0 <= k < i ==> x[k] == 0.0
      invariant Substitution(b[..], x[..]) == BackFrom(M, b0, i)
    {
      i := i - 1;
      assert A[i, i] == M[i][i];
      BackStepAllRanks(A, b, x, size, i);
    }
  }

  /** solve_gaussian_elimination: forward elimination, then back
      substitution; A and b are updated in place and x is returned. The
      result is the same for every group size. */
  method Solve(A: array2<real>, b: array<real>, size: nat) returns (x: array<real>)
    requires Square(A, b) && size >= 1
    requires PivotsNonzero(SystemOf(A, b), b.Length)
    modifies A, b
    ensures fresh(x)
    ensures PivotsNonzero(old(SystemOf(A, b)), b.Length)
    ensures x[..] == Solution(old(SystemOf(A, b)))
    ensures Rows(A) == Forward(old(SystemOf(A, b)), b.Length).A
    ensures b[..] == FinalState(old(SystemOf(A, b))).b
  {
    ghost var s := SystemOf(A, b);
    ForwardElimination(A, b, size);
    ForwardDiagonalNonzero(s);
    x := BackSubstitution(A, b, size);
  }
}
