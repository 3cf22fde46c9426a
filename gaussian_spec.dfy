/** The row-cyclic Gaussian elimination solver of mpi5.py, stated on values.
    Every rank holds the whole system; the owner of row j is the only rank
    that writes row j, so the system seen through the owners' rows evolves
    exactly as described here, whatever the number of ranks. */
module GaussianSpec {
  import opened LinearAlgebra

  /** The system A x = b, with n = |b|. */
  datatype System = System(A: Matrix, b: Vector)

  /** A is n x n where n = |b| (the solver takes n from b). */
  predicate WellShaped(s: System)
  {
    IsMatrix(s.A, |s.b|, |s.b|)
  }

  predicate DiagonalNonzero(A: Matrix, n: nat)
    requires IsMatrix(A, n, n)
  {
    forall i :: 0 <= i < n ==> A[i][i] != 0.0
  }

  // ---------------------------------------------------------------------
  // Forward elimination
  // ---------------------------------------------------------------------

  /** The broadcast pivot row: row i divided by its pivot. */
  function PivotRow(A: Matrix, n: nat, i: nat): (r: Vector)
    requires IsMatrix(A, n, n) && i < n && A[i][i] != 0.0
    ensures |r| == n && r[i] == 1.0
  {
    Scaled(A[i], A[i][i])
  }

  /** The broadcast pivot value: b[i] divided by the pivot. */
  function PivotVal(s: System, i: nat): (v: real)
    requires WellShaped(s) && i < |s.b| && s.A[i][i] != 0.0
    ensures v * s.A[i][i] == s.b[i]
  {
    s.b[i] / s.A[i][i]
  }

  /** Row j after a rank subtracts pivot_row * A[j, i] from it. */
  function EliminatedRow(row: Vector, pivotRow: Vector, i: nat): (r: Vector)
    requires |row| == |pivotRow| && i < |row|
    ensures |r| == |row|
  {
    SubScaled(row, pivotRow, row[i])
  }

  /** b[j] after a rank subtracts pivot_val * A[j, i], reading A[j, i] AFTER
      row j has been updated, as the source does. Since the pivot row has a 1
      at position i, that entry is already zero and b[j] does not change. */
  function EliminatedRhs(bj: real, pivotVal: real, row: Vector, pivotRow: Vector, i: nat): (r: real)
    requires |row| == |pivotRow| && i < |row|
    ensures pivotRow[i] == 1.0 ==> r == bj
  {
    bj - pivotVal * EliminatedRow(row, pivotRow, i)[i]
  }

  /** The matrix after forward step i: every row below i is eliminated. */
  function EliminateBelow(A: Matrix, n: nat, i: nat): (r: Matrix)
    requires IsMatrix(A, n, n) && i < n && A[i][i] != 0.0
    ensures IsMatrix(r, n, n)
  {
    var pivotRow := PivotRow(A, n, i);
    seq(n, j requires 0 <= j < n => if i < j then EliminatedRow(A[j], pivotRow, i) else A[j])
  }

  /** Forward step i as the source writes it. */
  function ForwardStep(s: System, i: nat): (r: System)
    requires WellShaped(s) && i < |s.b| && s.A[i][i] != 0.0
    ensures WellShaped(r) && |r.b| == |s.b|
  {
    var n := |s.b|;
    var pivotRow, pivotVal := PivotRow(s.A, n, i), PivotVal(s, i);
    System(EliminateBelow(s.A, n, i),
           seq(n, j requires 0 <= j < n =>
                 if i < j then EliminatedRhs(s.b[j], pivotVal, s.A[j], pivotRow, i) else s.b[j]))
  }

  /** The system after forward steps 0 .. k-1. */
  function Forward(s: System, k: nat): (r: System)
    requires WellShaped(s) && k <= |s.b| && PivotsNonzero(s, k)
    ensures WellShaped(r) && |r.b| == |s.b|
    decreases k, 1
  {
    if k == 0 then s else ForwardStep(Forward(s, k - 1), k - 1)
  }

  /** Every pivot used by forward steps 0 .. k-1 is nonzero when it is used. */
  predicate PivotsNonzero(s: System, k: nat)
    requires WellShaped(s) && k <= |s.b|
    decreases k, 0
  {
    k == 0 || (PivotsNonzero(s, k - 1) && Forward(s, k - 1).A[k - 1][k - 1] != 0.0)
  }

  // ---------------------------------------------------------------------
  // Back substitution
  // ---------------------------------------------------------------------

  /** The right-hand side and the solution vector during back substitution. */
  datatype Substitution = Substitution(b: Vector, x: Vector)

  /** Step i: x[i] = b[i] / A[i, i], then b[j] -= A[j, i] * x[i] for j < i. */
  function BackStep(A: Matrix, st: Substitution, i: nat): (r: Substitution)
    requires |st.b| == |st.x| && IsMatrix(A, |st.b|, |st.b|) && i < |st.b| && A[i][i] != 0.0
    ensures |r.b| == |r.x| == |st.b|
  {
    var n := |st.b|;
    var xi := st.b[i] / A[i][i];
    Substitution(seq(n, j requires 0 <= j < n => if j < i then st.b[j] - A[j][i] * xi else st.b[j]),
                 st.x[i := xi])
  }

  /** The state after steps n-1 down to i, starting from x all zero. */
  function BackFrom(A: Matrix, b: Vector, i: nat): (r: Substitution)
    requires IsMatrix(A, |b|, |b|) && i <= |b| && DiagonalNonzero(A, |b|)
    ensures |r.b| == |r.x| == |b|
    decreases |b| - i
  {
    if i == |b| then Substitution(b, Zeros(|b|)) else BackStep(A, BackFrom(A, b, i + 1), i)
  }

  /** b and x when the solver returns: forward elimination, then back
      substitution from x all zero. */
  function FinalState(s: System): (st: Substitution)
    requires WellShaped(s) && PivotsNonzero(s, |s.b|)
    ensures |st.b| == |st.x| == |s.b|
  {
    ForwardDiagonalNonzero(s);
    var f := Forward(s, |s.b|);
    BackFrom(f.A, f.b, 0)
  }

  /** The vector the solver returns. */
  function Solution(s: System): (x: Vector)
    requires WellShaped(s) && PivotsNonzero(s, |s.b|)
    ensures |x| == |s.b|
  {
    FinalState(s).x
  }

  // ---------------------------------------------------------------------
  // Properties of forward elimination
  // ---------------------------------------------------------------------

  /** Row j and b[j] after step i: eliminated when j > i, as before otherwise. */
  lemma ForwardStepAt(s: System, i: nat, j: nat)
    requires WellShaped(s) && i < |s.b| && s.A[i][i] != 0.0 && j < |s.b|
    ensures var pivotRow := PivotRow(s.A, |s.b|, i);
            ForwardStep(s, i).A[j] == (if i < j then EliminatedRow(s.A[j], pivotRow, i) else s.A[j]) &&
            ForwardStep(s, i).b[j] ==
              (if i < j then EliminatedRhs(s.b[j], PivotVal(s, i), s.A[j], pivotRow, i) else s.b[j])
  {
  }

  /** Step i zeroes column i below the diagonal, and changes no row j <= i. */
  lemma ForwardStepZeroesColumn(s: System, i: nat)
    requires WellShaped(s) && i < |s.b| && s.A[i][i] != 0.0
    ensures forall j :: i < j < |s.b| ==> ForwardStep(s, i).A[j][i] == 0.0
    ensures forall j :: 0 <= j <= i ==> ForwardStep(s, i).A[j] == s.A[j]
  {
    var n := |s.b|;
    var pivotRow := PivotRow(s.A, n, i);
    forall j | i < j < n ensures ForwardStep(s, i).A[j][i] == 0.0 {
      assert ForwardStep(s, i).A[j] == EliminatedRow(s.A[j], pivotRow, i);
    }
  }

  /** Step i leaves b as it was: A[j, i] is already zero when b[j] reads it. */
  lemma ForwardStepKeepsRhs(s: System, i: nat)
    requires WellShaped(s) && i < |s.b| && s.A[i][i] != 0.0
    ensures ForwardStep(s, i).b == s.b
  {
    var n := |s.b|;
    var pivotRow := PivotRow(s.A, n, i);
    forall j | i < j < n ensures ForwardStep(s, i).b[j] == s.b[j] {
      assert EliminatedRow(s.A[j], pivotRow, i)[i] == 0.0;
    }
  }

  /** Forward elimination never changes b. */
  lemma {:induction false} ForwardKeepsRhs(s: System, k: nat)
    requires WellShaped(s) && k <= |s.b| && PivotsNonzero(s, k)
    ensures Forward(s, k).b == s.b
  {
    if k > 0 {
      ForwardKeepsRhs(s, k - 1);
      ForwardStepKeepsRhs(Forward(s, k - 1), k - 1);
    }
  }

  /** Once step k has run, rows 0 .. k are final. */
  lemma {:induction false} ForwardRowsSettled(s: System, k: nat, m: nat)
    requires WellShaped(s) && k <= m <= |s.b| && PivotsNonzero(s, m) && PivotsNonzero(s, k)
    ensures forall j :: 0 <= j <= k && j < |s.b| ==> Forward(s, m).A[j] == Forward(s, k).A[j]
    decreases m - k
  {
    if k < m {
      ForwardRowsSettled(s, k, m - 1);
      ForwardStepZeroesColumn(Forward(s, m - 1), m - 1);
    }
  }

  /** Zeros below the diagonal in columns 0 .. i-1 survive step i, and
      step i adds column i to them. */
  lemma StepExtendsZeros(t: System, i: nat)
    requires WellShaped(t) && i < |t.b| && t.A[i][i] != 0.0
    requires forall j, c :: 0 <= c < i && c < j < |t.b| ==> t.A[j][c] == 0.0
    ensures forall j, c :: 0 <= c <= i && c < j < |t.b| ==> ForwardStep(t, i).A[j][c] == 0.0
  {
    var n := |t.b|;
    var pivotRow := PivotRow(t.A, n, i);
    var r := ForwardStep(t, i).A;
    forall j, c | 0 <= c <= i && c < j < n ensures r[j][c] == 0.0 {
      if i < j {
        assert r[j] == SubScaled(t.A[j], pivotRow, t.A[j][i]);
        if c < i {
          assert pivotRow[c] == t.A[i][c] / t.A[i][i];
        }
      } else {
        assert r[j] == t.A[j];
      }
    }
  }

  /** After steps 0 .. k-1, columns 0 .. k-1 are zero below the diagonal. */
  lemma {:induction false} ForwardZeroesBelow(s: System, k: nat)
    requires WellShaped(s) && k <= |s.b| && PivotsNonzero(s, k)
    ensures forall j, c :: 0 <= c < k && c < j < |s.b| ==> Forward(s, k).A[j][c] == 0.0
  {
    if k > 0 {
      ForwardZeroesBelow(s, k - 1);
      StepExtendsZeros(Forward(s, k - 1), k - 1);
    }
  }

  /** With nonzero pivots, forward elimination leaves A upper triangular with
      the pivots on its diagonal. */
  lemma ForwardDiagonalNonzero(s: System)
    requires WellShaped(s) && PivotsNonzero(s, |s.b|)
    ensures UpperTriangular(Forward(s, |s.b|).A, |s.b|)
    ensures DiagonalNonzero(Forward(s, |s.b|).A, |s.b|)
    ensures forall i :: 0 <= i < |s.b| ==>
              PivotsNonzero(s, i) && Forward(s, |s.b|).A[i][i] == Forward(s, i).A[i][i]
  {
    var n := |s.b|;
    ForwardZeroesBelow(s, n);
    forall i | 0 <= i < n
      ensures PivotsNonzero(s, i) && Forward(s, n).A[i][i] == Forward(s, i).A[i][i] != 0.0
    {
      PivotNonzeroAt(s, i);
    }
  }

  /** The diagonal entry i after all steps is the pivot that step i used. */
  lemma PivotNonzeroAt(s: System, i: nat)
    requires WellShaped(s) && i < |s.b| && PivotsNonzero(s, |s.b|)
    ensures PivotsNonzero(s, i) && Forward(s, |s.b|).A[i][i] == Forward(s, i).A[i][i]
    ensures Forward(s, |s.b|).A[i][i] != 0.0
  {
    ForwardNext(s, i);
    ForwardRowsSettled(s, i, |s.b|);
    assert Forward(s, |s.b|).A[i] == Forward(s, i).A[i];
  }

  /** Step i of the forward loop: its pivot is nonzero and it takes the
      system after i steps to the system after i + 1 steps. */
  lemma ForwardNext(s: System, i: nat)
    requires WellShaped(s) && i < |s.b| && PivotsNonzero(s, |s.b|)
    ensures PivotsNonzero(s, i) && PivotsNonzero(s, i + 1)
    ensures Forward(s, i).A[i][i] != 0.0
    ensures Forward(s, i + 1) == ForwardStep(Forward(s, i), i)
  {
    PivotsNonzeroPrefix(s, i + 1, |s.b|);
  }

  lemma {:induction false} PivotsNonzeroPrefix(s: System, k: nat, m: nat)
    requires WellShaped(s) && k <= m <= |s.b| && PivotsNonzero(s, m)
    ensures PivotsNonzero(s, k)
    decreases m - k
  {
    if k < m {
      PivotsNonzeroPrefix(s, k, m - 1);
    }
  }

  lemma UpperTriangularStepIsFixed(s: System, i: nat)
    requires WellShaped(s) && i < |s.b|
    requires UpperTriangular(s.A, |s.b|) && DiagonalNonzero(s.A, |s.b|)
    ensures ForwardStep(s, i) == s
  {
    var n := |s.b|;
    var pivotRow := PivotRow(s.A, n, i);
    forall j | i < j < n ensures EliminatedRow(s.A[j], pivotRow, i) == s.A[j] {
      assert s.A[j][i] == 0.0;
    }
    assert EliminateBelow(s.A, n, i) == s.A;
    ForwardStepKeepsRhs(s, i);
  }

  /** An upper-triangular system with nonzero diagonal passes through forward
      elimination unchanged. */
  lemma {:induction false} UpperTriangularIsFixed(s: System, k: nat)
    requires WellShaped(s) && k <= |s.b|
    requires UpperTriangular(s.A, |s.b|) && DiagonalNonzero(s.A, |s.b|)
    ensures PivotsNonzero(s, k) && Forward(s, k) == s
  {
    if k > 0 {
      UpperTriangularIsFixed(s, k - 1);
      assert s.A[k - 1][k - 1] != 0.0;
      assert PivotsNonzero(s, k);
      UpperTriangularStepIsFixed(s, k - 1);
      assert Forward(s, k) == ForwardStep(s, k - 1);
    }
  }

  // ---------------------------------------------------------------------
  // Properties of back substitution
  // ---------------------------------------------------------------------

  /** The invariant of back substitution once steps n-1 down to i are done
      (b0 is the right-hand side it started from): x is still zero below i;
      each b[j] below i has had the terms of x already known moved over;
      every row from i on is solved. */
  predicate Substituted(A: Matrix, b0: Vector, st: Substitution, i: nat)
    requires IsMatrix(A, |b0|, |b0|) && |st.b| == |st.x| == |b0| && i <= |b0|
  {
    (forall k :: 0 <= k < i ==> st.x[k] == 0.0) &&
    (forall j :: 0 <= j < i ==> st.b[j] == b0[j] - Dot(A[j], st.x)) &&
    (forall k :: i <= k < |b0| ==> Dot(A[k], st.x) == b0[k])
  }

  /** One back-substitution step keeps the invariant, one row further up. */
  lemma BackStepKeepsSubstituted(A: Matrix, b0: Vector, st: Substitution, i: nat)
    requires IsMatrix(A, |b0|, |b0|) && |st.b| == |st.x| == |b0| && i < |b0|
    requires DiagonalNonzero(A, |b0|) && UpperTriangular(A, |b0|)
    requires Substituted(A, b0, st, i + 1)
    ensures Substituted(A, b0, BackStep(A, st, i), i)
  {
    var n := |b0|;
    var xi := st.b[i] / A[i][i];
    var r := BackStep(A, st, i);
    assert r.x == st.x[i := xi];
    forall k | 0 <= k < n ensures Dot(A[k], r.x) == Dot(A[k], st.x) + A[k][i] * xi {
      DotUpdate(A[k], st.x, i, xi);
    }
    assert A[i][i] * xi == st.b[i];
    forall k | i < k < n ensures Dot(A[k], r.x) == b0[k] {
      assert A[k][i] == 0.0;
    }
  }

  /** Back substitution keeps the invariant at every step. */
  lemma {:induction false} BackFromInvariant(A: Matrix, b: Vector, i: nat)
    requires IsMatrix(A, |b|, |b|) && i <= |b| && DiagonalNonzero(A, |b|)
    requires UpperTriangular(A, |b|)
    ensures Substituted(A, b, BackFrom(A, b, i), i)
    decreases |b| - i
  {
    var n := |b|;
    if i == n {
      forall j | 0 <= j < n ensures Dot(A[j], Zeros(n)) == 0.0 {
        DotZeros(A[j]);
      }
    } else {
      BackFromInvariant(A, b, i + 1);
      BackStepKeepsSubstituted(A, b, BackFrom(A, b, i + 1), i);
    }
  }

  /** For upper-triangular A with nonzero diagonal, back substitution solves
      A x = b exactly. */
  lemma BackSubstitutionExact(A: Matrix, b: Vector)
    requires IsMatrix(A, |b|, |b|) && DiagonalNonzero(A, |b|) && UpperTriangular(A, |b|)
    ensures Solves(A, BackFrom(A, b, 0).x, b)
  {
    BackFromInvariant(A, b, 0);
  }

  /** The solver is exact on upper-triangular systems with nonzero diagonal. */
  lemma SolutionExactForUpperTriangular(s: System)
    requires WellShaped(s) && UpperTriangular(s.A, |s.b|) && DiagonalNonzero(s.A, |s.b|)
    ensures PivotsNonzero(s, |s.b|)
    ensures Solves(s.A, Solution(s), s.b)
  {
    UpperTriangularIsFixed(s, |s.b|);
    BackSubstitutionExact(s.A, s.b);
  }

  /** A diagonal system with nonzero diagonal is solved entry by entry:
      x[i] == b[i] / A[i, i] (the identity matrix returns b itself). */
  lemma DiagonalSolution(s: System)
    requires WellShaped(s) && DiagonalNonzero(s.A, |s.b|)
    requires forall j, c :: 0 <= j < |s.b| && 0 <= c < |s.b| && j != c ==> s.A[j][c] == 0.0
    ensures PivotsNonzero(s, |s.b|)
    ensures forall i :: 0 <= i < |s.b| ==> Solution(s)[i] == s.b[i] / s.A[i][i]
    ensures (forall i :: 0 <= i < |s.b| ==> s.A[i][i] == 1.0) ==> Solution(s) == s.b
  {
    assert UpperTriangular(s.A, |s.b|);
    SolutionExactForUpperTriangular(s);
    var x := Solution(s);
    forall i | 0 <= i < |s.b| ensures x[i] == s.b[i] / s.A[i][i] {
      DiagonalRowSolved(s.A, x, s.b, i);
    }
  }

  /** Row i of a solved system whose only nonzero entry in row i is A[i, i]
      fixes x[i] == b[i] / A[i, i]. */
  lemma DiagonalRowSolved(A: Matrix, x: Vector, b: Vector, i: nat)
    requires IsMatrix(A, |b|, |x|) && Solves(A, x, b) && i < |b| && i < |x| && A[i][i] != 0.0
    requires forall c :: 0 <= c < |x| && c != i ==> A[i][c] == 0.0
    ensures x[i] == b[i] / A[i][i]
  {
    DotSingle(A[i], x, i);
    assert A[i][i] * x[i] == b[i];
  }

  /** What the solver does compute: since b is never eliminated, x solves
      the eliminated (upper-triangular) matrix against the ORIGINAL b. */
  lemma SolutionSolvesEliminatedMatrix(s: System)
    requires WellShaped(s) && PivotsNonzero(s, |s.b|)
    ensures Solves(Forward(s, |s.b|).A, Solution(s), s.b)
  {
    ForwardDiagonalNonzero(s);
    ForwardKeepsRhs(s, |s.b|);
    var f := Forward(s, |s.b|);
    BackSubstitutionExact(f.A, f.b);
  }

  // ---------------------------------------------------------------------
  // Finding: the b update reads A[j, i] after it has been zeroed
  // ---------------------------------------------------------------------

  /** A 2 x 2 system with nonzero pivots that the solver, as written,
      answers wrongly: it returns x = [1, 1], but A x = [1, 2] != b. */
  lemma AsWrittenSolutionCounterexample()
    ensures var s := System([[1.0, 0.0], [1.0, 1.0]], [1.0, 1.0]);
      WellShaped(s) && PivotsNonzero(s, 2) &&
      Solution(s) == [1.0, 1.0] && !Solves(s.A, Solution(s), s.b)
  {
    var s := System([[1.0, 0.0], [1.0, 1.0]], [1.0, 1.0]);
    var u := System([[1.0, 0.0], [0.0, 1.0]], [1.0, 1.0]);
    assert PivotRow(s.A, 2, 0) == [1.0, 0.0];
    assert EliminatedRow(s.A[1], [1.0, 0.0], 0) == [0.0, 1.0];
    assert ForwardStep(s, 0) == u;
    assert Forward(s, 1) == u;
    assert PivotsNonzero(s, 2);
    assert ForwardStep(u, 1) == u;
    assert Forward(s, 2) == u;
    var st2 := BackFrom(u.A, u.b, 2);
    assert st2 == Substitution([1.0, 1.0], [0.0, 0.0]);
    assert BackFrom(u.A, u.b, 1) == Substitution([1.0, 1.0], [0.0, 1.0]);
    assert BackFrom(u.A, u.b, 0).x == [1.0, 1.0];
    var x := Solution(s);
    assert x == [1.0, 1.0];
    assert Dot(s.A[1], x) == 2.0;
  }

  /** b[j] -= pivot_val * A[j, i] with A[j, i] read BEFORE row j is updated,
      the order the algorithm intends. */
  function CorrectedRhs(bj: real, pivotVal: real, row: Vector, i: nat): real
    requires i < |row|
  {
    bj - pivotVal * row[i]
  }

  /** Forward step i with the intended update of b. */
  function CorrectedStep(s: System, i: nat): (r: System)
    requires WellShaped(s) && i < |s.b| && s.A[i][i] != 0.0
    ensures WellShaped(r) && |r.b| == |s.b|
  {
    var n := |s.b|;
    var pivotVal := PivotVal(s, i);
    System(EliminateBelow(s.A, n, i),
           seq(n, j requires 0 <= j < n =>
                 if i < j then CorrectedRhs(s.b[j], pivotVal, s.A[j], i) else s.b[j]))
  }

  /** Corrected forward steps 0 .. k-1; A evolves exactly as in the source. */
  function CorrectedForward(s: System, k: nat): (r: System)
    requires WellShaped(s) && k <= |s.b| && PivotsNonzero(s, k)
    ensures WellShaped(r) && |r.b| == |s.b| && r.A == Forward(s, k).A
  {
    if k == 0 then s else CorrectedStep(CorrectedForward(s, k - 1), k - 1)
  }

  /** The vector the corrected solver returns. */
  function CorrectedSolution(s: System): (x: Vector)
    requires WellShaped(s) && PivotsNonzero(s, |s.b|)
    ensures |x| == |s.b|
  {
    ForwardDiagonalNonzero(s);
    var f := CorrectedForward(s, |s.b|);
    BackFrom(f.A, f.b, 0).x
  }

  /** Given that x satisfies row i, a corrected step leaves the residual of
      every row j below it unchanged. */
  lemma CorrectedRowResidual(s: System, i: nat, x: Vector, j: nat)
    requires WellShaped(s) && i < j < |s.b| && s.A[i][i] != 0.0 && |x| == |s.b|
    requires Dot(s.A[i], x) == s.b[i]
    ensures Dot(CorrectedStep(s, i).A[j], x) - CorrectedStep(s, i).b[j] == Dot(s.A[j], x) - s.b[j]
  {
    var pivotRow := PivotRow(s.A, |s.b|, i);
    CorrectedStepAt(s, i, j);
    DotScaled(s.A[i], s.A[i][i], x);
    assert Dot(pivotRow, x) == PivotVal(s, i);
    SubtractionKeepsResidual(s.A[j], s.b[j], pivotRow, PivotVal(s, i), s.A[j][i], x);
  }

  lemma CorrectedStepAt(s: System, i: nat, j: nat)
    requires WellShaped(s) && i < j < |s.b| && s.A[i][i] != 0.0
    ensures CorrectedStep(s, i).A[j] == SubScaled(s.A[j], PivotRow(s.A, |s.b|, i), s.A[j][i])
    ensures CorrectedStep(s, i).b[j] == s.b[j] - PivotVal(s, i) * s.A[j][i]
  {
  }

  /** A corrected step has exactly the same solutions as the system before it. */
  lemma CorrectedStepKeepsSolutions(s: System, i: nat, x: Vector)
    requires WellShaped(s) && i < |s.b| && s.A[i][i] != 0.0 && |x| == |s.b|
    ensures Solves(s.A, x, s.b) <==> Solves(CorrectedStep(s, i).A, x, CorrectedStep(s, i).b)
  {
    var n := |s.b|;
    var r := CorrectedStep(s, i);
    assert r.A[i] == s.A[i] && r.b[i] == s.b[i];
    if Dot(s.A[i], x) == s.b[i] {
      forall j | i < j < n ensures Dot(r.A[j], x) - r.b[j] == Dot(s.A[j], x) - s.b[j] {
        CorrectedRowResidual(s, i, x, j);
      }
      forall j | 0 <= j <= i ensures r.A[j] == s.A[j] && r.b[j] == s.b[j] {
      }
    }
  }

  lemma {:induction false} CorrectedForwardKeepsSolutions(s: System, k: nat, x: Vector)
    requires WellShaped(s) && k <= |s.b| && PivotsNonzero(s, k) && |x| == |s.b|
    ensures Solves(s.A, x, s.b) <==> Solves(CorrectedForward(s, k).A, x, CorrectedForward(s, k).b)
  {
    if k > 0 {
      PivotsNonzeroPrefix(s, k - 1, k);
      var t := CorrectedForward(s, k - 1);
      assert t.A[k - 1][k - 1] != 0.0;
      var u := CorrectedStep(t, k - 1);
      assert CorrectedForward(s, k) == u;
      CorrectedForwardKeepsSolutions(s, k - 1, x);
      CorrectedStepKeepsSolutions(t, k - 1, x);
    }
  }

  /** With the intended update order, the solver is exact on every system
      whose pivots are nonzero. */
  lemma CorrectedSolutionExact(s: System)
    requires WellShaped(s) && PivotsNonzero(s, |s.b|)
    ensures Solves(s.A, CorrectedSolution(s), s.b)
  {
    ForwardDiagonalNonzero(s);
    var f := CorrectedForward(s, |s.b|);
    BackSubstitutionExact(f.A, f.b);
    CorrectedForwardKeepsSolutions(s, |s.b|, CorrectedSolution(s));
  }
}
