/** Vectors and dense matrices over exact reals, with the dot product the
    row operations of Gaussian elimination and matrix multiplication are
    stated in. */
module LinearAlgebra {

  type Vector = seq<real>
  type Matrix = seq<seq<real>>

  /** M has the given number of rows, each of the given length. */
  predicate IsMatrix(M: Matrix, rows: nat, cols: nat)
  {
    |M| == rows && forall i :: 0 <= i < rows ==> |M[i]| == cols
  }

  /** Zero vector of length n (numpy.zeros). */
  function Zeros(n: nat): (z: Vector)
    ensures |z| == n && forall k :: 0 <= k < n ==> z[k] == 0.0
  {
    seq(n, k => 0.0)
  }

  /** Row i of a two-dimensional array, as a value. */
  function Row(A: array2<real>, i: nat): (r: Vector)
    requires i < A.Length0
    reads A
    ensures |r| == A.Length1
  {
    seq(A.Length1, k requires 0 <= k < A.Length1 reads A => A[i, k])
  }

  /** Column j of a two-dimensional array, as a value. */
  function Column(B: array2<real>, j: nat): (c: Vector)
    requires j < B.Length1
    reads B
    ensures |c| == B.Length0
  {
    seq(B.Length0, k requires 0 <= k < B.Length0 reads B => B[k, j])
  }

  /** Sum of u[k] * v[k] over k < m. */
  function PartialDot(u: Vector, v: Vector, m: nat): real
    requires |u| == |v| && m <= |u|
  {
    if m == 0 then 0.0 else PartialDot(u, v, m - 1) + u[m - 1] * v[m - 1]
  }

  /** Sum of u[k] * v[k] over all k. */
  function Dot(u: Vector, v: Vector): real
    requires |u| == |v|
  {
    PartialDot(u, v, |u|)
  }

  /** The vector w[k] / p: a row divided by its pivot. */
  function Scaled(w: Vector, p: real): (r: Vector)
    requires p != 0.0
    ensures |r| == |w|
  {
    seq(|w|, k requires 0 <= k < |w| => w[k] / p)
  }

  /** The vector u[k] - w[k] * c: "u -= w * c" on numpy rows. */
  function SubScaled(u: Vector, w: Vector, c: real): (r: Vector)
    requires |u| == |w|
    ensures |r| == |u|
  {
    seq(|u|, k requires 0 <= k < |u| => u[k] - w[k] * c)
  }

  /** x solves the system M x = b row by row. */
  predicate Solves(M: Matrix, x: Vector, b: Vector)
    requires IsMatrix(M, |b|, |x|)
  {
    forall i :: 0 <= i < |b| ==> Dot(M[i], x) == b[i]
  }

  /** Every entry below the diagonal is zero. */
  predicate UpperTriangular(M: Matrix, n: nat)
    requires IsMatrix(M, n, n)
  {
    forall j, c :: 0 <= c < j < n ==> M[j][c] == 0.0
  }

  /** When u is zero outside entry i, the partial dot product is u[i] * v[i]
      once it has passed i, and zero before. */
  lemma {:induction false} PartialDotSingle(u: Vector, v: Vector, i: nat, m: nat)
    requires |u| == |v| && i < |u| && m <= |u|
    requires forall k :: 0 <= k < |u| && k != i ==> u[k] == 0.0
    ensures PartialDot(u, v, m) == if i < m then u[i] * v[i] else 0.0
  {
    if m > 0 {
      PartialDotSingle(u, v, i, m - 1);
    }
  }

  /** When u is zero outside entry i, u . v == u[i] * v[i]. */
  lemma DotSingle(u: Vector, v: Vector, i: nat)
    requires |u| == |v| && i < |u|
    requires forall k :: 0 <= k < |u| && k != i ==> u[k] == 0.0
    ensures Dot(u, v) == u[i] * v[i]
  {
    PartialDotSingle(u, v, i, |u|);
  }

  /** When v is zero outside entry i, the partial dot product is u[i] * v[i]
      once it has passed i, and zero before. */
  lemma {:induction false} PartialDotSingleRight(u: Vector, v: Vector, i: nat, m: nat)
    requires |u| == |v| && i < |v| && m <= |v|
    requires forall k :: 0 <= k < |v| && k != i ==> v[k] == 0.0
    ensures PartialDot(u, v, m) == if i < m then u[i] * v[i] else 0.0
  {
    if m > 0 {
      PartialDotSingleRight(u, v, i, m - 1);
    }
  }

  /** When v is zero outside entry i, u . v == u[i] * v[i]. */
  lemma DotSingleRight(u: Vector, v: Vector, i: nat)
    requires |u| == |v| && i < |v|
    requires forall k :: 0 <= k < |v| && k != i ==> v[k] == 0.0
    ensures Dot(u, v) == u[i] * v[i]
  {
    PartialDotSingleRight(u, v, i, |v|);
  }

  lemma {:induction false} PartialDotZeros(u: Vector, m: nat)
    requires m <= |u|
    ensures PartialDot(u, Zeros(|u|), m) == 0.0
  {
    if m > 0 {
      PartialDotZeros(u, m - 1);
    }
  }

  lemma DotZeros(u: Vector)
    ensures Dot(u, Zeros(|u|)) == 0.0
  {
    PartialDotZeros(u, |u|);
  }

  lemma {:induction false} PartialDotUpdate(u: Vector, v: Vector, m: nat, i: nat, c: real)
    requires |u| == |v| && i < |v| && m <= |u|
    ensures PartialDot(u, v[i := c], m) == PartialDot(u, v, m) + (if i < m then u[i] * (c - v[i]) else 0.0)
  {
    if m > 0 {
      PartialDotUpdate(u, v, m - 1, i, c);
      if i == m - 1 {
        ProductDifference(u[i], c, v[i]);
      }
    }
  }

  lemma ProductDifference(a: real, c: real, d: real)
    ensures a * c == a * d + a * (c - d)
  {
  }

  /** Changing one entry of v changes the dot product by that entry's
      coefficient times the change. */
  lemma DotUpdate(u: Vector, v: Vector, i: nat, c: real)
    requires |u| == |v| && i < |v|
    ensures Dot(u, v[i := c]) == Dot(u, v) + u[i] * (c - v[i])
  {
    PartialDotUpdate(u, v, |u|, i, c);
  }

  lemma {:induction false} PartialDotSubScaled(u: Vector, w: Vector, c: real, v: Vector, m: nat)
    requires |u| == |w| == |v| && m <= |u|
    ensures PartialDot(SubScaled(u, w, c), v, m) == PartialDot(u, v, m) - c * PartialDot(w, v, m)
  {
    if m > 0 {
      PartialDotSubScaled(u, w, c, v, m - 1);
      TermSubScaled(u[m - 1], w[m - 1], c, v[m - 1]);
    }
  }

  lemma TermSubScaled(a: real, b: real, c: real, d: real)
    ensures (a - b * c) * d == a * d - c * (b * d)
  {
  }

  /** The dot product is linear in its first argument. */
  lemma DotSubScaled(u: Vector, w: Vector, c: real, v: Vector)
    requires |u| == |w| == |v|
    ensures Dot(SubScaled(u, w, c), v) == Dot(u, v) - c * Dot(w, v)
  {
    PartialDotSubScaled(u, w, c, v, |u|);
  }

  lemma {:induction false} PartialDotScaled(w: Vector, p: real, v: Vector, m: nat)
    requires |w| == |v| && p != 0.0 && m <= |w|
    ensures PartialDot(Scaled(w, p), v, m) == PartialDot(w, v, m) / p
  {
    if m > 0 {
      PartialDotScaled(w, p, v, m - 1);
      TermScaled(PartialDot(w, v, m - 1), w[m - 1], v[m - 1], p);
    }
  }

  lemma TermScaled(a: real, b: real, d: real, p: real)
    requires p != 0.0
    ensures a / p + (b / p) * d == (a + b * d) / p
  {
  }

  /** Dividing the first argument by p divides the dot product by p. */
  lemma DotScaled(w: Vector, p: real, v: Vector)
    requires |w| == |v| && p != 0.0
    ensures Dot(Scaled(w, p), v) == Dot(w, v) / p
  {
    PartialDotScaled(w, p, v, |w|);
  }

  /** Subtracting f times an equation that x satisfies (w x = q) from the
      equation u x = bj leaves its residual unchanged. */
  lemma SubtractionKeepsResidual(u: Vector, bj: real, w: Vector, q: real, f: real, x: Vector)
    requires |u| == |w| == |x| && Dot(w, x) == q
    ensures Dot(SubScaled(u, w, f), x) - (bj - q * f) == Dot(u, x) - bj
  {
    DotSubScaled(u, w, f, x);
  }
}
