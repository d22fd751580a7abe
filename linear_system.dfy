/**
 * The linear system whose solution is the absorption-probability block:
 * A = I - P[T, T] and R = P[T, B], for transient states T and absorbing
 * states B.
 */
module LinearSystem {
  import opened Matrices

  /** `sparse.eye(|T|) - P[T, :][:, T]`. */
  function SystemMatrix(p: Matrix, n: nat, t: seq<nat>): (a: Matrix)
    requires IsMatrix(p, n, n) && InRange(t, n)
    ensures IsMatrix(a, |t|, |t|)
    ensures forall x, y :: 0 <= x < |t| && 0 <= y < |t| ==>
      a[x][y] == (if x == y then 1.0 else 0.0) - p[t[x]][t[y]]
  {
    Subtract(Identity(|t|), Select(p, n, t, t), |t|, |t|)
  }

  /** `P[T, :][:, B]`. */
  function RightHandSide(p: Matrix, n: nat, t: seq<nat>, b: seq<nat>): (r: Matrix)
    requires IsMatrix(p, n, n) && InRange(t, n) && InRange(b, n)
    ensures IsMatrix(r, |t|, |b|)
    ensures forall x, y :: 0 <= x < |t| && 0 <= y < |b| ==> r[x][y] == p[t[x]][b[y]]
  {
    Select(p, n, t, b)
  }

  /** A X = R, entry by entry, for a k-by-k matrix A and k-by-w matrices X, R. */
  ghost predicate Solves(a: Matrix, x: Matrix, r: Matrix, k: nat, w: nat)
    requires IsMatrix(a, k, k) && IsMatrix(x, k, w) && IsMatrix(r, k, w)
  {
    forall i, c :: 0 <= i < k && 0 <= c < w ==> RowTimes(a[i], x, c, k) == r[i][c]
  }

  /**
   * The first-step equations of absorption: the probability that transient
   * state T[i] is absorbed at B[c] is the mass it sends straight to B[c]
   * plus, over every transient T[m], the mass it sends to T[m] times the
   * probability that T[m] is absorbed at B[c].
   */
  ghost predicate AbsorptionEquations(p: Matrix, n: nat, t: seq<nat>, b: seq<nat>, x: Matrix)
    requires IsMatrix(p, n, n) && InRange(t, n) && InRange(b, n) && IsMatrix(x, |t|, |b|)
  {
    var q := Select(p, n, t, t);
    forall i, c :: 0 <= i < |t| && 0 <= c < |b| ==>
      x[i][c] == p[t[i]][b[c]] + RowTimes(q[i], x, c, |t|)
  }

  /** Multiplying by a row of I - Q is taking X's entry minus multiplying by Q's row. */
  lemma {:induction false} IdentityMinusRow(a: seq<real>, q: seq<real>, i: nat, x: Matrix, c: nat, k: nat)
    requires k <= |a| == |q| && k <= |x|
    requires forall m :: 0 <= m < k ==> c < |x[m]|
    requires forall m :: 0 <= m < |a| ==> a[m] == (if m == i then 1.0 else 0.0) - q[m]
    ensures RowTimes(a, x, c, k) == (if i < k then x[i][c] else 0.0) - RowTimes(q, x, c, k)
  {
    if k > 0 {
      IdentityMinusRow(a, q, i, x, c, k - 1);
      assert a[k - 1] * x[k - 1][c] == (if k - 1 == i then x[k - 1][c] else 0.0) - q[k - 1] * x[k - 1][c];
    }
  }

  /**
   * X solves (I - P[T, T]) X = P[T, B] exactly when X satisfies the
   * first-step absorption equations: the system built at lines 86-88 is
   * the fundamental-matrix formulation.
   */
  lemma SystemMeansAbsorption(p: Matrix, n: nat, t: seq<nat>, b: seq<nat>, x: Matrix)
    requires IsMatrix(p, n, n) && InRange(t, n) && InRange(b, n) && IsMatrix(x, |t|, |b|)
    ensures Solves(SystemMatrix(p, n, t), x, RightHandSide(p, n, t, b), |t|, |b|)
        <==> AbsorptionEquations(p, n, t, b, x)
  {
    var a := SystemMatrix(p, n, t);
    var q := Select(p, n, t, t);
    forall i, c | 0 <= i < |t| && 0 <= c < |b|
      ensures RowTimes(a[i], x, c, |t|) == x[i][c] - RowTimes(q[i], x, c, |t|)
    {
      IdentityMinusRow(a[i], q[i], i, x, c, |t|);
    }
  }
}
