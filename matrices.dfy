/**
 * Dense matrices of exact reals. The source stores its matrices sparsely
 * (scipy CSR/CSC/LIL); only the values at each position matter here.
 */
module Matrices {

  type Matrix = seq<seq<real>>

  /** `m` has `rows` rows of `cols` entries each. */
  predicate IsMatrix(m: Matrix, rows: nat, cols: nat) {
    |m| == rows && forall i :: 0 <= i < rows ==> |m[i]| == cols
  }

  /** Every index in `s` is below `n`. */
  predicate InRange(s: seq<nat>, n: nat) {
    forall k :: 0 <= k < |s| ==> s[k] < n
  }

  /** `P[rows, :][:, cols]`: the sub-block picked out by two index lists. */
  function Select(p: Matrix, n: nat, rows: seq<nat>, cols: seq<nat>): (s: Matrix)
    requires IsMatrix(p, n, n) && InRange(rows, n) && InRange(cols, n)
    ensures IsMatrix(s, |rows|, |cols|)
    ensures forall x, y :: 0 <= x < |rows| && 0 <= y < |cols| ==> s[x][y] == p[rows[x]][cols[y]]
  {
    seq(|rows|, x requires 0 <= x < |rows| =>
      seq(|cols|, y requires 0 <= y < |cols| => p[rows[x]][cols[y]]))
  }

  /** `sparse.eye(k)`. */
  function Identity(k: nat): (e: Matrix)
    ensures IsMatrix(e, k, k)
    ensures forall x, y :: 0 <= x < k && 0 <= y < k ==> e[x][y] == if x == y then 1.0 else 0.0
  {
    seq(k, x requires 0 <= x < k => seq(k, y requires 0 <= y < k => if x == y then 1.0 else 0.0))
  }

  /** Entry-wise difference of two matrices of one shape. */
  function Subtract(a: Matrix, b: Matrix, rows: nat, cols: nat): (d: Matrix)
    requires IsMatrix(a, rows, cols) && IsMatrix(b, rows, cols)
    ensures IsMatrix(d, rows, cols)
    ensures forall x, y :: 0 <= x < rows && 0 <= y < cols ==> d[x][y] == a[x][y] - b[x][y]
  {
    seq(rows, x requires 0 <= x < rows => seq(cols, y requires 0 <= y < cols => a[x][y] - b[x][y]))
  }

  /** The sum over m < k of a[m] * x[m][c]: entry (., c) of a row times a matrix, cut at k. */
  function RowTimes(a: seq<real>, x: Matrix, c: nat, k: nat): real
    requires k <= |a| && k <= |x|
    requires forall m :: 0 <= m < k ==> c < |x[m]|
  {
    if k == 0 then 0.0 else RowTimes(a, x, c, k - 1) + a[k - 1] * x[k - 1][c]
  }

  /** Positions (i, c) with c >= j of the non-zero entries of row i, left to right. */
  function RowSupport(row: seq<real>, i: nat, j: nat): (s: seq<(nat, nat)>)
    requires j <= |row|
    ensures forall k :: 0 <= k < |s| ==> s[k].0 == i && j <= s[k].1 < |row| && row[s[k].1] != 0.0
    ensures forall c :: j <= c < |row| && row[c] != 0.0 ==> (i, c) in s
    ensures forall a, b :: 0 <= a < b < |s| ==> s[a].1 < s[b].1
    decreases |row| - j
  {
    if j == |row| then []
    else (if row[j] != 0.0 then [(i, j)] else []) + RowSupport(row, i, j + 1)
  }

  /** Row-major order on positions. */
  predicate RowMajorBefore(x: (nat, nat), y: (nat, nat)) {
    x.0 < y.0 || (x.0 == y.0 && x.1 < y.1)
  }

  /**
   * The positions of the non-zero entries of rows i and below, in
   * row-major order: what a sparse matrix stores and `tocoo()` lists.
   */
  function Support(m: Matrix, i: nat): (s: seq<(nat, nat)>)
    requires i <= |m|
    ensures forall k :: 0 <= k < |s| ==> i <= s[k].0 < |m| && s[k].1 < |m[s[k].0]| && m[s[k].0][s[k].1] != 0.0
    ensures forall r, c :: i <= r < |m| && 0 <= c < |m[r]| && m[r][c] != 0.0 ==> (r, c) in s
    ensures forall a, b :: 0 <= a < b < |s| ==> RowMajorBefore(s[a], s[b])
    decreases |m| - i
  {
    if i == |m| then []
    else
      var head := RowSupport(m[i], i, 0);
      var tail := Support(m, i + 1);
      RowMajorAppend(head, tail, i);
      head + tail
  }

  /** A row's positions followed by those of later rows stay in row-major order. */
  lemma RowMajorAppend(head: seq<(nat, nat)>, tail: seq<(nat, nat)>, i: nat)
    requires forall k :: 0 <= k < |head| ==> head[k].0 == i
    requires forall a, b :: 0 <= a < b < |head| ==> head[a].1 < head[b].1
    requires forall k :: 0 <= k < |tail| ==> i < tail[k].0
    requires forall a, b :: 0 <= a < b < |tail| ==> RowMajorBefore(tail[a], tail[b])
    ensures forall a, b :: 0 <= a < b < |head + tail| ==> RowMajorBefore((head + tail)[a], (head + tail)[b])
  {
  }
}
