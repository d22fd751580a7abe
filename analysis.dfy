/**
 * The body of `main` around the solver: the shape check on the two
 * inputs, the forced edit of entry (0, 0), the classification and its
 * partition check, the slicing of the linear system, and the assembly of
 * the n-by-n result from the solved block.
 */
module Analysis {
  import opened Wrappers
  import opened Indices
  import opened Matrices
  import opened Classifier
  import opened LinearSystem

  /** Why `main` stops before the solver. */
  datatype AnalysisError =
    | ShapeMismatch(nq: int, nq': int, nr: int)         // the check `nq == nq_ == nr`
    | EmptyChain                                         // `AP[0,0]` on a 0-by-0 matrix
    | PartitionViolated(nSing: nat, nTrans: nat, nAbs: nat, n: nat) // the check `n_sing + n_trans + n_abs == n`

  /** What `main` has in hand when it calls the solver. */
  datatype Prepared = Prepared(
    n: nat,
    p: Matrix,             // the transition matrix after the edit of entry (0, 0)
    transient: seq<nat>,   // T
    singular: seq<nat>,    // S
    absorbing: seq<nat>,   // B
    a: Matrix,             // I - P[T, T]
    r: Matrix)             // P[T, B]

  /**
   * `AP[0,0] = 0`: state 0, the empty set, loses its self-loop; every other
   * entry stays as it was.
   */
  function ClearSinkLoop(p: Matrix): (q: Matrix)
    requires p != [] && p[0] != []
    ensures |q| == |p| && forall i :: 0 <= i < |p| ==> |q[i]| == |p[i]|
    ensures q[0][0] == 0.0
    ensures forall i, j :: 0 <= i < |p| && 0 <= j < |p[i]| && (i, j) != (0, 0) ==> q[i][j] == p[i][j]
  {
    p[0 := p[0][0 := 0.0]]
  }

  /**
   * The edit touches only column 0, whose edges the classifier never
   * follows, so it leaves every edge and every state's class as they were.
   */
  lemma ClearingKeepsClasses(p: Matrix, absorbing: seq<bool>)
    requires p != [] && p[0] != []
    ensures forall i: nat, j: nat :: Edge(ClearSinkLoop(p), i, j) == Edge(p, i, j)
    ensures TransientFlags(ClearSinkLoop(p), absorbing) == TransientFlags(p, absorbing)
  {
    SameEdgesSameFlags(ClearSinkLoop(p), p, absorbing);
  }

  /** Every state below n is in exactly one of T, S and B. */
  predicate Partitioned(n: nat, t: seq<nat>, s: seq<nat>, b: seq<nat>) {
    forall i: nat :: i < n ==>
      (i in t && i !in s && i !in b) || (i !in t && i in s && i !in b) || (i !in t && i !in s && i in b)
  }

  /**
   * When the count check at line 78 passes, the three index lists of the
   * classification split the states: T, S and B are disjoint and cover
   * every state.
   */
  lemma CheckedPartition(transient: seq<bool>, absorbing: seq<bool>)
    requires |transient| == |absorbing|
    requires |TrueIndices(SingularFlags(transient, absorbing))| + |TrueIndices(transient)| + Count(absorbing) == |absorbing|
    ensures Partitioned(|absorbing|, TrueIndices(transient), TrueIndices(SingularFlags(transient, absorbing)), TrueIndices(absorbing))
    ensures InRange(TrueIndices(transient), |absorbing|) && InRange(TrueIndices(absorbing), |absorbing|)
  {
    PartitionCheck(transient, absorbing);
    var f := SingularFlags(transient, absorbing);
    var t, s, b := TrueIndices(transient), TrueIndices(f), TrueIndices(absorbing);
    forall i: nat | i < |absorbing|
      ensures (i in t && i !in s && i !in b) || (i !in t && i in s && i !in b) || (i !in t && i !in s && i in b)
    {
      assert i in t <==> transient[i];
      assert i in s <==> f[i];
      assert i in b <==> absorbing[i];
    }
    forall k | 0 <= k < |t|
      ensures t[k] < |absorbing|
    {
      assert t[k] in t;
    }
    forall k | 0 <= k < |b|
      ensures b[k] < |absorbing|
    {
      assert b[k] in b;
    }
  }

  /**
   * Lines 48-88 of `main`, from the two decoded inputs: the matrix `ap` of
   * shape (nq, nq'), the flags `notA` of length nr. The checks run in the
   * source's order: the shapes, then the edit of entry (0, 0), then the
   * classification and the partition count, then the slicing.
   */
  method Prepare(ap: Matrix, nq: nat, nq': nat, notA: seq<bool>, nr: nat)
    returns (res: Result<Prepared, AnalysisError>)
    requires IsMatrix(ap, nq, nq') && |notA| == nr
    ensures res.Failure? && res.error.ShapeMismatch? <==> !(nq == nq' == nr)
    ensures res == Failure(EmptyChain) <==> nq == nq' == nr == 0
    ensures nq == nq' == nr > 0 ==>
      (res.Success? <==> forall b :: 0 <= b < nr && notA[b] ==> !ReachesAbsorbing(ap, notA, b))
    ensures res.Success? ==>
      var w := res.value;
      w.n == nq && w.p == ClearSinkLoop(ap)
      && w.transient == TrueIndices(TransientFlags(ap, notA))
      && w.singular == TrueIndices(SingularFlags(TransientFlags(ap, notA), notA))
      && w.absorbing == TrueIndices(notA)
      && Partitioned(w.n, w.transient, w.singular, w.absorbing)
      && InRange(w.transient, w.n) && InRange(w.absorbing, w.n)
      && w.a == SystemMatrix(w.p, w.n, w.transient)
      && w.r == RightHandSide(w.p, w.n, w.transient, w.absorbing)
  {
    if !(nq == nq' == nr) {
      return Failure(ShapeMismatch(nq, nq', nr));
    }
    var n := nq;
    if n == 0 {
      return Failure(EmptyChain);
    }
    var p := ClearSinkLoop(ap);
    var transient, singular, _ := GetTransient(p, notA);
    ClearingKeepsClasses(ap, notA);
    var nAbs := Count(notA);
    var absorbing := TrueIndices(notA);
    PartitionCheckReach(ap, notA);
    if |singular| + |transient| + nAbs != n {
      return Failure(PartitionViolated(|singular|, |transient|, nAbs, n));
    }
    CheckedPartition(TransientFlags(ap, notA), notA);
    var a := SystemMatrix(p, n, transient);
    var r := RightHandSide(p, n, transient, absorbing);
    return Success(Prepared(n, p, transient, singular, absorbing, a, r));
  }

  // ---------------------------------------------------------------------
  // Assembly of the result, lines 94-98

  /** `XX[np.ix_(T, B)] = X`: entry (i, j) of the block write alone. */
  function BlockEntry(t: seq<nat>, b: seq<nat>, x: Matrix, i: nat, j: nat): real
    requires IsMatrix(x, |t|, |b|)
  {
    if i in t && j in b then x[Position(t, i)][Position(b, j)] else 0.0
  }

  /** After the loop `XX[i,i] = 1` over B, which overwrites the block. */
  function DiagonalEntry(t: seq<nat>, b: seq<nat>, x: Matrix, i: nat, j: nat): real
    requires IsMatrix(x, |t|, |b|)
  {
    if i == j && i in b then 1.0 else BlockEntry(t, b, x, i, j)
  }

  /** After `XX[S,0] = 1`, the last write: entry (i, j) of the result. */
  function AssembledEntry(t: seq<nat>, b: seq<nat>, s: seq<nat>, x: Matrix, i: nat, j: nat): real
    requires IsMatrix(x, |t|, |b|)
  {
    if j == 0 && i in s then 1.0 else DiagonalEntry(t, b, x, i, j)
  }

  /**
   * Lines 94-98: an n-by-n array of zeros, the solved block written at rows
   * T and columns B, then 1 on the diagonal of each absorbing state, then 1
   * in column 0 of each singular state.
   */
  method Assemble(n: nat, t: seq<nat>, b: seq<nat>, s: seq<nat>, x: Matrix) returns (m: Matrix)
    requires InRange(t, n) && InRange(b, n) && InRange(s, n)
    requires StrictlyIncreasing(t) && StrictlyIncreasing(b)
    requires IsMatrix(x, |t|, |b|)
    ensures IsMatrix(m, n, n)
    ensures forall i: nat, j: nat :: i < n && j < n ==> m[i][j] == AssembledEntry(t, b, s, x, i, j)
  {
    var xx := new real[n, n]((_, _) => 0.0);
    for r := 0 to |t|
      invariant forall i: nat, j: nat :: i < n && j < n ==>
        xx[i, j] == if i in t[..r] then BlockEntry(t, b, x, i, j) else 0.0
    {
      WriteRow(xx, t, b, x, r);
    }
    assert t[..|t|] == t;
    for k := 0 to |b|
      invariant forall i: nat, j: nat :: i < n && j < n ==>
        xx[i, j] == if i == j && i in b[..k] then 1.0 else BlockEntry(t, b, x, i, j)
    {
      xx[b[k], b[k]] := 1.0;
      assert b[..k + 1] == b[..k] + [b[k]];
    }
    assert b[..|b|] == b;
    for k := 0 to |s|
      invariant forall i: nat, j: nat :: i < n && j < n ==>
        xx[i, j] == if j == 0 && i in s[..k] then 1.0 else DiagonalEntry(t, b, x, i, j)
    {
      xx[s[k], 0] := 1.0;
      assert s[..k + 1] == s[..k] + [s[k]];
    }
    assert s[..|s|] == s;
    m := seq(n, i requires 0 <= i < n reads xx => seq(n, j requires 0 <= j < n reads xx => xx[i, j]));
  }

  /** One row of the block write: `XX[T[r], B[c]] = X[r][c]` for every c. */
  method WriteRow(xx: array2<real>, t: seq<nat>, b: seq<nat>, x: Matrix, r: nat)
    requires r < |t| && InRange(t, xx.Length0) && InRange(b, xx.Length1)
    requires StrictlyIncreasing(t) && StrictlyIncreasing(b)
    requires IsMatrix(x, |t|, |b|)
    requires forall i: nat, j: nat :: i < xx.Length0 && j < xx.Length1 ==>
      xx[i, j] == if i in t[..r] then BlockEntry(t, b, x, i, j) else 0.0
    modifies xx
    ensures forall i: nat, j: nat :: i < xx.Length0 && j < xx.Length1 ==>
      xx[i, j] == if i in t[..r + 1] then BlockEntry(t, b, x, i, j) else 0.0
  {
    PositionOfElement(t, r);
    assert t[..r + 1] == t[..r] + [t[r]];
    for c := 0 to |b|
      invariant forall i: nat, j: nat :: i < xx.Length0 && j < xx.Length1 ==>
        xx[i, j] == if i in t[..r] || (i == t[r] && j in b[..c]) then BlockEntry(t, b, x, i, j) else 0.0
    {
      PositionOfElement(b, c);
      xx[t[r], b[c]] := x[r][c];
      assert b[..c + 1] == b[..c] + [b[c]];
    }
    assert b[..|b|] == b;
  }

  /**
   * The rows of the result when T, S and B partition the states: an
   * absorbing state's row is its unit row, a singular state's row has its
   * 1 in column 0, and a transient state's row holds its row of the solved
   * block at the absorbing columns and 0 everywhere else; nothing written
   * later overwrites an earlier write.
   */
  lemma AssembledRows(n: nat, t: seq<nat>, b: seq<nat>, s: seq<nat>, x: Matrix)
    requires Partitioned(n, t, s, b) && IsMatrix(x, |t|, |b|)
    ensures forall i: nat, j: nat :: i < n && i in b ==> AssembledEntry(t, b, s, x, i, j) == if j == i then 1.0 else 0.0
    ensures forall i: nat, j: nat :: i < n && i in s ==> AssembledEntry(t, b, s, x, i, j) == if j == 0 then 1.0 else 0.0
    ensures forall i: nat, j: nat :: i < n && i in t ==>
      AssembledEntry(t, b, s, x, i, j) == if j in b then x[Position(t, i)][Position(b, j)] else 0.0
  {
  }
}
