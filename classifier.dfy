/**
 * The state classifier `get_transient`: a backward worklist search over the
 * non-zero pattern of the transition matrix, from the absorbing states.
 * Edges into column 0 (the empty outcome) are never followed.
 */
module Classifier {
  import opened Indices
  import opened Matrices

  /** Entry (i, j) is an edge the search follows: non-zero, and j is not 0. */
  predicate Edge(p: Matrix, i: nat, j: nat) {
    i < |p| && j < |p[i]| && j != 0 && p[i][j] != 0.0
  }

  /** Consecutive states of `path` are joined by edges. */
  ghost predicate IsPath(p: Matrix, path: seq<nat>) {
    forall k :: 0 <= k < |path| - 1 ==> Edge(p, path[k], path[k + 1])
  }

  /** `path` has at least one edge, starts at `s` and ends at an absorbing state. */
  ghost predicate LeadsToAbsorbing(p: Matrix, absorbing: seq<bool>, s: nat, path: seq<nat>) {
    |path| >= 2 && path[0] == s && IsPath(p, path)
    && path[|path| - 1] < |absorbing| && absorbing[path[|path| - 1]]
  }

  /** State `s` can reach an absorbing state in one or more steps. */
  ghost predicate ReachesAbsorbing(p: Matrix, absorbing: seq<bool>, s: nat) {
    exists path :: LeadsToAbsorbing(p, absorbing, s, path)
  }

  /** The flags the search is meant to compute: reachability of an absorbing state. */
  ghost function TransientFlags(p: Matrix, absorbing: seq<bool>): (t: seq<bool>)
    ensures |t| == |absorbing|
    ensures forall s :: 0 <= s < |t| ==> t[s] == ReachesAbsorbing(p, absorbing, s)
  {
    seq(|absorbing|, s requires 0 <= s < |absorbing| => ReachesAbsorbing(p, absorbing, s))
  }

  /** `(~transient) & (~absorbing)`. */
  function SingularFlags(transient: seq<bool>, absorbing: seq<bool>): (f: seq<bool>)
    requires |transient| == |absorbing|
    ensures |f| == |absorbing|
    ensures forall s :: 0 <= s < |f| ==> f[s] == (!transient[s] && !absorbing[s])
  {
    seq(|absorbing|, s requires 0 <= s < |absorbing| => !transient[s] && !absorbing[s])
  }

  /** An edge into a state that is absorbing or reaches one extends a path backwards. */
  lemma ExtendBackward(p: Matrix, absorbing: seq<bool>, q: nat, s: nat)
    requires s < |absorbing| && Edge(p, q, s)
    requires absorbing[s] || ReachesAbsorbing(p, absorbing, s)
    ensures ReachesAbsorbing(p, absorbing, q)
  {
    if absorbing[s] {
      assert LeadsToAbsorbing(p, absorbing, q, [q, s]);
    } else {
      var path :| LeadsToAbsorbing(p, absorbing, s, path);
      var longer := [q] + path;
      assert forall k :: 1 <= k < |longer| ==> longer[k] == path[k - 1];
      assert LeadsToAbsorbing(p, absorbing, q, longer);
    }
  }

  /**
   * `marked` is closed under predecessors of states that are absorbing or
   * marked, so every state on a path to an absorbing state is marked.
   */
  ghost predicate PredecessorClosed(p: Matrix, absorbing: seq<bool>, marked: seq<bool>) {
    |marked| == |absorbing| &&
    forall s: nat, q: nat :: s < |absorbing| && (absorbing[s] || marked[s]) && Edge(p, q, s) ==> q < |marked| && marked[q]
  }

  lemma {:induction false} ClosedMarksPathSuffix(p: Matrix, absorbing: seq<bool>, marked: seq<bool>, path: seq<nat>, s: nat, k: nat)
    requires PredecessorClosed(p, absorbing, marked)
    requires LeadsToAbsorbing(p, absorbing, s, path)
    requires k < |path| - 1
    ensures path[k] < |marked| && marked[path[k]]
    decreases |path| - k
  {
    if k < |path| - 2 {
      ClosedMarksPathSuffix(p, absorbing, marked, path, s, k + 1);
    }
    assert Edge(p, path[k], path[k + 1]);
  }

  /** A predecessor-closed marking contains every state that reaches an absorbing state. */
  lemma ClosedContainsReaching(p: Matrix, absorbing: seq<bool>, marked: seq<bool>, s: nat)
    requires PredecessorClosed(p, absorbing, marked)
    requires ReachesAbsorbing(p, absorbing, s)
    ensures s < |marked| && marked[s]
  {
    var path :| LeadsToAbsorbing(p, absorbing, s, path);
    ClosedMarksPathSuffix(p, absorbing, marked, path, s, 0);
  }

  /**
   * When the worklist is empty, the marks are sound and closed under
   * predecessors: they are exactly the states that reach an absorbing state.
   */
  lemma SoundClosedIsTransient(p: Matrix, absorbing: seq<bool>, marked: seq<bool>)
    requires MarksSound(p, absorbing, marked) && PredecessorClosed(p, absorbing, marked)
    ensures marked == TransientFlags(p, absorbing)
  {
    forall x | 0 <= x < |marked|
      ensures marked[x] == ReachesAbsorbing(p, absorbing, x)
    {
      if ReachesAbsorbing(p, absorbing, x) {
        ClosedContainsReaching(p, absorbing, marked, x);
      }
    }
  }

  /**
   * Lines 20-25: `preds[j]` lists every i with a non-zero entry (i, j),
   * except that nothing is recorded for column 0.
   */
  method BuildPreds(p: Matrix, n: nat) returns (preds: seq<seq<nat>>)
    requires IsMatrix(p, n, n)
    ensures |preds| == n
    ensures forall j: nat, q: nat :: j < n ==> (q in preds[j] <==> q < n && Edge(p, q, j))
  {
    var lists := new seq<nat>[n](_ => []);
    for i := 0 to n
      invariant forall j: nat, q: nat :: j < n ==> (q in lists[j] <==> q < i && Edge(p, q, j))
    {
      for j := 0 to n
        invariant forall j': nat, q: nat :: j' < n ==>
          (q in lists[j'] <==> (q < i || (q == i && j' < j)) && Edge(p, q, j'))
      {
        if j != 0 && p[i][j] != 0.0 {
          lists[j] := lists[j] + [i];
        }
      }
    }
    preds := lists[..];
  }

  /** Every marked state reaches an absorbing state. */
  ghost predicate MarksSound(p: Matrix, absorbing: seq<bool>, marked: seq<bool>) {
    forall x :: 0 <= x < |marked| && marked[x] ==> ReachesAbsorbing(p, absorbing, x)
  }

  /** Every state on the worklist is an absorbing seed or a marked state. */
  ghost predicate WorklistSeeded(absorbing: seq<bool>, marked: seq<bool>, worklist: seq<nat>) {
    forall x: nat :: x in worklist ==> x < |absorbing| && x < |marked| && (absorbing[x] || marked[x])
  }

  /**
   * Every seed or marked state that has left the worklist, other than
   * `current`, has all its predecessors marked.
   */
  ghost predicate DoneClosed(p: Matrix, absorbing: seq<bool>, marked: seq<bool>, worklist: seq<nat>, current: int) {
    forall t: nat, q: nat ::
      (t < |absorbing| && t < |marked| && t != current && (absorbing[t] || marked[t])
       && t !in worklist && Edge(p, q, t)) ==> q < |marked| && marked[q]
  }

  /** `pushes` holds each marked state exactly once. */
  ghost predicate PushedOnce(marked: seq<bool>, pushes: seq<nat>) {
    (forall a, b :: 0 <= a < b < |pushes| ==> pushes[a] != pushes[b])
    && forall x: nat :: x in pushes <==> x < |marked| && marked[x]
  }

  /** Popping s off the worklist: the rest stays seeded, and s is the state under visit. */
  lemma PopKeepsInvariants(p: Matrix, absorbing: seq<bool>, marked: seq<bool>, popped: seq<nat>, worklist: seq<nat>, s: nat)
    requires popped == worklist + [s]
    requires WorklistSeeded(absorbing, marked, popped)
    requires DoneClosed(p, absorbing, marked, popped, -1)
    ensures s < |absorbing| && (absorbing[s] || marked[s])
    ensures WorklistSeeded(absorbing, marked, worklist)
    ensures DoneClosed(p, absorbing, marked, worklist, s)
  {
    assert s in popped;
    assert forall x: nat :: x in worklist ==> x in popped;
    assert forall x: nat :: x in popped ==> x in worklist || x == s;
  }

  /** The states not yet marked: the loop's termination measure. */
  ghost function Unmarked(marked: seq<bool>): set<nat> {
    set x: nat | x < |marked| && !marked[x]
  }

  /**
   * Marking and pushing an unmarked predecessor q of the state s under
   * visit keeps the loop's invariants, and strictly shrinks the unmarked set.
   */
  lemma MarkStep(p: Matrix, absorbing: seq<bool>, before: seq<bool>, cur: seq<bool>, s: nat, q: nat,
                 worklist: seq<nat>, pushes: seq<nat>)
    requires |cur| == |absorbing| && q < |cur| && !cur[q] && ReachesAbsorbing(p, absorbing, q)
    requires s < |absorbing| && (absorbing[s] || cur[s])
    requires WorklistSeeded(absorbing, cur, worklist) && MarksSound(p, absorbing, cur)
    requires DoneClosed(p, absorbing, cur, worklist, s) && PushedOnce(cur, pushes)
    requires Unmarked(cur) <= Unmarked(before)
    ensures var next := cur[q := true];
      WorklistSeeded(absorbing, next, worklist + [q]) && MarksSound(p, absorbing, next)
      && DoneClosed(p, absorbing, next, worklist + [q], s) && PushedOnce(next, pushes + [q])
      && Unmarked(next) < Unmarked(before) && (absorbing[s] || next[s])
  {
    var next := cur[q := true];
    assert q in Unmarked(cur) && q !in Unmarked(next);
    assert Unmarked(next) <= Unmarked(cur);
    assert q !in pushes;
  }

  /**
   * What one visit has done so far, from the marks `before` it: `now` adds
   * to them the states of `done`, the worklist grew by exactly the states of
   * `done` that were unmarked, and `pushes` grew by the same states.
   */
  ghost predicate VisitRecord(before: seq<bool>, now: seq<bool>, done: seq<nat>,
                              worklist: seq<nat>, worklist': seq<nat>, pushes: seq<nat>, pushes': seq<nat>) {
    |now| == |before|
    && (forall x :: 0 <= x < |now| ==> now[x] == (before[x] || x in done))
    && |worklist| <= |worklist'| && worklist'[..|worklist|] == worklist
    && pushes' == pushes + worklist'[|worklist|..]
    && forall x: nat :: x in worklist'[|worklist|..] <==> x < |now| && x in done && !before[x]
  }

  /** Visiting one more predecessor q keeps the record: marked already, or marked and pushed now. */
  lemma VisitRecordStep(before: seq<bool>, now: seq<bool>, done: seq<nat>, q: nat,
                        worklist: seq<nat>, worklist': seq<nat>, pushes: seq<nat>, pushes': seq<nat>)
    requires VisitRecord(before, now, done, worklist, worklist', pushes, pushes') && q < |now|
    ensures now[q] ==> VisitRecord(before, now, done + [q], worklist, worklist', pushes, pushes')
    ensures !now[q] ==> VisitRecord(before, now[q := true], done + [q], worklist, worklist' + [q], pushes, pushes' + [q])
  {
    if !now[q] {
      assert (worklist' + [q])[|worklist|..] == worklist'[|worklist|..] + [q];
    }
  }

  /**
   * Lines 29-32, for one popped state `s`: mark and push each predecessor
   * not yet marked.
   */
  method VisitPredecessors(p: Matrix, absorbing: seq<bool>, marked: array<bool>, s: nat, ps: seq<nat>,
                           worklist: seq<nat>, ghost pushes: seq<nat>)
    returns (worklist': seq<nat>, ghost pushes': seq<nat>)
    requires IsMatrix(p, |absorbing|, |absorbing|)
    requires marked.Length == |absorbing| && s < |absorbing|
    requires forall q: nat :: q in ps <==> q < |absorbing| && Edge(p, q, s)
    requires absorbing[s] || marked[s]
    requires WorklistSeeded(absorbing, marked[..], worklist)
    requires MarksSound(p, absorbing, marked[..])
    requires DoneClosed(p, absorbing, marked[..], worklist, s)
    requires PushedOnce(marked[..], pushes)
    modifies marked
    ensures WorklistSeeded(absorbing, marked[..], worklist')
    ensures MarksSound(p, absorbing, marked[..])
    ensures DoneClosed(p, absorbing, marked[..], worklist', -1)
    ensures PushedOnce(marked[..], pushes')
    ensures Unmarked(marked[..]) <= Unmarked(old(marked[..]))
    ensures Unmarked(marked[..]) == Unmarked(old(marked[..])) ==> worklist' == worklist
    ensures forall x :: 0 <= x < marked.Length ==> marked[x] == (old(marked[x]) || x in ps)
    ensures |worklist| <= |worklist'| && worklist'[..|worklist|] == worklist
    ensures pushes' == pushes + worklist'[|worklist|..]
    ensures forall x: nat :: x in worklist'[|worklist|..] <==> x < marked.Length && x in ps && !old(marked[x])
  {
    worklist', pushes' := worklist, pushes;
    ghost var before := marked[..];
    for k := 0 to |ps|
      invariant VisitRecord(before, marked[..], ps[..k], worklist, worklist', pushes, pushes')
      invariant absorbing[s] || marked[s]
      invariant WorklistSeeded(absorbing, marked[..], worklist')
      invariant MarksSound(p, absorbing, marked[..])
      invariant DoneClosed(p, absorbing, marked[..], worklist', s)
      invariant PushedOnce(marked[..], pushes')
      invariant Unmarked(marked[..]) <= Unmarked(before)
      invariant Unmarked(marked[..]) == Unmarked(before) ==> worklist' == worklist
    {
      var q := ps[k];
      assert q in ps;
      assert ps[..k + 1] == ps[..k] + [q];
      VisitRecordStep(before, marked[..], ps[..k], q, worklist, worklist', pushes, pushes');
      if !marked[q] {
        ExtendBackward(p, absorbing, q, s);
        ghost var cur := marked[..];
        MarkStep(p, absorbing, before, cur, s, q, worklist', pushes');
        marked[q] := true;
        assert marked[..] == cur[q := true];
        worklist' := worklist' + [q];
        pushes' := pushes' + [q];
      }
    }
    assert ps[..|ps|] == ps;
    forall q: nat | Edge(p, q, s)
      ensures q < marked.Length && marked[q]
    {
      assert q in ps;
    }
  }

  /**
   * `get_transient`: the ascending list of states that reach an absorbing
   * state in one or more steps, and the ascending list of states that are
   * neither absorbing nor marked. `pushes` records what the loop pushes
   * after the initial seeds: no state is pushed twice, and the pushed
   * states are exactly the transient ones.
   */
  method GetTransient(p: Matrix, absorbing: seq<bool>)
    returns (transient: seq<nat>, singular: seq<nat>, ghost pushes: seq<nat>)
    requires IsMatrix(p, |absorbing|, |absorbing|)
    ensures transient == TrueIndices(TransientFlags(p, absorbing))
    ensures singular == TrueIndices(SingularFlags(TransientFlags(p, absorbing), absorbing))
    ensures forall a, b :: 0 <= a < b < |pushes| ==> pushes[a] != pushes[b]
    ensures forall s: nat :: s in pushes <==> s in transient
  {
    var n := |absorbing|;
    var marked := new bool[n](_ => false);
    var worklist := TrueIndices(absorbing);
    var preds := BuildPreds(p, n);
    pushes := [];
    while worklist != []
      invariant WorklistSeeded(absorbing, marked[..], worklist)
      invariant MarksSound(p, absorbing, marked[..])
      invariant DoneClosed(p, absorbing, marked[..], worklist, -1)
      invariant PushedOnce(marked[..], pushes)
      decreases Unmarked(marked[..]), |worklist|
    {
      var s := worklist[|worklist| - 1];
      ghost var popped := worklist;
      worklist := worklist[..|worklist| - 1];
      PopKeepsInvariants(p, absorbing, marked[..], popped, worklist, s);
      worklist, pushes := VisitPredecessors(p, absorbing, marked, s, preds[s], worklist, pushes);
    }
    var flags := marked[..];
    assert PredecessorClosed(p, absorbing, flags);
    SoundClosedIsTransient(p, absorbing, flags);
    transient := TrueIndices(flags);
    singular := TrueIndices(SingularFlags(flags, absorbing));
  }

  /** States that are both absorbing and marked transient. */
  function Overlap(transient: seq<bool>, absorbing: seq<bool>): (o: seq<bool>)
    requires |transient| == |absorbing|
    ensures |o| == |absorbing|
    ensures forall s :: 0 <= s < |o| ==> o[s] == (transient[s] && absorbing[s])
  {
    seq(|absorbing|, s requires 0 <= s < |absorbing| => transient[s] && absorbing[s])
  }

  /**
   * Each state adds 1 to exactly one of the singular, transient and
   * absorbing counts, except a state both absorbing and transient, which
   * adds 2.
   */
  lemma {:induction false} CountPartition(transient: seq<bool>, absorbing: seq<bool>)
    requires |transient| == |absorbing|
    ensures Count(SingularFlags(transient, absorbing)) + Count(transient) + Count(absorbing)
         == |absorbing| + Count(Overlap(transient, absorbing))
  {
    if absorbing != [] {
      var k := |absorbing| - 1;
      CountPartition(transient[..k], absorbing[..k]);
      assert SingularFlags(transient, absorbing)[..k] == SingularFlags(transient[..k], absorbing[..k]);
      assert Overlap(transient, absorbing)[..k] == Overlap(transient[..k], absorbing[..k]);
    }
  }

  /**
   * Line 78, `n_sing + n_trans + n_abs == n`, holds exactly when no
   * absorbing state carries the transient mark.
   */
  lemma PartitionCheck(transient: seq<bool>, absorbing: seq<bool>)
    requires |transient| == |absorbing|
    ensures |TrueIndices(SingularFlags(transient, absorbing))| + |TrueIndices(transient)| + Count(absorbing) == |absorbing|
        <==> forall b :: 0 <= b < |absorbing| && absorbing[b] ==> !transient[b]
  {
    CountPartition(transient, absorbing);
    CountZero(Overlap(transient, absorbing));
  }

  /**
   * Because line 30 does not skip absorbing predecessors, the check at
   * line 78 passes exactly when no absorbing state reaches an absorbing
   * state in one or more steps.
   */
  lemma PartitionCheckReach(p: Matrix, absorbing: seq<bool>)
    ensures var t := TransientFlags(p, absorbing);
      |TrueIndices(SingularFlags(t, absorbing))| + |TrueIndices(t)| + Count(absorbing) == |absorbing|
      <==> forall b :: 0 <= b < |absorbing| && absorbing[b] ==> !ReachesAbsorbing(p, absorbing, b)
  {
    PartitionCheck(TransientFlags(p, absorbing), absorbing);
  }

  /** A path to an absorbing state starts with an edge out of its first state. */
  lemma FirstEdge(p: Matrix, absorbing: seq<bool>, s: nat, path: seq<nat>)
    requires LeadsToAbsorbing(p, absorbing, s, path)
    ensures Edge(p, s, path[1])
  {
  }

  /**
   * When no absorbing state has an edge out (its row is zero outside
   * column 0), no absorbing state is marked, so the check at line 78 passes.
   */
  lemma SilentAbsorbingRows(p: Matrix, absorbing: seq<bool>)
    requires forall b: nat, j: nat :: b < |absorbing| && absorbing[b] ==> !Edge(p, b, j)
    ensures forall b :: 0 <= b < |absorbing| && absorbing[b] ==> !ReachesAbsorbing(p, absorbing, b)
  {
    forall b | 0 <= b < |absorbing| && absorbing[b]
      ensures !ReachesAbsorbing(p, absorbing, b)
    {
      if ReachesAbsorbing(p, absorbing, b) {
        var path :| LeadsToAbsorbing(p, absorbing, b, path);
        FirstEdge(p, absorbing, b, path);
        assert false;
      }
    }
  }

  /**
   * The identity chain on two states, both absorbing: state 1's self-loop
   * makes it a predecessor of itself, so it is marked transient and the
   * partition check at line 78 fails.
   */
  lemma IdentityChainRejected()
    ensures ReachesAbsorbing([[1.0, 0.0], [0.0, 1.0]], [true, true], 1)
    ensures var t := TransientFlags([[1.0, 0.0], [0.0, 1.0]], [true, true]);
      |TrueIndices(SingularFlags(t, [true, true]))| + |TrueIndices(t)| + Count([true, true]) != 2
  {
    var p: Matrix := [[1.0, 0.0], [0.0, 1.0]];
    assert LeadsToAbsorbing(p, [true, true], 1, [1, 1]);
    PartitionCheckReach(p, [true, true]);
  }

  /** Two matrices with the same edges classify every state alike. */
  lemma SameEdgesSameFlags(p: Matrix, p': Matrix, absorbing: seq<bool>)
    requires forall i: nat, j: nat :: Edge(p, i, j) == Edge(p', i, j)
    ensures TransientFlags(p, absorbing) == TransientFlags(p', absorbing)
  {
    forall s | 0 <= s < |absorbing|
      ensures ReachesAbsorbing(p, absorbing, s) == ReachesAbsorbing(p', absorbing, s)
    {
      if ReachesAbsorbing(p, absorbing, s) {
        var path :| LeadsToAbsorbing(p, absorbing, s, path);
        assert LeadsToAbsorbing(p', absorbing, s, path);
      }
      if ReachesAbsorbing(p', absorbing, s) {
        var path :| LeadsToAbsorbing(p', absorbing, s, path);
        assert LeadsToAbsorbing(p, absorbing, s, path);
      }
    }
  }
}
