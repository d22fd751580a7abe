/**
 * Index lists over Boolean vectors: `np.nonzero` on a Boolean array and
 * `sum` of a Boolean array, as the classifier and the driver use them.
 */
module Indices {

  /** `sum(bs)` on a Boolean array: the number of true entries. */
  function Count(bs: seq<bool>): (c: nat)
    ensures c <= |bs|
  {
    if bs == [] then 0 else Count(bs[..|bs| - 1]) + (if bs[|bs| - 1] then 1 else 0)
  }

  predicate StrictlyIncreasing(s: seq<nat>) {
    forall a, b :: 0 <= a < b < |s| ==> s[a] < s[b]
  }

  /**
   * `np.nonzero(bs)`: the positions of the true entries, ascending, and
   * one position per true entry.
   */
  function TrueIndices(bs: seq<bool>): (r: seq<nat>)
    ensures StrictlyIncreasing(r)
    ensures forall i: nat :: i in r <==> i < |bs| && bs[i]
    ensures |r| == Count(bs)
  {
    if bs == [] then []
    else
      var r0 := TrueIndices(bs[..|bs| - 1]);
      assert forall a :: 0 <= a < |r0| ==> r0[a] in r0 && r0[a] < |bs| - 1;
      if bs[|bs| - 1] then r0 + [|bs| - 1] else r0
  }

  /** Count is zero exactly when no entry is true. */
  lemma {:induction false} CountZero(bs: seq<bool>)
    ensures Count(bs) == 0 <==> forall i :: 0 <= i < |bs| ==> !bs[i]
  {
    if bs != [] {
      CountZero(bs[..|bs| - 1]);
    }
  }

  /** The position of `x` in a list that holds it. */
  function Position(s: seq<nat>, x: nat): (k: nat)
    requires x in s
    ensures k < |s| && s[k] == x
  {
    if s[0] == x then 0 else 1 + Position(s[1..], x)
  }

  /** In a list without repetitions, the position of the k-th element is k. */
  lemma PositionOfElement(s: seq<nat>, k: nat)
    requires StrictlyIncreasing(s) && k < |s|
    ensures Position(s, s[k]) == k
  {
  }
}
