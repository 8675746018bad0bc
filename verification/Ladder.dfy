/** The shape shared by the handshake and session life cycles: working states 0..top are
    climbed one at a time, Closing is top + 1 and Closed is top + 2. */
module Ladder {
  /** One rung up; from the started working states below the top also to Closing; from any
      working state also to Closed. */
  predicate CanMove(top: nat, s: nat, t: nat) {
    || (t == s + 1 && t <= top + 2)
    || (1 <= s < top && t == top + 1)
    || (s <= top && t == top + 2)
  }

  /** The states a machine has been in, from its first. */
  predicate Climb(top: nat, path: seq<nat>) {
    path != [] && path[0] == 0 && forall i :: 0 < i < |path| ==> CanMove(top, path[i - 1], path[i])
  }

  lemma {:induction false} ClimbAscends(top: nat, path: seq<nat>, i: nat, j: nat)
    requires Climb(top, path) && i < j < |path|
    ensures path[i] < path[j] <= top + 2
    decreases j - i
  {
    if i + 1 < j { ClimbAscends(top, path, i, j - 1); }
  }

  lemma {:induction false} ClimbRank(top: nat, path: seq<nat>, i: nat)
    requires Climb(top, path) && i < |path|
    ensures i <= path[i] <= top + 2
    ensures path[i] <= top ==> path[i] == i
  {
    if i > 0 { ClimbRank(top, path, i - 1); }
  }

  /** Every move advances, there are at most top + 2 of them, and a working state is reached
      only through every earlier one in order. */
  lemma ClimbShape(top: nat, path: seq<nat>)
    requires Climb(top, path)
    ensures |path| <= top + 3
    ensures forall i, j :: 0 <= i < j < |path| ==> path[i] < path[j]
    ensures forall i :: 0 <= i < |path| && path[i] <= top ==> path[i] == i
  {
    forall i, j | 0 <= i < j < |path| ensures path[i] < path[j] { ClimbAscends(top, path, i, j); }
    ClimbRank(top, path, |path| - 1);
    forall i | 0 <= i < |path| && path[i] <= top ensures path[i] == i { ClimbRank(top, path, i); }
  }

  /** A path that meets a working state starts with every rung up to it. */
  lemma ReachedInOrder(top: nat, path: seq<nat>, rung: nat)
    requires Climb(top, path) && rung <= top && rung in path
    ensures |path| >= rung + 1 && forall i :: 0 <= i <= rung ==> path[i] == i
  {
    var k :| 0 <= k < |path| && path[k] == rung;
    ClimbRank(top, path, k);
    forall i | 0 <= i <= rung ensures path[i] == i {
      if i < k { ClimbAscends(top, path, i, k); }
      ClimbRank(top, path, i);
    }
  }
}
