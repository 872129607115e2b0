/**
  Walks through a square matrix of costs and their total cost. A walk is what
  the route search returns: a non-empty sequence of node indices in which
  every step follows a finite cost.
 */
module Paths {
  import opened Traffic

  /** Every row has one entry per node. */
  ghost predicate Square(w: seq<seq<Cost>>)
  {
    forall i :: 0 <= i < |w| ==> |w[i]| == |w|
  }

  /** No finite cost is negative. */
  ghost predicate NonNegative(w: seq<seq<Cost>>)
    requires Square(w)
  {
    forall i, j :: 0 <= i < |w| && 0 <= j < |w| && w[i][j].Fin? ==> w[i][j].v >= 0.0
  }

  /** p is a non-empty sequence of nodes of w, each step along a finite cost. */
  ghost predicate IsWalk(w: seq<seq<Cost>>, p: seq<nat>)
    requires Square(w)
  {
    && |p| >= 1
    && (forall k :: 0 <= k < |p| ==> p[k] < |w|)
    && (forall k :: 0 <= k < |p| - 1 ==> w[p[k]][p[k + 1]].Fin?)
  }

  /** p is a walk from s to t. */
  ghost predicate IsPath(w: seq<seq<Cost>>, p: seq<nat>, s: nat, t: nat)
    requires Square(w)
  {
    IsWalk(w, p) && p[0] == s && p[|p| - 1] == t
  }

  /** Some walk leads from s to t. */
  ghost predicate Reachable(w: seq<seq<Cost>>, s: nat, t: nat)
    requires Square(w)
  {
    exists p :: IsPath(w, p, s, t)
  }

  /** The sum of the step costs along a walk. */
  ghost function PathCost(w: seq<seq<Cost>>, p: seq<nat>): real
    requires Square(w) && IsWalk(w, p)
    decreases |p|
  {
    if |p| == 1 then 0.0 else w[p[0]][p[1]].v + PathCost(w, p[1..])
  }

  /** Extending a walk by one step adds that step's cost. */
  lemma {:induction false} PathCostSnoc(w: seq<seq<Cost>>, p: seq<nat>, x: nat)
    requires Square(w) && |p| >= 1 && IsWalk(w, p + [x])
    ensures IsWalk(w, p) && x < |w| && w[p[|p| - 1]][x].Fin?
    ensures PathCost(w, p + [x]) == PathCost(w, p) + w[p[|p| - 1]][x].v
    decreases |p|
  {
    assert forall k :: 0 <= k < |p| ==> (p + [x])[k] == p[k];
    assert (p + [x])[|p|] == x;
    if |p| >= 2 {
      assert (p + [x])[1..] == p[1..] + [x];
      PathCostSnoc(w, p[1..], x);
    }
  }

  /** Over non-negative costs, every walk costs at least zero. */
  lemma {:induction false} PathCostNonNegative(w: seq<seq<Cost>>, p: seq<nat>)
    requires Square(w) && NonNegative(w) && IsWalk(w, p)
    ensures PathCost(w, p) >= 0.0
    decreases |p|
  {
    if |p| > 1 {
      PathCostNonNegative(w, p[1..]);
    }
  }

  /** Prepending a node along a finite step gives a walk, one step dearer. */
  lemma PathCostCons(w: seq<seq<Cost>>, x: nat, p: seq<nat>)
    requires Square(w) && IsWalk(w, p) && x < |w| && w[x][p[0]].Fin?
    ensures IsWalk(w, [x] + p)
    ensures PathCost(w, [x] + p) == w[x][p[0]].v + PathCost(w, p)
  {
    assert ([x] + p)[1..] == p;
  }
}
