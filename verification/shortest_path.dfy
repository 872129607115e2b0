/**
  The building blocks of the route search: the frontier selection of the
  array-based Dijkstra search, the relaxation step as a function of the
  search state, the state invariant, and the lemmas that the invariant is
  kept by each round and yields optimality and unreachability at the end.

  The search state is the three lists of the source (distances, predecessors,
  visited flags) plus a ghost rank: the round in which each node was settled.
 */
module ShortestPath {
  import opened Traffic
  import opened Paths

  /**
    Frontier selection: the unvisited node of least distance, the lowest
    index winning ties, or -1 when every node is visited.
   */
  method SelectFrontier(dist: seq<Cost>, visited: seq<bool>) returns (u: int)
    requires |dist| == |visited|
    ensures u == -1 <==> forall v :: 0 <= v < |visited| ==> visited[v]
    ensures u != -1 ==> 0 <= u < |visited| && !visited[u]
    ensures u != -1 ==> forall v :: 0 <= v < |visited| && !visited[v] ==> !Below(dist[v], dist[u])
    ensures u != -1 ==> forall v :: 0 <= v < u && !visited[v] ==> Below(dist[u], dist[v])
  {
    u := -1;
    var v := 0;
    while v < |visited|
      invariant 0 <= v <= |visited|
      invariant u == -1 <==> forall x :: 0 <= x < v ==> visited[x]
      invariant u != -1 ==> 0 <= u < v && !visited[u]
      invariant u != -1 ==> forall x :: 0 <= x < v && !visited[x] ==> !Below(dist[x], dist[u])
      invariant u != -1 ==> forall x :: 0 <= x < u && !visited[x] ==> Below(dist[u], dist[x])
    {
      if !visited[v] && (u == -1 || Below(dist[v], dist[u])) {
        u := v;
      }
      v := v + 1;
    }
  }

  /** The number of nodes not yet visited. */
  function Unvisited(visited: seq<bool>): (c: nat)
    ensures c <= |visited|
  {
    if visited == [] then 0
    else Unvisited(visited[..|visited| - 1]) + (if visited[|visited| - 1] then 0 else 1)
  }

  /** Nothing is left to visit exactly when the count of unvisited nodes is zero. */
  lemma {:induction false} UnvisitedZero(visited: seq<bool>)
    ensures Unvisited(visited) == 0 <==> forall v :: 0 <= v < |visited| ==> visited[v]
  {
    if visited != [] {
      var init := visited[..|visited| - 1];
      UnvisitedZero(init);
      assert forall v :: 0 <= v < |init| ==> init[v] == visited[v];
    }
  }

  /** Visiting an unvisited node lowers the count by one. */
  lemma {:induction false} UnvisitedVisit(visited: seq<bool>, u: nat)
    requires u < |visited| && !visited[u]
    ensures Unvisited(visited[u := true]) == Unvisited(visited) - 1
    decreases |visited|
  {
    var last := |visited| - 1;
    var after := visited[u := true];
    if u < last {
      assert after[..last] == visited[..last][u := true];
      UnvisitedVisit(visited[..last], u);
    } else {
      assert after[..last] == visited[..last];
    }
  }

  /** Whether relaxing v through the settled node u shortens v's distance. */
  ghost predicate Improves(w: seq<seq<Cost>>, dist: seq<Cost>, visited: seq<bool>, u: nat, v: nat)
    requires Square(w) && |dist| == |w| && |visited| == |w| && u < |w| && v < |w| && dist[u].Fin?
  {
    !visited[v] && w[u][v].Fin? && Below(Fin(dist[u].v + w[u][v].v), dist[v])
  }

  /** The distances after relaxing every unvisited neighbour of u. */
  ghost function RelaxedDist(w: seq<seq<Cost>>, dist: seq<Cost>, visited: seq<bool>, u: nat): seq<Cost>
    requires Square(w) && |dist| == |w| && |visited| == |w| && u < |w| && dist[u].Fin?
  {
    seq(|w|, v requires 0 <= v < |w| =>
      if Improves(w, dist, visited, u, v) then Fin(dist[u].v + w[u][v].v) else dist[v])
  }

  /** The predecessors after relaxing every unvisited neighbour of u. */
  ghost function RelaxedPrev(w: seq<seq<Cost>>, dist: seq<Cost>, prev: seq<int>, visited: seq<bool>, u: nat): seq<int>
    requires Square(w) && |dist| == |w| && |prev| == |w| && |visited| == |w| && u < |w| && dist[u].Fin?
  {
    seq(|w|, v requires 0 <= v < |w| => if Improves(w, dist, visited, u, v) then u else prev[v])
  }

  /** The sizes of the search state agree with the matrix, whose costs are non-negative. */
  ghost predicate Shape(w: seq<seq<Cost>>, s: nat, dist: seq<Cost>, prev: seq<int>, visited: seq<bool>, rank: seq<nat>)
  {
    && Square(w) && NonNegative(w) && s < |w|
    && |dist| == |w| && |prev| == |w| && |visited| == |w| && |rank| == |w|
  }

  /** The origin keeps distance zero and no predecessor; every finite distance is non-negative. */
  ghost predicate SourceFixed(w: seq<seq<Cost>>, s: nat, dist: seq<Cost>, prev: seq<int>)
    requires Square(w) && s < |w| && |dist| == |w| && |prev| == |w|
  {
    && dist[s] == Fin(0.0) && prev[s] == -1
    && forall v :: 0 <= v < |w| && dist[v].Fin? ==> dist[v].v >= 0.0
  }

  /** Every visited node has a finite distance, no more than the cost of any walk to it. */
  ghost predicate SettledOptimal(w: seq<seq<Cost>>, s: nat, dist: seq<Cost>, visited: seq<bool>)
    requires Square(w) && |dist| == |w| && |visited| == |w|
  {
    && (forall v :: 0 <= v < |w| && visited[v] ==> dist[v].Fin?)
    && (forall v, p :: 0 <= v < |w| && visited[v] && IsPath(w, p, s, v) ==> dist[v].v <= PathCost(w, p))
  }

  /** Every step from a visited node to an unvisited one has been relaxed. */
  ghost predicate FrontierRelaxed(w: seq<seq<Cost>>, dist: seq<Cost>, visited: seq<bool>)
    requires Square(w) && |dist| == |w| && |visited| == |w|
  {
    forall a, b :: 0 <= a < |w| && 0 <= b < |w| && visited[a] && !visited[b] && w[a][b].Fin? && dist[a].Fin? ==>
      dist[b].Fin? && dist[b].v <= dist[a].v + w[a][b].v
  }

  /**
    The predecessor of v is a node settled before v, one finite step away,
    whose distance plus that step is v's distance.
   */
  ghost predicate PredecessorOk(w: seq<seq<Cost>>, dist: seq<Cost>, prev: seq<int>, visited: seq<bool>, rank: seq<nat>, v: nat)
    requires Square(w) && |dist| == |w| && |prev| == |w| && |visited| == |w| && |rank| == |w| && v < |w|
  {
    var x := prev[v];
    && 0 <= x < |w| && visited[x] && w[x][v].Fin? && dist[x].Fin? && dist[v].Fin?
    && dist[v].v == dist[x].v + w[x][v].v
    && (visited[v] ==> rank[x] < rank[v])
  }

  /** Predecessor links: every reached node but the origin has one, and each is sound. */
  ghost predicate PredecessorChain(w: seq<seq<Cost>>, s: nat, dist: seq<Cost>, prev: seq<int>, visited: seq<bool>, rank: seq<nat>, rounds: nat)
    requires Square(w) && |dist| == |w| && |prev| == |w| && |visited| == |w| && |rank| == |w|
  {
    && (forall v :: 0 <= v < |w| && visited[v] ==> rank[v] < rounds)
    && (forall v :: 0 <= v < |w| && dist[v].Fin? && v != s ==> prev[v] != -1)
    && (forall v :: 0 <= v < |w| && prev[v] != -1 ==> PredecessorOk(w, dist, prev, visited, rank, v))
  }

  /** The invariant of the search after `rounds` rounds. */
  ghost predicate SearchInvariant(w: seq<seq<Cost>>, s: nat, dist: seq<Cost>, prev: seq<int>, visited: seq<bool>, rank: seq<nat>, rounds: nat)
  {
    && Shape(w, s, dist, prev, visited, rank)
    && SourceFixed(w, s, dist, prev)
    && SettledOptimal(w, s, dist, visited)
    && FrontierRelaxed(w, dist, visited)
    && PredecessorChain(w, s, dist, prev, visited, rank, rounds)
    && Unvisited(visited) + rounds == |w|
  }

  /** The state before the first round: only the origin has a distance. */
  lemma InitialState(w: seq<seq<Cost>>, s: nat)
    requires Square(w) && NonNegative(w) && s < |w|
    ensures SearchInvariant(w, s, seq(|w|, _ => Inf)[s := Fin(0.0)], seq(|w|, _ => -1),
                            seq(|w|, _ => false), seq(|w|, _ => 0), 0)
  {
    var visited := seq(|w|, _ => false);
    assert Unvisited(visited) == |w| by { UnvisitedAllFalse(|w|); }
  }

  lemma {:induction false} UnvisitedAllFalse(n: nat)
    ensures Unvisited(seq(n, _ => false)) == n
  {
    if n > 0 {
      assert seq(n, _ => false)[..n - 1] == seq(n - 1, _ => false);
      UnvisitedAllFalse(n - 1);
    }
  }

  /**
    Any walk from the origin to an unvisited node passes through an
    unvisited node whose distance is at most the cost of the whole walk.
   */
  lemma {:induction false} FrontierBound(w: seq<seq<Cost>>, s: nat, dist: seq<Cost>, prev: seq<int>, visited: seq<bool>, rank: seq<nat>, p: seq<nat>, x: nat)
    returns (k: nat)
    requires Shape(w, s, dist, prev, visited, rank)
    requires SourceFixed(w, s, dist, prev) && SettledOptimal(w, s, dist, visited) && FrontierRelaxed(w, dist, visited)
    requires IsPath(w, p, s, x) && !visited[x]
    ensures k < |p| && !visited[p[k]] && dist[p[k]].Fin? && dist[p[k]].v <= PathCost(w, p)
    decreases |p|
  {
    if |p| == 1 {
      k := 0;
    } else {
      var q := p[..|p| - 1];
      var y := q[|q| - 1];
      assert p == q + [x];
      PathCostSnoc(w, q, x);
      assert IsPath(w, q, s, y);
      if visited[y] {
        k := |p| - 1;
      } else {
        k := FrontierBound(w, s, dist, prev, visited, rank, q, y);
        assert p[k] == q[k];
      }
    }
  }

  /** The node settled in a round has a distance no more than any walk to it. */
  lemma SelectedOptimal(w: seq<seq<Cost>>, s: nat, dist: seq<Cost>, prev: seq<int>, visited: seq<bool>, rank: seq<nat>, u: nat)
    requires Shape(w, s, dist, prev, visited, rank)
    requires SourceFixed(w, s, dist, prev) && SettledOptimal(w, s, dist, visited) && FrontierRelaxed(w, dist, visited)
    requires u < |w| && !visited[u] && dist[u].Fin?
    requires forall v :: 0 <= v < |w| && !visited[v] ==> !Below(dist[v], dist[u])
    ensures forall p :: IsPath(w, p, s, u) ==> dist[u].v <= PathCost(w, p)
  {
    forall p | IsPath(w, p, s, u)
      ensures dist[u].v <= PathCost(w, p)
    {
      var k := FrontierBound(w, s, dist, prev, visited, rank, p, u);
      assert !Below(dist[p[k]], dist[u]);
    }
  }

  /** One round — settle the selected node u, then relax its neighbours — keeps the invariant. */
  lemma VisitStep(w: seq<seq<Cost>>, s: nat, dist: seq<Cost>, prev: seq<int>, visited: seq<bool>, rank: seq<nat>, rounds: nat, u: nat)
    requires SearchInvariant(w, s, dist, prev, visited, rank, rounds)
    requires u < |w| && !visited[u] && dist[u].Fin?
    requires forall v :: 0 <= v < |w| && !visited[v] ==> !Below(dist[v], dist[u])
    ensures SearchInvariant(w, s, RelaxedDist(w, dist, visited[u := true], u),
                            RelaxedPrev(w, dist, prev, visited[u := true], u),
                            visited[u := true], rank[u := rounds], rounds + 1)
  {
    var visited' := visited[u := true];
    var dist' := RelaxedDist(w, dist, visited', u);
    var prev' := RelaxedPrev(w, dist, prev, visited', u);
    var rank' := rank[u := rounds];
    SelectedOptimal(w, s, dist, prev, visited, rank, u);
    UnvisitedVisit(visited, u);
    assert forall v :: 0 <= v < |w| && visited'[v] ==> dist'[v] == dist[v];
    StepSourceFixed(w, s, dist, prev, visited', u);
    StepSettledOptimal(w, s, dist, visited, u);
    StepFrontierRelaxed(w, dist, visited, u);
    StepPredecessorChain(w, s, dist, prev, visited, rank, rounds, u);
  }

  lemma StepSourceFixed(w: seq<seq<Cost>>, s: nat, dist: seq<Cost>, prev: seq<int>, visited': seq<bool>, u: nat)
    requires Square(w) && NonNegative(w) && s < |w| && |dist| == |w| && |prev| == |w| && |visited'| == |w|
    requires SourceFixed(w, s, dist, prev) && u < |w| && dist[u].Fin?
    ensures SourceFixed(w, s, RelaxedDist(w, dist, visited', u), RelaxedPrev(w, dist, prev, visited', u))
  {
    assert !Improves(w, dist, visited', u, s);
  }

  lemma StepSettledOptimal(w: seq<seq<Cost>>, s: nat, dist: seq<Cost>, visited: seq<bool>, u: nat)
    requires Square(w) && |dist| == |w| && |visited| == |w| && u < |w| && dist[u].Fin?
    requires SettledOptimal(w, s, dist, visited)
    requires forall p :: IsPath(w, p, s, u) ==> dist[u].v <= PathCost(w, p)
    ensures SettledOptimal(w, s, RelaxedDist(w, dist, visited[u := true], u), visited[u := true])
  {
    var visited' := visited[u := true];
    var dist' := RelaxedDist(w, dist, visited', u);
    assert forall v :: 0 <= v < |w| && visited'[v] ==> dist'[v] == dist[v];
  }

  lemma StepFrontierRelaxed(w: seq<seq<Cost>>, dist: seq<Cost>, visited: seq<bool>, u: nat)
    requires Square(w) && |dist| == |w| && |visited| == |w| && u < |w| && dist[u].Fin?
    requires FrontierRelaxed(w, dist, visited)
    ensures FrontierRelaxed(w, RelaxedDist(w, dist, visited[u := true], u), visited[u := true])
  {
    var visited' := visited[u := true];
    var dist' := RelaxedDist(w, dist, visited', u);
    forall a, b | 0 <= a < |w| && 0 <= b < |w| && visited'[a] && !visited'[b] && w[a][b].Fin? && dist'[a].Fin?
      ensures dist'[b].Fin? && dist'[b].v <= dist'[a].v + w[a][b].v
    {
      assert dist'[a] == dist[a];
      if a != u {
        assert !Below(dist[b], dist'[b]);
      }
    }
  }

  lemma StepPredecessorChain(w: seq<seq<Cost>>, s: nat, dist: seq<Cost>, prev: seq<int>, visited: seq<bool>, rank: seq<nat>, rounds: nat, u: nat)
    requires Shape(w, s, dist, prev, visited, rank) && u < |w| && !visited[u] && dist[u].Fin?
    requires SourceFixed(w, s, dist, prev)
    requires PredecessorChain(w, s, dist, prev, visited, rank, rounds)
    ensures PredecessorChain(w, s, RelaxedDist(w, dist, visited[u := true], u),
                             RelaxedPrev(w, dist, prev, visited[u := true], u),
                             visited[u := true], rank[u := rounds], rounds + 1)
  {
    var visited' := visited[u := true];
    var dist' := RelaxedDist(w, dist, visited', u);
    var prev' := RelaxedPrev(w, dist, prev, visited', u);
    var rank' := rank[u := rounds];
    forall v | 0 <= v < |w| && prev'[v] != -1
      ensures PredecessorOk(w, dist', prev', visited', rank', v)
    {
      if !Improves(w, dist, visited', u, v) {
        assert PredecessorOk(w, dist, prev, visited, rank, v);
        var x := prev[v];
        assert x != u;
        assert dist'[x] == dist[x];
      }
    }
  }

  /**
    suffix is a walk ending at target whose cost, added to the distance of
    its first node, is the distance of target.
   */
  ghost predicate TracesBack(w: seq<seq<Cost>>, dist: seq<Cost>, target: nat, suffix: seq<nat>)
    requires Square(w) && |dist| == |w|
  {
    && IsWalk(w, suffix) && suffix[|suffix| - 1] == target
    && dist[suffix[0]].Fin? && dist[target].Fin?
    && dist[target].v == dist[suffix[0]].v + PathCost(w, suffix)
  }

  /** Each node of chain after the first has the node before it as predecessor. */
  ghost predicate Linked(prev: seq<int>, chain: seq<nat>)
  {
    forall i :: 0 < i < |chain| && chain[i] < |prev| ==> prev[chain[i]] == chain[i - 1]
  }

  /** The predecessor of a chain's first node can be put in front of it. */
  lemma LinkedPrepend(prev: seq<int>, x: nat, chain: seq<nat>)
    requires Linked(prev, chain)
    requires chain != [] ==> chain[0] < |prev| && prev[chain[0]] == x
    ensures Linked(prev, [x] + chain)
  {
    var longer := [x] + chain;
    forall i | 0 < i < |longer| && longer[i] < |prev|
      ensures prev[longer[i]] == longer[i - 1]
    {
      assert longer[i] == chain[i - 1];
    }
  }

  /**
    One step back along the predecessor links keeps the traced walk sound
    and reaches a node settled in an earlier round.
   */
  lemma TraceStep(w: seq<seq<Cost>>, s: nat, dist: seq<Cost>, prev: seq<int>, visited: seq<bool>, rank: seq<nat>, rounds: nat, target: nat, suffix: seq<nat>)
    requires Shape(w, s, dist, prev, visited, rank)
    requires PredecessorChain(w, s, dist, prev, visited, rank, rounds)
    requires TracesBack(w, dist, target, suffix) && prev[suffix[0]] != -1
    ensures 0 <= prev[suffix[0]] < |w| && visited[prev[suffix[0]]]
    ensures TracesBack(w, dist, target, [prev[suffix[0]] as nat] + suffix)
    ensures visited[suffix[0]] ==> rank[prev[suffix[0]]] < rank[suffix[0]]
  {
    assert PredecessorOk(w, dist, prev, visited, rank, suffix[0]);
    var x := prev[suffix[0]] as nat;
    PathCostCons(w, x, suffix);
    assert ([x] + suffix)[|suffix|] == target;
  }

  /** A traced walk that starts at a node without predecessor starts at the origin. */
  lemma TraceComplete(w: seq<seq<Cost>>, s: nat, dist: seq<Cost>, prev: seq<int>, visited: seq<bool>, rank: seq<nat>, rounds: nat, target: nat, suffix: seq<nat>)
    requires Shape(w, s, dist, prev, visited, rank)
    requires SourceFixed(w, s, dist, prev)
    requires PredecessorChain(w, s, dist, prev, visited, rank, rounds)
    requires TracesBack(w, dist, target, suffix) && prev[suffix[0]] == -1
    ensures IsPath(w, suffix, s, target) && dist[target].v == PathCost(w, suffix)
  {
  }

  /** Going back along predecessor links from a settled node reaches settled nodes only. */
  lemma {:induction false} ChainVisited(w: seq<seq<Cost>>, s: nat, dist: seq<Cost>, prev: seq<int>, visited: seq<bool>, rank: seq<nat>, rounds: nat, chain: seq<nat>, k: nat)
    requires Shape(w, s, dist, prev, visited, rank)
    requires PredecessorChain(w, s, dist, prev, visited, rank, rounds)
    requires forall i :: 0 <= i < |chain| ==> chain[i] < |w|
    requires Linked(prev, chain)
    requires chain != [] && visited[chain[|chain| - 1]] && k < |chain|
    ensures visited[chain[k]]
    decreases |chain| - k
  {
    if k < |chain| - 1 {
      ChainVisited(w, s, dist, prev, visited, rank, rounds, chain, k + 1);
      assert prev[chain[k + 1]] == chain[k] as int;
      assert PredecessorOk(w, dist, prev, visited, rank, chain[k + 1]);
    }
  }

  /** Along predecessor links, every earlier node was settled in an earlier round. */
  lemma {:induction false} ChainRanks(w: seq<seq<Cost>>, s: nat, dist: seq<Cost>, prev: seq<int>, visited: seq<bool>, rank: seq<nat>, rounds: nat, chain: seq<nat>, a: nat, b: nat)
    requires Shape(w, s, dist, prev, visited, rank)
    requires PredecessorChain(w, s, dist, prev, visited, rank, rounds)
    requires forall i :: 0 <= i < |chain| ==> chain[i] < |w|
    requires Linked(prev, chain)
    requires chain != [] && visited[chain[|chain| - 1]] && a < b < |chain|
    ensures rank[chain[a]] < rank[chain[b]]
    decreases b - a
  {
    ChainVisited(w, s, dist, prev, visited, rank, rounds, chain, a + 1);
    assert prev[chain[a + 1]] == chain[a] as int;
    assert PredecessorOk(w, dist, prev, visited, rank, chain[a + 1]);
    if a + 1 < b {
      ChainRanks(w, s, dist, prev, visited, rank, rounds, chain, a + 1, b);
    }
  }

  /**
    The nodes met going back along predecessor links from a settled node are
    pairwise distinct: each was settled in an earlier round than the next.
   */
  lemma PredecessorLinksDistinct(w: seq<seq<Cost>>, s: nat, dist: seq<Cost>, prev: seq<int>, visited: seq<bool>, rank: seq<nat>, rounds: nat, chain: seq<nat>)
    requires Shape(w, s, dist, prev, visited, rank)
    requires PredecessorChain(w, s, dist, prev, visited, rank, rounds)
    requires forall i :: 0 <= i < |chain| ==> chain[i] < |w|
    requires Linked(prev, chain)
    requires chain != [] ==> visited[chain[|chain| - 1]]
    ensures forall a, b :: 0 <= a < b < |chain| ==> chain[a] != chain[b]
  {
    forall a, b | 0 <= a < b < |chain|
      ensures chain[a] != chain[b]
    {
      ChainRanks(w, s, dist, prev, visited, rank, rounds, chain, a, b);
    }
  }

  /**
    When the search stops with every unvisited node at infinity, a node left
    at infinity cannot be reached from the origin.
   */
  lemma Unreachable(w: seq<seq<Cost>>, s: nat, dist: seq<Cost>, prev: seq<int>, visited: seq<bool>, rank: seq<nat>, rounds: nat, t: nat)
    requires SearchInvariant(w, s, dist, prev, visited, rank, rounds)
    requires forall v :: 0 <= v < |w| && !visited[v] ==> dist[v].Inf?
    requires t < |w| && dist[t].Inf?
    ensures !Reachable(w, s, t)
  {
    if p :| IsPath(w, p, s, t) {
      var k := FrontierBound(w, s, dist, prev, visited, rank, p, t);
      assert false;
    }
  }
}
