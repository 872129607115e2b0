/**
  The emergency graph: medical facilities indexed in insertion order, a dense
  square matrix of base travel times that grows by one row and one column per
  facility, traffic-adjusted times, and the fastest-route search.
 */
module Grafo {
  import opened Wrappers
  import opened Geometry
  import opened Traffic
  import opened Paths
  import opened ShortestPath

  /** A route found by the search: facility names from origin to destination, and the total time. */
  datatype Route = Route(path: seq<string>, time: real)

  /** The matrix is the same read along either direction of every pair. */
  ghost predicate Symmetric(m: seq<seq<Cost>>)
    requires Square(m)
  {
    forall i, j :: 0 <= i < |m| && 0 <= j < |m| ==> m[i][j] == m[j][i]
  }

  /**
    m' is m grown by one node: every old cell kept, the new row and column
    infinite, the new diagonal cell zero.
   */
  ghost predicate Extends(m: seq<seq<Cost>>, m': seq<seq<Cost>>)
  {
    && Square(m) && Square(m') && |m'| == |m| + 1
    && forall i, j :: 0 <= i < |m'| && 0 <= j < |m'| ==>
         m'[i][j] == if i < |m| && j < |m| then m[i][j] else if i == j then Fin(0.0) else Inf
  }

  /** The matrix grown by one row and column, with the new diagonal cell set to zero. */
  lemma GrowMatrix(m: seq<seq<Cost>>, m': seq<seq<Cost>>)
    requires Square(m) && NonNegative(m) && Symmetric(m)
    requires |m'| == |m| + 1
    requires forall r :: 0 <= r < |m| ==> m'[r] == m[r] + [Inf]
    requires m'[|m|] == seq(|m| + 1, _ => Inf)[|m| := Fin(0.0)]
    ensures Extends(m, m') && NonNegative(m') && Symmetric(m')
  {
    assert Square(m');
    forall i, j | 0 <= i < |m'| && 0 <= j < |m'|
      ensures m'[i][j] == if i < |m| && j < |m| then m[i][j] else if i == j then Fin(0.0) else Inf
    {
      if i < |m| {
        assert m'[i] == m[i] + [Inf];
      }
    }
  }

  /**
    The matrix with one more row and column: a new row of infinities is
    appended, then an infinity is appended to every older row, and the new
    diagonal cell is set to zero.
   */
  method Grow(m: seq<seq<Cost>>) returns (rows: seq<seq<Cost>>)
    requires Square(m) && NonNegative(m) && Symmetric(m)
    ensures Extends(m, rows) && NonNegative(rows) && Symmetric(rows)
  {
    rows := m + [seq(|m| + 1, _ => Inf)];
    var i := 0;
    while i < |rows| - 1
      invariant 0 <= i <= |rows| - 1 && |rows| == |m| + 1
      invariant forall r :: 0 <= r < i ==> rows[r] == m[r] + [Inf]
      invariant forall r :: i <= r < |m| ==> rows[r] == m[r]
      invariant rows[|m|] == seq(|m| + 1, _ => Inf)
    {
      rows := rows[i := rows[i] + [Inf]];
      i := i + 1;
    }
    var idx := |m|;
    rows := rows[idx := rows[idx][idx := Fin(0.0)]];
    GrowMatrix(m, rows);
  }

  /**
    The name-to-index dictionary and the insertion-ordered name list describe
    the same `count` names, the k-th name having index k.
   */
  ghost predicate Indexed(index: map<string, nat>, names: seq<string>, count: nat)
  {
    && |names| == count && |index| == count
    && (forall k :: 0 <= k < |names| ==> names[k] in index && index[names[k]] == k)
    && (forall name :: name in index ==> index[name] < count && names[index[name]] == name)
  }

  /** Adding a new name at the next index keeps the dictionary and the list in step. */
  lemma IndexedAdd(index: map<string, nat>, names: seq<string>, count: nat, name: string)
    requires Indexed(index, names, count) && name !in index
    ensures Indexed(index[name := count], names + [name], count + 1)
  {
    var names' := names + [name];
    assert forall k :: 0 <= k < |names| ==> names'[k] == names[k] && names[k] != name;
  }

  /**
    The invariant of the graph's stored state: the dictionaries share their
    keys, the name list is their insertion order, and the matrix is square
    with side `count`, symmetric and without negative times.
   */
  ghost predicate Consistent(index: map<string, nat>, names: seq<string>, kinds: map<string, string>,
                             coords: map<string, Point>, matrix: seq<seq<Cost>>, count: nat)
  {
    && Indexed(index, names, count)
    && index.Keys == kinds.Keys && index.Keys == coords.Keys
    && |matrix| == count && Square(matrix) && NonNegative(matrix) && Symmetric(matrix)
  }

  /** Adding a new facility, as AddNode does, keeps the stored state consistent. */
  lemma ConsistentAdd(index: map<string, nat>, names: seq<string>, kinds: map<string, string>,
                      coords: map<string, Point>, matrix: seq<seq<Cost>>, count: nat,
                      name: string, kind: string, coord: Point, matrix': seq<seq<Cost>>)
    requires Consistent(index, names, kinds, coords, matrix, count) && name !in index
    requires Extends(matrix, matrix') && NonNegative(matrix') && Symmetric(matrix')
    ensures Consistent(index[name := count], names + [name], kinds[name := kind],
                       coords[name := coord], matrix', count + 1)
  {
    IndexedAdd(index, names, count, name);
  }

  /** Setting both directions of a route to the same non-negative time keeps the state consistent. */
  lemma ConsistentRoute(index: map<string, nat>, names: seq<string>, kinds: map<string, string>,
                        coords: map<string, Point>, matrix: seq<seq<Cost>>, count: nat,
                        i: nat, j: nat, time: real, matrix': seq<seq<Cost>>)
    requires Consistent(index, names, kinds, coords, matrix, count) && i < count && j < count
    requires time >= 0.0
    requires matrix' == matrix[i := matrix[i][j := Fin(time)]][j := matrix[i := matrix[i][j := Fin(time)]][j][i := Fin(time)]]
    ensures Consistent(index, names, kinds, coords, matrix', count)
    ensures forall a, b :: 0 <= a < count && 0 <= b < count ==>
      matrix'[a][b] == if (a == i && b == j) || (a == j && b == i) then Fin(time) else matrix[a][b]
  {
    forall a, b | 0 <= a < count && 0 <= b < count
      ensures matrix'[a][b] == if (a == i && b == j) || (a == j && b == i) then Fin(time) else matrix[a][b]
    {
    }
  }

  /** The indices of a sequence of names under the name-to-index dictionary. */
  function IndicesOf(index: map<string, nat>, path: seq<string>): seq<nat>
  {
    seq(|path|, k requires 0 <= k < |path| => if path[k] in index then index[path[k]] else 0)
  }

  /** The sequence read backwards, as an in-place list reversal leaves it. */
  function Reversed<T>(s: seq<T>): (r: seq<T>)
    ensures |r| == |s|
    ensures forall k :: 0 <= k < |s| ==> r[k] == s[|s| - 1 - k]
  {
    if s == [] then [] else Reversed(s[1..]) + [s[0]]
  }

  /** The names collected backwards along `suffix`, once reversed, name the nodes of `suffix` in order. */
  lemma ReversedNames(index: map<string, nat>, names: seq<string>, suffix: seq<nat>, back: seq<string>)
    requires Indexed(index, names, |names|) && |back| == |suffix|
    requires forall k :: 0 <= k < |suffix| ==> suffix[k] < |names|
    requires forall k :: 0 <= k < |suffix| ==> back[k] == names[suffix[|suffix| - 1 - k]]
    ensures forall k :: 0 <= k < |back| ==> Reversed(back)[k] in index
    ensures IndicesOf(index, Reversed(back)) == suffix
  {
    var path := Reversed(back);
    assert forall k :: 0 <= k < |path| ==> path[k] == names[suffix[k]];
  }

  /** The name holding index idx, found by scanning the names in insertion order. */
  method NameAt(index: map<string, nat>, names: seq<string>, idx: nat) returns (name: string)
    requires Indexed(index, names, |names|) && idx < |names|
    ensures name in index && index[name] == idx && name == names[idx]
  {
    var k := 0;
    while index[names[k]] != idx
      invariant 0 <= k <= idx
      decreases idx - k
    {
      k := k + 1;
    }
    name := names[k];
  }

  /** Names whose indices are pairwise distinct are pairwise distinct. */
  lemma DistinctNames(index: map<string, nat>, path: seq<string>, p: seq<nat>)
    requires forall k :: 0 <= k < |path| ==> path[k] in index
    requires IndicesOf(index, path) == p && forall a, b :: 0 <= a < b < |p| ==> p[a] != p[b]
    ensures forall a, b :: 0 <= a < b < |path| ==> path[a] != path[b]
  {
    forall a, b | 0 <= a < b < |path|
      ensures path[a] != path[b]
    {
      assert IndicesOf(index, path)[a] == index[path[a]];
      assert IndicesOf(index, path)[b] == index[path[b]];
    }
  }

  /**
    The first half of the rebuilding phase: follow the predecessor links back
    from `target` until a node without predecessor, naming each node met.
    The names come out last node first, and the nodes met form a walk ending
    at `target`, each node the predecessor of the next.
   */
  method TraceBack(index: map<string, nat>, names: seq<string>, ghost w: seq<seq<Cost>>,
                   start: nat, target: nat, dist: seq<Cost>, prev: seq<int>,
                   ghost visited: seq<bool>, ghost rank: seq<nat>, ghost rounds: nat)
    returns (back: seq<string>, ghost suffix: seq<nat>)
    requires Indexed(index, names, |names|) && Square(w) && |w| == |names|
    requires start < |w| && target < |w|
    requires Shape(w, start, dist, prev, visited, rank)
    requires SourceFixed(w, start, dist, prev)
    requires PredecessorChain(w, start, dist, prev, visited, rank, rounds)
    requires visited[target] && dist[target].Fin?
    ensures suffix != [] && TracesBack(w, dist, target, suffix) && prev[suffix[0]] == -1
    ensures Linked(prev, suffix)
    ensures |back| == |suffix|
    ensures forall k :: 0 <= k < |suffix| ==> suffix[k] < |names| && back[k] == names[suffix[|suffix| - 1 - k]]
    ensures start == target ==> suffix == [target]
  {
    var n := |names|;
    back := [];
    var cur: int := target;
    suffix := [];
    while cur != -1
      invariant -1 <= cur < n
      invariant cur != -1 ==> visited[cur]
      invariant suffix == [] ==> cur == target
      invariant suffix != [] ==>
        TracesBack(w, dist, target, suffix) && prev[suffix[0]] == cur && visited[suffix[0]]
      invariant |back| == |suffix|
      invariant forall k :: 0 <= k < |suffix| ==> suffix[k] < n && back[k] == names[suffix[|suffix| - 1 - k]]
      invariant start == target ==> suffix == [] || (suffix == [target] && cur == -1)
      invariant Linked(prev, suffix)
      decreases if cur == -1 then 0 else rank[cur] + 1
    {
      var name := NameAt(index, names, cur);
      if suffix == [] {
        assert TracesBack(w, dist, target, [cur]);
      } else {
        TraceStep(w, start, dist, prev, visited, rank, rounds, target, suffix);
      }
      LinkedPrepend(prev, cur, suffix);
      back := back + [name];
      suffix := [cur] + suffix;
      cur := prev[cur];
    }
  }

  /**
    The rebuilding phase of the route search: follow the predecessor links
    back from `target` to `start`, naming each node, then reverse the list.
   */
  method Rebuild(index: map<string, nat>, names: seq<string>, ghost w: seq<seq<Cost>>,
                 start: nat, target: nat, dist: seq<Cost>, prev: seq<int>,
                 ghost visited: seq<bool>, ghost rank: seq<nat>, ghost rounds: nat)
    returns (path: seq<string>)
    requires Indexed(index, names, |names|) && Square(w) && |w| == |names|
    requires start < |w| && target < |w|
    requires Shape(w, start, dist, prev, visited, rank)
    requires SourceFixed(w, start, dist, prev)
    requires PredecessorChain(w, start, dist, prev, visited, rank, rounds)
    requires visited[target] && dist[target].Fin?
    ensures forall k :: 0 <= k < |path| ==> path[k] in index
    ensures IsPath(w, IndicesOf(index, path), start, target)
    ensures PathCost(w, IndicesOf(index, path)) == dist[target].v
    ensures forall a, b :: 0 <= a < b < |path| ==> path[a] != path[b]
    ensures start == target ==> path == [names[start]]
  {
    var back;
    ghost var suffix;
    back, suffix := TraceBack(index, names, w, start, target, dist, prev, visited, rank, rounds);
    TraceComplete(w, start, dist, prev, visited, rank, rounds, target, suffix);
    ReversedNames(index, names, suffix, back);
    PredecessorLinksDistinct(w, start, dist, prev, visited, rank, rounds, suffix);
    path := Reversed(back);
    DistinctNames(index, path, suffix);
  }

  class EmergencyGraph {
    /** Facility name to its index; indices are assigned 0, 1, 2, ... in insertion order. */
    var index: map<string, nat>
    /** The keys of `index` in insertion order. */
    var names: seq<string>
    /** Facility name to its kind ("hospital", "upa", ...). */
    var kinds: map<string, string>
    /** Facility name to its map position. */
    var coords: map<string, Point>
    /** Base travel times between facilities, by index. */
    var matrix: seq<seq<Cost>>
    /** The number of facilities added. */
    var count: nat
    /** The session seed of the traffic model. */
    const trafficSeed: int
    /** The traffic generator: the factor drawn after seeding with a given integer. */
    const factor: int -> real

    ghost predicate Valid()
      reads this
    {
      Consistent(index, names, kinds, coords, matrix, count) && FactorInRange(factor)
    }

    /** The traffic-adjusted times of the current session, by index. */
    ghost function Weights(): (w: seq<seq<Cost>>)
      reads this
      requires Valid()
      ensures Square(w) && NonNegative(w) && |w| == count
    {
      AdjustedMatrix(matrix, trafficSeed, factor)
    }

    /**
      An empty graph whose traffic is drawn from `factor` under the session
      seed `seed`, itself drawn at random from 1 .. 1000.
     */
    constructor (seed: int, factor: int -> real)
      requires 1 <= seed <= 1000
      requires FactorInRange(factor)
      ensures Valid()
      ensures index == map[] && names == [] && kinds == map[] && coords == map[]
      ensures matrix == [] && count == 0
      ensures trafficSeed == seed && this.factor == factor
    {
      index, names, kinds, coords := map[], [], map[], map[];
      matrix, count := [], 0;
      trafficSeed, this.factor := seed, factor;
    }

    /**
      Adds a facility. A name already present changes nothing; a new name
      gets the next index and the matrix grows by one row and one column.
     */
    method AddNode(name: string, kind: string, coord: Point)
      requires Valid()
      modifies this
      ensures Valid()
      ensures old(name in index) ==>
        && index == old(index) && names == old(names) && kinds == old(kinds)
        && coords == old(coords) && matrix == old(matrix) && count == old(count)
      ensures old(name !in index) ==>
        && index == old(index)[name := old(count)]
        && names == old(names) + [name]
        && kinds == old(kinds)[name := kind]
        && coords == old(coords)[name := coord]
        && count == old(count) + 1
        && Extends(old(matrix), matrix)
    {
      if name in index {
        return;
      }
      var rows := Grow(matrix);
      ConsistentAdd(index, names, kinds, coords, matrix, count, name, kind, coord, rows);
      var n: nat := count + 1;
      index, names, kinds, coords, matrix, count := index[name := count], names + [name], kinds[name := kind], coords[name := coord], rows, n;
    }

    /**
      Adds a two-way route between two facilities. An unknown endpoint changes
      nothing. Otherwise both directions get the declared time (or, if none,
      the time estimated from `distance`), raised to 80% of the estimate.
      `distance` is the Euclidean distance between the two facilities.
     */
    method AddRoute(origin: string, dest: string, declared: Option<real>, distance: real)
      requires Valid()
      requires origin in coords && dest in coords ==> IsDistance(distance, coords[origin], coords[dest])
      modifies this`matrix
      ensures Valid()
      ensures !(origin in index && dest in index) ==> matrix == old(matrix)
      ensures origin in index && dest in index ==>
        var i, j := index[origin], index[dest];
        forall a, b :: 0 <= a < count && 0 <= b < count ==>
          matrix[a][b] == if (a == i && b == j) || (a == j && b == i)
                          then Fin(StoredTime(declared, distance))
                          else old(matrix)[a][b]
    {
      if origin in index && dest in index {
        var i := index[origin];
        var j := index[dest];
        var time := StoredTime(declared, distance);
        var m := matrix;
        m := m[i := m[i][j := Fin(time)]];
        m := m[j := m[j][i := Fin(time)]];
        ConsistentRoute(index, names, kinds, coords, matrix, count, i, j, time, m);
        matrix := m;
      }
    }

    /**
      The current time from index i to index j: infinite when there is no
      route, otherwise the base time scaled by the pair's traffic factor.
      Being a function of the session seed and the pair, it is the same at
      every call.
     */
    function TrafficCost(i: nat, j: nat): (c: Cost)
      reads this
      requires Valid() && i < count && j < count
      ensures c.Inf? <==> matrix[i][j].Inf?
      ensures c.Fin? ==> FactorLow * matrix[i][j].v <= c.v <= FactorHigh * matrix[i][j].v
      ensures c == Weights()[i][j]
    {
      Adjusted(matrix[i][j], factor(SeedKey(trafficSeed, i, j)))
    }

    /**
      route is a fastest route from origin to dest: a walk through known
      facilities, none named twice, whose time is the sum of its
      traffic-adjusted steps and is no more than that of any other walk.
     */
    ghost predicate IsFastestRoute(route: Route, origin: string, dest: string)
      reads this
      requires Valid() && origin in index && dest in index
    {
      var w := Weights();
      var p := IndicesOf(index, route.path);
      && |route.path| >= 1 && route.path[0] == origin && route.path[|route.path| - 1] == dest
      && (forall k :: 0 <= k < |route.path| ==> route.path[k] in index)
      && (forall a, b :: 0 <= a < b < |route.path| ==> route.path[a] != route.path[b])
      && IsPath(w, p, index[origin], index[dest])
      && route.time == PathCost(w, p)
      && forall q :: IsPath(w, q, index[origin], index[dest]) ==> route.time <= PathCost(w, q)
    }

    /** One relaxation pass: every unvisited neighbour of the settled node u. */
    method Relax(u: nat, dist: seq<Cost>, prev: seq<int>, visited: seq<bool>)
      returns (dist': seq<Cost>, prev': seq<int>)
      requires Valid() && u < count && |dist| == count && |prev| == count && |visited| == count
      requires dist[u].Fin? && visited[u]
      ensures dist' == RelaxedDist(Weights(), dist, visited, u)
      ensures prev' == RelaxedPrev(Weights(), dist, prev, visited, u)
    {
      ghost var w := Weights();
      dist', prev' := dist, prev;
      var v := 0;
      while v < count
        invariant 0 <= v <= count
        invariant |dist'| == count && |prev'| == count && dist'[u] == dist[u]
        invariant forall x :: 0 <= x < v ==> dist'[x] == RelaxedDist(w, dist, visited, u)[x]
        invariant forall x :: 0 <= x < v ==> prev'[x] == RelaxedPrev(w, dist, prev, visited, u)[x]
        invariant forall x :: v <= x < count ==> dist'[x] == dist[x] && prev'[x] == prev[x]
      {
        if !visited[v] {
          var t := TrafficCost(u, v);
          if t.Fin? && Below(Fin(dist'[u].v + t.v), dist'[v]) {
            dist' := dist'[v := Fin(dist'[u].v + t.v)];
            prev' := prev'[v := u];
          }
        }
        assert dist'[v] == RelaxedDist(w, dist, visited, u)[v] && prev'[v] == RelaxedPrev(w, dist, prev, visited, u)[v];
        v := v + 1;
      }
    }

    /**
      The search phase: settle nodes in order of distance from `start`,
      relaxing the neighbours of each, until every node is settled or the
      nearest unsettled one is infinitely far.
     */
    method Search(start: nat) returns (dist: seq<Cost>, prev: seq<int>, visited: seq<bool>, ghost rank: seq<nat>, ghost rounds: nat)
      requires Valid() && start < count
      ensures SearchInvariant(Weights(), start, dist, prev, visited, rank, rounds)
      ensures forall v :: 0 <= v < count && !visited[v] ==> dist[v].Inf?
    {
      var n := |index|;
      ghost var w := Weights();
      dist := seq(n, _ => Inf)[start := Fin(0.0)];
      prev := seq(n, _ => -1);
      visited := seq(n, _ => false);
      rank := seq(n, _ => 0);
      InitialState(w, start);

      var round := 0;
      while round < n
        invariant round <= n
        invariant SearchInvariant(w, start, dist, prev, visited, rank, round)
      {
        UnvisitedZero(visited);
        var u := SelectFrontier(dist, visited);
        if dist[u].Inf? {
          assert forall v :: 0 <= v < n && !visited[v] ==> dist[v].Inf?;
          break;
        }
        VisitStep(w, start, dist, prev, visited, rank, round, u);
        visited := visited[u := true];
        rank := rank[u := round];
        dist, prev := Relax(u, dist, prev, visited);
        round := round + 1;
      }
      UnvisitedZero(visited);
      rounds := round;
    }

    /**
      The fastest route between two facilities under the current traffic, by
      Dijkstra's search over the traffic-adjusted times; None when either
      facility is unknown or the destination cannot be reached.
     */
    method FindFastestRoute(origin: string, dest: string) returns (r: Option<Route>)
      requires Valid()
      ensures origin !in index || dest !in index ==> r == None
      ensures origin in index && dest in index ==>
        (r.Some? <==> Reachable(Weights(), index[origin], index[dest]))
      ensures r.Some? ==> origin in index && dest in index && IsFastestRoute(r.value, origin, dest)
      ensures origin == dest && origin in index ==> r == Some(Route([origin], 0.0))
    {
      if origin !in index || dest !in index {
        return None;
      }
      var start := index[origin];
      var target := index[dest];
      var dist, prev, visited, rank, rounds := Search(start);
      if dist[target].Inf? {
        Unreachable(Weights(), start, dist, prev, visited, rank, rounds, target);
        return None;
      }
      var path := Rebuild(index, names, Weights(), start, target, dist, prev, visited, rank, rounds);
      r := Some(Route(path, dist[target].v));
    }
  }
}
