/**
  The network statistics and the route query of the interactive menu: the
  number of connections, the list of current connection times and its
  mean, minimum and maximum, the number of connections of each facility and
  the most connected one, and the checks on the two facilities chosen by
  their 1-based position in the list of facilities.
 */
module Menu {
  import opened Wrappers
  import opened Traffic
  import opened Paths
  import opened Grafo

  // ---------------------------------------------------------------------
  // Connections: the finite cells of the upper triangle, row by row
  // ---------------------------------------------------------------------

  /** The connections (i, k) of row i with i < k < j, in column order. */
  function RowPairs(m: seq<seq<Cost>>, i: nat, j: nat): seq<(nat, nat)>
    requires Square(m) && i < |m| && j <= |m|
    decreases j
  {
    if j <= i + 1 then [] else RowPairs(m, i, j - 1) + (if m[i][j - 1].Fin? then [(i, j - 1)] else [])
  }

  /** The connections starting in rows 0 .. i-1, row by row. */
  function PairsBelow(m: seq<seq<Cost>>, i: nat): seq<(nat, nat)>
    requires Square(m) && i <= |m|
  {
    if i == 0 then [] else PairsBelow(m, i - 1) + RowPairs(m, i - 1, |m|)
  }

  /** Every connection (i, j) with i < j, in the order the nested loops meet them. */
  function UpperPairs(m: seq<seq<Cost>>): seq<(nat, nat)>
    requires Square(m)
  {
    PairsBelow(m, |m|)
  }

  /** One step of RowPairs, as a fact of its own. */
  lemma RowPairsStep(m: seq<seq<Cost>>, i: nat, j: nat)
    requires Square(m) && i < |m| && i + 1 < j <= |m|
    ensures RowPairs(m, i, j) == RowPairs(m, i, j - 1) + (if m[i][j - 1].Fin? then [(i, j - 1)] else [])
  {
  }

  /** One step of PairsBelow, as a fact of its own. */
  lemma PairsBelowStep(m: seq<seq<Cost>>, i: nat)
    requires Square(m) && 0 < i <= |m|
    ensures PairsBelow(m, i) == PairsBelow(m, i - 1) + RowPairs(m, i - 1, |m|)
  {
  }

  /** The set of connections: unordered pairs of facilities joined by a route. */
  ghost function Connections(m: seq<seq<Cost>>): set<(nat, nat)>
    requires Square(m)
  {
    set a: nat, b: nat | a < b < |m| && m[a][b].Fin? :: (a, b)
  }

  lemma {:induction false} RowPairsSound(m: seq<seq<Cost>>, i: nat, j: nat, k: nat)
    requires Square(m) && i < |m| && j <= |m| && k < |RowPairs(m, i, j)|
    ensures var p := RowPairs(m, i, j)[k]; p.0 == i && i < p.1 < j && m[i][p.1].Fin?
    decreases j
  {
    var init: seq<(nat, nat)>, last: seq<(nat, nat)> := RowPairs(m, i, j - 1), if m[i][j - 1].Fin? then [(i, j - 1)] else [];
    RowPairsStep(m, i, j);
    if k < |init| {
      RowPairsSound(m, i, j - 1, k);
      assert RowPairs(m, i, j)[k] == init[k];
    } else {
      assert RowPairs(m, i, j)[k] == last[k - |init|];
    }
  }

  lemma {:induction false} PairsBelowSound(m: seq<seq<Cost>>, i: nat, k: nat)
    requires Square(m) && i <= |m| && k < |PairsBelow(m, i)|
    ensures var p := PairsBelow(m, i)[k]; p.0 < i && p.0 < p.1 < |m| && m[p.0][p.1].Fin?
    decreases i
  {
    var below, row := PairsBelow(m, i - 1), RowPairs(m, i - 1, |m|);
    PairsBelowStep(m, i);
    if k < |below| {
      PairsBelowSound(m, i - 1, k);
      assert PairsBelow(m, i)[k] == below[k];
    } else {
      RowPairsSound(m, i - 1, |m|, k - |below|);
      assert PairsBelow(m, i)[k] == row[k - |below|];
    }
  }

  lemma {:induction false} RowPairsComplete(m: seq<seq<Cost>>, i: nat, j: nat, k: nat)
    requires Square(m) && i < |m| && j <= |m| && i < k < j && m[i][k].Fin?
    ensures (i, k) in RowPairs(m, i, j)
    decreases j
  {
    RowPairsStep(m, i, j);
    if k < j - 1 {
      RowPairsComplete(m, i, j - 1, k);
    }
  }

  lemma {:induction false} PairsBelowComplete(m: seq<seq<Cost>>, i: nat, a: nat, b: nat)
    requires Square(m) && i <= |m| && a < i && a < b < |m| && m[a][b].Fin?
    ensures (a, b) in PairsBelow(m, i)
    decreases i
  {
    var below, row := PairsBelow(m, i - 1), RowPairs(m, i - 1, |m|);
    if a < i - 1 {
      PairsBelowComplete(m, i - 1, a, b);
      assert (a, b) in below;
    } else {
      RowPairsComplete(m, a, |m|, b);
      assert (a, b) in row;
    }
    PairsBelowStep(m, i);
  }

  /** A pair is listed exactly when it is a connection. */
  lemma UpperPairsMember(m: seq<seq<Cost>>, a: nat, b: nat)
    requires Square(m)
    ensures (a, b) in UpperPairs(m) <==> a < b < |m| && m[a][b].Fin?
  {
    var ps := UpperPairs(m);
    if (a, b) in ps {
      var k :| 0 <= k < |ps| && ps[k] == (a, b);
      PairsBelowSound(m, |m|, k);
    }
    if a < b < |m| && m[a][b].Fin? {
      PairsBelowComplete(m, |m|, a, b);
    }
  }

  /** No pair occurs twice in the list. */
  ghost predicate NoRepeats(ps: seq<(nat, nat)>)
  {
    forall x, y :: 0 <= x < y < |ps| ==> ps[x] != ps[y]
  }

  /** Two lists without repetitions and without common pairs join into one without repetitions. */
  lemma NoRepeatsAppend(a: seq<(nat, nat)>, b: seq<(nat, nat)>)
    requires NoRepeats(a) && NoRepeats(b)
    requires forall x, y :: 0 <= x < |a| && 0 <= y < |b| ==> a[x] != b[y]
    ensures NoRepeats(a + b)
  {
    forall x, y | 0 <= x < y < |a + b|
      ensures (a + b)[x] != (a + b)[y]
    {
      if x < |a| <= y {
        assert (a + b)[x] == a[x] && (a + b)[y] == b[y - |a|];
      } else if |a| <= x {
        assert (a + b)[x] == b[x - |a|] && (a + b)[y] == b[y - |a|];
      }
    }
  }

  /** A list without repetitions has as many distinct pairs as elements. */
  lemma {:induction false} NoRepeatsCard(ps: seq<(nat, nat)>)
    requires NoRepeats(ps)
    ensures |set p | p in ps| == |ps|
    decreases |ps|
  {
    if ps != [] {
      var init, last := ps[..|ps| - 1], ps[|ps| - 1];
      assert NoRepeats(init);
      NoRepeatsCard(init);
      assert last !in init by {
        forall x | 0 <= x < |init|
          ensures init[x] != last
        {
          assert ps[x] != ps[|ps| - 1];
        }
      }
      assert ps == init + [last];
      assert (set p | p in ps) == (set p | p in init) + {last};
    }
  }

  lemma {:induction false} RowPairsNoRepeats(m: seq<seq<Cost>>, i: nat, j: nat)
    requires Square(m) && i < |m| && j <= |m|
    ensures NoRepeats(RowPairs(m, i, j))
    decreases j
  {
    if j > i + 1 {
      var init: seq<(nat, nat)>, last: seq<(nat, nat)> := RowPairs(m, i, j - 1), if m[i][j - 1].Fin? then [(i, j - 1)] else [];
      RowPairsStep(m, i, j);
      RowPairsNoRepeats(m, i, j - 1);
      forall x, y | 0 <= x < |init| && 0 <= y < |last|
        ensures init[x] != last[y]
      {
        RowPairsSound(m, i, j - 1, x);
      }
      NoRepeatsAppend(init, last);
    }
  }

  /** A pair listed before row i starts in an earlier row than any pair of row i. */
  lemma BelowBeforeRow(m: seq<seq<Cost>>, i: nat, x: nat, y: nat)
    requires Square(m) && i < |m| && x < |PairsBelow(m, i)| && y < |RowPairs(m, i, |m|)|
    ensures PairsBelow(m, i)[x].0 < RowPairs(m, i, |m|)[y].0
    ensures PairsBelow(m, i)[x] != RowPairs(m, i, |m|)[y]
  {
    PairsBelowSound(m, i, x);
    RowPairsSound(m, i, |m|, y);
  }

  lemma {:induction false} PairsBelowNoRepeats(m: seq<seq<Cost>>, i: nat)
    requires Square(m) && i <= |m|
    ensures NoRepeats(PairsBelow(m, i))
    decreases i
  {
    if i > 0 {
      var below, row := PairsBelow(m, i - 1), RowPairs(m, i - 1, |m|);
      forall x, y | 0 <= x < |below| && 0 <= y < |row|
        ensures below[x] != row[y]
      {
        BelowBeforeRow(m, i - 1, x, y);
      }
      PairsBelowNoRepeats(m, i - 1);
      RowPairsNoRepeats(m, i - 1, |m|);
      NoRepeatsAppend(below, row);
      PairsBelowStep(m, i);
    }
  }

  /** Every connection is listed, and listed once. */
  lemma ConnectionsListed(m: seq<seq<Cost>>)
    requires Square(m)
    ensures (set p | p in UpperPairs(m)) == Connections(m)
    ensures |UpperPairs(m)| == |Connections(m)|
  {
    forall p | p in Connections(m)
      ensures p in UpperPairs(m)
    {
      UpperPairsMember(m, p.0, p.1);
    }
    forall p | p in UpperPairs(m)
      ensures p in Connections(m)
    {
      UpperPairsMember(m, p.0, p.1);
    }
    PairsBelowNoRepeats(m, |m|);
    NoRepeatsCard(UpperPairs(m));
  }

  /** The number of connections: finite cells (i, j) with i < j. */
  method CountConnections(g: EmergencyGraph) returns (c: nat)
    requires g.Valid()
    ensures c == |UpperPairs(g.matrix)|
    ensures c == |Connections(g.matrix)|
  {
    var m := g.matrix;
    var n := |m|;
    c := 0;
    var i := 0;
    while i < n
      invariant i <= n
      invariant c == |PairsBelow(m, i)|
    {
      var j := i + 1;
      while j < n
        invariant i + 1 <= j <= n
        invariant c == |PairsBelow(m, i)| + |RowPairs(m, i, j)|
      {
        if m[i][j] != Inf {
          c := c + 1;
        }
        j := j + 1;
      }
      i := i + 1;
    }
    ConnectionsListed(g.matrix);
  }

  /** times[k] is the time, under the weights w, of the k-th pair of ps. */
  ghost predicate TimesAlong(w: seq<seq<Cost>>, ps: seq<(nat, nat)>, times: seq<real>)
  {
    && |times| == |ps|
    && forall k :: 0 <= k < |ps| ==>
         ps[k].0 < |w| && ps[k].1 < |w[ps[k].0]| && w[ps[k].0][ps[k].1] == Fin(times[k])
  }

  lemma TimesAlongAppend(w: seq<seq<Cost>>, ps: seq<(nat, nat)>, times: seq<real>,
                         qs: seq<(nat, nat)>, more: seq<real>)
    requires TimesAlong(w, ps, times) && TimesAlong(w, qs, more)
    ensures TimesAlong(w, ps + qs, times + more)
  {
    forall k | |ps| <= k < |ps + qs|
      ensures (ps + qs)[k] == qs[k - |ps|] && (times + more)[k] == more[k - |ps|]
    {
    }
  }

  /** The current times of the connections of row i, in column order. */
  method RowTimes(g: EmergencyGraph, i: nat) returns (times: seq<real>)
    requires g.Valid() && i < g.count
    ensures TimesAlong(g.Weights(), RowPairs(g.matrix, i, g.count), times)
  {
    ghost var w := g.Weights();
    var m := g.matrix;
    var n := |m|;
    times := [];
    var j := i + 1;
    while j < n
      invariant i + 1 <= j <= n
      invariant TimesAlong(w, RowPairs(m, i, j), times)
    {
      RowPairsStep(m, i, j + 1);
      if m[i][j] != Inf {
        var t := g.TrafficCost(i, j);
        TimesAlongAppend(w, RowPairs(m, i, j), times, [(i, j)], [t.v]);
        times := times + [t.v];
      }
      j := j + 1;
    }
  }

  /**
    The current (traffic-adjusted) time of every connection, in the order of
    `UpperPairs`: one entry per connection.
   */
  method TravelTimes(g: EmergencyGraph) returns (times: seq<real>)
    requires g.Valid()
    ensures TimesAlong(g.Weights(), UpperPairs(g.matrix), times)
    ensures |times| == |Connections(g.matrix)|
  {
    ghost var w := g.Weights();
    var n := |g.matrix|;
    times := [];
    var i := 0;
    while i < n
      invariant i <= n
      invariant TimesAlong(w, PairsBelow(g.matrix, i), times)
    {
      var row := RowTimes(g, i);
      TimesAlongAppend(w, PairsBelow(g.matrix, i), times, RowPairs(g.matrix, i, n), row);
      times := times + row;
      i := i + 1;
    }
    ConnectionsListed(g.matrix);
  }

  // ---------------------------------------------------------------------
  // Mean, minimum and maximum of the connection times
  // ---------------------------------------------------------------------

  datatype TimeSummary = TimeSummary(mean: real, min: real, max: real)

  /** The sum of the times, added from left to right. */
  function Sum(s: seq<real>): real
  {
    if s == [] then 0.0 else Sum(s[..|s| - 1]) + s[|s| - 1]
  }

  /** The first smallest time. */
  function Min(s: seq<real>): (r: real)
    requires |s| > 0
    ensures r in s && forall x :: x in s ==> r <= x
  {
    if |s| == 1 then s[0]
    else
      var init := s[..|s| - 1];
      var r := Min(init);
      assert s == init + [s[|s| - 1]];
      if s[|s| - 1] < r then s[|s| - 1] else r
  }

  /** The first largest time. */
  function Max(s: seq<real>): (r: real)
    requires |s| > 0
    ensures r in s && forall x :: x in s ==> x <= r
  {
    if |s| == 1 then s[0]
    else
      var init := s[..|s| - 1];
      var r := Max(init);
      assert s == init + [s[|s| - 1]];
      if s[|s| - 1] > r then s[|s| - 1] else r
  }

  /** A sum of values between lo and hi lies between |s| * lo and |s| * hi. */
  lemma {:induction false} SumBetween(s: seq<real>, lo: real, hi: real)
    requires forall x :: x in s ==> lo <= x <= hi
    ensures |s| as real * lo <= Sum(s) <= |s| as real * hi
    decreases |s|
  {
    if s != [] {
      var init := s[..|s| - 1];
      assert forall x :: x in init ==> x in s;
      SumBetween(init, lo, hi);
      assert s[|s| - 1] in s;
    }
  }

  /**
    The summary printed by the statistics: present exactly when there is at
    least one time, and then the mean lies between the minimum and the
    maximum, which are themselves among the times.
   */
  function Summarize(times: seq<real>): (r: Option<TimeSummary>)
    ensures r.Some? <==> |times| > 0
    ensures r.Some? ==> r.value.min in times && r.value.max in times
    ensures r.Some? ==> forall t :: t in times ==> r.value.min <= t <= r.value.max
    ensures r.Some? ==> r.value.mean * |times| as real == Sum(times)
    ensures r.Some? ==> r.value.min <= r.value.mean <= r.value.max
  {
    if times == [] then None
    else
      var n := |times| as real;
      var lo, hi := Min(times), Max(times);
      SumBetween(times, lo, hi);
      MeanBetween(Sum(times), n, lo, hi);
      Some(TimeSummary(Sum(times) / n, lo, hi))
  }

  lemma MeanBetween(sum: real, n: real, lo: real, hi: real)
    requires n > 0.0 && n * lo <= sum <= n * hi
    ensures lo <= sum / n <= hi
    ensures sum / n * n == sum
  {
    var q := sum / n;
    assert q * n == sum;
    assert q - lo == (sum - n * lo) / n;
    assert hi - q == (n * hi - sum) / n;
  }

  // ---------------------------------------------------------------------
  // Connections per facility and the most connected facility
  // ---------------------------------------------------------------------

  /** The number of columns k < j, other than i itself, with a finite time in row i. */
  function DegreeBelow(m: seq<seq<Cost>>, i: nat, j: nat): (d: nat)
    requires Square(m) && i < |m| && j <= |m|
    ensures d <= j && (i < j ==> d < j)
    decreases j
  {
    if j == 0 then 0
    else DegreeBelow(m, i, j - 1) + (if j - 1 != i && m[i][j - 1].Fin? then 1 else 0)
  }

  /** The number of other facilities facility i has a route to. */
  function Degree(m: seq<seq<Cost>>, i: nat): (d: nat)
    requires Square(m) && i < |m|
    ensures d <= |m| - 1
  {
    DegreeBelow(m, i, |m|)
  }

  /** The facilities, other than i, with a route from i. */
  ghost function Neighbours(m: seq<seq<Cost>>, i: nat, j: nat): set<nat>
    requires Square(m) && i < |m| && j <= |m|
  {
    set k: nat | k < j && k != i && m[i][k].Fin?
  }

  lemma {:induction false} DegreeCountsNeighbours(m: seq<seq<Cost>>, i: nat, j: nat)
    requires Square(m) && i < |m| && j <= |m|
    ensures DegreeBelow(m, i, j) == |Neighbours(m, i, j)|
    decreases j
  {
    if j > 0 {
      DegreeCountsNeighbours(m, i, j - 1);
      var prior, now := Neighbours(m, i, j - 1), Neighbours(m, i, j);
      if j - 1 != i && m[i][j - 1].Fin? {
        assert j - 1 !in prior;
        assert now == prior + {j - 1};
      } else {
        assert now == prior;
      }
    }
  }

  /** The degree of a facility is the number of its neighbours. */
  lemma DegreeIsNeighbourCount(m: seq<seq<Cost>>, i: nat)
    requires Square(m) && i < |m|
    ensures Degree(m, i) == |Neighbours(m, i, |m|)|
  {
    DegreeCountsNeighbours(m, i, |m|);
  }

  /** The inner counting loop for one facility. */
  method DegreeOf(g: EmergencyGraph, idx: nat) returns (d: nat)
    requires g.Valid() && idx < g.count
    ensures d == Degree(g.matrix, idx)
  {
    var m := g.matrix;
    var n := |m|;
    d := 0;
    var j := 0;
    while j < n
      invariant j <= n
      invariant d == DegreeBelow(m, idx, j)
    {
      if idx != j && m[idx][j] != Inf {
        d := d + 1;
      }
      j := j + 1;
    }
  }

  /** The dictionary of connections per facility. */
  method ConnectionsPerNode(g: EmergencyGraph) returns (degrees: map<string, nat>)
    requires g.Valid()
    ensures degrees.Keys == g.index.Keys
    ensures forall name :: name in degrees ==> degrees[name] == Degree(g.matrix, g.index[name])
  {
    var names, index := g.names, g.index;
    ghost var m := g.matrix;
    degrees := map[];
    var k := 0;
    while k < |names|
      invariant k <= |names|
      invariant forall x :: 0 <= x < k ==> names[x] in degrees
      invariant forall name :: name in degrees ==>
        name in index && index[name] < k && degrees[name] == Degree(m, index[name])
    {
      var name := names[k];
      var d := DegreeOf(g, index[name]);
      degrees := degrees[name := d];
      k := k + 1;
    }
    forall name | name in index
      ensures name in degrees
    {
      assert names[index[name]] == name;
    }
  }

  /**
    p is the first position, in `names` order, whose degree is the largest:
    no name has a larger degree, and every earlier name has a smaller one.
   */
  ghost predicate FirstMaximum(names: seq<string>, degrees: map<string, nat>, p: nat)
    requires forall k :: 0 <= k < |names| ==> names[k] in degrees
  {
    && p < |names|
    && (forall k :: 0 <= k < |names| ==> degrees[names[k]] <= degrees[names[p]])
    && (forall k :: 0 <= k < p ==> degrees[names[k]] < degrees[names[p]])
  }

  /**
    The most connected facility, the key with the largest value, scanning the
    keys in insertion order and keeping the earlier key on a tie.
   */
  method MostConnected(names: seq<string>, degrees: map<string, nat>) returns (best: Option<string>)
    requires forall k :: 0 <= k < |names| ==> names[k] in degrees
    ensures best.None? <==> |names| == 0
    ensures best.Some? ==> exists p: nat :: FirstMaximum(names, degrees, p) && names[p] == best.value
  {
    if |names| == 0 {
      return None;
    }
    var p := 0;
    var k := 1;
    while k < |names|
      invariant 1 <= k <= |names| && p < k
      invariant forall x :: 0 <= x < k ==> degrees[names[x]] <= degrees[names[p]]
      invariant forall x :: 0 <= x < p ==> degrees[names[x]] < degrees[names[p]]
    {
      if degrees[names[k]] > degrees[names[p]] {
        p := k;
      }
      k := k + 1;
    }
    best := Some(names[p]);
  }

  /** Every connection's current time lies between the summary's minimum and maximum. */
  lemma SummaryCoversConnections(g: EmergencyGraph, times: seq<real>, s: TimeSummary)
    requires g.Valid()
    requires TimesAlong(g.Weights(), UpperPairs(g.matrix), times)
    requires forall t :: t in times ==> s.min <= t <= s.max
    ensures forall a, b :: (a, b) in Connections(g.matrix) ==>
      a < g.count && b < g.count && s.min <= g.TrafficCost(a, b).v <= s.max
  {
    forall a, b | (a, b) in Connections(g.matrix)
      ensures a < g.count && b < g.count && s.min <= g.TrafficCost(a, b).v <= s.max
    {
      UpperPairsMember(g.matrix, a, b);
      var ps := UpperPairs(g.matrix);
      var k :| 0 <= k < |ps| && ps[k] == (a, b);
      assert times[k] in times;
    }
  }

  /**
    The most connected facility: the connections of every facility are
    counted, then the first facility, in insertion order, with the largest
    count is chosen.
   */
  method MostConnectedFacility(g: EmergencyGraph) returns (busiest: Option<string>)
    requires g.Valid()
    ensures busiest.Some? <==> g.count > 0
    ensures busiest.Some? ==> busiest.value in g.index
    ensures busiest.Some? ==> forall name :: name in g.index ==>
      Degree(g.matrix, g.index[name]) <= Degree(g.matrix, g.index[busiest.value])
    ensures busiest.Some? ==> forall name :: name in g.index && g.index[name] < g.index[busiest.value] ==>
      Degree(g.matrix, g.index[name]) < Degree(g.matrix, g.index[busiest.value])
  {
    var degrees := ConnectionsPerNode(g);
    busiest := MostConnected(g.names, degrees);
    if busiest.Some? {
      ghost var p: nat :| FirstMaximum(g.names, degrees, p) && g.names[p] == busiest.value;
      forall name | name in g.index
        ensures Degree(g.matrix, g.index[name]) <= Degree(g.matrix, g.index[busiest.value])
        ensures g.index[name] < g.index[busiest.value] ==>
          Degree(g.matrix, g.index[name]) < Degree(g.matrix, g.index[busiest.value])
      {
        assert g.names[g.index[name]] == name;
      }
    }
  }

  /**
    The network statistics: the current connection times, one per connection
    in row order, their summary, present exactly when there is a connection,
    and the most connected facility, present exactly when there is a facility.
   */
  method NetworkStatistics(g: EmergencyGraph)
    returns (times: seq<real>, summary: Option<TimeSummary>, busiest: Option<string>)
    requires g.Valid()
    ensures TimesAlong(g.Weights(), UpperPairs(g.matrix), times) && summary == Summarize(times)
    ensures summary.Some? <==> Connections(g.matrix) != {}
    ensures summary.Some? ==> summary.value.min <= summary.value.mean <= summary.value.max
    ensures summary.Some? ==> forall a, b :: (a, b) in Connections(g.matrix) ==>
      a < g.count && b < g.count && summary.value.min <= g.TrafficCost(a, b).v <= summary.value.max
    ensures busiest.Some? <==> g.count > 0
    ensures busiest.Some? ==> busiest.value in g.index
    ensures busiest.Some? ==> forall name :: name in g.index ==>
      Degree(g.matrix, g.index[name]) <= Degree(g.matrix, g.index[busiest.value])
    ensures busiest.Some? ==> forall name :: name in g.index && g.index[name] < g.index[busiest.value] ==>
      Degree(g.matrix, g.index[name]) < Degree(g.matrix, g.index[busiest.value])
  {
    times := TravelTimes(g);
    summary := Summarize(times);
    if summary.Some? {
      SummaryCoversConnections(g, times, summary.value);
    }
    busiest := MostConnectedFacility(g);
  }

  // ---------------------------------------------------------------------
  // The route query
  // ---------------------------------------------------------------------

  /** The outcome of the two 1-based choices. */
  datatype Selection = InvalidOrigin | InvalidDestination | SameEndpoints | Endpoints(origin: string, dest: string)

  /**
    The checks on the chosen positions: each must lie in 1 .. |points|
    (the origin is checked first), and the two chosen names must differ.
   */
  function SelectEndpoints(points: seq<string>, originChoice: int, destChoice: int): (s: Selection)
    ensures s.InvalidOrigin? <==> !(1 <= originChoice <= |points|)
    ensures s.InvalidDestination? <==> 1 <= originChoice <= |points| && !(1 <= destChoice <= |points|)
    ensures s.Endpoints? <==>
      1 <= originChoice <= |points| && 1 <= destChoice <= |points|
      && points[originChoice - 1] != points[destChoice - 1]
    ensures s.Endpoints? ==>
      s.origin == points[originChoice - 1] && s.dest == points[destChoice - 1] && s.origin != s.dest
  {
    var o := originChoice - 1;
    if o < 0 || o >= |points| then InvalidOrigin
    else
      var d := destChoice - 1;
      if d < 0 || d >= |points| then InvalidDestination
      else if points[o] == points[d] then SameEndpoints
      else Endpoints(points[o], points[d])
  }

  /**
    Over the graph's list of facilities, whose names are distinct, two valid
    choices are rejected as equal exactly when they are the same position,
    and accepted endpoints are known facilities.
   */
  lemma SelectionOverFacilities(g: EmergencyGraph, originChoice: int, destChoice: int)
    requires g.Valid()
    ensures var s := SelectEndpoints(g.names, originChoice, destChoice);
      && (s.SameEndpoints? <==>
            1 <= originChoice <= g.count && 1 <= destChoice <= g.count && originChoice == destChoice)
      && (s.Endpoints? ==>
            && s.origin in g.index && s.dest in g.index
            && g.index[s.origin] == originChoice - 1 && g.index[s.dest] == destChoice - 1)
  {
  }

  /** What a route query ends with. */
  datatype Consultation =
    | Rejected(reason: Selection)
    | NoRoute(origin: string, dest: string)
    | RouteFound(origin: string, dest: string, route: Route)

  /**
    The route query: the fastest-route search runs only for two valid,
    distinct choices, and its answer is reported as found or not found.
   */
  method ConsultRoute(g: EmergencyGraph, originChoice: int, destChoice: int) returns (c: Consultation)
    requires g.Valid()
    ensures var s := SelectEndpoints(g.names, originChoice, destChoice);
      && (!s.Endpoints? ==> c == Rejected(s))
      && (s.Endpoints? ==> (c.NoRoute? || c.RouteFound?) && c.origin == s.origin && c.dest == s.dest)
    ensures c.NoRoute? ==>
      && c.origin in g.index && c.dest in g.index
      && !Reachable(g.Weights(), g.index[c.origin], g.index[c.dest])
    ensures c.RouteFound? ==>
      && c.origin in g.index && c.dest in g.index && c.origin != c.dest
      && g.IsFastestRoute(c.route, c.origin, c.dest)
  {
    var s := SelectEndpoints(g.names, originChoice, destChoice);
    if !s.Endpoints? {
      return Rejected(s);
    }
    SelectionOverFacilities(g, originChoice, destChoice);
    var r := g.FindFastestRoute(s.origin, s.dest);
    if r.Some? {
      c := RouteFound(s.origin, s.dest, r.value);
    } else {
      c := NoRoute(s.origin, s.dest);
    }
  }
}
