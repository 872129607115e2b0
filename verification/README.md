# Emergency route graph — a Dafny model

This project models the graph engine of a small system that finds the
fastest route between medical facilities (hospitals, UPAs, emergency rooms)
of a city, and the statistics and route query that the interactive menu
builds on it.

- `GrafoEmergencia` (`grafo_emergencia.py`) becomes the class
  `Grafo.EmergencyGraph`. It keeps the facility-to-index dictionary (with
  its insertion order), the kinds, the coordinates, the adjacency matrix of
  base travel times and the counter. Its methods change that state in place.
- Travel times are `Traffic.Cost`: `Inf` for "no route" (`float('inf')`),
  or `Fin(v)` for a real number of minutes.
- The geometry of a route is in `Geometry`. The Euclidean distance is
  converted into minutes at 2 km per coordinate unit and 30 km/h, with a
  floor of three minutes. A declared route time is raised to at least 80%
  of that estimate.
- The traffic model is in `Traffic`. The time of a route under the current
  traffic is its base time times a factor in [0.9, 2.5]. The factor is drawn
  from a generator seeded with `seed + 10·i + j`. The generator is a fixed
  function `factor` of that key, given to the constructor, so the same pair
  gets the same time throughout a session.
- Dijkstra's search (`encontrar_rota_mais_rapida`) is
  `EmergencyGraph.FindFastestRoute`. Its phases are `Search`, `Relax` and
  `Rebuild`. The invariant they keep, and the lemmas about it, are in
  `ShortestPath`. They are stated over walks and walk costs from `Paths`.
  The method's contract says three things:
  - the answer is found exactly when the destination is reachable;
  - a route it returns is a walk from the origin to the destination;
  - the route's time is the cost of that walk and no other walk is cheaper.
- The menu's statistics and route query (`menu_interativo.py`) are in
  `Menu`, with these parts:
  - the connection count;
  - the travel times of all connections, with their mean, minimum and
    maximum;
  - each facility's number of connections and the most connected one;
  - the checks on the user's choice of origin and destination before the
    search runs.

The Python source computes with `float`; the model uses `real`. A time that
is infinite in the source is `Inf` here and never enters arithmetic.

The model keeps two behaviours of the code:
- `adicionar_rota` with an unknown endpoint changes nothing and raises no
  error.
- The search's tie-break among equally near unsettled facilities is the
  lowest index. This is what the strict `<` in the source's scan does, and
  `ShortestPath.SelectFrontier` states it.

## Model

| member | source | states |
|---|---|---|
| Geometry.SquaredDistance | grafo_emergencia.py:74 | the squared Euclidean distance between two map points is never negative |
| Geometry.SquareRootUnique | grafo_emergencia.py:74 | the distance taken as a square root is determined by the two points: two non-negative reals with the same square are equal |
| Geometry.DistanceSymmetric | grafo_emergencia.py:70-74 | the distance from a to b equals the distance from b to a |
| Geometry.TimeForDistance | grafo_emergencia.py:76-86 | the estimated minutes are at least 3 and at least 4 per coordinate unit (2 km at 30 km/h), and equal to one of the two, i.e. the larger |
| Geometry.TimeMonotone | grafo_emergencia.py:82-86 | a longer distance never gives a shorter estimate |
| Geometry.TimeSymmetric | grafo_emergencia.py:70-86 | the estimate between two facilities is the same in both directions |
| Geometry.StoredTime | grafo_emergencia.py:53-62 | the stored base time is never below 80% of the estimate (so never below 2.4 minutes) nor below a declared time; it is the declared time or 80% of the estimate; with no declared time it is the estimate itself |
| Traffic.SeedKeyDistinct | grafo_emergencia.py:97 | while destination indices stay below 10, distinct index pairs get distinct generator seeds, so each pair draws its own traffic factor; in particular (i, j) and (j, i) are priced independently |
| Traffic.SeedKeyCollision | grafo_emergencia.py:97 | from 10 facilities on, the pairs (0, 10) and (1, 0) get the same generator seed and hence the same factor |
| Traffic.BelowTotal | grafo_emergencia.py:183-196 | the comparison of tentative times (infinity above every finite time) is a strict total order: total, asymmetric and transitive |
| Traffic.Adjusted | grafo_emergencia.py:93-107 | an adjusted time is infinite exactly when the base time is; a finite non-negative base time is scaled into [0.9·base, 2.5·base] |
| Traffic.AdjustedMatrix | grafo_emergencia.py:88-107 | the current-traffic matrix is square and of the same size as the base matrix; an entry has no route exactly when the base entry has none, and a non-negative base time is scaled into [0.9·base, 2.5·base] |
| Paths.PathCostSnoc | grafo_emergencia.py:196-198 | extending a walk by one finite step adds that step's time to its cost |
| Paths.PathCostCons | grafo_emergencia.py:196-198 | prepending a node along a finite step gives a walk whose cost is that step's time more |
| Paths.PathCostNonNegative | grafo_emergencia.py:101-107 | with non-negative times every walk costs at least zero |
| ShortestPath.SelectFrontier | grafo_emergencia.py:181-184 | returns -1 exactly when every node is visited; otherwise an unvisited node whose tentative time no unvisited node beats, and the lowest such index |
| ShortestPath.Unvisited | grafo_emergencia.py:174-179 | the progress measure behind the `range(n)` bound of line 179 (the source keeps no such count): the number of unvisited nodes is at most the number of nodes |
| ShortestPath.UnvisitedZero | grafo_emergencia.py:179-189 | for the progress measure behind line 179's bound: no node is left unvisited exactly when the count is zero, so the frontier scan of a round within `range(n)` finds a node |
| ShortestPath.UnvisitedVisit | grafo_emergencia.py:189 | for the progress measure behind line 179's bound: marking an unvisited node visited, as line 189 does, lowers the count by one |
| ShortestPath.UnvisitedAllFalse | grafo_emergencia.py:174 | for the progress measure behind line 179's bound: the initial flags of line 174 leave all n nodes unvisited |
| ShortestPath.InitialState | grafo_emergencia.py:171-176 | the initial tentative times (0 at the source, infinity elsewhere), predecessors (-1) and visited flags satisfy the search invariant |
| ShortestPath.FrontierBound | grafo_emergencia.py:179-199 | every walk from the source to an unvisited node passes through an unvisited node whose tentative time is finite and at most the walk's cost |
| ShortestPath.SelectedOptimal | grafo_emergencia.py:181-189 | the nearest unvisited node's tentative time is no more than the cost of any walk from the source to it |
| ShortestPath.VisitStep | grafo_emergencia.py:189-199 | marking the nearest unvisited node visited and relaxing its neighbours preserves the search invariant |
| ShortestPath.StepSourceFixed | grafo_emergencia.py:191-199 | relaxation leaves the source at time 0 with no predecessor |
| ShortestPath.StepSettledOptimal | grafo_emergencia.py:189-199 | after the step, every visited node's time is optimal among all walks from the source |
| ShortestPath.StepFrontierRelaxed | grafo_emergencia.py:191-199 | after the step, every finite edge out of a visited node is relaxed: the neighbour's time is at most the node's time plus the edge time |
| ShortestPath.StepPredecessorChain | grafo_emergencia.py:196-199 | after the step, every finite node other than the source has a visited, earlier-settled predecessor whose time plus the edge time is its time |
| ShortestPath.TraceStep | grafo_emergencia.py:205-213 | following a predecessor from a traced suffix gives a longer traced suffix, and the predecessor was settled earlier |
| ShortestPath.TraceComplete | grafo_emergencia.py:205-213 | a trace that reaches the node without predecessor is a walk from the source to the target whose cost is the target's time |
| ShortestPath.LinkedPrepend | grafo_emergencia.py:205-213 | putting the predecessor of a chain's first node in front keeps every node of the chain preceded by its predecessor |
| ShortestPath.ChainVisited | grafo_emergencia.py:189-213 | going back along predecessor links from a settled node meets only settled nodes |
| ShortestPath.ChainRanks | grafo_emergencia.py:189-213 | along predecessor links, each node was settled in an earlier round than every later node |
| ShortestPath.PredecessorLinksDistinct | grafo_emergencia.py:189-213 | the nodes met going back along predecessor links from a settled node are pairwise distinct |
| ShortestPath.Unreachable | grafo_emergencia.py:186-187 | when the search stops with every unvisited node at infinity, a node left at infinity cannot be reached from the source |
| Grafo.GrowMatrix | grafo_emergencia.py:28-38 | the grown matrix keeps every old entry, has infinity in the new row and column and 0 on the new diagonal, and stays non-negative and symmetric |
| Grafo.Grow | grafo_emergencia.py:28-38 | appending the row and the column yields a matrix that extends the old one and stays non-negative and symmetric |
| Grafo.IndexedAdd | grafo_emergencia.py:21-26 | giving a new name the next index keeps names and indices in one-to-one insertion order |
| Grafo.ConsistentAdd | grafo_emergencia.py:19-38 | adding a facility with a grown matrix keeps the graph's state consistent |
| Grafo.ConsistentRoute | grafo_emergencia.py:64-66 | writing one time into both directions of a pair keeps the graph consistent and changes only those two cells |
| Grafo.Reversed | grafo_emergencia.py:215 | reversing keeps the length and puts the k-th element from the end at position k |
| Grafo.ReversedNames | grafo_emergencia.py:205-215 | the reversed list of names collected while tracing back are known facilities, and their indices are exactly the traced walk |
| Grafo.NameAt | grafo_emergencia.py:208-212 | the name found for an index is the facility with that index |
| Grafo.DistinctNames | grafo_emergencia.py:208-212 | names whose indices are pairwise distinct are pairwise distinct |
| Grafo.TraceBack | grafo_emergencia.py:205-213 | the collected names are those of the nodes met going back from the destination, last first; those nodes form a walk ending at the destination whose cost plus the first node's time is the destination's time, the first has no predecessor, and each is the predecessor of the next |
| Grafo.Rebuild | grafo_emergencia.py:201-216 | the reconstructed route names known facilities, none of them twice, and is a walk from the origin to the destination whose cost is the destination's time; from a facility to itself it is that one name |
| Grafo.EmergencyGraph.constructor | grafo_emergencia.py:11-17 | a new graph is empty, consistent and keeps the session seed |
| Grafo.EmergencyGraph.Weights | grafo_emergencia.py:88-107 | the current-traffic matrix is square, count by count, with no negative time |
| Grafo.EmergencyGraph.AddNode | grafo_emergencia.py:19-38 | a known name changes nothing; a new name gets the next index and its kind and position, the matrix keeps every old entry and grows by an infinite row and column with 0 on the diagonal, and the graph stays consistent |
| Grafo.EmergencyGraph.AddRoute | grafo_emergencia.py:43-68 | an unknown endpoint changes nothing; otherwise both directions of the pair get the stored base time and every other cell is unchanged (a route from a facility to itself overwrites its 0 diagonal cell), and the matrix stays symmetric and non-negative |
| Grafo.EmergencyGraph.TrafficCost | grafo_emergencia.py:88-107 | the current time is infinite exactly when there is no route, lies between 0.9 and 2.5 times the base time otherwise, and is the same at every call for the same pair |
| Grafo.EmergencyGraph.Relax | grafo_emergencia.py:191-199 | after the pass, each unvisited neighbour's time is lowered (and its predecessor set) exactly when the route through the settled node is strictly shorter |
| Grafo.EmergencyGraph.Search | grafo_emergencia.py:171-199 | the search ends with the invariant (visited times optimal, predecessors tracing back to the source) and every unvisited node at infinity |
| Grafo.EmergencyGraph.FindFastestRoute | grafo_emergencia.py:158-216 | None for an unknown facility; otherwise a route exactly when the destination is reachable, and that route names no facility twice and is a walk from origin to destination whose time is its cost and no more than any other walk's; from a facility to itself the route is that facility at time 0 |
| Menu.RowPairsSound | menu_interativo.py:159-162 | every pair listed for row i is (i, j) with i < j and a route between them |
| Menu.PairsBelowSound | menu_interativo.py:159-162 | every pair listed for the first i rows is an upper-triangle pair with a route |
| Menu.RowPairsComplete | menu_interativo.py:159-162 | every routed pair (i, k) in the scanned part of row i is listed |
| Menu.PairsBelowComplete | menu_interativo.py:159-162 | every routed upper-triangle pair in the first i rows is listed |
| Menu.UpperPairsMember | menu_interativo.py:159-162 | a pair is listed exactly when it is an upper-triangle pair with a route |
| Menu.NoRepeatsAppend | menu_interativo.py:192-195 | two lists without repeats and without common pairs join into a list without repeats |
| Menu.NoRepeatsCard | menu_interativo.py:192-195 | a list without repeats has as many distinct pairs as entries |
| Menu.RowPairsNoRepeats | menu_interativo.py:192-195 | a row's scan lists no pair twice |
| Menu.PairsBelowNoRepeats | menu_interativo.py:192-195 | the scan of the first i rows lists no pair twice |
| Menu.ConnectionsListed | menu_interativo.py:189-196 | the scanned pairs are exactly the set of connections, each once |
| Menu.CountConnections | menu_interativo.py:189-196 | the count is the number of connections: unordered pairs of distinct facilities with a route |
| Menu.TimesAlongAppend | menu_interativo.py:158-162 | collected times for two consecutive runs of pairs join into the times for the joined run |
| Menu.RowTimes | menu_interativo.py:160-162 | the times collected for row i are the current times of that row's connections, in column order |
| Menu.TravelTimes | menu_interativo.py:158-162 | the times collected are the current times of all connections, in scan order, one per connection |
| Menu.Min | menu_interativo.py:166 | the minimum is one of the times and no time is below it |
| Menu.Max | menu_interativo.py:167 | the maximum is one of the times and no time is above it |
| Menu.SumBetween | menu_interativo.py:164-165 | n times between lo and hi sum to between n·lo and n·hi |
| Menu.MeanBetween | menu_interativo.py:165 | the mean of a sum bounded by n·lo and n·hi lies between lo and hi |
| Menu.Summarize | menu_interativo.py:164-167 | no summary exactly when there are no times; otherwise min and max are among the times and bound all of them, the mean times the count is the sum, and min ≤ mean ≤ max |
| Menu.DegreeBelow | menu_interativo.py:178-181 | a node has fewer connections among the first j columns than j when it is itself among them |
| Menu.Degree | menu_interativo.py:177-182 | a facility has at most n − 1 connections |
| Menu.DegreeCountsNeighbours | menu_interativo.py:178-181 | the count over the first j columns is the number of other facilities among them with a route |
| Menu.DegreeIsNeighbourCount | menu_interativo.py:177-182 | a facility's count is the number of other facilities it has a route to |
| Menu.DegreeOf | menu_interativo.py:178-181 | the scan of a facility's row returns its number of connections |
| Menu.ConnectionsPerNode | menu_interativo.py:174-182 | every facility, and nothing else, maps to its number of connections |
| Menu.MostConnected | menu_interativo.py:184-186 | nothing exactly for no facilities; otherwise the first facility, in insertion order, with the largest count |
| Menu.MostConnectedFacility | menu_interativo.py:174-186 | a facility exactly when the graph has one; it is known, no facility has more connections, and every facility added before it has fewer |
| Menu.SummaryCoversConnections | menu_interativo.py:158-171 | every connection's current time lies between the reported minimum and maximum |
| Menu.NetworkStatistics | menu_interativo.py:153-187 | the times returned are the current times of the connections in row order, and the summary is the summary of exactly those times; it is present exactly when there is a connection, and its minimum and maximum bound every connection's current time; and the most connected facility as above |
| Menu.SelectEndpoints | menu_interativo.py:81-97 | the origin choice is rejected exactly when outside 1..n, then the destination likewise, then equal names; accepted choices give the two chosen, distinct names |
| Menu.SelectionOverFacilities | menu_interativo.py:71-97 | over the facility list, two valid choices are rejected as equal exactly when they are the same number, and accepted names are facilities at those positions |
| Menu.ConsultRoute | menu_interativo.py:64-113 | a rejected choice never reaches the search; for accepted ones, "no route" means the destination is unreachable and a found route is a fastest route between the two distinct facilities that names no facility twice |

## Left out

- The pseudo-random generator is not modelled. This covers Python's Mersenne
  Twister, `random.uniform` and the `random.seed()` reset. The factor drawn
  after seeding is a fixed function of the seed key, assumed to lie in
  [0.9, 2.5]. The reset affects only other users of the global generator,
  which are outside this model.
- The random session seed (`random.randint(1, 1000)`) is a constructor
  parameter.
- `math.sqrt` is not computed. `AddRoute` takes the Euclidean distance as a
  parameter, and its precondition says the parameter is that distance.
- Floating point (rounding, NaN) is not modelled; times are reals. An explicit
  `float('inf')` passed as `tempo_base` is not modelled: a declared time
  is a finite real.
- Printing, emoji (`get_emoji_tipo`), `exibir_pontos` and the matrix
  displays are left out as presentation.
- The menu's `input()` loop, the `ValueError` and `Exception` handlers, and the
  offer to draw a found route (`plotar_rota`) are left out. The two choices
  reach the model as integers already read.
- `exibir_informacoes_sistema` and its count of facilities per kind are left
  out as presentation. The connection count it prints is
  `Menu.CountConnections`.
- `visualizador.py`, `mapa_visual.py` and `app.py` are not part of this
  model. `visualizador.py` draws the graph and a found route with
  matplotlib, colouring each route by its ratio of current to base time;
  `mapa_visual.py` draws a city map of streets and facilities, and reads a
  `transito` attribute that `GrafoEmergencia` does not define; `app.py`
  builds the sample network and starts the menu.
- Grafo.EmergencyGraph.AddNode: the default coordinate `(0, 0)` of
  `adicionar_ponto` is not modelled; the model always takes a coordinate,
  as every call in `app.py` (lines 36-43) passes one.
- The in-place `caminho.reverse()` at the end of the route search is the
  value function `Grafo.Reversed` applied to the collected names.
- Python lists and dictionaries that the source updates in place are fields
  of type `seq` and `map` that the methods reassign. Aliasing of the inner
  row lists is not modelled.
- Traffic.SeedKeyCollision: the shared seed of pairs such as (0, 10) and
  (1, 0) in graphs with ten or more facilities is stated as it is; the model
  keeps the source's key rather than a collision-free one.
