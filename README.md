# Residual-graph max-flow engine, modelled in Dafny

This project models the max-flow engine of `max_flow`, a C++ program. The
engine has four parts:

- **The residual graph.** `Graph` has a node count, a source, a sink and one
  adjacency list per node. `add_edge` appends a forward entry and a
  zero-capacity reverse entry. Each entry's `rev` is the position of its
  partner in the other node's list. `read_dimacs` fills the graph from
  `p`/`n`/`a` records.
- **The augmentation engine.** `augment` pushes the bottleneck
  `min(capacity - flow)` along a path. It adds the bottleneck to each path
  entry's flow and takes it from the partner's flow. `ford_fulkerson` repeats
  "find a path, augment" until the strategy reports no path.
- **Four path-finding strategies**, all with the same signature:
  - breadth-first search (Edmonds-Karp);
  - randomised depth-first search;
  - widest-bottleneck ("fattest") search, a Dijkstra variant, whose queue
    holds `Fattest.State` entries (cap, node) ordered by cap
    (src/find_path_sources/fattest_path.cpp:9-15);
  - capacity-scaling depth-first search.

  Each strategy runs over a generation-stamped `visited` buffer, records a
  parent table and rebuilds the path from the sink back to the source.
- **The visited buffer** (`scaling_state`), which every strategy reuses.

Everything that changes state in place is imperative Dafny:
- `Graph` and the visited buffer are classes;
- their methods carry `modifies` clauses;
- every loop of the source is a `while` loop with invariants.

Each method is proved against specification functions and predicates over
the adjacency (`seq<seq<Edge>>`). These are:
- `Paired`, `Skew`, `Capped` and `Feasible` for the flow invariants;
- `IsWalk`, `IsPath` and `Reachable` for paths;
- `Bottleneck`;
- `WithEdge`, `ApplyHop` and `ApplyPath` for the effects of `add_edge` and `augment`;
- `Run` for the reader.

The path contract, written once in `Paths.IsPath`, is what every strategy
promises. The path is a chain of `(node, edge index)` hops from `s` to `t`. On
every edge, `capacity - flow` is at least the strategy's threshold. No node
repeats, and `t` appears only at the end. "Not found" means that `t` is not
reachable from `s` over such edges. The model proves both directions for all
four strategies.

What the model proves, in brief:
- **Graph building.** `add_edge` appends exactly the two paired entries and
  changes nothing else. `read_dimacs` fails with "unsupported problem" exactly
  when a `p` record is not for `max`. Otherwise it fails exactly when the
  source or sink is still undefined at the end. Blank lines and comments have
  no effect. Reading keeps the pairing and zero flow, and keeps the flow
  invariants when no arc has a negative capacity.
- **The strategies.**
  - BFS returns a path with the fewest hops.
  - The fattest-path search returns a path whose bottleneck is at least that
    of every walk from `s` to `t`.
  - Capacity scaling returns a path whose bottleneck is more than half of
    every walk's.
  - All four succeed exactly when `t` is reachable. They leave `path` as it
    was when they fail, and they never modify the graph.
- **`augment`.**
  - Its result is the bottleneck: INT_MAX lowered to every path entry's
    remaining capacity.
  - It keeps `flow + partner.flow == 0` on every pair.
  - On a simple path it keeps `flow <= capacity`. A simple path has no
    repeated entry and no entry that follows its partner, which the model
    proves.
  - It changes only the flows of the path entries and their partners.
  - Along a simple path from `s` to `t`, it raises the net flow of `s` by the
    bottleneck, lowers the net flow of `t` by the same amount, and leaves
    every other node's net flow unchanged.
- **`ford_fulkerson`.**
  - It ends; each round adds at least 1, and the net flow out of `s` is
    bounded by its capacity.
  - It keeps the flow invariants and the shape of the graph.
  - Afterwards `t` is unreachable over edges with remaining capacity.
  - Its result is the net flow gained out of `s`, which equals the net flow
    lost by `t`. Every other node keeps its net flow.

What the model leaves as parameters:
- The random generator of the DFS strategy: its shuffle is any permutation of
  the edge indices (`:|`).
- The character stream of `read_dimacs`: the reader takes lines already split
  into records (`Dimacs.Line`).

## Model

| member | source | states |
|---|---|---|
| Residual.SameShapePaired | src/ford_fulkerson.cpp:17-23 | Changing only the flows keeps every entry paired with its reverse entry. |
| Residual.EmptyLists | src/graph.cpp:7 | `adj_list(n)` is n lists, each of them empty. |
| Residual.EmptyListsFeasible | src/graph.cpp:7 | A graph of empty lists is paired, skew-symmetric, within capacity and carries no flow. |
| Residual.WithEdge | src/graph.cpp:10-17 | The adjacency after `add_edge`: same number of lists, and `adj[from]` and `adj[to]` each one entry longer. Their contents are stated by `WithEdgeAppends` and `WithEdgePairsNewEntries`. |
| Residual.WithEdgeAppends | src/graph.cpp:10-17 | `add_edge` appends exactly one entry to `adj[from]` and one to `adj[to]`. The forward entry is `(to, old size of adj[to], capacity, 0)`; the backward entry is `(from, old size of adj[from], 0, 0)`. Existing entries and all other lists are unchanged. |
| Residual.WithEdgePairsNewEntries | src/graph.cpp:12-17 | The two new entries are each other's partners: each one's `(to, rev)` leads to the other, which points back. |
| Residual.WithEdgeKeepsInvariants | src/graph.cpp:10-17 | With `from != to`, `add_edge` keeps every entry paired. With a non-negative capacity it keeps the flow invariants. It keeps zero flow. |
| Residual.NetFlowUpdate | src/ford_fulkerson.cpp:21-22 | Setting one entry's flow changes its list's net flow by the difference and leaves the capacity sum alone. |
| Residual.NetFlowAtMostCapacity | src/ford_fulkerson.cpp:34-37 | When flow <= capacity on every entry, a node's net flow is at most its capacity sum. This bounds how often `ford_fulkerson` can augment. |
| Residual.CapacitySumShape | src/ford_fulkerson.cpp:17-23 | Lists that differ only in flows have the same capacity sum. |
| Dimacs.Significant | src/graph.cpp:51 | The filtered lines contain no blank line and no comment. |
| Dimacs.Step | src/graph.cpp:57-75 | One record: only a `p` record changes n (to its node count). Only an `n` record changes source or sink. An `a` record keeps the number of lists. A blank or comment line changes nothing. |
| Dimacs.Run | src/graph.cpp:48-82 | The read: unless it stops at an unsupported `p` record, it succeeds exactly when both source and sink are defined (not -1) at the end. |
| Dimacs.StepKeepsInvariants | src/graph.cpp:57-75 | One accepted `p`, `n` or `a` record keeps n equal to the number of lists, every entry paired, and zero flow. It keeps the flow invariants unless it is an `a` record with a negative capacity. |
| Dimacs.RunKeepsInvariants | src/graph.cpp:48-82 | A whole read keeps n equal to the number of lists, every entry paired, and zero flow. It keeps the flow invariants when no `a` record has a negative capacity. |
| Dimacs.RunOutcome | src/graph.cpp:57-81 | The read fails with "unsupported problem" if and only if some `p` record is not for `max`. Otherwise it fails with "undefined terminal" if and only if source or sink is -1 at the end, and it succeeds otherwise. |
| Dimacs.RunTerminals | src/graph.cpp:64-75 | With no rejected `p` record, source and sink end as `id - 1` of the last `n` record naming them. n ends as the node count of the last `p` record, with one list per node. |
| Dimacs.RunIgnoresSkipped | src/graph.cpp:51 | Reading the lines gives the same state and outcome as reading them with blank and comment lines removed. |
| Graphs.Graph.constructor | src/graph.cpp:7 | `Graph(n)` has n empty lists, source and sink -1 (undefined), and satisfies the invariants. |
| Graphs.Graph.Size | src/graph.cpp:20-22 | `size()` is the number of adjacency lists. |
| Graphs.Graph.Adj | src/graph.cpp:25-27 | `adj(u)` is u's list. Each of its entries leads to a node whose list holds a partner pointing back at u. |
| Graphs.Graph.GetNeighbors | src/graph.cpp:30-32 | `get_neighbors(u)` is the same list as `adj(u)`. |
| Graphs.Graph.GetSource | src/graph.cpp:39-41 | `get_source()` is the source as the reader leaves it: -1 until an `n ... s` record defines it, and never -1 after a successful `ReadDimacs`. |
| Graphs.Graph.GetSink | src/graph.cpp:43-45 | `get_sink()` is the sink as the reader leaves it: -1 until an `n ... t` record defines it, and never -1 after a successful `ReadDimacs`. |
| Graphs.Graph.AddEdge | src/graph.cpp:10-18 | Appends the forward and backward entries as in `WithEdge`, with their exact contents, and leaves other lists, n, source and sink unchanged. It keeps `Valid`, the flow invariants (for capacity >= 0) and zero flow. |
| Graphs.Graph.ReadDimacs | src/graph.cpp:48-82 | The new state and the outcome are those of `Dimacs.Run`. An error leaves the state reached before the failing record. A successful read leaves source and sink defined. It keeps `Valid` and zero flow, and keeps the flow invariants when no `a` record has a negative capacity. |
| Paths.BottleneckIsMinimum | src/ford_fulkerson.cpp:9-15 | The bottleneck is at most INT_MAX and at most every path entry's remaining capacity. It equals INT_MAX (the empty path) or one of those capacities. |
| Paths.BottleneckOfWalk | src/ford_fulkerson.cpp:9-15 | On a walk over edges with remaining capacity >= lo, the bottleneck is at least min(lo, INT_MAX). |
| Paths.BottleneckBelow | src/find_path_sources/capacity_scaling.cpp:34 | A walk that uses an edge below lo has a bottleneck below lo. |
| Paths.NarrowWalks | src/find_path_sources/capacity_scaling.cpp:72-76 | When t is unreachable at threshold lo, every walk from s to t has a bottleneck below lo. |
| Paths.Bottleneck | src/ford_fulkerson.cpp:9-15 | The bottleneck starts at INT_MAX and is lowered by `std::min` with each entry's `capacity - flow` in path order, so it never exceeds INT_MAX. `BottleneckIsMinimum` states that it is the attained minimum. |
| Paths.WalkTail | include/ford_furkenson.hpp:6-7 | Dropping a walk's first hop leaves a walk from where that hop ends. |
| Paths.WalkCons | include/ford_furkenson.hpp:6-7 | A usable hop followed by a walk from its end is a walk. |
| Paths.WalkPrefix | include/ford_furkenson.hpp:6-7 | The first k hops of a walk are a walk to the k-th hop's node. |
| Paths.WalkStaysInside | src/find_path_sources/bfs.cpp:16-33 | A walk that starts in a set closed under usable edges ends in it. |
| Paths.ClosedBlocks | src/find_path_sources/bfs.cpp:36 | If s is in a closed set and t is not, t is unreachable from s. |
| Paths.PathWeakens | src/find_path_sources/capacity_scaling.cpp:34 | A path at threshold delta is a path at any lower threshold. |
| Paths.Reversed | src/find_path_sources/bfs.cpp:46 | `std::reverse`: same length, element k is element n-1-k of the input. |
| Paths.ChainStep | src/find_path_sources/bfs.cpp:40-44 | One step `u = parent[u].first` of the rebuild loop moves to a tree node of lower rank. The hops collected so far, with the new one in front, still form a walk to t along which ranks rise. |
| Paths.RebuildPath | src/find_path_sources/bfs.cpp:39-46 | Following the parent table from t back to s and reversing gives a path from s to t at the tree's threshold, with no repeated node. It has at most rank[t] - rank[s] hops and ends with parent[t]. Shared by all four strategies. |
| ScalingState.VisitState.constructor | include/find_path_headers/capacity_scaling.hpp:11-12 | The buffer starts empty and the token at 1. |
| ScalingState.VisitState.Mark | src/find_path_sources/bfs.cpp:27 | `visited[v] = visitedToken` changes only v's stamp and keeps every stamp at most the token. |
| ScalingState.VisitState.Reset | include/find_path_headers/capacity_scaling.hpp:15-18 | Afterwards the buffer has at least n stamps. A shorter buffer is replaced by n zeros; the buffer never shrinks. The token goes up by 1, so no node counts as visited. |
| Search.StartExpansion | src/find_path_sources/bfs.cpp:17-18 | Removing u from the queue or stack starts its expansion with the frontier property intact. |
| Search.Discover | src/find_path_sources/bfs.cpp:26-29 | Marking and queueing the target of an edge keeps the frontier property. |
| Search.PassOver | src/find_path_sources/bfs.cpp:26 | Skipping an edge whose target is visited or which has too little capacity keeps the frontier property. |
| Search.FinishExpansion | src/find_path_sources/bfs.cpp:22-32 | After all of u's edges are looked at, u is fully expanded. |
| Search.Exhausted | src/find_path_sources/bfs.cpp:16-36 | With nothing pending and t undiscovered, t is unreachable. |
| Search.TreeGrows | src/find_path_sources/bfs.cpp:28 | Recording `parent[v] = (u, i)` at v's discovery keeps the parent table a tree over usable edges with rising ranks. |
| Search.ExitHop | src/find_path_sources/bfs.cpp:16-33 | A walk from a discovered node to an undiscovered one has a hop that leaves the discovered set. |
| Search.ExploreStart | src/find_path_sources/dfs_random.cpp:12-15 | Pushing the source and marking it establishes the stack-search invariant. |
| Search.ExplorePop | src/find_path_sources/dfs_random.cpp:21-22 | Popping the top of the stack starts its expansion. |
| Search.ExploreDiscover | src/find_path_sources/dfs_random.cpp:33-36 | Marking, parenting and pushing an unvisited target over a usable edge keeps the invariant. |
| Search.ExplorePass | src/find_path_sources/dfs_random.cpp:33 | Skipping a visited or unusable edge keeps the invariant. |
| Search.ExploreDone | src/find_path_sources/dfs_random.cpp:31-39 | Finishing u's edges (or breaking at the sink) restores the between-expansions invariant. |
| Search.ExploreEnd | src/find_path_sources/dfs_random.cpp:42 | With the stack empty, an unvisited sink is unreachable. |
| Bfs.NextLevel | src/find_path_sources/bfs.cpp:11-32 | While u at depth d is expanded, any undiscovered node is at least d + 1 hops from s. |
| Bfs.SearchStart | src/find_path_sources/bfs.cpp:9-13 | The initial queue, parent table and marks satisfy the BFS invariant. |
| Bfs.ScanStart | src/find_path_sources/bfs.cpp:17-18 | Taking the queue's front starts its scan at its depth. |
| Bfs.ScanDiscover | src/find_path_sources/bfs.cpp:26-29 | Discovering a target at depth d + 1 keeps the BFS invariant, including the depth lower bounds. |
| Bfs.BoundsKept | src/find_path_sources/bfs.cpp:26-29 | The depth lower bounds and the layering of the queue survive a discovery. |
| Bfs.ScanPass | src/find_path_sources/bfs.cpp:26 | Skipping an edge keeps the BFS invariant. |
| Bfs.ScanEnd | src/find_path_sources/bfs.cpp:22-32 | Finishing u's scan, or breaking at t, restores the between-nodes invariant. |
| Bfs.SearchEnd | src/find_path_sources/bfs.cpp:36 | With the queue empty, an unvisited t is unreachable. |
| Bfs.BfsPath | src/find_path_sources/bfs.cpp:5-48 | Succeeds if and only if t is reachable over edges with `capacity > flow`. On success the path is simple and has no more hops than any such walk. On failure `path` is unchanged. The graph is untouched. The visited token goes up by exactly 1 (one reset). |
| Bfs.ScanNeighbors | src/find_path_sources/bfs.cpp:20-32 | The inner loop over u's entries keeps the BFS invariant and only adds discovered nodes. |
| RandomDfs.Shuffle | src/find_path_sources/dfs_random.cpp:29 | The shuffled indices are a permutation of the input indices. |
| RandomDfs.DfsPath | src/find_path_sources/dfs_random.cpp:8-54 | For every shuffle outcome it succeeds if and only if the sink is reachable over edges with residual > 0. On success the path is simple; on failure `path` is unchanged. The visited token goes up by exactly 1 (one reset). |
| RandomDfs.ExpandShuffled | src/find_path_sources/dfs_random.cpp:24-39 | Scanning u's entries in the shuffled order, with the stored index naming u's own entry, keeps the stack-search invariant. |
| CapacityScaling.MaxResidual | src/find_path_sources/capacity_scaling.cpp:57-64 | `max_cap` is >= 0 and >= every entry's remaining capacity. It is 0 or equals some entry's remaining capacity. |
| CapacityScaling.InitialDelta | src/find_path_sources/capacity_scaling.cpp:67-69 | For max_cap <= 0 delta is 0. Otherwise delta is a power of two with delta <= max_cap < 2 * delta. |
| CapacityScaling.DfsWithDelta | src/find_path_sources/capacity_scaling.cpp:19-54 | On a freshly reset buffer it succeeds if and only if t is reachable over edges with residual >= delta. On success the path is simple at delta; on failure `path` is unchanged. The visited token is unchanged. |
| CapacityScaling.ExpandAbove | src/find_path_sources/capacity_scaling.cpp:30-40 | The inner loop keeps the stack-search invariant at threshold delta. |
| CapacityScaling.FirstRoundBound | src/find_path_sources/capacity_scaling.cpp:57-69 | Before the first round, every walk from s to t has a bottleneck below 2 * delta. |
| CapacityScaling.CapacityScalingPath | src/find_path_sources/capacity_scaling.cpp:56-79 | Succeeds if and only if t is reachable over edges with residual >= 1. The path is simple, and every walk's bottleneck is below twice the path's. On failure `path` is unchanged. The ghost result `maxCap` is the largest remaining capacity. The number of rounds (`reset` calls, each advancing the visited token by 1) is 0 when `maxCap` is 0, and otherwise between 1 and floor(log2 maxCap) + 1. |
| CapacityScaling.RoundsBound | src/find_path_sources/capacity_scaling.cpp:72-76 | Starting from the initial delta (a power of two with delta <= max_cap < 2 * delta), halving reaches 0 after exactly floor(log2 max_cap) + 1 rounds. `CapacityScalingPath` counts its rounds against this. |
| CapacityScaling.Shl32 | src/find_path_sources/capacity_scaling.cpp:68 | `delta <<= 1` on a 32-bit int stays in the 32-bit range. |
| CapacityScaling.DeltaAfter32 | src/find_path_sources/capacity_scaling.cpp:67-68 | delta after k doublings, as written, stays a 32-bit value. |
| CapacityScaling.Pow2Gap | src/find_path_sources/capacity_scaling.cpp:67-69 | A power of two below another is at most half of it. |
| CapacityScaling.ShiftTrapped | src/find_path_sources/capacity_scaling.cpp:68 | One wrapping shift keeps delta among powers of two up to 2^30, INT_MIN and 0. |
| CapacityScaling.DoublingTrapped | src/find_path_sources/capacity_scaling.cpp:67-68 | Every delta the doubling loop reaches, as written, is a power of two up to 2^30, INT_MIN or 0. |
| CapacityScaling.AsWrittenNeverExits | src/find_path_sources/capacity_scaling.cpp:67-69 | With max_cap >= 2^30, the guard `delta <= max_cap` holds after any number of doublings. |
| Fattest.TopIndex | src/find_path_sources/fattest_path.cpp:29 | `pq.top()` is an entry whose cap is the largest in the queue. |
| Fattest.Without | src/find_path_sources/fattest_path.cpp:30 | `pq.pop()` removes exactly that one entry: the multiset loses one copy and keeps every other entry. |
| Fattest.WideStart | src/find_path_sources/fattest_path.cpp:18-26 | The initial max_cap (s at INT_MAX), parent table and queue satisfy the search invariant. |
| Fattest.LinkedSettle | src/find_path_sources/fattest_path.cpp:34-35 | Settling u keeps every parent link, and u's link leaves an earlier-settled node. |
| Fattest.PopStale | src/find_path_sources/fattest_path.cpp:34 | Popping an entry of an already visited node keeps the invariant. |
| Fattest.PopFresh | src/find_path_sources/fattest_path.cpp:29-35 | Popping the widest entry of an unvisited u settles it: its cap is max_cap[u] and no settled node is narrower. |
| Fattest.RelaxSkip | src/find_path_sources/fattest_path.cpp:41 | Skipping an entry without residual, or one that does not widen its target, keeps the invariant. |
| Fattest.LinkedRaise | src/find_path_sources/fattest_path.cpp:43-47 | Raising max_cap of an unsettled target through an entry of a settled node keeps every parent link. |
| Fattest.RelaxedRaise | src/find_path_sources/fattest_path.cpp:43-47 | The raise keeps every looked-at entry relaxed and relaxes the current one. |
| Fattest.RelaxRaise | src/find_path_sources/fattest_path.cpp:43-47 | Setting `max_cap[e.to] = min(max_cap[u], residual)`, the parent and the queue entry keeps the invariant. The target is not yet settled. |
| Fattest.QueueRaise | src/find_path_sources/fattest_path.cpp:47 | Pushing the new entry keeps the queue entries valid, every unsettled widened node queued, and no entry wider than a settled node. |
| Fattest.WideEnd | src/find_path_sources/fattest_path.cpp:28-50 | With the queue empty, every node with a positive max_cap is settled. |
| Fattest.WidestBound | src/find_path_sources/fattest_path.cpp:28-50 | At the end, max_cap[w] >= the bottleneck of every walk from s to w over edges with residual > 0. |
| Fattest.WidestTree | src/find_path_sources/fattest_path.cpp:55-62 | The settled nodes at least as wide as t form a parent tree over edges with residual >= max_cap[t]. |
| Fattest.FattestPath | src/find_path_sources/fattest_path.cpp:17-64 | Succeeds if and only if t is reachable over edges with residual > 0. The path is simple, and its bottleneck is at least that of every walk from s to t: it is a widest path. On failure `path` is unchanged. The visited token goes up by exactly 1 (one reset). |
| Fattest.WidestResult | src/find_path_sources/fattest_path.cpp:52-63 | After the queue is drained, `max_cap[t] == 0` exactly when t is unreachable over edges with residual > 0. Otherwise the path rebuilt from the parent table is simple, and its bottleneck is at least that of every walk from s to t. On failure `path` is unchanged. |
| Fattest.Relax | src/find_path_sources/fattest_path.cpp:37-49 | Looking at all of u's entries keeps the invariant with every entry of u relaxed. No max_cap decreases. |
| Augmentation.ApplyHop | src/ford_fulkerson.cpp:18-22 | One flow update keeps the shape of the graph and the pairing. |
| Augmentation.HopEntries | src/ford_fulkerson.cpp:18-22 | The update adds b to the path entry's flow and subtracts b from its partner's. Every other entry is unchanged. |
| Augmentation.ApplyPath | src/ford_fulkerson.cpp:17-23 | The whole second loop changes only flows and keeps the pairing. |
| Augmentation.SkewHop | src/ford_fulkerson.cpp:21-22 | One update keeps `flow + partner.flow == 0` everywhere. |
| Augmentation.SkewPath | src/ford_fulkerson.cpp:17-23 | `augment` keeps `flow + partner.flow == 0` everywhere, on any path. |
| Augmentation.CappedHop | src/ford_fulkerson.cpp:21-22 | An update by 0 <= b <= remaining capacity keeps flow <= capacity everywhere. |
| Augmentation.PathUntouched | src/ford_fulkerson.cpp:17-23 | An entry that is neither on the path nor the partner of a path entry keeps its value. |
| Augmentation.CappedPath | src/ford_fulkerson.cpp:13-22 | On a path whose entries are distinct and none is a later entry's partner, pushing b (0 <= b <= every path entry's residual) keeps flow <= capacity everywhere. |
| Augmentation.SimpleDisjoint | src/ford_fulkerson.cpp:17-23 | A simple path has no repeated entry and no entry following its partner. |
| Augmentation.NetFlowHop | src/ford_fulkerson.cpp:21-22 | One update raises the net flow of the node it leaves by b and lowers that of the node it enters by b. |
| Augmentation.NetFlowPath | src/ford_fulkerson.cpp:17-23 | Along any walk from u to w, `augment` raises u's net flow by b, lowers w's by b, and leaves every other node's net flow unchanged. |
| Augmentation.AugmentFeasible | src/ford_fulkerson.cpp:8-26 | Augmenting a simple path by its bottleneck keeps the flow invariants, and that bottleneck is >= 1. |
| Augmentation.Augment | src/ford_fulkerson.cpp:8-26 | Returns `Bottleneck` of the path and sets the adjacency to `ApplyPath` of the old one by that amount. n, source and sink are unchanged. |
| Augmentation.PathBottleneck | src/ford_fulkerson.cpp:9-15 | The first loop computes exactly `Bottleneck`: INT_MAX lowered to each entry's `capacity - flow`. |
| Augmentation.PushHop | src/ford_fulkerson.cpp:18-22 | `e.flow += b; rev.flow -= b` changes the adjacency exactly as `ApplyHop`. |
| Augmentation.FindPath | include/ford_furkenson.hpp:11 | Whichever strategy is chosen: it succeeds if and only if t is reachable, returns a simple path on success, leaves `path` alone on failure, and does not modify the graph. The visited token never goes down. |
| Augmentation.FordFulkerson | src/ford_fulkerson.cpp:29-40 | It ends, and keeps the flow invariants and the graph's shape. t ends unreachable over edges with residual > 0. The result is >= 0 and equals the net flow gained out of s. t loses the same, and every other node keeps its net flow. |
| Augmentation.AugmentConserves | src/ford_fulkerson.cpp:17-23 | Along a simple s-t path, s gains b of net flow, t loses b, and every other node keeps its net flow. |
| Augmentation.AugmentStep | src/ford_fulkerson.cpp:34-37 | One round adds a bottleneck >= 1 to the accounted flow. It keeps the flow invariants, the shape and the conservation, and strictly shrinks the room left at s. |

## Left out

- Character-level tokenising in `read_dimacs` (`getline`, `istringstream >>`) is not modelled: the reader takes records already split into fields.
- Dimacs.LineOk: an `a` record must name existing, distinct nodes, and a `p max` record must give a non-negative node count. Otherwise the source indexes `adj_list` out of range, sizes it from a negative count, or builds a self-loop whose two entries are not each other's partners. Any capacity is accepted. A negative one is read as written, and only the flow invariants then fail to hold.
- The random generator (`random_device`, `mt19937`) is not modelled. `RandomDfs.Shuffle` is any permutation, and `DfsPath` is proved for all of them.
- The container internals of `std::queue`, `std::stack` and `std::priority_queue` are not modelled. They are sequences. When several heap entries share the largest cap, `Fattest.TopIndex` picks the first; the heap may pick any of them.
- The ODR and sharing issues of the header-defined `scaling_state` and the duplicate anonymous-namespace buffer in src/find_path_sources/capacity_scaling.cpp:8-16 are not modelled. One `VisitState` object is passed explicitly to every strategy.
- `bfs_state`, used by three strategies, is not defined in any of the files modelled. It is modelled as the same `VisitState` as `scaling_state`.
- 32-bit wrap-around is modelled only for the delta doubling (see Findings). Integers are otherwise unbounded. Stamps are naturals, so the 64-bit token never wraps. `max_flow` in `ford_fulkerson` and the flow additions are not checked for overflow.
- The stamps a strategy leaves in the visited buffer are not stated beyond `Valid` (every stamp at most the token). Only the token's advance is.
- `get_adj()` hands out a mutable reference to the whole adjacency. `Augmentation.Augment` updates the graph's `adjList` field directly.
- Min-cut optimality of the final flow is not stated. "No augmenting path is left" is proved.
- FordFulkerson, FindPath and every strategy require `s != t`. With `s == t`, `bfs_path`, `dfs_path` and `fattest_path` report a path with no hops. `capacity_scaling_path` does the same when some entry has positive residual, and returns false when none has. On an empty path `augment` returns INT_MAX, so `ford_fulkerson` adds INT_MAX on every round and never ends.
- `src/main.cpp` (command-line dispatch and output) and the Python chart scripts are not part of this model.

Where the code does not compile as written, the model follows its evident meaning:
- `add_edge` initialises `Edge` with five values, but the struct has four fields. Entries are `{to, rev, capacity, flow}`.
- `remaining_capacity()` is called but never declared. It is `capacity - flow`, as `augment` and `bfs_path` compute it.

The flow invariants are the ones the code keeps. `rev.flow -= bottleneck` (src/ford_fulkerson.cpp:22) makes reverse entries carry negative flow, so the model does not require `0 <= flow`. It keeps `flow <= capacity`, `0 <= capacity` and `flow + partner.flow == 0` instead (`Residual.Feasible`).

## Findings

| source | as written | input that shows it | evidently intended | confidence | as-written member | corrected member |
|---|---|---|---|---|---|---|
| src/find_path_sources/capacity_scaling.cpp:67-69 | `while (delta <= max_cap) delta <<= 1;` on a 32-bit `int` | any graph with an entry whose remaining capacity is at least 2^30, e.g. one arc of capacity 1073741824: delta reaches 2^30, shifts to INT_MIN, then to 0, and `delta <= max_cap` stays true for ever | the largest power of two <= max_cap | not executed | CapacityScaling.AsWrittenNeverExits | CapacityScaling.InitialDelta |
