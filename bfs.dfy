// Breadth-first search for an augmenting path (the Edmonds-Karp strategy):
// a FIFO queue, the shared visited stamps, and a parent table from which
// the path is rebuilt. The path found is a shortest one.

module Bfs {
  import opened Residual
  import opened Paths
  import opened Graphs
  import opened ScalingState
  import opened Search

  /** Depths along the queue never decrease and span at most one level. */
  ghost predicate Layered(depth: seq<nat>, q: seq<int>)
  {
    && (forall k | 0 <= k < |q| :: 0 <= q[k] < |depth|)
    && (forall i, j | 0 <= i < j < |q| :: depth[q[i]] <= depth[q[j]])
    && (q != [] ==> forall k | 0 <= k < |q| :: depth[q[k]] <= depth[q[0]] + 1)
  }

  /** Depths along the queue never decrease and lie in d .. d+1. */
  ghost predicate WithinLevel(depth: seq<nat>, q: seq<int>, d: int)
  {
    && (forall k | 0 <= k < |q| :: 0 <= q[k] < |depth| && d <= depth[q[k]] <= d + 1)
    && (forall i, j | 0 <= i < j < |q| :: depth[q[i]] <= depth[q[j]])
  }

  /** While u (at depth d) is being expanded and the queue holds depths of at
      least d, a node not discovered yet is at least d + 1 hops away: a walk
      to it must leave the discovered set, and it can only do so from u or a
      queued node. */
  lemma NextLevel(adj: Adjacency, s: int, t: int, lo: int, seen: set<int>, done: set<int>, q: seq<int>,
                  u: int, processed: set<int>, depth: seq<nat>, y: int)
    requires Expanding(adj, t, lo, seen, done, q, u, processed) && t !in seen && s in seen
    requires |depth| == |adj|
    requires forall v | v in seen :: 0 <= v < |adj| && NoShorter(adj, s, v, depth[v], lo)
    requires forall k | 0 <= k < |q| :: 0 <= q[k] < |adj| && depth[u] <= depth[q[k]]
    requires y !in seen
    ensures NoShorter(adj, s, y, depth[u] + 1, lo)
  {
    forall p: Path | IsWalk(adj, s, y, p, lo) ensures |p| >= depth[u] + 1 {
      var j := ExitHop(adj, lo, seen, s, y, p);
      var x := p[j].0;
      WalkPrefix(adj, s, y, p, lo, j);
      assert |p[..j]| >= depth[x];
      assert !Expanded(adj, lo, x, seen);
    }
  }

  /** The state between two node expansions. Exactly the discovered nodes
      carry the token; they form a parent tree rooted at s with depths as
      ranks; the usual frontier property holds; and until t is discovered
      every discovered node's depth is a lower bound on the hops needed to
      reach it, and the queue is layered. Once t is discovered, its depth
      is such a bound. */
  ghost predicate Searching(adj: Adjacency, s: int, t: int, token: nat, visited: seq<nat>, parent: seq<Hop>,
                            depth: seq<nat>, seen: set<int>, done: set<int>, q: seq<int>)
  {
    && StampsMark(visited, token, |adj|, seen)
    && ParentTree(adj, s, 1, parent, depth, seen)
    && s in seen && depth[s] == 0
    && Frontier(adj, t, 1, seen, done, q)
    && (t in seen ==> NoShorter(adj, s, t, depth[t], 1))
    && (t !in seen ==> (forall v {:trigger NoShorter(adj, s, v, depth[v], 1)} | v in seen :: NoShorter(adj, s, v, depth[v], 1)) && Layered(depth, q))
  }

  /** The state while u, at depth d, is being expanded. */
  ghost predicate Scanning(adj: Adjacency, s: int, t: int, token: nat, visited: seq<nat>, parent: seq<Hop>,
                           depth: seq<nat>, seen: set<int>, done: set<int>, q: seq<int>,
                           u: int, processed: set<int>, d: int)
  {
    && StampsMark(visited, token, |adj|, seen)
    && ParentTree(adj, s, 1, parent, depth, seen)
    && s in seen && depth[s] == 0
    && Expanding(adj, t, 1, seen, done, q, u, processed)
    && depth[u] == d
    && (t in seen ==> NoShorter(adj, s, t, depth[t], 1))
    && (t !in seen ==> (forall v {:trigger NoShorter(adj, s, v, depth[v], 1)} | v in seen :: NoShorter(adj, s, v, depth[v], 1)) && WithinLevel(depth, q, d))
  }

  lemma SearchStart(adj: Adjacency, s: int, t: int, token: nat, visited: seq<nat>)
    requires IsNode(adj, s) && |adj| <= |visited| && forall v | 0 <= v < |visited| :: visited[v] < token
    ensures Searching(adj, s, t, token, visited[s := token], seq(|adj|, _ => (-1, -1)), seq(|adj|, _ => 0),
                      {s}, {}, [s])
  {
  }

  lemma ScanStart(adj: Adjacency, s: int, t: int, token: nat, visited: seq<nat>, parent: seq<Hop>,
                  depth: seq<nat>, seen: set<int>, done: set<int>, q: seq<int>)
    requires Searching(adj, s, t, token, visited, parent, depth, seen, done, q) && q != []
    ensures IsNode(adj, q[0])
    ensures Scanning(adj, s, t, token, visited, parent, depth, seen, done, q[1..], q[0], {}, depth[q[0]])
  {
    assert forall k | 0 <= k < |q[1..]| :: q[1..][k] == q[k + 1];
    StartExpansion(adj, t, 1, seen, done, q, q[1..], q[0]);
  }

  lemma ScanDiscover(adj: Adjacency, s: int, t: int, token: nat, visited: seq<nat>, parent: seq<Hop>,
                     depth: seq<nat>, seen: set<int>, done: set<int>, q: seq<int>,
                     u: int, processed: set<int>, d: int, i: int)
    requires Scanning(adj, s, t, token, visited, parent, depth, seen, done, q, u, processed, d)
    requires 0 <= i < |adj[u]| && IsNode(adj, adj[u][i].to) && adj[u][i].to !in seen && Remaining(adj[u][i]) >= 1
    ensures var v := adj[u][i].to;
      Scanning(adj, s, t, token, visited[v := token], parent[v := (u, i)], depth[v := d + 1],
               seen + {v}, done, q + [v], u, processed + {i}, d)
  {
    var v := adj[u][i].to;
    var visited', parent', depth', seen', q' := visited[v := token], parent[v := (u, i)], depth[v := d + 1], seen + {v}, q + [v];
    assert StampsMark(visited', token, |adj|, seen');
    TreeGrows(adj, s, 1, parent, depth, seen, u, i, d + 1);
    Discover(adj, t, 1, seen, done, q, u, processed, i);
    BoundsKept(adj, s, t, depth, seen, done, q, u, processed, d, i);
  }

  /** The depth bounds survive the discovery of u's edge i target at depth d + 1. */
  lemma BoundsKept(adj: Adjacency, s: int, t: int, depth: seq<nat>, seen: set<int>, done: set<int>, q: seq<int>,
                   u: int, processed: set<int>, d: int, i: int)
    requires Expanding(adj, t, 1, seen, done, q, u, processed) && s in seen
    requires |depth| == |adj| && (forall v | v in seen :: 0 <= v < |adj|) && depth[u] == d
    requires 0 <= i < |adj[u]| && IsNode(adj, adj[u][i].to) && adj[u][i].to !in seen
    requires t in seen ==> NoShorter(adj, s, t, depth[t], 1)
    requires t !in seen ==> (forall v {:trigger NoShorter(adj, s, v, depth[v], 1)} | v in seen :: NoShorter(adj, s, v, depth[v], 1)) && WithinLevel(depth, q, d)
    ensures var v := adj[u][i].to; var depth', seen', q' := depth[v := d + 1], seen + {v}, q + [v];
      && (t in seen' ==> NoShorter(adj, s, t, depth'[t], 1))
      && (t !in seen' ==> (forall w | w in seen' :: NoShorter(adj, s, w, depth'[w], 1)) && WithinLevel(depth', q', d))
  {
    var v := adj[u][i].to;
    if t !in seen {
      NextLevel(adj, s, t, 1, seen, done, q, u, processed, depth, v);
    }
  }

  lemma ScanPass(adj: Adjacency, s: int, t: int, token: nat, visited: seq<nat>, parent: seq<Hop>,
                 depth: seq<nat>, seen: set<int>, done: set<int>, q: seq<int>,
                 u: int, processed: set<int>, d: int, i: int)
    requires Scanning(adj, s, t, token, visited, parent, depth, seen, done, q, u, processed, d)
    requires 0 <= i < |adj[u]| && (adj[u][i].to in seen || Remaining(adj[u][i]) < 1)
    ensures Scanning(adj, s, t, token, visited, parent, depth, seen, done, q, u, processed + {i}, d)
  {
    PassOver(adj, t, 1, seen, done, q, u, processed, i);
  }

  lemma ScanEnd(adj: Adjacency, s: int, t: int, token: nat, visited: seq<nat>, parent: seq<Hop>,
                depth: seq<nat>, seen: set<int>, done: set<int>, q: seq<int>,
                u: int, processed: set<int>, d: int)
    requires Scanning(adj, s, t, token, visited, parent, depth, seen, done, q, u, processed, d)
    requires t !in seen ==> forall j | 0 <= j < |adj[u]| :: j in processed
    ensures Searching(adj, s, t, token, visited, parent, depth, seen, done + {u}, q)
    ensures seen <= Nodes(|adj|)
  {
    FinishExpansion(adj, t, 1, seen, done, q, u, processed);
  }

  /** When the queue is empty, t is discovered exactly when it is reachable. */
  lemma SearchEnd(adj: Adjacency, s: int, t: int, token: nat, visited: seq<nat>, parent: seq<Hop>,
                  depth: seq<nat>, seen: set<int>, done: set<int>)
    requires Searching(adj, s, t, token, visited, parent, depth, seen, done, [])
    ensures t !in seen ==> !Reachable(adj, s, t, 1)
  {
    if t !in seen {
      Exhausted(adj, s, t, 1, seen, done);
    }
  }

  /** bfs_path(graph, s, t, path): on success `path` is a simple path from s
      to t over edges with remaining capacity, with the fewest hops of any
      such walk; it succeeds exactly when t is reachable, and otherwise
      leaves `path` as it was. */
  method BfsPath(g: Graph, s: int, t: int, st: VisitState, path0: Path) returns (found: bool, path: Path)
    requires g.Valid() && st.Valid()
    requires IsNode(g.adjList, s) && IsNode(g.adjList, t) && s != t
    modifies st
    ensures st.Valid() && st.visitedToken == old(st.visitedToken) + 1
    ensures found <==> Reachable(g.adjList, s, t, 1)
    ensures found ==> IsPath(g.adjList, s, t, path, 1)
    ensures found ==> forall p | IsWalk(g.adjList, s, t, p, 1) :: |path| <= |p|
    ensures !found ==> path == path0
  {
    var n := g.Size();
    st.Reset(n);
    ghost var token := st.visitedToken;
    var parent: seq<Hop> := seq(n, _ => (-1, -1));
    var q: seq<int> := [s];
    SearchStart(g.adjList, s, t, token, st.visited);
    st.Mark(s);
    ghost var seen: set<int> := {s};
    ghost var done: set<int> := {};
    ghost var depth: seq<nat> := seq(n, _ => 0);
    while q != []
      invariant st.Valid() && st.visitedToken == token
      invariant Searching(g.adjList, s, t, token, st.visited, parent, depth, seen, done, q)
      invariant seen <= Nodes(n)
      decreases Nodes(n) - seen, |q|
    {
      ScanStart(g.adjList, s, t, token, st.visited, parent, depth, seen, done, q);
      var u := q[0];
      q := q[1..];
      parent, q, depth, seen := ScanNeighbors(g, s, t, st, u, parent, q, token, depth, seen, done);
      done := done + {u};
    }
    SearchEnd(g.adjList, s, t, token, st.visited, parent, depth, seen, done);
    if st.visited[t] != st.visitedToken {
      return false, path0;
    }
    path := RebuildPath(g.adjList, parent, s, t, 1, depth, seen);
    found := true;
  }

  /** The inner loop of bfs_path: look at u's entries in order, discover
      the unvisited targets of those with remaining capacity, and stop
      early once t is discovered. */
  method ScanNeighbors(g: Graph, s: int, t: int, st: VisitState, u: int, parent: seq<Hop>, q: seq<int>,
                       ghost token: nat, ghost depth: seq<nat>, ghost seen: set<int>, ghost done: set<int>)
    returns (parent': seq<Hop>, q': seq<int>, ghost depth': seq<nat>, ghost seen': set<int>)
    requires g.Valid() && st.Valid() && st.visitedToken == token
    requires IsNode(g.adjList, u) && |depth| == |g.adjList|
    requires Scanning(g.adjList, s, t, token, st.visited, parent, depth, seen, done, q, u, {}, depth[u])
    modifies st
    ensures st.Valid() && st.visitedToken == token
    ensures Searching(g.adjList, s, t, token, st.visited, parent', depth', seen', done + {u}, q')
    ensures seen <= seen' <= Nodes(|g.adjList|) && (seen' == seen ==> q' == q)
  {
    ghost var adj := g.adjList;
    ghost var d := depth[u];
    parent', q', depth', seen' := parent, q, depth, seen;
    ghost var processed: set<int> := {};
    var neighbors := g.GetNeighbors(u);
    var i := 0;
    while i < |neighbors|
      invariant 0 <= i <= |neighbors|
      invariant st.Valid() && st.visitedToken == token
      invariant Scanning(adj, s, t, token, st.visited, parent', depth', seen', done, q', u, processed, d)
      invariant processed == Nodes(i)
      invariant seen <= seen' && (seen' == seen ==> q' == q)
    {
      NodesNext(i);
      var e := neighbors[i];
      if st.visited[e.to] != st.visitedToken && e.capacity > e.flow {
        ScanDiscover(adj, s, t, token, st.visited, parent', depth', seen', done, q', u, processed, d, i);
        st.Mark(e.to);
        parent' := parent'[e.to := (u, i)];
        depth' := depth'[e.to := d + 1];
        q' := q' + [e.to];
        seen' := seen' + {e.to};
        processed := processed + {i};
        if e.to == t {
          break;
        }
      } else {
        ScanPass(adj, s, t, token, st.visited, parent', depth', seen', done, q', u, processed, d, i);
        processed := processed + {i};
      }
      i := i + 1;
    }
    ScanEnd(g.adjList, s, t, token, st.visited, parent', depth', seen', done, q', u, processed, d);
  }
}
