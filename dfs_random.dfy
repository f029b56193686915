// Randomised depth-first search for an augmenting path: a stack instead
// of a queue, and each node's edges looked at in a shuffled order. The
// random generator is not modelled: the shuffle is any permutation.

module RandomDfs {
  import opened Residual
  import opened Paths
  import opened Graphs
  import opened ScalingState
  import opened Search

  /** std::shuffle: some permutation of the indices, chosen freely. */
  method Shuffle(indices: seq<int>) returns (shuffled: seq<int>)
    ensures multiset(shuffled) == multiset(indices)
  {
    shuffled :| multiset(shuffled) == multiset(indices);
  }

  /** dfs_path(graph, source, sink, path): on success `path` is a simple
      path from source to sink over edges with remaining capacity; it
      succeeds exactly when the sink is reachable, whatever order the
      shuffles pick, and otherwise leaves `path` as it was. */
  method DfsPath(g: Graph, source: int, sink: int, st: VisitState, path0: Path) returns (found: bool, path: Path)
    requires g.Valid() && st.Valid()
    requires IsNode(g.adjList, source) && IsNode(g.adjList, sink) && source != sink
    modifies st
    ensures st.Valid() && st.visitedToken == old(st.visitedToken) + 1
    ensures found <==> Reachable(g.adjList, source, sink, 1)
    ensures found ==> IsPath(g.adjList, source, sink, path, 1)
    ensures !found ==> path == path0
  {
    var n := g.Size();
    st.Reset(n);
    ghost var token := st.visitedToken;
    var parent: seq<Hop> := seq(n, _ => (-1, -1));
    var s: seq<int> := [source];
    ExploreStart(g.adjList, source, sink, 1, token, st.visited);
    st.Mark(source);
    ghost var seen: set<int> := {source};
    ghost var done: set<int> := {};
    ghost var rank: seq<nat> := seq(n, _ => 0);
    ghost var count: nat := 1;
    while s != []
      invariant st.Valid() && st.visitedToken == token
      invariant Exploring(g.adjList, source, sink, 1, token, st.visited, parent, rank, count, seen, done, s)
      invariant seen <= Nodes(n)
      decreases Nodes(n) - seen, |s|
    {
      ExplorePop(g.adjList, source, sink, 1, token, st.visited, parent, rank, count, seen, done, s);
      var u := s[|s| - 1];
      s := s[..|s| - 1];
      parent, s, rank, count, seen := ExpandShuffled(g, source, sink, st, u, parent, s, token, rank, count, seen, done);
      done := done + {u};
    }
    ExploreEnd(g.adjList, source, sink, 1, token, st.visited, parent, rank, count, seen, done);
    if st.visited[sink] != st.visitedToken {
      return false, path0;
    }
    path := RebuildPath(g.adjList, parent, source, sink, 1, rank, seen);
    found := true;
  }

  /** The body of dfs_path's loop for the popped node u: build the indices
      0 .. |adj(u)|-1, shuffle them, and discover in that order the
      unvisited targets of u's edges with remaining capacity, stopping
      early once the sink is discovered. */
  method ExpandShuffled(g: Graph, source: int, sink: int, st: VisitState, u: int, parent: seq<Hop>, s: seq<int>,
                        ghost token: nat, ghost rank: seq<nat>, ghost count: nat,
                        ghost seen: set<int>, ghost done: set<int>)
    returns (parent': seq<Hop>, s': seq<int>, ghost rank': seq<nat>, ghost count': nat, ghost seen': set<int>)
    requires g.Valid() && st.Valid() && st.visitedToken == token && IsNode(g.adjList, u)
    requires ExploringAt(g.adjList, source, sink, 1, token, st.visited, parent, rank, count, seen, done, s, u, {})
    modifies st
    ensures st.Valid() && st.visitedToken == token
    ensures Exploring(g.adjList, source, sink, 1, token, st.visited, parent', rank', count', seen', done + {u}, s')
    ensures seen <= seen' <= Nodes(|g.adjList|) && (seen' == seen ==> s' == s)
  {
    ghost var adj := g.adjList;
    var neighbors := g.GetNeighbors(u);
    var indices: seq<int> := [];
    var k := 0;
    while k < |neighbors|
      invariant 0 <= k <= |neighbors| && |indices| == k
      invariant forall j | 0 <= j < k :: indices[j] == j
    {
      indices := indices + [k];
      k := k + 1;
    }
    var shuffled := Shuffle(indices);
    forall m | 0 <= m < |shuffled| ensures 0 <= shuffled[m] < |neighbors| {
      assert shuffled[m] in multiset(indices);
    }
    parent', s', rank', count', seen' := parent, s, rank, count, seen;
    ghost var processed: set<int> := {};
    var m := 0;
    while m < |shuffled|
      invariant 0 <= m <= |shuffled|
      invariant st.Valid() && st.visitedToken == token
      invariant ExploringAt(adj, source, sink, 1, token, st.visited, parent', rank', count', seen', done, s', u, processed)
      invariant forall j | 0 <= j < m :: shuffled[j] in processed
      invariant seen <= seen' && (seen' == seen ==> s' == s)
    {
      var i := shuffled[m];
      var e := neighbors[i];
      if st.visited[e.to] != st.visitedToken && Remaining(e) > 0 {
        ExploreDiscover(adj, source, sink, 1, token, st.visited, parent', rank', count', seen', done, s', u, processed, i);
        st.Mark(e.to);
        parent' := parent'[e.to := (u, i)];
        rank' := rank'[e.to := count'];
        count' := count' + 1;
        s' := s' + [e.to];
        seen' := seen' + {e.to};
        processed := processed + {i};
        if e.to == sink {
          break;
        }
      } else {
        ExplorePass(adj, source, sink, 1, token, st.visited, parent', rank', count', seen', done, s', u, processed, i);
        processed := processed + {i};
      }
      m := m + 1;
    }
    if sink !in seen' {
      forall j | 0 <= j < |neighbors| ensures j in processed {
        assert indices[j] in multiset(shuffled);
      }
    }
    ExploreDone(g.adjList, source, sink, 1, token, st.visited, parent', rank', count', seen', done, s', u, processed);
  }
}
