// The fattest (widest) augmenting path: a Dijkstra-like search on a
// max-priority queue of (bottleneck so far, node) entries. A node is
// settled when it is first popped; the entries of its edges with positive
// remaining capacity raise their target's best bottleneck.

module Fattest {
  import opened Residual
  import opened Paths
  import opened Graphs
  import opened ScalingState
  import opened Search

  /** An entry of the priority queue: a node and a bottleneck by which it
      can be reached. Entries are ordered by cap only. */
  datatype State = State(cap: int, node: int)

  /** pq.top(): the position of an entry with the largest cap. Among equal
      caps the heap may return any; this picks the first. */
  function TopIndex(pq: seq<State>): (k: int)
    requires pq != []
    ensures 0 <= k < |pq|
    ensures forall j | 0 <= j < |pq| :: pq[j].cap <= pq[k].cap
    decreases |pq|
  {
    if |pq| == 1 then 0
    else
      var k := TopIndex(pq[..|pq| - 1]);
      if pq[|pq| - 1].cap > pq[k].cap then |pq| - 1 else k
  }

  /** pq.pop() after pq.top() returned entry k: the other entries remain,
      with their multiplicities. */
  function Without(pq: seq<State>, k: int): (r: seq<State>)
    requires 0 <= k < |pq|
    ensures multiset(r) + multiset{pq[k]} == multiset(pq)
    ensures forall x | x in r :: x in pq
    ensures forall x | x in pq && x != pq[k] :: x in r
  {
    assert pq == pq[..k] + [pq[k]] + pq[k + 1..];
    var r := pq[..k] + pq[k + 1..];
    assert forall x | x in r :: x in multiset(r);
    assert forall x | x in pq :: x in multiset(pq);
    r
  }

  /** Entry i of f has been looked at from f's settled bottleneck: when it
      has remaining capacity, its target's best bottleneck is at least the
      smaller of f's and that capacity. */
  ghost predicate RelaxedEdge(adj: Adjacency, maxCap: seq<int>, f: int, i: int)
    requires IsEdge(adj, f, i) && |maxCap| == |adj|
  {
    var w := adj[f][i].to;
    Remaining(adj[f][i]) > 0 ==> 0 <= w < |adj| && maxCap[w] >= Min(maxCap[f], Remaining(adj[f][i]))
  }

  /** parent[v] is the hop that last raised maxCap[v]: it leaves a settled
      node at least as wide, carries at least maxCap[v], and, once v is
      settled too, its source was settled earlier. */
  ghost predicate Link(adj: Adjacency, maxCap: seq<int>, parent: seq<Hop>, rank: seq<nat>, F: set<int>, v: int)
    requires 0 <= v < |adj| && |maxCap| == |adj| && |parent| == |adj| && |rank| == |adj|
  {
    var h := parent[v];
    && Usable(adj, h, maxCap[v]) && h.0 in F && HopTo(adj, h) == v
    && maxCap[h.0] >= maxCap[v]
    && (v in F ==> rank[h.0] < rank[v])
  }

  /** Each queue entry names a node and underestimates its best bottleneck. */
  ghost predicate Entries(adj: Adjacency, maxCap: seq<int>, pq: seq<State>)
    requires |maxCap| == |adj|
  {
    forall e | e in pq :: 0 <= e.node < |adj| && 1 <= e.cap <= maxCap[e.node]
  }

  /** Each unsettled node with a positive best bottleneck has it queued. */
  ghost predicate Queued(adj: Adjacency, maxCap: seq<int>, F: set<int>, pq: seq<State>)
    requires |maxCap| == |adj|
  {
    forall v | 0 <= v < |adj| && v !in F && maxCap[v] > 0 :: State(maxCap[v], v) in pq
  }

  /** No queue entry is wider than a settled node. */
  ghost predicate Dominated(maxCap: seq<int>, F: set<int>, pq: seq<State>)
  {
    forall f, e | f in F && 0 <= f < |maxCap| && e in pq :: e.cap <= maxCap[f]
  }

  /** Every entry of a settled node is relaxed, except those of u from
      index i on. */
  ghost predicate RelaxedUpTo(adj: Adjacency, maxCap: seq<int>, F: set<int>, u: int, i: int)
    requires |maxCap| == |adj|
  {
    forall f, j | f in F && IsEdge(adj, f, j) && (f == u ==> j < i) :: RelaxedEdge(adj, maxCap, f, j)
  }

  /** Every node other than s with a positive best bottleneck has its link. */
  ghost predicate Linked(adj: Adjacency, s: int, maxCap: seq<int>, parent: seq<Hop>, rank: seq<nat>, F: set<int>)
    requires |maxCap| == |adj| && |parent| == |adj| && |rank| == |adj|
  {
    forall v | 0 <= v < |adj| && v != s && maxCap[v] > 0 :: Link(adj, maxCap, parent, rank, F, v)
  }

  /** The state of fattest_path: F is the set of settled (visited) nodes
      and rank the order they were settled in; every edge of a settled node
      has been relaxed, except those of u from index i on while u is being
      expanded (u = -1 between expansions), and u is the narrowest settled
      node. */
  ghost predicate Widening(adj: Adjacency, s: int, token: nat, visited: seq<nat>, maxCap: seq<int>,
                           parent: seq<Hop>, rank: seq<nat>, count: nat, F: set<int>, pq: seq<State>,
                           u: int, i: int)
  {
    && |maxCap| == |adj| && |parent| == |adj| && |rank| == |adj|
    && StampsMark(visited, token, |adj|, F)
    && IsNode(adj, s) && maxCap[s] == IntMax
    && (forall v | 0 <= v < |adj| :: 0 <= maxCap[v] <= IntMax)
    && Entries(adj, maxCap, pq)
    && Queued(adj, maxCap, F, pq)
    && Dominated(maxCap, F, pq)
    && RelaxedUpTo(adj, maxCap, F, u, i)
    && Linked(adj, s, maxCap, parent, rank, F)
    && (forall f | f in F :: rank[f] < count)
    && (u in F ==> forall f | f in F :: maxCap[u] <= maxCap[f])
  }

  lemma WideStart(adj: Adjacency, s: int, token: nat, visited: seq<nat>)
    requires IsNode(adj, s) && |adj| <= |visited| && forall v | 0 <= v < |visited| :: visited[v] < token
    ensures Widening(adj, s, token, visited, seq(|adj|, _ => 0)[s := IntMax], seq(|adj|, _ => (-1, -1)),
                     seq(|adj|, _ => 0), 0, {}, [State(IntMax, s)], -1, 0)
  {
  }

  /** Settling u: the settled nodes keep their links, and u's own link
      leaves a node settled before it. */
  lemma LinkedSettle(adj: Adjacency, s: int, maxCap: seq<int>, parent: seq<Hop>, rank: seq<nat>,
                     F: set<int>, count: nat, u: int)
    requires |maxCap| == |adj| && |parent| == |adj| && |rank| == |adj| && 0 <= u < |adj|
    requires Linked(adj, s, maxCap, parent, rank, F) && u !in F
    requires forall f | f in F :: 0 <= f < |rank| && rank[f] < count
    ensures Linked(adj, s, maxCap, parent, rank[u := count], F + {u})
  {
    forall v | 0 <= v < |adj| && v != s && maxCap[v] > 0 ensures Link(adj, maxCap, parent, rank[u := count], F + {u}, v) {
      assert Link(adj, maxCap, parent, rank, F, v);
    }
  }

  /** Popping an entry of a node already settled changes nothing else. */
  lemma PopStale(adj: Adjacency, s: int, token: nat, visited: seq<nat>, maxCap: seq<int>,
                 parent: seq<Hop>, rank: seq<nat>, count: nat, F: set<int>, pq: seq<State>, k: int)
    requires Widening(adj, s, token, visited, maxCap, parent, rank, count, F, pq, -1, 0)
    requires 0 <= k < |pq| && pq[k].node in F
    ensures Widening(adj, s, token, visited, maxCap, parent, rank, count, F, Without(pq, k), -1, 0)
  {
    var rest := Without(pq, k);
    assert Queued(adj, maxCap, F, rest);
  }

  /** Popping the widest entry of an unsettled node u settles u: its best
      bottleneck is that entry's cap, and no settled node is narrower. */
  lemma PopFresh(adj: Adjacency, s: int, token: nat, visited: seq<nat>, maxCap: seq<int>,
                 parent: seq<Hop>, rank: seq<nat>, count: nat, F: set<int>, pq: seq<State>, k: int)
    requires Widening(adj, s, token, visited, maxCap, parent, rank, count, F, pq, -1, 0)
    requires 0 <= k < |pq| && pq[k].node !in F
    requires forall j | 0 <= j < |pq| :: pq[j].cap <= pq[k].cap
    ensures var u := pq[k].node;
      && IsNode(adj, u) && u < |visited|
      && Widening(adj, s, token, visited[u := token], maxCap, parent, rank[u := count], count + 1,
                  F + {u}, Without(pq, k), u, 0)
  {
    var u := pq[k].node;
    var rest := Without(pq, k);
    assert pq[k] in pq;
    assert State(maxCap[u], u) in pq;
    assert maxCap[u] == pq[k].cap;
    assert Queued(adj, maxCap, F + {u}, rest);
    assert Dominated(maxCap, F + {u}, rest);
    assert StampsMark(visited[u := token], token, |adj|, F + {u});
    LinkedSettle(adj, s, maxCap, parent, rank, F, count, u);
  }

  /** Skipping entry i of u: no remaining capacity, or no improvement. */
  lemma RelaxSkip(adj: Adjacency, s: int, token: nat, visited: seq<nat>, maxCap: seq<int>,
                  parent: seq<Hop>, rank: seq<nat>, count: nat, F: set<int>, pq: seq<State>, u: int, i: int)
    requires Widening(adj, s, token, visited, maxCap, parent, rank, count, F, pq, u, i)
    requires u in F && 0 <= i < |adj[u]| && 0 <= adj[u][i].to < |adj|
    requires Remaining(adj[u][i]) <= 0 || Min(maxCap[u], Remaining(adj[u][i])) <= maxCap[adj[u][i].to]
    ensures Widening(adj, s, token, visited, maxCap, parent, rank, count, F, pq, u, i + 1)
  {
    assert RelaxedUpTo(adj, maxCap, F, u, i + 1);
  }

  /** Raising an unsettled v to cap through entry i of the settled u keeps
      every link. */
  lemma LinkedRaise(adj: Adjacency, s: int, maxCap: seq<int>, parent: seq<Hop>, rank: seq<nat>,
                    F: set<int>, u: int, i: int, cap: int)
    requires |maxCap| == |adj| && |parent| == |adj| && |rank| == |adj|
    requires Linked(adj, s, maxCap, parent, rank, F)
    requires IsEdge(adj, u, i) && u in F && 0 <= adj[u][i].to < |adj| && adj[u][i].to !in F && adj[u][i].to != s
    requires 1 <= cap <= Remaining(adj[u][i]) && cap <= maxCap[u]
    ensures var v := adj[u][i].to;
      Linked(adj, s, maxCap[v := cap], parent[v := (u, i)], rank, F)
  {
    var v := adj[u][i].to;
    var maxCap' := maxCap[v := cap];
    var parent' := parent[v := (u, i)];
    forall w | 0 <= w < |adj| && w != s && maxCap'[w] > 0 ensures Link(adj, maxCap', parent', rank, F, w) {
      if w != v {
        assert Link(adj, maxCap, parent, rank, F, w);
      }
    }
  }

  /** Raising v's best bottleneck keeps every edge relaxed, and relaxes
      entry i of u. */
  lemma RelaxedRaise(adj: Adjacency, maxCap: seq<int>, F: set<int>, u: int, i: int, cap: int)
    requires |maxCap| == |adj| && RelaxedUpTo(adj, maxCap, F, u, i)
    requires IsEdge(adj, u, i) && 0 <= adj[u][i].to < |adj| && adj[u][i].to !in F
    requires cap >= maxCap[adj[u][i].to] && cap >= Min(maxCap[u], Remaining(adj[u][i]))
    ensures RelaxedUpTo(adj, maxCap[adj[u][i].to := cap], F, u, i + 1)
  {
    var v := adj[u][i].to;
    var maxCap' := maxCap[v := cap];
    forall f, j | f in F && IsEdge(adj, f, j) && (f == u ==> j < i + 1) ensures RelaxedEdge(adj, maxCap', f, j) {
      if f != u || j < i {
        assert RelaxedEdge(adj, maxCap, f, j);
      }
    }
  }

  /** Entry i of u raises its target v to cap = min(maxCap[u], residual):
      v is not settled, since every settled node is at least as wide as u. */
  lemma RelaxRaise(adj: Adjacency, s: int, token: nat, visited: seq<nat>, maxCap: seq<int>,
                   parent: seq<Hop>, rank: seq<nat>, count: nat, F: set<int>, pq: seq<State>, u: int, i: int)
    requires Widening(adj, s, token, visited, maxCap, parent, rank, count, F, pq, u, i)
    requires u in F && 0 <= i < |adj[u]| && 0 <= adj[u][i].to < |adj|
    requires Remaining(adj[u][i]) > 0 && Min(maxCap[u], Remaining(adj[u][i])) > maxCap[adj[u][i].to]
    ensures var v := adj[u][i].to;
      var cap := Min(maxCap[u], Remaining(adj[u][i]));
      Widening(adj, s, token, visited, maxCap[v := cap], parent[v := (u, i)], rank, count, F,
               pq + [State(cap, v)], u, i + 1)
  {
    var v := adj[u][i].to;
    var cap := Min(maxCap[u], Remaining(adj[u][i]));
    var maxCap' := maxCap[v := cap];
    var pq' := pq + [State(cap, v)];
    assert v !in F;
    assert v != s;
    LinkedRaise(adj, s, maxCap, parent, rank, F, u, i, cap);
    RelaxedRaise(adj, maxCap, F, u, i, cap);
    QueueRaise(adj, maxCap, F, pq, v, cap);
  }

  /** Raising the unsettled v to cap, no wider than any settled node, and
      queueing (cap, v) keeps the queue invariants. */
  lemma QueueRaise(adj: Adjacency, maxCap: seq<int>, F: set<int>, pq: seq<State>, v: int, cap: int)
    requires |maxCap| == |adj| && 0 <= v < |adj| && v !in F
    requires Entries(adj, maxCap, pq) && Queued(adj, maxCap, F, pq) && Dominated(maxCap, F, pq)
    requires 1 <= cap && maxCap[v] < cap && forall f | f in F && 0 <= f < |maxCap| :: cap <= maxCap[f]
    ensures var maxCap', pq' := maxCap[v := cap], pq + [State(cap, v)];
      Entries(adj, maxCap', pq') && Queued(adj, maxCap', F, pq') && Dominated(maxCap', F, pq')
  {
    var maxCap', pq' := maxCap[v := cap], pq + [State(cap, v)];
    assert forall x | x in pq' :: x in pq || x == State(cap, v);
    forall f, e | f in F && 0 <= f < |maxCap'| && e in pq' ensures e.cap <= maxCap'[f] {
      assert f != v;
    }
  }

  /** With pq empty every node with a positive best bottleneck is settled. */
  lemma WideEnd(adj: Adjacency, s: int, token: nat, visited: seq<nat>, maxCap: seq<int>,
                parent: seq<Hop>, rank: seq<nat>, count: nat, F: set<int>)
    requires Widening(adj, s, token, visited, maxCap, parent, rank, count, F, [], -1, 0)
    ensures forall v | 0 <= v < |adj| && maxCap[v] > 0 :: v in F
  {
  }

  /** Once all is settled, maxCap[w] is at least the bottleneck of every
      walk from s to w over edges with remaining capacity. */
  lemma {:induction false} WidestBound(adj: Adjacency, s: int, maxCap: seq<int>, F: set<int>, w: int, p: Path)
    requires |maxCap| == |adj| && IsNode(adj, s) && maxCap[s] == IntMax
    requires forall v | 0 <= v < |adj| && maxCap[v] > 0 :: v in F
    requires forall f, j | f in F && IsEdge(adj, f, j) :: RelaxedEdge(adj, maxCap, f, j)
    requires IsWalk(adj, s, w, p, 1)
    ensures 0 <= w < |adj| && maxCap[w] >= Bottleneck(adj, p)
    decreases |p|
  {
    if p != [] {
      var q := p[..|p| - 1];
      var h := p[|p| - 1];
      WalkPrefix(adj, s, w, p, 1, |p| - 1);
      WidestBound(adj, s, maxCap, F, h.0, q);
      BottleneckOfWalk(adj, s, h.0, q, 1);
      assert RelaxedEdge(adj, maxCap, h.0, h.1);
    }
  }

  /** The settled nodes at least as wide as t, with their parent hops,
      form a tree over edges with remaining capacity >= maxCap[t]. */
  lemma WidestTree(adj: Adjacency, s: int, t: int, token: nat, visited: seq<nat>, maxCap: seq<int>,
                   parent: seq<Hop>, rank: seq<nat>, count: nat, F: set<int>, tree: set<int>)
    requires Widening(adj, s, token, visited, maxCap, parent, rank, count, F, [], -1, 0)
    requires IsNode(adj, t) && maxCap[t] > 0
    requires tree == set v | v in F && 0 <= v < |maxCap| && maxCap[v] >= maxCap[t]
    ensures ParentTree(adj, s, maxCap[t], parent, rank, tree) && s in tree && t in tree
  {
    WideEnd(adj, s, token, visited, maxCap, parent, rank, count, F);
    forall v | v in tree && v != s ensures TreeLink(adj, maxCap[t], parent, rank, tree, v) {
      assert Link(adj, maxCap, parent, rank, F, v);
    }
  }

  /** fattest_path(graph, s, t, path): succeeds exactly when t is reachable
      over edges with remaining capacity; the path it returns is simple and
      at least as wide as every walk from s to t. On failure `path` is left
      as it was. */
  method FattestPath(g: Graph, s: int, t: int, st: VisitState, path0: Path) returns (found: bool, path: Path)
    requires g.Valid() && st.Valid()
    requires IsNode(g.adjList, s) && IsNode(g.adjList, t) && s != t
    modifies st
    ensures st.Valid() && st.visitedToken == old(st.visitedToken) + 1
    ensures found <==> Reachable(g.adjList, s, t, 1)
    ensures found ==> IsPath(g.adjList, s, t, path, 1)
    ensures found ==> forall p | IsWalk(g.adjList, s, t, p, 1) :: Bottleneck(g.adjList, p) <= Bottleneck(g.adjList, path)
    ensures !found ==> path == path0
  {
    var n := g.Size();
    st.Reset(n);
    ghost var token := st.visitedToken;
    var maxCap: seq<int> := seq(n, _ => 0);
    var parent: seq<Hop> := seq(n, _ => (-1, -1));
    var pq: seq<State> := [State(IntMax, s)];
    maxCap := maxCap[s := IntMax];
    ghost var F: set<int> := {};
    ghost var rank: seq<nat> := seq(n, _ => 0);
    ghost var count: nat := 0;
    WideStart(g.adjList, s, token, st.visited);
    while pq != []
      invariant st.Valid() && st.visitedToken == token
      invariant Widening(g.adjList, s, token, st.visited, maxCap, parent, rank, count, F, pq, -1, 0)
      decreases Nodes(n) - F, |pq|
    {
      var k := TopIndex(pq);
      var state := pq[k];
      ghost var before := pq;
      pq := Without(pq, k);
      var u := state.node;
      if st.visited[u] == st.visitedToken {
        PopStale(g.adjList, s, token, st.visited, maxCap, parent, rank, count, F, before, k);
        continue;
      }
      PopFresh(g.adjList, s, token, st.visited, maxCap, parent, rank, count, F, before, k);
      st.Mark(u);
      rank := rank[u := count];
      count := count + 1;
      F := F + {u};
      maxCap, parent, pq := Relax(g, s, u, maxCap, parent, pq, token, st.visited, rank, count, F);
    }
    found, path := WidestResult(g.adjList, s, t, maxCap, parent, path0, token, st.visited, rank, count, F);
  }

  /** The end of fattest_path: fail when max_cap[t] is still 0, otherwise
      rebuild the path from the parent table. The result is a widest path. */
  method WidestResult(adj: Adjacency, s: int, t: int, maxCap: seq<int>, parent: seq<Hop>, path0: Path,
                      ghost token: nat, ghost visited: seq<nat>, ghost rank: seq<nat>, ghost count: nat, ghost F: set<int>)
    returns (found: bool, path: Path)
    requires Widening(adj, s, token, visited, maxCap, parent, rank, count, F, [], -1, 0)
    requires IsNode(adj, t) && s != t
    ensures found <==> Reachable(adj, s, t, 1)
    ensures found ==> IsPath(adj, s, t, path, 1)
    ensures found ==> forall p | IsWalk(adj, s, t, p, 1) :: Bottleneck(adj, p) <= Bottleneck(adj, path)
    ensures !found ==> path == path0
  {
    WideEnd(adj, s, token, visited, maxCap, parent, rank, count, F);
    forall p: Path | IsWalk(adj, s, t, p, 1) ensures maxCap[t] >= Bottleneck(adj, p) {
      WidestBound(adj, s, maxCap, F, t, p);
    }
    if maxCap[t] == 0 {
      forall p: Path | IsWalk(adj, s, t, p, 1) ensures false {
        BottleneckOfWalk(adj, s, t, p, 1);
      }
      return false, path0;
    }
    ghost var tree := set v | v in F && 0 <= v < |maxCap| && maxCap[v] >= maxCap[t];
    WidestTree(adj, s, t, token, visited, maxCap, parent, rank, count, F, tree);
    path := RebuildPath(adj, parent, s, t, maxCap[t], rank, tree);
    PathWeakens(adj, s, t, path, maxCap[t], 1);
    BottleneckOfWalk(adj, s, t, path, maxCap[t]);
    found := true;
  }

  /** The inner loop of fattest_path for the node u just settled: every
      entry with positive remaining capacity that widens its target's best
      bottleneck records the hop in parent and queues the target. */
  method Relax(g: Graph, s: int, u: int, maxCap: seq<int>, parent: seq<Hop>, pq: seq<State>,
               ghost token: nat, ghost visited: seq<nat>, ghost rank: seq<nat>, ghost count: nat, ghost F: set<int>)
    returns (maxCap': seq<int>, parent': seq<Hop>, pq': seq<State>)
    requires g.Valid() && IsNode(g.adjList, u) && u in F
    requires Widening(g.adjList, s, token, visited, maxCap, parent, rank, count, F, pq, u, 0)
    ensures Widening(g.adjList, s, token, visited, maxCap', parent', rank, count, F, pq', -1, 0)
    ensures |maxCap'| == |maxCap| && forall v | 0 <= v < |maxCap| :: maxCap[v] <= maxCap'[v]
  {
    ghost var adj := g.adjList;
    maxCap', parent', pq' := maxCap, parent, pq;
    var neighbors := g.GetNeighbors(u);
    var i := 0;
    while i < |neighbors|
      invariant 0 <= i <= |neighbors|
      invariant Widening(adj, s, token, visited, maxCap', parent', rank, count, F, pq', u, i)
      invariant |maxCap'| == |maxCap| && forall v | 0 <= v < |maxCap| :: maxCap[v] <= maxCap'[v]
    {
      assert PairedAt(adj, u, i);
      var e := neighbors[i];
      var residual := Remaining(e);
      if residual <= 0 {
        RelaxSkip(adj, s, token, visited, maxCap', parent', rank, count, F, pq', u, i);
        i := i + 1;
        continue;
      }
      var cap := Min(maxCap'[u], residual);
      if cap > maxCap'[e.to] {
        RelaxRaise(adj, s, token, visited, maxCap', parent', rank, count, F, pq', u, i);
        maxCap' := maxCap'[e.to := cap];
        parent' := parent'[e.to := (u, i)];
        pq' := pq' + [State(cap, e.to)];
      } else {
        RelaxSkip(adj, s, token, visited, maxCap', parent', rank, count, F, pq', u, i);
      }
      i := i + 1;
    }
  }
}
