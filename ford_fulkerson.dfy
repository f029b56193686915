// The augmentation engine: augment pushes the bottleneck of a path along
// it (adding to each path entry's flow and taking the same from its
// partner's), and ford_fulkerson repeats "find a path, augment" with one of
// the four strategies until none is found.

module Augmentation {
  import opened Residual
  import opened Paths
  import opened Graphs
  import opened ScalingState
  import opened Bfs
  import opened RandomDfs
  import opened Fattest
  import opened CapacityScaling

  /** The entry paired with the one h names. */
  function Partner(adj: Adjacency, h: Hop): Hop
    requires IsHop(adj, h)
  {
    (adj[h.0][h.1].to, adj[h.0][h.1].rev)
  }

  /** One iteration of augment's second loop: e.flow += b on the entry h
      names and rev.flow -= b on its partner; nothing else changes. */
  function ApplyHop(adj: Adjacency, h: Hop, b: int): (r: Adjacency)
    requires Paired(adj) && IsHop(adj, h)
    ensures SameShape(adj, r) && Paired(r)
  {
    assert PairedAt(adj, h.0, h.1);
    var e := adj[h.0][h.1];
    var adj1 := adj[h.0 := adj[h.0][h.1 := e.(flow := e.flow + b)]];
    var p := adj1[e.to][e.rev];
    var r := adj1[e.to := adj1[e.to][e.rev := p.(flow := p.flow - b)]];
    SameShapePaired(adj, r);
    r
  }

  /** The entries one hop changes: its own flow rises by b, its partner's
      falls by b, and every other entry stays as it was. */
  lemma HopEntries(adj: Adjacency, h: Hop, b: int)
    requires Paired(adj) && IsHop(adj, h)
    ensures var r := ApplyHop(adj, h, b); var (v, j) := Partner(adj, h);
      && r[h.0][h.1].flow == adj[h.0][h.1].flow + b
      && r[v][j].flow == adj[v][j].flow - b
      && forall u, i | IsEdge(adj, u, i) && (u, i) != h && (u, i) != (v, j) :: r[u][i] == adj[u][i]
  {
    assert PairedAt(adj, h.0, h.1);
  }

  /** The whole second loop of augment: the hops applied in path order. */
  function ApplyPath(adj: Adjacency, p: Path, b: int): (r: Adjacency)
    requires Paired(adj) && forall k | 0 <= k < |p| :: IsHop(adj, p[k])
    ensures SameShape(adj, r) && Paired(r)
    decreases |p|
  {
    if p == [] then adj
    else
      var q := p[..|p| - 1];
      var a := ApplyPath(adj, q, b);
      assert IsHop(adj, p[|p| - 1]);
      ApplyHop(a, p[|p| - 1], b)
  }

  /** No entry is used twice and no entry follows its partner: the entries
      an earlier hop touches are left alone by the later ones. */
  ghost predicate Disjoint(adj: Adjacency, p: Path)
    requires forall k | 0 <= k < |p| :: IsHop(adj, p[k])
  {
    forall j, k | 0 <= j < k < |p| :: p[k] != p[j] && p[k] != Partner(adj, p[j])
  }

  /** Each hop keeps the flow on an entry and its partner opposite. */
  lemma SkewHop(adj: Adjacency, h: Hop, b: int)
    requires Paired(adj) && Skew(adj) && IsHop(adj, h)
    ensures Skew(ApplyHop(adj, h, b))
  {
    var r := ApplyHop(adj, h, b);
    var x := Partner(adj, h);
    assert PairedAt(adj, h.0, h.1);
    HopEntries(adj, h, b);
    forall u, i | IsEdge(r, u, i) ensures r[u][i].flow + r[r[u][i].to][r[u][i].rev].flow == 0 {
      assert PairedAt(adj, u, i);
      var y := Partner(adj, (u, i));
      assert IsEdge(adj, y.0, y.1) && PairedAt(adj, y.0, y.1);
      if (u, i) == h {
      } else if (u, i) == x {
      } else {
        assert y != h && y != x;
      }
    }
  }

  /** augment keeps flow + partner.flow == 0 on every pair. */
  lemma {:induction false} SkewPath(adj: Adjacency, p: Path, b: int)
    requires Paired(adj) && Skew(adj) && forall k | 0 <= k < |p| :: IsHop(adj, p[k])
    ensures Skew(ApplyPath(adj, p, b))
    decreases |p|
  {
    if p != [] {
      var q := p[..|p| - 1];
      SkewPath(adj, q, b);
      SkewHop(ApplyPath(adj, q, b), p[|p| - 1], b);
    }
  }

  /** A hop that carries at most the remaining capacity of its entry, and
      no negative amount, keeps flow <= capacity everywhere. */
  lemma CappedHop(adj: Adjacency, h: Hop, b: int)
    requires Paired(adj) && Capped(adj) && IsHop(adj, h)
    requires 0 <= b <= HopRemaining(adj, h)
    ensures Capped(ApplyHop(adj, h, b))
  {
    var x := Partner(adj, h);
    assert PairedAt(adj, h.0, h.1);
    assert IsEdge(adj, x.0, x.1);
    HopEntries(adj, h, b);
  }

  /** Hops that touch neither an entry nor its partner leave it alone. */
  lemma {:induction false} PathUntouched(adj: Adjacency, p: Path, b: int, x: Hop)
    requires Paired(adj) && forall k | 0 <= k < |p| :: IsHop(adj, p[k])
    requires IsHop(adj, x) && forall k | 0 <= k < |p| :: p[k] != x && Partner(adj, p[k]) != x
    ensures ApplyPath(adj, p, b)[x.0][x.1] == adj[x.0][x.1]
    decreases |p|
  {
    if p != [] {
      var q := p[..|p| - 1];
      PathUntouched(adj, q, b, x);
      var a := ApplyPath(adj, q, b);
      assert Partner(a, p[|p| - 1]) == Partner(adj, p[|p| - 1]);
      HopEntries(a, p[|p| - 1], b);
    }
  }

  /** augment keeps flow <= capacity when the path is disjoint and the
      amount is at most every path entry's remaining capacity. */
  lemma {:induction false} CappedPath(adj: Adjacency, p: Path, b: int)
    requires Paired(adj) && Capped(adj) && forall k | 0 <= k < |p| :: IsHop(adj, p[k])
    requires Disjoint(adj, p) && 0 <= b && forall k | 0 <= k < |p| :: b <= HopRemaining(adj, p[k])
    ensures Capped(ApplyPath(adj, p, b))
    decreases |p|
  {
    if p != [] {
      var q := p[..|p| - 1];
      var h := p[|p| - 1];
      CappedPath(adj, q, b);
      PathUntouched(adj, q, b, h);
      CappedHop(ApplyPath(adj, q, b), h, b);
    }
  }

  /** On a simple path no entry is used twice and none follows its partner. */
  lemma SimpleDisjoint(adj: Adjacency, s: int, t: int, p: Path, lo: int)
    requires Paired(adj) && IsPath(adj, s, t, p, lo)
    ensures Disjoint(adj, p)
  {
    forall j, k | 0 <= j < k < |p| ensures p[k] != p[j] && p[k] != Partner(adj, p[j]) {
      var x := Partner(adj, p[j]);
      assert PairedAt(adj, p[j].0, p[j].1);
      assert x.0 == HopTo(adj, p[j]) == p[j + 1].0;
      assert HopTo(adj, x) == p[j].0;
      if k == j + 1 {
        if k + 1 < |p| {
          assert HopTo(adj, p[k]) == p[k + 1].0;
        } else {
          assert HopTo(adj, p[k]) == t;
        }
      }
    }
  }

  /** One hop raises the net flow of the node it leaves by b and lowers
      that of the node it enters by b. */
  lemma NetFlowHop(adj: Adjacency, h: Hop, b: int, v: int)
    requires Paired(adj) && IsHop(adj, h) && IsNode(adj, v)
    ensures NetFlow(ApplyHop(adj, h, b)[v]) ==
            NetFlow(adj[v]) + (if v == h.0 then b else 0) - (if v == HopTo(adj, h) then b else 0)
  {
    assert PairedAt(adj, h.0, h.1);
    var e := adj[h.0][h.1];
    var adj1 := adj[h.0 := adj[h.0][h.1 := e.(flow := e.flow + b)]];
    NetFlowUpdate(adj[h.0], h.1, e.flow + b);
    var q: Edge := adj1[e.to][e.rev];
    NetFlowUpdate(adj1[e.to], e.rev, q.flow - b);
  }

  /** Augmenting along a walk from u to w raises u's net flow by b, lowers
      w's by b, and leaves every other node's net flow as it was
      (conservation at the inner nodes). */
  lemma {:induction false} NetFlowPath(adj: Adjacency, u: int, w: int, p: Path, lo: int, b: int, v: int)
    requires Paired(adj) && IsWalk(adj, u, w, p, lo) && IsNode(adj, v)
    ensures NetFlow(ApplyPath(adj, p, b)[v]) ==
            NetFlow(adj[v]) + (if v == u then b else 0) - (if v == w then b else 0)
    decreases |p|
  {
    if p != [] {
      var q := p[..|p| - 1];
      var h := p[|p| - 1];
      WalkPrefix(adj, u, w, p, lo, |p| - 1);
      NetFlowPath(adj, u, h.0, q, lo, b, v);
      var a := ApplyPath(adj, q, b);
      assert HopTo(a, h) == HopTo(adj, h);
      NetFlowHop(a, h, b, v);
    }
  }

  /** Augmenting along a simple path by its bottleneck keeps the flow
      invariants. */
  lemma AugmentFeasible(adj: Adjacency, s: int, t: int, p: Path)
    requires Feasible(adj) && IsPath(adj, s, t, p, 1)
    ensures Feasible(ApplyPath(adj, p, Bottleneck(adj, p)))
    ensures Bottleneck(adj, p) >= 1
  {
    var b := Bottleneck(adj, p);
    BottleneckIsMinimum(adj, p);
    BottleneckOfWalk(adj, s, t, p, 1);
    SimpleDisjoint(adj, s, t, p, 1);
    SkewPath(adj, p, b);
    CappedPath(adj, p, b);
  }

  /** augment(graph, path): the bottleneck, INT_MAX lowered to each path
      entry's remaining capacity, is added to every path entry's flow and
      taken from its partner's. */
  method Augment(g: Graph, path: Path) returns (bottleneck: int)
    requires g.Valid() && forall k | 0 <= k < |path| :: IsHop(g.adjList, path[k])
    modifies g
    ensures g.Valid() && g.n == old(g.n) && g.source == old(g.source) && g.sink == old(g.sink)
    ensures bottleneck == Bottleneck(old(g.adjList), path)
    ensures g.adjList == ApplyPath(old(g.adjList), path, bottleneck)
  {
    bottleneck := PathBottleneck(g.adjList, path);
    ghost var adj0 := g.adjList;
    var k := 0;
    while k < |path|
      invariant 0 <= k <= |path|
      invariant g.n == old(g.n) && g.source == old(g.source) && g.sink == old(g.sink)
      invariant g.adjList == ApplyPath(adj0, path[..k], bottleneck)
      invariant g.Valid()
    {
      assert path[..k + 1][..k] == path[..k];
      assert IsHop(adj0, path[k]);
      PushHop(g, path[k], bottleneck);
      k := k + 1;
    }
    assert path[..|path|] == path;
  }

  /** The first loop of augment: bottleneck starts at INT_MAX and is
      lowered to capacity - flow of each path entry in turn. */
  method PathBottleneck(adj: Adjacency, path: Path) returns (bottleneck: int)
    requires forall k | 0 <= k < |path| :: IsHop(adj, path[k])
    ensures bottleneck == Bottleneck(adj, path)
  {
    bottleneck := IntMax;
    var k := 0;
    while k < |path|
      invariant 0 <= k <= |path|
      invariant bottleneck == Bottleneck(adj, path[..k])
    {
      var (u, idx) := path[k];
      var e := adj[u][idx];
      assert path[..k + 1][..k] == path[..k];
      bottleneck := Min(bottleneck, e.capacity - e.flow);
      k := k + 1;
    }
    assert path[..|path|] == path;
  }

  /** The body of augment's second loop: e.flow += b, then rev.flow -= b
      on the partner e names. */
  method PushHop(g: Graph, h: Hop, b: int)
    requires g.Valid() && IsHop(g.adjList, h)
    modifies g
    ensures g.Valid() && g.n == old(g.n) && g.source == old(g.source) && g.sink == old(g.sink)
    ensures g.adjList == ApplyHop(old(g.adjList), h, b)
  {
    var (u, idx) := h;
    assert PairedAt(g.adjList, u, idx);
    var e := g.adjList[u][idx];
    g.adjList := g.adjList[u := g.adjList[u][idx := e.(flow := e.flow + b)]];
    var rev := g.adjList[e.to][e.rev];
    g.adjList := g.adjList[e.to := g.adjList[e.to][e.rev := rev.(flow := rev.flow - b)]];
    assert g.adjList == ApplyHop(old(g.adjList), h, b);
  }

  /** The strategy ford_fulkerson is given. */
  datatype Strategy = BfsStrategy | RandomDfsStrategy | FattestStrategy | CapacityScalingStrategy

  /** Calling the strategy: all four meet the same contract. */
  method FindPath(strategy: Strategy, g: Graph, s: int, t: int, st: VisitState, path0: Path)
    returns (found: bool, path: Path)
    requires g.Valid() && st.Valid()
    requires IsNode(g.adjList, s) && IsNode(g.adjList, t) && s != t
    modifies st
    ensures st.Valid() && st.visitedToken >= old(st.visitedToken)
    ensures found <==> Reachable(g.adjList, s, t, 1)
    ensures found ==> IsPath(g.adjList, s, t, path, 1)
    ensures !found ==> path == path0
  {
    match strategy {
      case BfsStrategy => found, path := BfsPath(g, s, t, st, path0);
      case RandomDfsStrategy => found, path := DfsPath(g, s, t, st, path0);
      case FattestStrategy => found, path := FattestPath(g, s, t, st, path0);
      case CapacityScalingStrategy =>
        ghost var maxCap, rounds;
        found, path, maxCap, rounds := CapacityScalingPath(g, s, t, st, path0);
    }
  }

  /** ford_fulkerson(graph, s, t, find_path): augment until the strategy
      finds no path. The flow invariants hold throughout and only flows
      change; at the end t is unreachable over edges with remaining
      capacity, the result is the net flow gained out of s, t lost as much,
      and every other node's net flow is what it was. */
  method FordFulkerson(g: Graph, s: int, t: int, strategy: Strategy, st: VisitState) returns (maxFlow: int)
    requires g.Valid() && Feasible(g.adjList) && st.Valid()
    requires IsNode(g.adjList, s) && IsNode(g.adjList, t) && s != t
    modifies g, st
    ensures g.Valid() && Feasible(g.adjList) && SameShape(old(g.adjList), g.adjList)
    ensures g.n == old(g.n) && g.source == old(g.source) && g.sink == old(g.sink)
    ensures !Reachable(g.adjList, s, t, 1)
    ensures maxFlow >= 0 && maxFlow == NetFlow(g.adjList[s]) - old(NetFlow(g.adjList[s]))
    ensures NetFlow(g.adjList[t]) == old(NetFlow(g.adjList[t])) - maxFlow
    ensures forall v | 0 <= v < |g.adjList| && v != s && v != t :: NetFlow(g.adjList[v]) == old(NetFlow(g.adjList[v]))
  {
    ghost var adj0 := g.adjList;
    maxFlow := 0;
    var path: Path := [];
    var found;
    found, path := FindPath(strategy, g, s, t, st, path);
    while found
      invariant g.Valid() && st.Valid()
      invariant g.n == old(g.n) && g.source == old(g.source) && g.sink == old(g.sink)
      invariant Accounted(adj0, g.adjList, s, t, maxFlow)
      invariant found ==> IsPath(g.adjList, s, t, path, 1)
      invariant !found ==> !Reachable(g.adjList, s, t, 1)
      decreases CapacitySum(g.adjList[s]) - NetFlow(g.adjList[s])
    {
      ghost var before := g.adjList;
      AugmentStep(adj0, before, s, t, path, maxFlow);
      var added := Augment(g, path);
      maxFlow := maxFlow + added;
      found, path := FindPath(strategy, g, s, t, st, path);
    }
  }

  /** What ford_fulkerson's loop keeps about the state adj reached from
      adj0 with flow pushed so far: the flow invariants and the shape hold,
      s has gained flow of net flow, t has lost as much, and every other node
      has its net flow of adj0. */
  ghost predicate Accounted(adj0: Adjacency, adj: Adjacency, s: int, t: int, flow: int)
  {
    && |adj0| == |adj| && 0 <= s < |adj| && 0 <= t < |adj|
    && Feasible(adj) && SameShape(adj0, adj) && flow >= 0
    && NetFlow(adj[s]) == NetFlow(adj0[s]) + flow
    && NetFlow(adj[t]) == NetFlow(adj0[t]) - flow
    && forall v | 0 <= v < |adj| && v != s && v != t :: NetFlow(adj[v]) == NetFlow(adj0[v])
  }

  /** Augmenting along a path from s to t: s gains b of net flow, t loses
      b, and every other node keeps its net flow. */
  lemma AugmentConserves(adj: Adjacency, s: int, t: int, p: Path, lo: int, b: int)
    requires Paired(adj) && IsPath(adj, s, t, p, lo)
    ensures var after := ApplyPath(adj, p, b);
      && NetFlow(after[s]) == NetFlow(adj[s]) + b
      && NetFlow(after[t]) == NetFlow(adj[t]) - b
      && (forall v | 0 <= v < |adj| && v != s && v != t :: NetFlow(after[v]) == NetFlow(adj[v]))
  {
    assert s == p[0].0 && IsNode(adj, s);
    assert IsNode(adj, t) by {
      assert PairedAt(adj, p[|p| - 1].0, p[|p| - 1].1);
    }
    NetFlowPath(adj, s, t, p, lo, b, s);
    NetFlowPath(adj, s, t, p, lo, b, t);
    forall v | 0 <= v < |adj| && v != s && v != t ensures NetFlow(ApplyPath(adj, p, b)[v]) == NetFlow(adj[v]) {
      NetFlowPath(adj, s, t, p, lo, b, v);
    }
  }

  /** One round of ford_fulkerson's loop: with b the bottleneck of the
      simple path found, b >= 1, the state after augmenting is accounted
      with flow + b, and the room left at s shrinks, so the loop ends. */
  lemma AugmentStep(adj0: Adjacency, before: Adjacency, s: int, t: int, p: Path, flow: int)
    requires Accounted(adj0, before, s, t, flow) && IsPath(before, s, t, p, 1)
    ensures var b := Bottleneck(before, p); var after := ApplyPath(before, p, b);
      && b >= 1
      && Accounted(adj0, after, s, t, flow + b)
      && 0 <= CapacitySum(after[s]) - NetFlow(after[s]) < CapacitySum(before[s]) - NetFlow(before[s])
  {
    var b := Bottleneck(before, p);
    var after := ApplyPath(before, p, b);
    AugmentFeasible(before, s, t, p);
    AugmentConserves(before, s, t, p, 1, b);
    ShapeChain(adj0, before, after);
    assert forall v | 0 <= v < |after| && v != s && v != t :: NetFlow(after[v]) == NetFlow(adj0[v]);
    CapacitySumShape(before[s], after[s]);
    NetFlowAtMostCapacity(after[s]);
  }

  /** Having the same shape is transitive. */
  lemma ShapeChain(a: Adjacency, b: Adjacency, c: Adjacency)
    requires SameShape(a, b) && SameShape(b, c)
    ensures SameShape(a, c)
  {
  }
}
