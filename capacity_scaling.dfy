// Capacity scaling: look for a path whose every edge has remaining
// capacity at least delta, starting from the largest power of two not above
// the largest remaining capacity and halving delta after each failure.

module CapacityScaling {
  import opened Residual
  import opened Paths
  import opened Graphs
  import opened ScalingState
  import opened Search

  /** 1, 2, 4, 8, ... */
  predicate IsPow2(d: int)
    decreases d
  {
    d == 1 || (d > 1 && d % 2 == 0 && IsPow2(d / 2))
  }

  /** The first loop of capacity_scaling_path: the largest remaining
      capacity over all entries, or 0 when none is positive. */
  method MaxResidual(g: Graph) returns (maxCap: int)
    requires g.Valid()
    ensures maxCap >= 0
    ensures forall u, i | IsEdge(g.adjList, u, i) :: Remaining(g.adjList[u][i]) <= maxCap
    ensures maxCap == 0 || exists u, i | IsEdge(g.adjList, u, i) :: Remaining(g.adjList[u][i]) == maxCap
  {
    maxCap := 0;
    ghost var wu, wi := -1, -1;
    var u := 0;
    while u < g.Size()
      invariant 0 <= u <= |g.adjList|
      invariant maxCap >= 0
      invariant forall v, i | 0 <= v < u && 0 <= i < |g.adjList[v]| :: Remaining(g.adjList[v][i]) <= maxCap
      invariant maxCap == 0 || (IsEdge(g.adjList, wu, wi) && Remaining(g.adjList[wu][wi]) == maxCap)
    {
      var neighbors := g.GetNeighbors(u);
      var j := 0;
      while j < |neighbors|
        invariant 0 <= j <= |neighbors|
        invariant maxCap >= 0
        invariant forall v, i | 0 <= v < u && 0 <= i < |g.adjList[v]| :: Remaining(g.adjList[v][i]) <= maxCap
        invariant forall i | 0 <= i < j :: Remaining(neighbors[i]) <= maxCap
        invariant maxCap == 0 || (IsEdge(g.adjList, wu, wi) && Remaining(g.adjList[wu][wi]) == maxCap)
      {
        var r := Remaining(neighbors[j]);
        if r > maxCap {
          maxCap, wu, wi := r, u, j;
        }
        j := j + 1;
      }
      u := u + 1;
    }
  }

  /** The second loop: double delta from 1 while it is at most maxCap, then
      halve it once. The result is 0 when maxCap is not positive, and
      otherwise the power of two with delta <= maxCap < 2 * delta. */
  method InitialDelta(maxCap: int) returns (delta: int)
    ensures maxCap <= 0 ==> delta == 0
    ensures maxCap > 0 ==> IsPow2(delta) && delta <= maxCap < 2 * delta
  {
    delta := 1;
    while delta <= maxCap
      invariant IsPow2(delta)
      invariant delta > 1 ==> delta / 2 <= maxCap
      decreases maxCap - delta
    {
      delta := delta * 2;
    }
    delta := delta / 2;
  }

  /** dfs_with_delta(graph, s, t, path, delta): a depth-first search over
      edges with remaining capacity >= delta, on a visited buffer the caller
      has just reset. On success `path` is a simple path from s to t over
      such edges; it succeeds exactly when t is reachable over them, and
      otherwise leaves `path` as it was. */
  method DfsWithDelta(g: Graph, s: int, t: int, st: VisitState, path0: Path, delta: int)
    returns (found: bool, path: Path)
    requires g.Valid() && st.Cleared(|g.adjList|)
    requires IsNode(g.adjList, s) && IsNode(g.adjList, t) && s != t
    modifies st
    ensures st.Valid() && st.visitedToken == old(st.visitedToken)
    ensures found <==> Reachable(g.adjList, s, t, delta)
    ensures found ==> IsPath(g.adjList, s, t, path, delta)
    ensures !found ==> path == path0
  {
    var n := g.Size();
    ghost var token := st.visitedToken;
    var parent: seq<Hop> := seq(n, _ => (-1, -1));
    var stack: seq<int> := [s];
    ExploreStart(g.adjList, s, t, delta, token, st.visited);
    st.Mark(s);
    ghost var seen: set<int> := {s};
    ghost var done: set<int> := {};
    ghost var rank: seq<nat> := seq(n, _ => 0);
    ghost var count: nat := 1;
    while stack != []
      invariant st.Valid() && st.visitedToken == token
      invariant Exploring(g.adjList, s, t, delta, token, st.visited, parent, rank, count, seen, done, stack)
      invariant seen <= Nodes(n)
      decreases Nodes(n) - seen, |stack|
    {
      ExplorePop(g.adjList, s, t, delta, token, st.visited, parent, rank, count, seen, done, stack);
      var u := stack[|stack| - 1];
      stack := stack[..|stack| - 1];
      parent, stack, rank, count, seen := ExpandAbove(g, s, t, st, delta, u, parent, stack, token, rank, count, seen, done);
      done := done + {u};
    }
    ExploreEnd(g.adjList, s, t, delta, token, st.visited, parent, rank, count, seen, done);
    if st.visited[t] != st.visitedToken {
      return false, path0;
    }
    path := RebuildPath(g.adjList, parent, s, t, delta, rank, seen);
    found := true;
  }

  /** The inner loop of dfs_with_delta for the popped node u: look at u's
      entries in order, discover the unvisited targets of those with
      remaining capacity >= delta, and stop early once t is discovered. */
  method ExpandAbove(g: Graph, s: int, t: int, st: VisitState, delta: int, u: int, parent: seq<Hop>, stack: seq<int>,
                     ghost token: nat, ghost rank: seq<nat>, ghost count: nat,
                     ghost seen: set<int>, ghost done: set<int>)
    returns (parent': seq<Hop>, stack': seq<int>, ghost rank': seq<nat>, ghost count': nat, ghost seen': set<int>)
    requires g.Valid() && st.Valid() && st.visitedToken == token && IsNode(g.adjList, u)
    requires ExploringAt(g.adjList, s, t, delta, token, st.visited, parent, rank, count, seen, done, stack, u, {})
    modifies st
    ensures st.Valid() && st.visitedToken == token
    ensures Exploring(g.adjList, s, t, delta, token, st.visited, parent', rank', count', seen', done + {u}, stack')
    ensures seen <= seen' <= Nodes(|g.adjList|) && (seen' == seen ==> stack' == stack)
  {
    ghost var adj := g.adjList;
    parent', stack', rank', count', seen' := parent, stack, rank, count, seen;
    ghost var processed: set<int> := {};
    var neighbors := g.GetNeighbors(u);
    var i := 0;
    while i < |neighbors|
      invariant 0 <= i <= |neighbors|
      invariant st.Valid() && st.visitedToken == token
      invariant ExploringAt(adj, s, t, delta, token, st.visited, parent', rank', count', seen', done, stack', u, processed)
      invariant processed == Nodes(i)
      invariant seen <= seen' && (seen' == seen ==> stack' == stack)
    {
      NodesNext(i);
      var e := neighbors[i];
      var residual := Remaining(e);
      if residual >= delta && st.visited[e.to] != st.visitedToken {
        ExploreDiscover(adj, s, t, delta, token, st.visited, parent', rank', count', seen', done, stack', u, processed, i);
        st.Mark(e.to);
        parent' := parent'[e.to := (u, i)];
        rank' := rank'[e.to := count'];
        count' := count' + 1;
        stack' := stack' + [e.to];
        seen' := seen' + {e.to};
        processed := processed + {i};
        if e.to == t {
          break;
        }
      } else {
        ExplorePass(adj, s, t, delta, token, st.visited, parent', rank', count', seen', done, stack', u, processed, i);
        processed := processed + {i};
      }
      i := i + 1;
    }
    ExploreDone(g.adjList, s, t, delta, token, st.visited, parent', rank', count', seen', done, stack', u, processed);
  }

  /** Before the first round every walk from s to t is narrower than
      2 * delta: its first edge has remaining capacity at most maxCap. */
  lemma FirstRoundBound(adj: Adjacency, s: int, t: int, maxCap: int, delta: int)
    requires s != t
    requires forall u, i | IsEdge(adj, u, i) :: Remaining(adj[u][i]) <= maxCap
    requires maxCap <= 0 ==> delta == 0
    requires maxCap > 0 ==> maxCap < 2 * delta
    ensures forall p | IsWalk(adj, s, t, p, 1) :: Bottleneck(adj, p) < 2 * delta
  {
    forall p | IsWalk(adj, s, t, p, 1) ensures Bottleneck(adj, p) < 2 * delta {
      BottleneckIsMinimum(adj, p);
      assert Usable(adj, p[0], 1);
    }
  }

  /** capacity_scaling_path(graph, s, t, path): succeeds exactly when t is
      reachable over edges with remaining capacity; the path it returns is
      simple and at least half as wide as any walk from s to t, since a
      failed round at 2 * delta leaves only walks narrower than that.
      `maxCap` is the largest remaining capacity and `rounds` the number of
      rounds (one reset of the visited buffer each): at most
      floor(log2 maxCap) + 1, and none when no edge has remaining capacity. */
  method CapacityScalingPath(g: Graph, s: int, t: int, st: VisitState, path0: Path)
    returns (found: bool, path: Path, ghost maxCap: int, ghost rounds: nat)
    requires g.Valid() && st.Valid()
    requires IsNode(g.adjList, s) && IsNode(g.adjList, t) && s != t
    modifies st
    ensures st.Valid()
    ensures found <==> Reachable(g.adjList, s, t, 1)
    ensures found ==> IsPath(g.adjList, s, t, path, 1)
    ensures found ==> forall p | IsWalk(g.adjList, s, t, p, 1) :: Bottleneck(g.adjList, p) < 2 * Bottleneck(g.adjList, path)
    ensures !found ==> path == path0
    ensures maxCap >= 0 && forall u, i | IsEdge(g.adjList, u, i) :: Remaining(g.adjList[u][i]) <= maxCap
    ensures maxCap == 0 || exists u, i | IsEdge(g.adjList, u, i) :: Remaining(g.adjList[u][i]) == maxCap
    ensures maxCap == 0 ==> rounds == 0
    ensures maxCap > 0 ==> 1 <= rounds <= Log2(maxCap) + 1
    ensures st.visitedToken == old(st.visitedToken) + rounds
  {
    var cap := MaxResidual(g);
    maxCap := cap;
    var delta := InitialDelta(cap);
    FirstRoundBound(g.adjList, s, t, cap, delta);
    if cap > 0 {
      RoundsBound(cap, delta);
    }
    ghost var delta0 := delta;
    rounds := 0;
    path := path0;
    while delta > 0
      invariant st.Valid()
      invariant delta == 0 || IsPow2(delta)
      invariant forall p | IsWalk(g.adjList, s, t, p, 1) :: Bottleneck(g.adjList, p) < 2 * delta
      invariant path == path0
      invariant rounds + Rounds(delta) == Rounds(delta0)
      invariant delta < delta0 ==> rounds >= 1
      invariant st.visitedToken == old(st.visitedToken) + rounds
      decreases delta
    {
      rounds := rounds + 1;
      st.Reset(g.Size());
      found, path := DfsWithDelta(g, s, t, st, path, delta);
      if found {
        PathWeakens(g.adjList, s, t, path, delta, 1);
        BottleneckOfWalk(g.adjList, s, t, path, delta);
        forall p | IsWalk(g.adjList, s, t, p, 1)
          ensures Bottleneck(g.adjList, p) < 2 * Bottleneck(g.adjList, path)
        {
          BottleneckIsMinimum(g.adjList, p);
        }
        return;
      }
      NarrowWalks(g.adjList, s, t, delta);
      delta := delta / 2;
    }
    forall p | IsWalk(g.adjList, s, t, p, 1) ensures false {
      BottleneckOfWalk(g.adjList, s, t, p, 1);
    }
    found := false;
  }

  /** The number of passes of `while (delta > 0) delta >>= 1` from d. */
  function Rounds(d: int): nat
    decreases d
  {
    if d <= 0 then 0 else 1 + Rounds(d / 2)
  }

  /** floor(log2 x) for x >= 1. */
  function Log2(x: int): nat
    decreases x
  {
    if x <= 1 then 0 else 1 + Log2(x / 2)
  }

  /** Starting from the initial delta, halving reaches 0 after exactly
      floor(log2 max_cap) + 1 rounds. */
  lemma {:induction false} RoundsBound(maxCap: int, delta: int)
    requires IsPow2(delta) && delta <= maxCap < 2 * delta
    ensures Rounds(delta) == Log2(maxCap) + 1
    decreases delta
  {
    if delta > 1 {
      RoundsBound(maxCap / 2, delta / 2);
    }
  }

  /** `x << 1` on a 32-bit signed int, wrapping around as the hardware does. */
  function Shl32(x: int): (r: int)
    requires -0x8000_0000 <= x < 0x8000_0000
    ensures -0x8000_0000 <= r < 0x8000_0000
  {
    var y := (2 * x) % 0x1_0000_0000;
    if y >= 0x8000_0000 then y - 0x1_0000_0000 else y
  }

  /** The value of delta after k passes of the doubling loop as written,
      with 32-bit wrap-around. */
  function DeltaAfter32(k: nat): (r: int)
    ensures -0x8000_0000 <= r < 0x8000_0000
  {
    if k == 0 then 1 else Shl32(DeltaAfter32(k - 1))
  }

  /** The values the doubling loop can reach: powers of two up to 2^30, then
      INT_MIN, then 0 for ever. */
  ghost predicate Trapped(x: int)
  {
    x == 0 || x == -0x8000_0000 || (0 < x <= 0x4000_0000 && IsPow2(x))
  }

  /** Below a larger power of two, a power of two is at most half of it. */
  lemma {:induction false} Pow2Gap(x: int, y: int)
    requires IsPow2(x) && IsPow2(y) && x < y
    ensures 2 * x <= y
    decreases x
  {
    if x > 1 {
      Pow2Gap(x / 2, y / 2);
    }
  }

  /** Doubling a power of two gives a power of two. */
  lemma Pow2Double(x: int)
    requires IsPow2(x)
    ensures IsPow2(2 * x)
  {
    assert (2 * x) / 2 == x;
  }

  /** 2^30 is a power of two: thirty doublings of 1. */
  lemma Pow2Of30()
    ensures IsPow2(0x4000_0000)
  {
    Pow2Double(1); Pow2Double(2); Pow2Double(4); Pow2Double(8); Pow2Double(0x10);
    Pow2Double(0x20); Pow2Double(0x40); Pow2Double(0x80); Pow2Double(0x100); Pow2Double(0x200);
    Pow2Double(0x400); Pow2Double(0x800); Pow2Double(0x1000); Pow2Double(0x2000); Pow2Double(0x4000);
    Pow2Double(0x8000); Pow2Double(0x1_0000); Pow2Double(0x2_0000); Pow2Double(0x4_0000); Pow2Double(0x8_0000);
    Pow2Double(0x10_0000); Pow2Double(0x20_0000); Pow2Double(0x40_0000); Pow2Double(0x80_0000);
    Pow2Double(0x100_0000); Pow2Double(0x200_0000); Pow2Double(0x400_0000); Pow2Double(0x800_0000);
    Pow2Double(0x1000_0000); Pow2Double(0x2000_0000);
  }

  /** A power of two below 2^30 is at most 2^29. */
  lemma Pow2Below30(x: int)
    requires IsPow2(x) && x < 0x4000_0000
    ensures 2 * x <= 0x4000_0000
  {
    Pow2Of30();
    Pow2Gap(x, 0x4000_0000);
  }

  /** Below 2^30 the shift does not wrap. */
  lemma ShiftSmall(x: int)
    requires 0 <= x < 0x4000_0000
    ensures Shl32(x) == 2 * x
  {
    assert 0 <= 2 * x < 0x8000_0000;
    assert (2 * x) % 0x1_0000_0000 == 2 * x;
  }

  /** One doubling keeps delta among the trapped values. */
  lemma ShiftTrapped(x: int)
    requires -0x8000_0000 <= x < 0x8000_0000 && Trapped(x)
    ensures Trapped(Shl32(x))
  {
    if x == 0 {
      assert Shl32(x) == 0;
    } else if x == -0x8000_0000 {
      assert Shl32(x) == 0;
    } else if x == 0x4000_0000 {
      assert Shl32(x) == -0x8000_0000;
    } else {
      Pow2Below30(x);
      ShiftSmall(x);
      Pow2Double(x);
    }
  }

  /** Every delta the doubling loop reaches is a power of two up to 2^30,
      INT_MIN or 0. */
  lemma {:induction false} DoublingTrapped(k: nat)
    ensures Trapped(DeltaAfter32(k))
  {
    if k > 0 {
      DoublingTrapped(k - 1);
      ShiftTrapped(DeltaAfter32(k - 1));
    }
  }

  /** As written, with max_cap >= 2^30 the guard `delta <= max_cap` holds
      after every number of doublings: delta overflows to INT_MIN and then to
      0, and the loop never ends. */
  lemma AsWrittenNeverExits(maxCap: int, k: nat)
    requires 0x4000_0000 <= maxCap <= IntMax
    ensures DeltaAfter32(k) <= maxCap
  {
    DoublingTrapped(k);
  }
}
