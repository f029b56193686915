// Paths through the residual graph: the contract every path-finding
// strategy meets, reachability, bottlenecks, and the rebuilding of a path
// from a parent table.

module Paths {
  import opened Residual

  /** (node, index of the edge in that node's list) */
  type Hop = (int, int)

  type Path = seq<Hop>

  predicate IsHop(adj: Adjacency, h: Hop)
  {
    IsEdge(adj, h.0, h.1)
  }

  /** The node a hop leads to (-1 for a hop that names no edge). */
  function HopTo(adj: Adjacency, h: Hop): int
  {
    if IsHop(adj, h) then adj[h.0][h.1].to else -1
  }

  /** The remaining capacity of the edge a hop names. */
  function HopRemaining(adj: Adjacency, h: Hop): int
    requires IsHop(adj, h)
  {
    Remaining(adj[h.0][h.1])
  }

  /** A hop whose edge has remaining capacity at least lo. */
  predicate Usable(adj: Adjacency, h: Hop, lo: int)
  {
    IsHop(adj, h) && Remaining(adj[h.0][h.1]) >= lo
  }

  /** p leads from u to v over edges whose remaining capacity is at least
      lo; each hop starts where the previous one ends. */
  ghost predicate IsWalk(adj: Adjacency, u: int, v: int, p: Path, lo: int)
  {
    && (forall k | 0 <= k < |p| :: Usable(adj, p[k], lo))
    && (forall k | 0 <= k < |p| - 1 :: HopTo(adj, p[k]) == p[k + 1].0)
    && (if p == [] then u == v else p[0].0 == u && HopTo(adj, p[|p| - 1]) == v)
  }

  /** The path contract: a walk from s to t on which no node repeats
      (t included). */
  ghost predicate IsPath(adj: Adjacency, s: int, t: int, p: Path, lo: int)
  {
    && p != []
    && IsWalk(adj, s, t, p, lo)
    && (forall i, j | 0 <= i < j < |p| :: p[i].0 != p[j].0)
    && (forall i | 0 <= i < |p| :: p[i].0 != t)
  }

  /** Some walk leads from s to t over edges with remaining capacity >= lo. */
  ghost predicate Reachable(adj: Adjacency, s: int, t: int, lo: int)
  {
    exists p :: IsWalk(adj, s, t, p, lo)
  }

  /** Every walk from s to v has at least d hops. */
  ghost predicate NoShorter(adj: Adjacency, s: int, v: int, d: int, lo: int)
  {
    forall p :: IsWalk(adj, s, v, p, lo) ==> |p| >= d
  }

  /** Every usable edge leaving a node of S ends in S. */
  ghost predicate Closed(adj: Adjacency, lo: int, S: set<int>)
  {
    forall u, i | u in S && IsEdge(adj, u, i) && Remaining(adj[u][i]) >= lo :: adj[u][i].to in S
  }

  /** The bottleneck of a path as augment computes it: INT_MAX lowered to
      each edge's remaining capacity in turn. */
  function Bottleneck(adj: Adjacency, p: Path): (r: int)
    requires forall k | 0 <= k < |p| :: IsHop(adj, p[k])
    ensures r <= IntMax
    decreases |p|
  {
    if p == [] then IntMax
    else
      Min(Bottleneck(adj, p[..|p| - 1]), HopRemaining(adj, p[|p| - 1]))
  }

  /** The bottleneck is the minimum of INT_MAX and the remaining capacities. */
  lemma {:induction false} BottleneckIsMinimum(adj: Adjacency, p: Path)
    requires forall k | 0 <= k < |p| :: IsHop(adj, p[k])
    ensures Bottleneck(adj, p) <= IntMax
    ensures forall k | 0 <= k < |p| :: Bottleneck(adj, p) <= HopRemaining(adj, p[k])
    ensures Bottleneck(adj, p) == IntMax || exists k | 0 <= k < |p| :: Bottleneck(adj, p) == HopRemaining(adj, p[k])
    decreases |p|
  {
    if p != [] {
      var q := p[..|p| - 1];
      BottleneckIsMinimum(adj, q);
      assert forall k | 0 <= k < |q| :: q[k] == p[k];
    }
  }

  /** On a walk over edges with remaining capacity >= lo, the bottleneck is
      at least min(lo, INT_MAX). */
  lemma BottleneckOfWalk(adj: Adjacency, u: int, v: int, p: Path, lo: int)
    requires IsWalk(adj, u, v, p, lo)
    ensures Bottleneck(adj, p) >= (if lo <= IntMax then lo else IntMax)
  {
    BottleneckIsMinimum(adj, p);
  }

  /** A walk that is not one over edges with remaining capacity >= lo uses
      an edge below lo, so its bottleneck is below lo. */
  lemma BottleneckBelow(adj: Adjacency, u: int, v: int, p: Path, lo: int)
    requires IsWalk(adj, u, v, p, 1) && !IsWalk(adj, u, v, p, lo)
    ensures Bottleneck(adj, p) < lo
  {
    var k :| 0 <= k < |p| && !Usable(adj, p[k], lo);
    BottleneckIsMinimum(adj, p);
  }

  /** When t is not reachable over edges with remaining capacity >= lo,
      every walk from s to t has a bottleneck below lo. */
  lemma NarrowWalks(adj: Adjacency, s: int, t: int, lo: int)
    requires !Reachable(adj, s, t, lo)
    ensures forall p | IsWalk(adj, s, t, p, 1) :: Bottleneck(adj, p) < lo
  {
    forall p | IsWalk(adj, s, t, p, 1) ensures Bottleneck(adj, p) < lo {
      BottleneckBelow(adj, s, t, p, lo);
    }
  }

  /** The hops of a walk after its first one form a walk from where that hop ends. */
  lemma WalkTail(adj: Adjacency, u: int, v: int, p: Path, lo: int)
    requires IsWalk(adj, u, v, p, lo) && p != []
    ensures IsWalk(adj, HopTo(adj, p[0]), v, p[1..], lo)
  {
    var q := p[1..];
    assert forall k | 0 <= k < |q| :: q[k] == p[k + 1];
  }

  /** A usable hop followed by a walk from where it ends is a walk. */
  lemma WalkCons(adj: Adjacency, h: Hop, v: int, p: Path, lo: int)
    requires Usable(adj, h, lo) && IsWalk(adj, HopTo(adj, h), v, p, lo)
    ensures IsWalk(adj, h.0, v, [h] + p, lo)
  {
    var q := [h] + p;
    assert forall k | 1 <= k < |q| :: q[k] == p[k - 1];
  }

  /** The first k hops of a walk form a walk to where the k-th hop starts. */
  lemma WalkPrefix(adj: Adjacency, u: int, v: int, p: Path, lo: int, k: int)
    requires IsWalk(adj, u, v, p, lo) && 0 <= k < |p|
    ensures IsWalk(adj, u, p[k].0, p[..k], lo)
  {
  }

  /** A walk ends inside a closed set it starts in. */
  lemma {:induction false} WalkStaysInside(adj: Adjacency, lo: int, S: set<int>, u: int, v: int, p: Path)
    requires Closed(adj, lo, S) && u in S && IsWalk(adj, u, v, p, lo)
    ensures v in S
    decreases |p|
  {
    if p != [] {
      assert Usable(adj, p[0], lo);
      WalkTail(adj, u, v, p, lo);
      WalkStaysInside(adj, lo, S, HopTo(adj, p[0]), v, p[1..]);
    }
  }

  /** No walk leaves a closed set: if s is inside and t outside, t is not
      reachable from s. */
  lemma ClosedBlocks(adj: Adjacency, lo: int, S: set<int>, s: int, t: int)
    requires Closed(adj, lo, S) && s in S && t !in S
    ensures !Reachable(adj, s, t, lo)
  {
    forall p | IsWalk(adj, s, t, p, lo) ensures false {
      WalkStaysInside(adj, lo, S, s, t, p);
    }
  }

  /** A path over edges with remaining capacity >= lo is one for any lower threshold. */
  lemma PathWeakens(adj: Adjacency, s: int, t: int, p: Path, lo: int, lo': int)
    requires IsPath(adj, s, t, p, lo) && lo' <= lo
    ensures IsPath(adj, s, t, p, lo')
  {
  }

  /** The parent table of a search, seen as a tree: every node of `tree`
      other than s was reached from a node of `tree` through the edge its
      parent entry names, that edge has remaining capacity >= lo, and the
      parent ranks lower. */
  ghost predicate ParentTree(adj: Adjacency, s: int, lo: int, parent: seq<Hop>, rank: seq<nat>, tree: set<int>)
  {
    && |parent| == |adj| && |rank| == |adj|
    && (forall v | v in tree :: 0 <= v < |adj|)
    && (forall v {:trigger TreeLink(adj, lo, parent, rank, tree, v)} | v in tree && v != s ::
          TreeLink(adj, lo, parent, rank, tree, v))
  }

  ghost predicate TreeLink(adj: Adjacency, lo: int, parent: seq<Hop>, rank: seq<nat>, tree: set<int>, v: int)
    requires 0 <= v < |parent| == |rank| == |adj|
  {
    var h := parent[v];
    Usable(adj, h, lo) && h.0 in tree && HopTo(adj, h) == v && rank[h.0] < rank[v]
  }

  /** std::reverse */
  function Reversed(p: Path): (r: Path)
    ensures |r| == |p| && forall k | 0 <= k < |p| :: r[k] == p[|p| - 1 - k]
    decreases |p|
  {
    if p == [] then [] else [p[|p| - 1]] + Reversed(p[..|p| - 1])
  }

  /** The part of the path rebuilt so far: a walk from u to t along which
      ranks rise, ending with t's parent entry. */
  ghost predicate Chain(adj: Adjacency, lo: int, parent: seq<Hop>, rank: seq<nat>, u: int, t: int, fwd: Path)
  {
    && 0 <= u < |adj| && 0 <= t < |adj| && |rank| == |adj| && |parent| == |adj|
    && IsWalk(adj, u, t, fwd, lo)
    && (forall i, j | 0 <= i < j < |fwd| :: rank[fwd[i].0] < rank[fwd[j].0])
    && (forall i | 0 <= i < |fwd| :: rank[u] <= rank[fwd[i].0] < rank[t])
    && |fwd| + rank[u] <= rank[t]
    && (fwd != [] ==> fwd[|fwd| - 1] == parent[t])
  }

  /** One step back through the parent table extends the chain. */
  lemma ChainStep(adj: Adjacency, s: int, lo: int, parent: seq<Hop>, rank: seq<nat>, tree: set<int>,
                  u: int, t: int, fwd: Path)
    requires ParentTree(adj, s, lo, parent, rank, tree) && u in tree && u != s
    requires Chain(adj, lo, parent, rank, u, t, fwd)
    requires fwd == [] ==> u == t
    ensures parent[u].0 in tree && rank[parent[u].0] < rank[u]
    ensures Chain(adj, lo, parent, rank, parent[u].0, t, [parent[u]] + fwd)
  {
    assert TreeLink(adj, lo, parent, rank, tree, u);
    var h := parent[u];
    WalkCons(adj, h, t, fwd, lo);
    var fwd' := [h] + fwd;
    assert forall k | 1 <= k < |fwd'| :: fwd'[k] == fwd[k - 1];
  }

  /** Rebuilding the path from t back to s through the parent table, then
      reversing it. Ranks rise along the result, so it has at most
      rank[t] - rank[s] hops and no node repeats. */
  method RebuildPath(adj: Adjacency, parent: seq<Hop>, s: int, t: int,
                     ghost lo: int, ghost rank: seq<nat>, ghost tree: set<int>)
    returns (path: Path)
    requires ParentTree(adj, s, lo, parent, rank, tree)
    requires s in tree && t in tree && s != t
    ensures IsPath(adj, s, t, path, lo)
    ensures |path| + rank[s] <= rank[t]
    ensures path[|path| - 1] == parent[t]
  {
    var back: Path := [];
    ghost var fwd: Path := [];
    var u := t;
    while u != s
      invariant u in tree
      invariant |back| == |fwd| && forall k | 0 <= k < |fwd| :: back[k] == fwd[|fwd| - 1 - k]
      invariant Chain(adj, lo, parent, rank, u, t, fwd)
      invariant fwd == [] ==> u == t
      decreases rank[u]
    {
      ChainStep(adj, s, lo, parent, rank, tree, u, t, fwd);
      var h := parent[u];
      back := back + [h];
      fwd := [h] + fwd;
      u := h.0;
    }
    path := Reversed(back);
    assert path == fwd;
  }
}
