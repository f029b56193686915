// The residual-graph data model: adjacency entries, the pairing of every
// entry with its reverse entry, and the flow invariants the engine keeps.

module Residual {

  /** INT_MAX, used by the engine as the "no constraint yet" sentinel. */
  const IntMax: int := 0x7fff_ffff

  /** One adjacency entry: an arc to `to`; its reverse entry sits at `adj[to][rev]`. */
  datatype Edge = Edge(to: int, rev: int, capacity: int, flow: int)

  /** One list of outgoing entries per node, indexed by node number. */
  type Adjacency = seq<seq<Edge>>

  /** std::min */
  function Min(a: int, b: int): int
  {
    if a < b then a else b
  }

  /** remaining_capacity(): what the arc can still carry. */
  function Remaining(e: Edge): int
  {
    e.capacity - e.flow
  }

  predicate IsNode(adj: Adjacency, u: int)
  {
    0 <= u < |adj|
  }

  predicate IsEdge(adj: Adjacency, u: int, i: int)
  {
    0 <= u < |adj| && 0 <= i < |adj[u]|
  }

  /** The entry at adj[u][i] points into the graph, is not a self-loop,
      and its reverse entry points back at it. */
  ghost predicate PairedAt(adj: Adjacency, u: int, i: int)
    requires IsEdge(adj, u, i)
  {
    var e := adj[u][i];
    && 0 <= e.to < |adj|
    && e.to != u
    && 0 <= e.rev < |adj[e.to]|
    && adj[e.to][e.rev].to == u
    && adj[e.to][e.rev].rev == i
  }

  /** The reverse-pairing invariant, for every entry. */
  ghost predicate Paired(adj: Adjacency)
  {
    forall u, i | IsEdge(adj, u, i) :: PairedAt(adj, u, i)
  }

  /** flow + partner.flow == 0 for every entry. */
  ghost predicate Skew(adj: Adjacency)
    requires Paired(adj)
  {
    forall u, i | IsEdge(adj, u, i) :: adj[u][i].flow + adj[adj[u][i].to][adj[u][i].rev].flow == 0
  }

  /** 0 <= capacity and flow <= capacity for every entry. */
  ghost predicate Capped(adj: Adjacency)
  {
    forall u, i | IsEdge(adj, u, i) :: 0 <= adj[u][i].capacity && adj[u][i].flow <= adj[u][i].capacity
  }

  /** The flow invariants the augmentation engine keeps. */
  ghost predicate Feasible(adj: Adjacency)
  {
    Paired(adj) && Skew(adj) && Capped(adj)
  }

  /** No entry carries flow: the state right after the graph is built. */
  ghost predicate ZeroFlow(adj: Adjacency)
  {
    forall u, i | IsEdge(adj, u, i) :: adj[u][i].flow == 0
  }

  /** Two adjacencies that differ at most in their `flow` fields. */
  ghost predicate SameShape(a: Adjacency, b: Adjacency)
  {
    && |a| == |b|
    && (forall u | 0 <= u < |a| :: |a[u]| == |b[u]|)
    && (forall u, i | IsEdge(a, u, i) ::
          a[u][i].to == b[u][i].to && a[u][i].rev == b[u][i].rev && a[u][i].capacity == b[u][i].capacity)
  }

  lemma SameShapePaired(a: Adjacency, b: Adjacency)
    requires SameShape(a, b) && Paired(a)
    ensures Paired(b)
  {
    forall u, i | IsEdge(b, u, i) ensures PairedAt(b, u, i) {
      assert IsEdge(a, u, i) && PairedAt(a, u, i);
      var e := a[u][i];
      assert IsEdge(a, e.to, e.rev);
    }
  }

  /** n empty adjacency lists: what the constructor and a `p` record build. */
  function EmptyLists(n: nat): (adj: Adjacency)
    ensures |adj| == n && forall u | 0 <= u < n :: adj[u] == []
  {
    seq(n, _ => [])
  }

  lemma EmptyListsFeasible(n: nat)
    ensures Feasible(EmptyLists(n)) && ZeroFlow(EmptyLists(n))
  {
  }

  /** add_edge(from, to, c): a forward entry with capacity c at the end of
      adj[from] and a zero-capacity reverse entry at the end of adj[to]; each
      records the position of the other as its `rev`. */
  function WithEdge(adj: Adjacency, from: int, to: int, c: int): (r: Adjacency)
    requires IsNode(adj, from) && IsNode(adj, to) && from != to
    ensures |r| == |adj| && |r[from]| == |adj[from]| + 1 && |r[to]| == |adj[to]| + 1
  {
    var forward := Edge(to, |adj[to]|, c, 0);
    var backward := Edge(from, |adj[from]|, 0, 0);
    adj[from := adj[from] + [forward]][to := adj[to] + [backward]]
  }

  /** add_edge appends exactly one entry to adj[from] and one to adj[to];
      every other list and every existing entry are unchanged. */
  lemma WithEdgeAppends(adj: Adjacency, from: int, to: int, c: int)
    requires IsNode(adj, from) && IsNode(adj, to) && from != to
    ensures var r := WithEdge(adj, from, to, c);
      && |r| == |adj|
      && |r[from]| == |adj[from]| + 1 && |r[to]| == |adj[to]| + 1
      && r[from][..|adj[from]|] == adj[from] && r[to][..|adj[to]|] == adj[to]
      && r[from][|adj[from]|] == Edge(to, |adj[to]|, c, 0)
      && r[to][|adj[to]|] == Edge(from, |adj[from]|, 0, 0)
      && forall v | 0 <= v < |adj| && v != from && v != to :: r[v] == adj[v]
  {
  }

  /** The two new entries are each other's partners. */
  lemma WithEdgePairsNewEntries(adj: Adjacency, from: int, to: int, c: int)
    requires IsNode(adj, from) && IsNode(adj, to) && from != to
    ensures var r := WithEdge(adj, from, to, c);
      var i := |adj[from]|;
      var j := |adj[to]|;
      && IsEdge(r, from, i) && IsEdge(r, to, j)
      && r[from][i].to == to && r[from][i].rev == j
      && r[r[from][i].to][r[from][i].rev].to == from && r[r[from][i].to][r[from][i].rev].rev == i
      && r[r[to][j].to][r[to][j].rev].to == to && r[r[to][j].to][r[to][j].rev].rev == j
  {
  }

  /** add_edge keeps the pairing invariant, and with a non-negative capacity
      it keeps the flow invariants and zero flow. */
  lemma WithEdgeKeepsInvariants(adj: Adjacency, from: int, to: int, c: int)
    requires IsNode(adj, from) && IsNode(adj, to) && from != to
    requires Paired(adj)
    ensures Paired(WithEdge(adj, from, to, c))
    ensures Feasible(adj) && c >= 0 ==> Feasible(WithEdge(adj, from, to, c))
    ensures ZeroFlow(adj) ==> ZeroFlow(WithEdge(adj, from, to, c))
  {
    var r := WithEdge(adj, from, to, c);
    forall u, i | IsEdge(r, u, i) ensures PairedAt(r, u, i) {
      if !IsEdge(adj, u, i) {
        assert (u == from && i == |adj[from]|) || (u == to && i == |adj[to]|);
      } else {
        assert PairedAt(adj, u, i);
        assert r[u][i] == adj[u][i];
        var e := adj[u][i];
        assert IsEdge(adj, e.to, e.rev);
        assert r[e.to][e.rev] == adj[e.to][e.rev];
      }
    }
    if Feasible(adj) && c >= 0 {
      forall u, i | IsEdge(r, u, i)
        ensures r[u][i].flow + r[r[u][i].to][r[u][i].rev].flow == 0
      {
        if IsEdge(adj, u, i) {
          assert PairedAt(adj, u, i);
          var e := adj[u][i];
          assert IsEdge(adj, e.to, e.rev);
          assert r[e.to][e.rev] == adj[e.to][e.rev];
        }
      }
    }
  }

  /** Sum of the `flow` fields of a list: the net flow out of a node. */
  function NetFlow(es: seq<Edge>): int
  {
    if es == [] then 0 else NetFlow(es[..|es| - 1]) + es[|es| - 1].flow
  }

  /** Sum of the `capacity` fields of a list. */
  function CapacitySum(es: seq<Edge>): int
  {
    if es == [] then 0 else CapacitySum(es[..|es| - 1]) + es[|es| - 1].capacity
  }

  /** Changing the flow of one entry changes the list's net flow by the same amount. */
  lemma {:induction false} NetFlowUpdate(es: seq<Edge>, i: int, f: int)
    requires 0 <= i < |es|
    ensures NetFlow(es[i := es[i].(flow := f)]) == NetFlow(es) - es[i].flow + f
    ensures CapacitySum(es[i := es[i].(flow := f)]) == CapacitySum(es)
    decreases |es|
  {
    var es' := es[i := es[i].(flow := f)];
    var m := |es| - 1;
    assert es'[..m] == if i == m then es[..m] else es[..m][i := es[i].(flow := f)];
    if i < m {
      NetFlowUpdate(es[..m], i, f);
    }
  }

  /** With flow <= capacity on every entry, a node's net flow is at most the
      total capacity of its list. */
  lemma {:induction false} NetFlowAtMostCapacity(es: seq<Edge>)
    requires forall k | 0 <= k < |es| :: es[k].flow <= es[k].capacity
    ensures NetFlow(es) <= CapacitySum(es)
    decreases |es|
  {
    if es != [] {
      NetFlowAtMostCapacity(es[..|es| - 1]);
    }
  }

  /** Lists with the same shape have the same capacity sum. */
  lemma {:induction false} CapacitySumShape(a: seq<Edge>, b: seq<Edge>)
    requires |a| == |b| && forall k | 0 <= k < |a| :: a[k].capacity == b[k].capacity
    ensures CapacitySum(a) == CapacitySum(b)
    decreases |a|
  {
    if a != [] {
      CapacitySumShape(a[..|a| - 1], b[..|b| - 1]);
    }
  }
}
