// The residual graph object: node count, source, sink and one adjacency
// list per node, changed in place by add_edge and read_dimacs.

module Graphs {
  import opened Residual
  import opened Dimacs

  class Graph {
    var n: int
    var source: int
    var sink: int
    var adjList: Adjacency

    /** n is the number of adjacency lists and every entry is paired with its reverse. */
    ghost predicate Valid()
      reads this
    {
      n == |adjList| && Paired(adjList)
    }

    /** The fields read_dimacs works on, as one value. */
    ghost function State(): Loader
      reads this
    {
      Loader(n, source, sink, adjList)
    }

    /** Graph(n): n empty lists; source and sink are -1, meaning undefined. */
    constructor (n: nat)
      ensures Valid() && this.n == n && adjList == EmptyLists(n)
      ensures source == -1 && sink == -1
      ensures Feasible(adjList) && ZeroFlow(adjList)
    {
      this.n := n;
      adjList := seq(n, _ => []);
      source, sink := -1, -1;
      EmptyListsFeasible(n);
    }

    /** size(): the number of nodes, which is the number of adjacency lists. */
    function Size(): (r: int)
      reads this
      requires Valid()
      ensures r == |adjList|
    {
      n
    }

    /** adj(u): the read-only list of u's entries; each leads to a node whose
        list holds the partner entry pointing back at u. */
    function Adj(u: int): (es: seq<Edge>)
      reads this
      requires Valid() && IsNode(adjList, u)
      ensures |es| == |adjList[u]|
      ensures forall i | 0 <= i < |es| ::
        IsEdge(adjList, es[i].to, es[i].rev) && adjList[es[i].to][es[i].rev].to == u
    {
      assert forall i | 0 <= i < |adjList[u]| ::
        PairedAt(adjList, u, i) && IsEdge(adjList, adjList[u][i].to, adjList[u][i].rev);
      adjList[u]
    }

    /** get_neighbors(u): the same list as adj(u). */
    function GetNeighbors(u: int): (es: seq<Edge>)
      reads this
      requires Valid() && IsNode(adjList, u)
      ensures es == Adj(u)
    {
      adjList[u]
    }

    /** get_source(): the source as the reader left it (-1 if undefined). */
    function GetSource(): (r: int)
      reads this
      ensures r == State().source
    {
      source
    }

    /** get_sink(): the sink as the reader left it (-1 if undefined). */
    function GetSink(): (r: int)
      reads this
      ensures r == State().sink
    {
      sink
    }

    /** add_edge(from, to, capacity): push a forward entry onto adj[from] and
        a zero-capacity reverse entry onto adj[to]. */
    method AddEdge(from: int, to: int, capacity: int)
      requires Valid() && IsNode(adjList, from) && IsNode(adjList, to) && from != to
      modifies this
      ensures Valid()
      ensures adjList == WithEdge(old(adjList), from, to, capacity)
      ensures |adjList[from]| == old(|adjList[from]|) + 1 && |adjList[to]| == old(|adjList[to]|) + 1
      ensures adjList[from][..old(|adjList[from]|)] == old(adjList[from])
      ensures adjList[to][..old(|adjList[to]|)] == old(adjList[to])
      ensures adjList[from][old(|adjList[from]|)] == Edge(to, old(|adjList[to]|), capacity, 0)
      ensures adjList[to][old(|adjList[to]|)] == Edge(from, old(|adjList[from]|), 0, 0)
      ensures forall v | 0 <= v < n && v != from && v != to :: adjList[v] == old(adjList[v])
      ensures n == old(n) && source == old(source) && sink == old(sink)
      ensures old(Feasible(adjList)) && capacity >= 0 ==> Feasible(adjList)
      ensures old(ZeroFlow(adjList)) ==> ZeroFlow(adjList)
    {
      var forward := Edge(to, |adjList[to]|, capacity, 0);
      var backward := Edge(from, |adjList[from]|, 0, 0);
      adjList := adjList[from := adjList[from] + [forward]];
      adjList := adjList[to := adjList[to] + [backward]];
      WithEdgeKeepsInvariants(old(adjList), from, to, capacity);
      WithEdgeAppends(old(adjList), from, to, capacity);
    }

    /** read_dimacs over tokenised lines. The new state and the outcome are
        those of Run; an error leaves the state reached before the failing
        line, as the exception does. */
    method ReadDimacs(lines: seq<Line>) returns (outcome: Outcome)
      requires Valid() && Admissible(State(), lines)
      modifies this
      ensures Valid()
      ensures (State(), outcome) == Run(old(State()), lines)
      ensures outcome == Loaded ==> GetSource() != -1 && GetSink() != -1
      ensures old(Feasible(adjList)) && NonNegativeArcs(lines) ==> Feasible(adjList)
      ensures old(ZeroFlow(adjList)) ==> ZeroFlow(adjList)
    {
      RunKeepsInvariants(State(), lines);
      var k := 0;
      while k < |lines|
        invariant 0 <= k <= |lines|
        invariant Valid()
        invariant Admissible(State(), lines[k..])
        invariant Run(old(State()), lines) == Run(State(), lines[k..])
        invariant old(Feasible(adjList)) && NonNegativeArcs(lines) ==> Feasible(adjList)
        invariant old(ZeroFlow(adjList)) ==> ZeroFlow(adjList)
      {
        assert lines[k..][0] == lines[k] && lines[k..][1..] == lines[k + 1..];
        match lines[k] {
          case Problem(kind, nodes, _) =>
            if kind != "max" {
              return UnsupportedProblem;
            }
            n := nodes;
            adjList := seq(nodes, _ => []);
            EmptyListsFeasible(nodes);
          case NodeDesc(id, role) =>
            if role == 's' {
              source := id - 1;
            }
            if role == 't' {
              sink := id - 1;
            }
          case Arc(a, b, c) =>
            AddEdge(a - 1, b - 1, c);
          case _ =>
        }
        k := k + 1;
      }
      if source == -1 || sink == -1 {
        return UndefinedTerminal;
      }
      return Loaded;
    }
  }
}
