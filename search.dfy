// What the queue and stack searches have in common: the stamps mark the
// discovered nodes, and while the sink is undiscovered every discovered
// node is either fully expanded or still waiting to be expanded.

module Search {
  import opened Residual
  import opened Paths

  /** The node numbers 0 .. n-1. */
  function Nodes(n: int): (r: set<int>)
    ensures forall v :: v in r <==> 0 <= v < n
    decreases n
  {
    if n <= 0 then {} else Nodes(n - 1) + {n - 1}
  }

  lemma NodesNext(n: nat)
    ensures Nodes(n + 1) == Nodes(n) + {n}
  {
  }

  /** Exactly the nodes of `seen` carry the current token. */
  ghost predicate StampsMark(visited: seq<nat>, token: nat, n: int, seen: set<int>)
  {
    && n <= |visited|
    && (forall v | 0 <= v < n :: (visited[v] == token <==> v in seen))
    && (forall v | v in seen :: 0 <= v < n)
  }

  /** Every usable edge of u leads to a discovered node. */
  ghost predicate Expanded(adj: Adjacency, lo: int, u: int, seen: set<int>)
  {
    IsNode(adj, u) &&
    forall i | 0 <= i < |adj[u]| && Remaining(adj[u][i]) >= lo :: adj[u][i].to in seen
  }

  /** Between two node expansions: pending nodes are discovered, and while t
      is undiscovered each discovered node is expanded or pending. */
  ghost predicate Frontier(adj: Adjacency, t: int, lo: int, seen: set<int>, done: set<int>, pending: seq<int>)
  {
    && (forall k | 0 <= k < |pending| :: pending[k] in seen)
    && done <= seen
    && (t !in seen ==>
          && (forall w {:trigger Expanded(adj, lo, w, seen)} | w in done :: Expanded(adj, lo, w, seen))
          && (forall v | v in seen :: v in done || v in pending))
  }

  /** During the expansion of u, after the edges in `processed` were looked at. */
  ghost predicate Expanding(adj: Adjacency, t: int, lo: int, seen: set<int>, done: set<int>, pending: seq<int>,
                            u: int, processed: set<int>)
  {
    && IsNode(adj, u) && u in seen
    && (forall k | 0 <= k < |pending| :: pending[k] in seen)
    && done <= seen
    && (t !in seen ==>
          && (forall w {:trigger Expanded(adj, lo, w, seen)} | w in done :: Expanded(adj, lo, w, seen))
          && (forall v | v in seen :: v in done || v in pending || v == u)
          && (forall j | j in processed && 0 <= j < |adj[u]| && Remaining(adj[u][j]) >= lo :: adj[u][j].to in seen))
  }

  /** Taking u off the queue or stack starts its expansion. */
  lemma StartExpansion(adj: Adjacency, t: int, lo: int, seen: set<int>, done: set<int>,
                       pending: seq<int>, rest: seq<int>, u: int)
    requires Frontier(adj, t, lo, seen, done, pending)
    requires IsNode(adj, u) && u in seen
    requires forall k | 0 <= k < |rest| :: rest[k] in pending
    requires forall k | 0 <= k < |pending| :: pending[k] == u || pending[k] in rest
    ensures Expanding(adj, t, lo, seen, done, rest, u, {})
  {
    if t !in seen {
      forall v | v in seen ensures v in done || v in rest || v == u {
        if v !in done {
          assert v in pending;
        }
      }
    }
  }

  /** Discovering the target v of u's edge i and pushing it. */
  lemma Discover(adj: Adjacency, t: int, lo: int, seen: set<int>, done: set<int>, pending: seq<int>,
                 u: int, processed: set<int>, i: int)
    requires Expanding(adj, t, lo, seen, done, pending, u, processed)
    requires 0 <= i < |adj[u]|
    ensures Expanding(adj, t, lo, seen + {adj[u][i].to}, done, pending + [adj[u][i].to], u, processed + {i})
  {
    var v := adj[u][i].to;
    var seen' := seen + {v};
    if t !in seen' {
      forall w | w in done ensures Expanded(adj, lo, w, seen') {
        assert Expanded(adj, lo, w, seen);
      }
    }
  }

  /** Passing over u's edge i without discovering anything. */
  lemma PassOver(adj: Adjacency, t: int, lo: int, seen: set<int>, done: set<int>, pending: seq<int>,
                 u: int, processed: set<int>, i: int)
    requires Expanding(adj, t, lo, seen, done, pending, u, processed)
    requires 0 <= i < |adj[u]|
    requires Remaining(adj[u][i]) >= lo ==> adj[u][i].to in seen
    ensures Expanding(adj, t, lo, seen, done, pending, u, processed + {i})
  {
  }

  /** Once every edge of u was looked at, u is expanded. */
  lemma FinishExpansion(adj: Adjacency, t: int, lo: int, seen: set<int>, done: set<int>, pending: seq<int>,
                        u: int, processed: set<int>)
    requires Expanding(adj, t, lo, seen, done, pending, u, processed)
    requires t !in seen ==> forall j | 0 <= j < |adj[u]| :: j in processed
    ensures Frontier(adj, t, lo, seen, done + {u}, pending)
  {
  }

  /** When nothing is pending and t was never discovered, the discovered
      nodes are closed under usable edges, so t is unreachable. */
  lemma Exhausted(adj: Adjacency, s: int, t: int, lo: int, seen: set<int>, done: set<int>)
    requires Frontier(adj, t, lo, seen, done, []) && s in seen && t !in seen
    ensures !Reachable(adj, s, t, lo)
  {
    forall u, i | u in seen && IsEdge(adj, u, i) && Remaining(adj[u][i]) >= lo
      ensures adj[u][i].to in seen
    {
      assert u in done && Expanded(adj, lo, u, seen);
    }
    ClosedBlocks(adj, lo, seen, s, t);
  }

  /** A parent table extended by the discovery of v through u's edge i. */
  lemma TreeGrows(adj: Adjacency, s: int, lo: int, parent: seq<Hop>, rank: seq<nat>, tree: set<int>,
                  u: int, i: int, r: nat)
    requires ParentTree(adj, s, lo, parent, rank, tree)
    requires u in tree && s in tree && IsEdge(adj, u, i) && Remaining(adj[u][i]) >= lo
    requires IsNode(adj, adj[u][i].to) && adj[u][i].to !in tree && rank[u] < r
    ensures ParentTree(adj, s, lo, parent[adj[u][i].to := (u, i)], rank[adj[u][i].to := r], tree + {adj[u][i].to})
  {
    var v := adj[u][i].to;
    var parent', rank', tree' := parent[v := (u, i)], rank[v := r], tree + {v};
    forall w | w in tree' && w != s ensures TreeLink(adj, lo, parent', rank', tree', w) {
      if w != v {
        assert TreeLink(adj, lo, parent, rank, tree, w);
      }
    }
  }

  /** A walk from a discovered node to an undiscovered one has a hop that
      leaves the discovered set. */
  lemma {:induction false} ExitHop(adj: Adjacency, lo: int, seen: set<int>, s: int, y: int, p: Path)
    returns (j: int)
    requires IsWalk(adj, s, y, p, lo) && s in seen && y !in seen
    ensures 0 <= j < |p| && p[j].0 in seen && HopTo(adj, p[j]) !in seen
    decreases |p|
  {
    var m := |p| - 1;
    if p[m].0 in seen {
      j := m;
    } else {
      WalkPrefix(adj, s, y, p, lo, m);
      j := ExitHop(adj, lo, seen, s, p[m].0, p[..m]);
      assert p[..m][j] == p[j];
    }
  }

  /** The state of a stack search between two node expansions: exactly the
      discovered nodes carry the token, they form a parent tree over edges
      with remaining capacity >= lo whose ranks are discovery numbers below
      count, and the frontier property holds. */
  ghost predicate Exploring(adj: Adjacency, s: int, t: int, lo: int, token: nat, visited: seq<nat>,
                            parent: seq<Hop>, rank: seq<nat>, count: nat,
                            seen: set<int>, done: set<int>, stack: seq<int>)
  {
    && StampsMark(visited, token, |adj|, seen)
    && ParentTree(adj, s, lo, parent, rank, seen)
    && s in seen
    && (forall v | v in seen :: rank[v] < count)
    && Frontier(adj, t, lo, seen, done, stack)
  }

  /** The same while u is being expanded. */
  ghost predicate ExploringAt(adj: Adjacency, s: int, t: int, lo: int, token: nat, visited: seq<nat>,
                              parent: seq<Hop>, rank: seq<nat>, count: nat,
                              seen: set<int>, done: set<int>, stack: seq<int>, u: int, processed: set<int>)
  {
    && StampsMark(visited, token, |adj|, seen)
    && ParentTree(adj, s, lo, parent, rank, seen)
    && s in seen
    && (forall v | v in seen :: rank[v] < count)
    && Expanding(adj, t, lo, seen, done, stack, u, processed)
  }

  lemma ExploreStart(adj: Adjacency, s: int, t: int, lo: int, token: nat, visited: seq<nat>)
    requires IsNode(adj, s) && |adj| <= |visited| && forall v | 0 <= v < |visited| :: visited[v] < token
    ensures Exploring(adj, s, t, lo, token, visited[s := token], seq(|adj|, _ => (-1, -1)), seq(|adj|, _ => 0), 1,
                      {s}, {}, [s])
  {
  }

  /** Popping the top of the stack starts its expansion. */
  lemma ExplorePop(adj: Adjacency, s: int, t: int, lo: int, token: nat, visited: seq<nat>,
                   parent: seq<Hop>, rank: seq<nat>, count: nat, seen: set<int>, done: set<int>, stack: seq<int>)
    requires Exploring(adj, s, t, lo, token, visited, parent, rank, count, seen, done, stack) && stack != []
    ensures IsNode(adj, stack[|stack| - 1])
    ensures ExploringAt(adj, s, t, lo, token, visited, parent, rank, count, seen, done,
                        stack[..|stack| - 1], stack[|stack| - 1], {})
  {
    var rest := stack[..|stack| - 1];
    assert forall k | 0 <= k < |rest| :: rest[k] == stack[k];
    StartExpansion(adj, t, lo, seen, done, stack, rest, stack[|stack| - 1]);
  }

  lemma ExploreDiscover(adj: Adjacency, s: int, t: int, lo: int, token: nat, visited: seq<nat>,
                        parent: seq<Hop>, rank: seq<nat>, count: nat, seen: set<int>, done: set<int>, stack: seq<int>,
                        u: int, processed: set<int>, i: int)
    requires ExploringAt(adj, s, t, lo, token, visited, parent, rank, count, seen, done, stack, u, processed)
    requires 0 <= i < |adj[u]| && IsNode(adj, adj[u][i].to) && adj[u][i].to !in seen && Remaining(adj[u][i]) >= lo
    ensures var v := adj[u][i].to;
      ExploringAt(adj, s, t, lo, token, visited[v := token], parent[v := (u, i)], rank[v := count], count + 1,
                  seen + {v}, done, stack + [v], u, processed + {i})
  {
    var v := adj[u][i].to;
    assert StampsMark(visited[v := token], token, |adj|, seen + {v});
    TreeGrows(adj, s, lo, parent, rank, seen, u, i, count);
    Discover(adj, t, lo, seen, done, stack, u, processed, i);
  }

  lemma ExplorePass(adj: Adjacency, s: int, t: int, lo: int, token: nat, visited: seq<nat>,
                    parent: seq<Hop>, rank: seq<nat>, count: nat, seen: set<int>, done: set<int>, stack: seq<int>,
                    u: int, processed: set<int>, i: int)
    requires ExploringAt(adj, s, t, lo, token, visited, parent, rank, count, seen, done, stack, u, processed)
    requires 0 <= i < |adj[u]| && (adj[u][i].to in seen || Remaining(adj[u][i]) < lo)
    ensures ExploringAt(adj, s, t, lo, token, visited, parent, rank, count, seen, done, stack, u, processed + {i})
  {
    PassOver(adj, t, lo, seen, done, stack, u, processed, i);
  }

  lemma ExploreDone(adj: Adjacency, s: int, t: int, lo: int, token: nat, visited: seq<nat>,
                    parent: seq<Hop>, rank: seq<nat>, count: nat, seen: set<int>, done: set<int>, stack: seq<int>,
                    u: int, processed: set<int>)
    requires ExploringAt(adj, s, t, lo, token, visited, parent, rank, count, seen, done, stack, u, processed)
    requires t !in seen ==> forall j | 0 <= j < |adj[u]| :: j in processed
    ensures Exploring(adj, s, t, lo, token, visited, parent, rank, count, seen, done + {u}, stack)
    ensures seen <= Nodes(|adj|)
  {
    FinishExpansion(adj, t, lo, seen, done, stack, u, processed);
  }

  /** With the stack empty, t was discovered exactly when it is reachable. */
  lemma ExploreEnd(adj: Adjacency, s: int, t: int, lo: int, token: nat, visited: seq<nat>,
                   parent: seq<Hop>, rank: seq<nat>, count: nat, seen: set<int>, done: set<int>)
    requires Exploring(adj, s, t, lo, token, visited, parent, rank, count, seen, done, [])
    ensures t !in seen ==> !Reachable(adj, s, t, lo)
  {
    if t !in seen {
      Exhausted(adj, s, t, lo, seen, done);
    }
  }
}
