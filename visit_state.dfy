// The generation-stamped visited buffer the searches reuse between calls:
// a node counts as visited in the current search exactly when its stamp
// equals the current token.

module ScalingState {

  class VisitState {
    var visited: seq<nat>
    var visitedToken: nat

    /** No stamp is ahead of the token. */
    ghost predicate Valid()
      reads this
    {
      visitedToken >= 1 && forall v | 0 <= v < |visited| :: visited[v] <= visitedToken
    }

    /** The state right after a reset for n nodes: the buffer covers them
        and no node counts as visited. */
    ghost predicate Cleared(n: int)
      reads this
    {
      Valid() && n <= |visited| && forall v | 0 <= v < |visited| :: visited[v] < visitedToken
    }

    /** The token starts at 1 and the buffer is empty. */
    constructor ()
      ensures Valid() && visited == [] && visitedToken == 1
    {
      visited := [];
      visitedToken := 1;
    }

    /** visited[v] = visitedToken: mark v as visited in the current search. */
    method Mark(v: int)
      requires Valid() && 0 <= v < |visited|
      modifies this
      ensures Valid() && visitedToken == old(visitedToken)
      ensures visited == old(visited)[v := visitedToken]
    {
      visited := visited[v := visitedToken];
    }

    /** reset(n): grow the buffer to n zero stamps when it is shorter (it
        never shrinks), then advance the token, so that no stamp of an
        earlier search equals it. */
    method Reset(n: nat)
      requires Valid()
      modifies this
      ensures Cleared(n)
      ensures visitedToken == old(visitedToken) + 1
      ensures old(|visited|) < n ==> visited == seq(n, _ => 0)
      ensures old(|visited|) >= n ==> visited == old(visited)
      ensures |visited| >= old(|visited|)
    {
      if |visited| < n {
        visited := seq(n, _ => 0);
      }
      visitedToken := visitedToken + 1;
    }
  }
}
