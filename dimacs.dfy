// The DIMACS max-flow reader, as an interpreter over lines that have
// already been split into records: `p max <nodes> <arcs>`, `n <id> <s|t>`,
// `a <from> <to> <cap>`, comments and blank lines.

module Dimacs {
  import opened Residual

  /** One tokenised input line. */
  datatype Line =
    | Blank                                        // an empty line
    | Comment                                      // a line whose first character is 'c'
    | Problem(kind: string, nodes: int, arcs: int) // p <kind> <nodes> <arcs>
    | NodeDesc(id: int, role: char)                // n <id> <role>
    | Arc(tail: int, head: int, cap: int)          // a <from> <to> <cap>
    | Other(tag: char)                             // any other record type: no effect

  /** The graph fields the reader updates. */
  datatype Loader = Loader(n: int, source: int, sink: int, adj: Adjacency)

  /** How reading ends: normally, or with one of the reader's two errors. */
  datatype Outcome = Loaded | UnsupportedProblem | UndefinedTerminal

  /** A `p` record for anything but a max-flow problem aborts the read. */
  predicate Rejects(line: Line)
  {
    line.Problem? && line.kind != "max"
  }

  predicate Skipped(line: Line)
  {
    line.Blank? || line.Comment?
  }

  /** What a line needs for the reader to be well defined on it: a `p max`
      record gives a non-negative node count, and an `a` record names two
      distinct existing nodes (1-based). Any capacity is accepted. */
  predicate LineOk(st: Loader, line: Line)
  {
    match line
    case Problem(kind, nodes, _) => kind == "max" ==> nodes >= 0
    case Arc(a, b, c) => 1 <= a <= |st.adj| && 1 <= b <= |st.adj| && a != b
    case _ => true
  }

  /** The effect of one accepted line on the reader's state. */
  function Step(st: Loader, line: Line): (r: Loader)
    requires LineOk(st, line) && !Rejects(line)
    ensures r.n == (if line.Problem? then line.nodes else st.n)
    ensures !line.NodeDesc? ==> r.source == st.source && r.sink == st.sink
    ensures line.Arc? ==> |r.adj| == |st.adj|
    ensures Skipped(line) ==> r == st
  {
    match line
    case Problem(_, nodes, _) => st.(n := nodes, adj := EmptyLists(nodes))
    case NodeDesc(id, role) =>
      var st' := if role == 's' then st.(source := id - 1) else st;
      if role == 't' then st'.(sink := id - 1) else st'
    case Arc(a, b, c) => st.(adj := WithEdge(st.adj, a - 1, b - 1, c))
    case _ => st
  }

  /** Every line up to the first rejected one is well defined. */
  predicate Admissible(st: Loader, lines: seq<Line>)
    decreases |lines|
  {
    lines == [] ||
    (LineOk(st, lines[0]) && (Rejects(lines[0]) || Admissible(Step(st, lines[0]), lines[1..])))
  }

  /** read_dimacs: the final state and how reading ended. On a rejected `p`
      record the state is the one reached just before it. */
  function Run(st: Loader, lines: seq<Line>): (r: (Loader, Outcome))
    requires Admissible(st, lines)
    ensures r.1 == UnsupportedProblem || (r.1 == Loaded <==> r.0.source != -1 && r.0.sink != -1)
    decreases |lines|
  {
    if lines == [] then
      (st, if st.source == -1 || st.sink == -1 then UndefinedTerminal else Loaded)
    else if Rejects(lines[0]) then
      (st, UnsupportedProblem)
    else
      Run(Step(st, lines[0]), lines[1..])
  }

  /** No `a` record carries a negative capacity. */
  predicate NonNegativeArcs(lines: seq<Line>)
  {
    forall k | 0 <= k < |lines| :: lines[k].Arc? ==> lines[k].cap >= 0
  }

  ghost predicate Consistent(st: Loader)
  {
    st.n == |st.adj| && Paired(st.adj)
  }

  /** The lines without blanks and comments. */
  function Significant(lines: seq<Line>): (r: seq<Line>)
    ensures forall k | 0 <= k < |r| :: !Skipped(r[k])
    decreases |lines|
  {
    if lines == [] then []
    else if Skipped(lines[0]) then Significant(lines[1..])
    else [lines[0]] + Significant(lines[1..])
  }

  /** The value a terminal ends with: id - 1 of the last `n` record for
      `role`, or its starting value when there is none. */
  function TerminalAfter(lines: seq<Line>, role: char, init: int): int
    decreases |lines|
  {
    if lines == [] then init
    else if lines[0].NodeDesc? && lines[0].role == role then TerminalAfter(lines[1..], role, lines[0].id - 1)
    else TerminalAfter(lines[1..], role, init)
  }

  /** The node count a read ends with: that of the last `p` record, or the
      starting count when there is none. */
  function NodesAfter(lines: seq<Line>, init: int): int
    decreases |lines|
  {
    if lines == [] then init
    else if lines[0].Problem? then NodesAfter(lines[1..], lines[0].nodes)
    else NodesAfter(lines[1..], init)
  }

  /** One accepted line keeps the graph consistent and zero flow, and keeps
      the flow invariants unless it is an arc of negative capacity. */
  lemma StepKeepsInvariants(st: Loader, line: Line)
    requires LineOk(st, line) && !Rejects(line) && Consistent(st)
    ensures Consistent(Step(st, line))
    ensures Feasible(st.adj) && (line.Arc? ==> line.cap >= 0) ==> Feasible(Step(st, line).adj)
    ensures ZeroFlow(st.adj) ==> ZeroFlow(Step(st, line).adj)
  {
    match line {
      case Problem(_, nodes, _) => EmptyListsFeasible(nodes);
      case Arc(a, b, c) => WithEdgeKeepsInvariants(st.adj, a - 1, b - 1, c);
      case _ =>
    }
  }

  /** Reading keeps the graph consistent (n is the number of lists, entries
      are paired) and zero flow, and keeps the flow invariants when no arc
      has a negative capacity. */
  lemma {:induction false} RunKeepsInvariants(st: Loader, lines: seq<Line>)
    requires Admissible(st, lines) && Consistent(st)
    ensures Consistent(Run(st, lines).0)
    ensures Feasible(st.adj) && NonNegativeArcs(lines) ==> Feasible(Run(st, lines).0.adj)
    ensures ZeroFlow(st.adj) ==> ZeroFlow(Run(st, lines).0.adj)
    decreases |lines|
  {
    if lines != [] && !Rejects(lines[0]) {
      StepKeepsInvariants(st, lines[0]);
      RunKeepsInvariants(Step(st, lines[0]), lines[1..]);
      assert forall k | 0 <= k < |lines[1..]| :: lines[1..][k] == lines[k + 1];
    }
  }

  /** Reading fails with UnsupportedProblem exactly when some `p` record is
      not for "max", and otherwise fails exactly when the source or the sink
      is still -1 at the end. */
  lemma {:induction false} RunOutcome(st: Loader, lines: seq<Line>)
    requires Admissible(st, lines)
    ensures var (st', out) := Run(st, lines);
      && (out == UnsupportedProblem <==> exists k | 0 <= k < |lines| :: Rejects(lines[k]))
      && (out == UndefinedTerminal <==>
            (forall k | 0 <= k < |lines| :: !Rejects(lines[k])) && (st'.source == -1 || st'.sink == -1))
      && (out == Loaded <==>
            (forall k | 0 <= k < |lines| :: !Rejects(lines[k])) && st'.source != -1 && st'.sink != -1)
    decreases |lines|
  {
    if lines != [] && !Rejects(lines[0]) {
      RunOutcome(Step(st, lines[0]), lines[1..]);
      forall k | 1 <= k < |lines| ensures lines[k] == lines[1..][k - 1] { }
      assert (exists k | 0 <= k < |lines| :: Rejects(lines[k])) <==>
             (exists k | 0 <= k < |lines[1..]| :: Rejects(lines[1..][k]));
    }
  }

  /** When no `p` record is rejected, source and sink end as id - 1 of the
      last `n` record naming them, and n as the node count of the last `p`
      record, with one adjacency list per node. */
  lemma {:induction false} RunTerminals(st: Loader, lines: seq<Line>)
    requires Admissible(st, lines) && Consistent(st)
    requires forall k | 0 <= k < |lines| :: !Rejects(lines[k])
    ensures Run(st, lines).0.source == TerminalAfter(lines, 's', st.source)
    ensures Run(st, lines).0.sink == TerminalAfter(lines, 't', st.sink)
    ensures Run(st, lines).0.n == NodesAfter(lines, st.n) == |Run(st, lines).0.adj|
    decreases |lines|
  {
    if lines != [] {
      assert !Rejects(lines[0]);
      var st' := Step(st, lines[0]);
      StepKeepsInvariants(st, lines[0]);
      forall k | 0 <= k < |lines[1..]| ensures !Rejects(lines[1..][k]) {
        assert lines[1..][k] == lines[k + 1];
      }
      RunTerminals(st', lines[1..]);
    }
  }

  /** Blank lines and comment lines have no effect: reading the lines gives
      the same result as reading them with those lines removed. */
  lemma {:induction false} RunIgnoresSkipped(st: Loader, lines: seq<Line>)
    requires Admissible(st, lines)
    ensures Admissible(st, Significant(lines))
    ensures Run(st, Significant(lines)) == Run(st, lines)
    decreases |lines|
  {
    if lines != [] {
      if Skipped(lines[0]) {
        assert Step(st, lines[0]) == st;
        RunIgnoresSkipped(st, lines[1..]);
      } else if Rejects(lines[0]) {
        assert Significant(lines)[0] == lines[0];
      } else {
        RunIgnoresSkipped(Step(st, lines[0]), lines[1..]);
        var r := Significant(lines);
        assert r[0] == lines[0] && r[1..] == Significant(lines[1..]);
      }
    }
  }
}
