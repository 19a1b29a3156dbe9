/**
 The directed graph the rankers run on, and the loader that builds it from
 lines of node-name pairs.

 A graph keeps its nodes in the order they were first added, and for each
 node its distinct successors in the order the edges were first added: a
 repeated edge is stored once, so a node's out-degree counts distinct
 targets. Self-loops are allowed.
 */
module DirectedGraph {
  import opened Outcomes
  import opened Sums

  /**
   A node identifier: opaque, compared only for equality (a URL in the web
   data). Tokens of the input lines are node identifiers too.
   */
  type Node(==, !new)

  datatype Graph = Graph(nodes: seq<Node>, succ: map<Node, seq<Node>>) {

    /** Nodes are distinct and are exactly the keys of `succ`; each successor list is distinct and names nodes. */
    ghost predicate Valid() {
      && Distinct(nodes)
      && (forall u :: u in succ <==> u in nodes)
      && (forall u :: u in succ ==> Distinct(succ[u]) && forall v :: v in succ[u] ==> v in nodes)
    }

    predicate HasEdge(u: Node, v: Node) {
      u in succ && v in succ[u]
    }

    function OutDegree(u: Node): nat
      requires u in succ
    {
      |succ[u]|
    }

    /** The set of nodes `u` has an edge to. */
    ghost function Targets(u: Node): set<Node> {
      if u in succ then set v | v in succ[u] else {}
    }

    /** Every node has at least one outgoing edge. */
    ghost predicate NoSinks() {
      forall u :: u in succ ==> |succ[u]| > 0
    }

    /** Adds `w` with no edges if it is not a node yet. */
    function AddNode(w: Node): (r: Graph)
      ensures w in r.succ && succ.Keys <= r.succ.Keys
    {
      if w in succ then this else Graph(nodes + [w], succ[w := []])
    }

    /**
     Adds the edge `u -> v`, first adding `u` and then `v` as nodes if
     they are new; an edge already present is not added again.
     */
    function AddEdge(u: Node, v: Node): (r: Graph)
      ensures r.HasEdge(u, v)
    {
      var g := AddNode(u).AddNode(v);
      if v in g.succ[u] then g else Graph(g.nodes, g.succ[u := g.succ[u] + [v]])
    }
  }

  /** Adding an edge to a well-formed graph gives a well-formed graph. */
  lemma AddEdgeValid(g: Graph, u: Node, v: Node)
    requires g.Valid()
    ensures g.AddEdge(u, v).Valid()
  {
  }

  /** Adding an edge keeps the old edges and adds only the new one. */
  lemma AddEdgeEdges(g: Graph, u: Node, v: Node)
    ensures forall a, b :: g.AddEdge(u, v).HasEdge(a, b) <==> g.HasEdge(a, b) || (a == u && b == v)
  {
  }

  /** Adding an edge adds at most its two ends as nodes. */
  lemma AddEdgeNodes(g: Graph, u: Node, v: Node, x: Node)
    requires forall y :: y in g.succ <==> y in g.nodes
    ensures x in g.AddEdge(u, v).nodes <==> x in g.nodes || x == u || x == v
  {
  }

  /** Adding an edge keeps the old nodes in their order: new nodes go at the end. */
  lemma AddEdgeKeepsOrder(g: Graph, u: Node, v: Node)
    ensures g.nodes <= g.AddEdge(u, v).nodes
  {
  }

  /** The out-degree of a node is the number of distinct nodes it links to. */
  lemma OutDegreeCountsTargets(g: Graph, u: Node)
    requires g.Valid() && u in g.succ
    ensures g.OutDegree(u) == |g.Targets(u)|
  {
    DistinctCardinality(g.succ[u]);
  }

  /** A graph object that edges are added to in place. */
  class DiGraph {
    var nodes: seq<Node>
    var succ: map<Node, seq<Node>>

    /** The graph this object currently holds. */
    function Value(): Graph
      reads this
    {
      Graph(nodes, succ)
    }

    ghost predicate Valid()
      reads this
    {
      Value().Valid()
    }

    /** An empty graph. */
    constructor ()
      ensures Value() == Graph([], map[])
    {
      nodes := [];
      succ := map[];
    }

    method AddEdge(u: Node, v: Node)
      modifies this
      ensures Value() == old(Value()).AddEdge(u, v)
    {
      if u !in succ {
        nodes := nodes + [u];
        succ := succ[u := []];
      }
      if v !in succ {
        nodes := nodes + [v];
        succ := succ[v := []];
      }
      if v !in succ[u] {
        succ := succ[u := succ[u] + [v]];
      }
    }

    /** The nodes `u` links to, each once. */
    function Neighbors(u: Node): (r: seq<Node>)
      reads this
      requires Valid() && u in succ
      ensures Distinct(r)
      ensures forall v :: v in r <==> Value().HasEdge(u, v)
    {
      succ[u]
    }

    /** The number of distinct nodes `u` links to. */
    function OutDegree(u: Node): (d: nat)
      reads this
      requires Valid() && u in succ
      ensures d == |Value().Targets(u)| == |Neighbors(u)|
    {
      OutDegreeCountsTargets(Value(), u);
      |succ[u]|
    }
  }

  /** The error `load_graph` raises: line `line` has fewer than two tokens. */
  datatype LoadError = TooFewTokens(line: nat)

  /** Line `i` has two tokens, and they are `a` and `b`. */
  ghost predicate LineLinks(lines: seq<seq<Node>>, i: int, a: Node, b: Node) {
    0 <= i < |lines| && |lines[i]| >= 2 && lines[i][0] == a && lines[i][1] == b
  }

  /** Line `i` has two tokens, and one of them is `w`. */
  ghost predicate LineNames(lines: seq<seq<Node>>, i: int, w: Node) {
    0 <= i < |lines| && |lines[i]| >= 2 && (lines[i][0] == w || lines[i][1] == w)
  }

  /** Each of the first `n` lines has at least two tokens. */
  ghost predicate Paired(lines: seq<seq<Node>>, n: nat)
    requires n <= |lines|
  {
    n == 0 || (Paired(lines, n - 1) && |lines[n - 1]| >= 2)
  }

  /**
   The graph built by adding, line by line, an edge from the first token to
   the second of each of the first `n` lines.
   */
  function Build(lines: seq<seq<Node>>, n: nat): Graph
    requires n <= |lines| && Paired(lines, n)
  {
    if n == 0 then Graph([], map[])
    else Build(lines, n - 1).AddEdge(lines[n - 1][0], lines[n - 1][1])
  }

  /** A loaded graph is well formed. */
  lemma {:induction false} BuildValid(lines: seq<seq<Node>>, n: nat)
    requires n <= |lines| && Paired(lines, n)
    ensures Build(lines, n).Valid()
  {
    if n > 0 {
      BuildValid(lines, n - 1);
      AddEdgeValid(Build(lines, n - 1), lines[n - 1][0], lines[n - 1][1]);
    }
  }

  /** Some line among the first `n` links `a` to `b` exactly when the last of them does or an earlier one does. */
  lemma LinkedBefore(lines: seq<seq<Node>>, n: nat, a: Node, b: Node)
    requires 0 < n
    ensures (exists i :: i < n && LineLinks(lines, i, a, b))
        <==> (exists i :: i < n - 1 && LineLinks(lines, i, a, b)) || LineLinks(lines, n - 1, a, b)
  {
  }

  /** Some line among the first `n` names `w` exactly when the last of them does or an earlier one does. */
  lemma NamedBefore(lines: seq<seq<Node>>, n: nat, w: Node)
    requires 0 < n
    ensures (exists i :: i < n && LineNames(lines, i, w))
        <==> (exists i :: i < n - 1 && LineNames(lines, i, w)) || LineNames(lines, n - 1, w)
  {
  }

  /** The loaded graph has an edge `a -> b` exactly when one of the lines starts with the tokens `a b`. */
  lemma {:induction false} BuildEdges(lines: seq<seq<Node>>, n: nat, a: Node, b: Node)
    requires n <= |lines| && Paired(lines, n)
    ensures Build(lines, n).HasEdge(a, b) <==> exists i :: i < n && LineLinks(lines, i, a, b)
  {
    if n > 0 {
      var line := lines[n - 1];
      AddEdgeEdges(Build(lines, n - 1), line[0], line[1]);
      BuildEdges(lines, n - 1, a, b);
      LinkedBefore(lines, n, a, b);
    }
  }

  /** The built graph's map is keyed by exactly its nodes. */
  lemma BuildIndexed(lines: seq<seq<Node>>, n: nat)
    requires n <= |lines| && Paired(lines, n)
    ensures forall x :: x in Build(lines, n).succ <==> x in Build(lines, n).nodes
  {
    BuildValid(lines, n);
  }

  /** The loaded graph's nodes are exactly the first two tokens of the lines. */
  lemma {:induction false} BuildNodes(lines: seq<seq<Node>>, n: nat, w: Node)
    requires n <= |lines| && Paired(lines, n)
    ensures w in Build(lines, n).nodes <==> exists i :: i < n && LineNames(lines, i, w)
  {
    if n > 0 {
      var line := lines[n - 1];
      BuildIndexed(lines, n - 1);
      AddEdgeNodes(Build(lines, n - 1), line[0], line[1], w);
      BuildNodes(lines, n - 1, w);
      NamedBefore(lines, n, w);
    }
  }

  /** Every one of the first `n` lines of a paired prefix has two tokens. */
  lemma {:induction false} PairedLine(lines: seq<seq<Node>>, n: nat, i: nat)
    requires n <= |lines| && Paired(lines, n) && i < n
    ensures |lines[i]| >= 2
  {
    if i < n - 1 {
      PairedLine(lines, n - 1, i);
    }
  }

  /** The first line with fewer than two tokens is line `i`. */
  ghost predicate FirstShortLine(lines: seq<seq<Node>>, i: nat) {
    i < |lines| && |lines[i]| < 2 && Paired(lines, i)
  }

  /**
   Adds one edge per line to `graph`, from the first token of the line to
   the second, and stops at the first line with fewer than two tokens;
   `stop` is that line, or the number of lines when there is none.
   */
  method AddLines(graph: DiGraph, lines: seq<seq<Node>>) returns (stop: nat)
    requires graph.Value() == Graph([], map[])
    modifies graph
    ensures stop <= |lines| && Paired(lines, stop)
    ensures stop < |lines| ==> |lines[stop]| < 2
    ensures graph.Value() == Build(lines, stop)
  {
    stop := 0;
    while stop < |lines| && |lines[stop]| >= 2
      invariant stop <= |lines| && Paired(lines, stop)
      invariant graph.Value() == Build(lines, stop)
    {
      graph.AddEdge(lines[stop][0], lines[stop][1]);
      stop := stop + 1;
    }
  }

  /**
   Reads the lines into a new graph, one `AddEdge` per line. The first line
   with fewer than two tokens aborts the load.
   */
  method LoadGraph(lines: seq<seq<Node>>) returns (r: Result<DiGraph, LoadError>)
    ensures r.Ok? <==> Paired(lines, |lines|)
    ensures r.Ok? ==> fresh(r.value) && r.value.Value() == Build(lines, |lines|) && r.value.Valid()
    ensures r.Err? ==> FirstShortLine(lines, r.error.line)
  {
    var graph := new DiGraph();
    var stop := AddLines(graph, lines);
    if stop < |lines| {
      if Paired(lines, |lines|) {
        PairedLine(lines, |lines|, stop);
      }
      return Err(TooFewTokens(stop));
    }
    BuildValid(lines, stop);
    return Ok(graph);
  }
}
