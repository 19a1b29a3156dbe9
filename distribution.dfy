/**
 PageRank by repeated propagation of a probability distribution: every
 round, each node splits its mass equally over its outgoing edges, and the
 new mass of a node is everything that flows into it.

 Masses are exact reals. A node without outgoing edges makes its share a
 division by zero, which the ranker reports as an error.
 */
module DistributionRank {
  import opened Outcomes
  import opened Sums
  import opened DirectedGraph

  /** The division by zero the ranker raises at a node with no outgoing edges. */
  datatype RankError = ZeroOutDegree(node: Node)

  /** `prob` gives a value for every node of `g`. */
  ghost predicate Covers(g: Graph, prob: map<Node, real>) {
    forall u :: u in g.nodes ==> u in prob
  }

  /** Every node in `us` is a node of `g` with at least one outgoing edge. */
  ghost predicate Senders(g: Graph, us: seq<Node>) {
    forall u :: u in us ==> u in g.succ && |g.succ[u]| > 0
  }

  /** The mass `u` sends to `v` in one round: an equal share of `prob[u]` per outgoing edge. */
  ghost function Share(g: Graph, prob: map<Node, real>, u: Node, v: Node): real
    requires u in g.succ && |g.succ[u]| > 0 && u in prob
  {
    if v in g.succ[u] then prob[u] / (|g.succ[u]| as real) else 0.0
  }

  /** The mass `v` receives in one round from the senders `us`. */
  ghost function Inflow(g: Graph, prob: map<Node, real>, us: seq<Node>, v: Node): real
    requires Senders(g, us) && forall u :: u in us ==> u in prob
  {
    if us == [] then 0.0
    else Inflow(g, prob, us[..|us| - 1], v) + Share(g, prob, us[|us| - 1], v)
  }

  /** One round of propagation: each node's new mass is its inflow from all nodes. */
  ghost function Round(g: Graph, prob: map<Node, real>): map<Node, real>
    requires g.Valid() && g.NoSinks() && Covers(g, prob)
  {
    map v | v in g.nodes :: Inflow(g, prob, g.nodes, v)
  }

  /** `n` rounds of propagation starting from `prob`. */
  ghost function Iterate(g: Graph, prob: map<Node, real>, n: nat): map<Node, real>
    requires g.Valid() && Covers(g, prob) && (n > 0 ==> g.NoSinks())
  {
    if n == 0 then prob
    else
      var before := Iterate(g, prob, n - 1);
      Round(g, before)
  }

  /** The starting distribution: every node holds one over the number of nodes. */
  ghost function Uniform(g: Graph): map<Node, real> {
    map v | v in g.nodes :: 1.0 / (|g.nodes| as real)
  }

  /** Every node holds zero. */
  ghost function Zeros(g: Graph): map<Node, real> {
    map v | v in g.nodes :: 0.0
  }

  /**
   `w` is the first node, in node order, without outgoing edges: the node
   whose share divides by zero.
   */
  ghost predicate FirstSink(g: Graph, w: Node) {
    exists k :: 0 <= k < |g.nodes| && g.nodes[k] == w && w in g.succ && |g.succ[w]| == 0 && Senders(g, g.nodes[..k])
  }

  /** A map over exactly the nodes of `g`, with non-negative values that add up to one. */
  ghost predicate IsDistribution(g: Graph, prob: map<Node, real>) {
    && (forall v :: v in prob <==> v in g.nodes)
    && (forall v :: v in prob ==> prob[v] >= 0.0)
    && Total(g.nodes, prob) == 1.0
  }

  /** The mass `u` sends, in one round, to the nodes `vs`. */
  ghost function Outflow(g: Graph, prob: map<Node, real>, u: Node, vs: seq<Node>): real
    requires u in g.succ && |g.succ[u]| > 0 && u in prob
  {
    if vs == [] then 0.0
    else Outflow(g, prob, u, vs[..|vs| - 1]) + Share(g, prob, u, vs[|vs| - 1])
  }

  /** What `u` sends to `vs` is its per-edge share once for every edge into `vs`. */
  lemma {:induction false} OutflowCountsEdges(g: Graph, prob: map<Node, real>, u: Node, vs: seq<Node>)
    requires g.Valid() && u in g.succ && |g.succ[u]| > 0 && u in prob
    ensures Outflow(g, prob, u, vs) == Times(Multiplicities(vs, multiset(g.succ[u])), prob[u] / (|g.succ[u]| as real))
  {
    if vs != [] {
      OutflowCountsEdges(g, prob, u, vs[..|vs| - 1]);
      DistinctMultiplicity(g.succ[u], vs[|vs| - 1]);
    }
  }

  /** A node with outgoing edges sends all of its mass, and only it, to the nodes. */
  lemma OutflowIsMass(g: Graph, prob: map<Node, real>, u: Node)
    requires g.Valid() && u in g.succ && |g.succ[u]| > 0 && u in prob
    ensures Outflow(g, prob, u, g.nodes) == prob[u]
  {
    OutflowCountsEdges(g, prob, u, g.nodes);
    MultiplicitiesCover(g.nodes, g.succ[u]);
    SharesMakeWhole(|g.succ[u]|, prob[u]);
  }

  /** The total mass the nodes `vs` receive from the senders `us`. */
  ghost function Received(g: Graph, prob: map<Node, real>, us: seq<Node>, vs: seq<Node>): real
    requires Senders(g, us) && forall u :: u in us ==> u in prob
  {
    if vs == [] then 0.0
    else Received(g, prob, us, vs[..|vs| - 1]) + Inflow(g, prob, us, vs[|vs| - 1])
  }

  /** One more sender adds exactly what it sends. */
  lemma {:induction false} ReceivedFromOneMore(g: Graph, prob: map<Node, real>, us: seq<Node>, u: Node, vs: seq<Node>)
    requires Senders(g, us + [u]) && forall w :: w in us + [u] ==> w in prob
    ensures Senders(g, us)
    ensures Received(g, prob, us + [u], vs) == Received(g, prob, us, vs) + Outflow(g, prob, u, vs)
  {
    assert (us + [u])[..|us|] == us;
    if vs != [] {
      ReceivedFromOneMore(g, prob, us, u, vs[..|vs| - 1]);
    }
  }

  /** Everything the senders `us` hold arrives somewhere among the nodes. */
  lemma {:induction false} ReceivedIsSent(g: Graph, prob: map<Node, real>, us: seq<Node>)
    requires g.Valid() && Senders(g, us) && forall u :: u in us ==> u in prob
    ensures Received(g, prob, us, g.nodes) == Total(us, prob)
  {
    if us == [] {
      ReceivedFromNone(g, prob, g.nodes);
    } else {
      var init, last := us[..|us| - 1], us[|us| - 1];
      assert us == init + [last];
      ReceivedIsSent(g, prob, init);
      ReceivedFromOneMore(g, prob, init, last, g.nodes);
      OutflowIsMass(g, prob, last);
    }
  }

  /** Without senders nothing is received. */
  lemma {:induction false} ReceivedFromNone(g: Graph, prob: map<Node, real>, vs: seq<Node>)
    ensures Received(g, prob, [], vs) == 0.0
  {
    if vs != [] {
      ReceivedFromNone(g, prob, vs[..|vs| - 1]);
    }
  }

  /** Summing a round's result over some nodes sums their inflows. */
  lemma {:induction false} TotalOfRound(g: Graph, prob: map<Node, real>, vs: seq<Node>)
    requires g.Valid() && g.NoSinks() && Covers(g, prob)
    requires forall v :: v in vs ==> v in g.nodes
    ensures Total(vs, Round(g, prob)) == Received(g, prob, g.nodes, vs)
  {
    if vs != [] {
      TotalOfRound(g, prob, vs[..|vs| - 1]);
    }
  }

  /** On a graph without sinks, a round moves mass around but neither creates nor loses any. */
  lemma RoundConservesMass(g: Graph, prob: map<Node, real>)
    requires g.Valid() && g.NoSinks() && Covers(g, prob)
    ensures Total(g.nodes, Round(g, prob)) == Total(g.nodes, prob)
  {
    TotalOfRound(g, prob, g.nodes);
    ReceivedIsSent(g, prob, g.nodes);
  }

  /** Inflows of non-negative masses are non-negative. */
  lemma {:induction false} InflowNonNegative(g: Graph, prob: map<Node, real>, us: seq<Node>, v: Node)
    requires Senders(g, us) && forall u :: u in us ==> u in prob && prob[u] >= 0.0
    ensures Inflow(g, prob, us, v) >= 0.0
  {
    if us != [] {
      InflowNonNegative(g, prob, us[..|us| - 1], v);
    }
  }

  /** A round maps a probability distribution to a probability distribution. */
  lemma RoundKeepsDistribution(g: Graph, prob: map<Node, real>)
    requires g.Valid() && g.NoSinks() && IsDistribution(g, prob)
    ensures IsDistribution(g, Round(g, prob))
  {
    RoundConservesMass(g, prob);
    forall v | v in g.nodes
      ensures Round(g, prob)[v] >= 0.0
    {
      InflowNonNegative(g, prob, g.nodes, v);
    }
  }

  /** On a non-empty graph the uniform start is a probability distribution. */
  lemma UniformIsDistribution(g: Graph)
    requires |g.nodes| > 0
    ensures IsDistribution(g, Uniform(g))
  {
    TotalOfConstant(g.nodes, Uniform(g), 1.0 / (|g.nodes| as real));
    SharesMakeWhole(|g.nodes|, 1.0);
  }

  /** On a non-empty graph without sinks, every round's result is a probability distribution. */
  lemma {:induction false} IterateIsDistribution(g: Graph, n: nat)
    requires g.Valid() && g.NoSinks() && |g.nodes| > 0
    ensures IsDistribution(g, Iterate(g, Uniform(g), n))
  {
    if n == 0 {
      UniformIsDistribution(g);
    } else {
      IterateIsDistribution(g, n - 1);
      RoundKeepsDistribution(g, Iterate(g, Uniform(g), n - 1));
    }
  }

  /**
   Adds `p` to the mass gathered at each node `u` links to, visiting the
   neighbours one by one; every other entry is left alone.
   */
  method Send(graph: DiGraph, u: Node, p: real, next: map<Node, real>) returns (r: map<Node, real>)
    requires graph.Valid() && u in graph.succ
    requires forall v :: v in next <==> v in graph.nodes
    ensures forall v :: v in r <==> v in graph.nodes
    ensures forall v :: v in r ==> r[v] == next[v] + (if graph.Value().HasEdge(u, v) then p else 0.0)
  {
    var nbrs := graph.Neighbors(u);
    r := next;
    var j := 0;
    while j < |nbrs|
      invariant j <= |nbrs|
      invariant forall v :: v in r <==> v in graph.nodes
      invariant forall v :: v in r ==> r[v] == next[v] + (if v in nbrs[..j] then p else 0.0)
    {
      var v := nbrs[j];
      assert nbrs[..j + 1] == nbrs[..j] + [v];
      DistinctPrefix(nbrs, j);
      r := r[v := r[v] + p];
      j := j + 1;
    }
    assert nbrs[..j] == nbrs;
  }

  /**
   Scatters the mass of one node `u`: its share per outgoing edge, added to
   the mass gathered at each node it links to. A node without outgoing
   edges makes the share a division by zero.
   */
  method Spread(graph: DiGraph, prob: map<Node, real>, u: Node, gathered: map<Node, real>) returns (r: Result<map<Node, real>, RankError>)
    requires graph.Valid() && u in graph.succ && u in prob
    requires forall v :: v in gathered <==> v in graph.nodes
    ensures r.Ok? <==> |graph.succ[u]| > 0
    ensures r.Ok? ==> forall v :: v in r.value <==> v in graph.nodes
    ensures r.Ok? ==> forall v :: v in r.value ==> r.value[v] == gathered[v] + Share(graph.Value(), prob, u, v)
    ensures r.Err? ==> r.error == ZeroOutDegree(u)
  {
    var degree := graph.OutDegree(u);
    if degree == 0 {
      return Err(ZeroOutDegree(u));
    }
    var spread := Send(graph, u, prob[u] / (degree as real), gathered);
    return Ok(spread);
  }

  /**
   One scatter pass: each node in turn splits its mass `prob` equally over
   its outgoing edges into the gathering map `next`, which starts at zero.
   Fails at the first node, in node order, that has no outgoing edges.
   */
  method Scatter(graph: DiGraph, prob: map<Node, real>, next: map<Node, real>) returns (r: Result<map<Node, real>, RankError>)
    requires graph.Valid() && Covers(graph.Value(), prob)
    requires next == Zeros(graph.Value())
    ensures r.Ok? <==> graph.Value().NoSinks()
    ensures r.Ok? ==> r.value == Round(graph.Value(), prob)
    ensures r.Err? ==> FirstSink(graph.Value(), r.error.node)
  {
    ghost var g := graph.Value();
    var nodes := graph.nodes;
    var gathered := next;
    var i := 0;
    while i < |nodes|
      invariant i <= |nodes|
      invariant Senders(g, nodes[..i])
      invariant forall v :: v in gathered <==> v in nodes
      invariant forall v :: v in gathered ==> gathered[v] == Inflow(g, prob, nodes[..i], v)
    {
      var u := nodes[i];
      assert nodes[..i + 1] == nodes[..i] + [u];
      var spread := Spread(graph, prob, u, gathered);
      if spread.Err? {
        assert FirstSink(g, u);
        return Err(spread.error);
      }
      gathered := spread.value;
      i := i + 1;
    }
    assert nodes[..i] == nodes;
    return Ok(gathered);
  }

  /**
   The pass that ends a round: for each node in turn, its mass becomes the
   mass gathered for it and its gathered mass is reset to zero.
   */
  method Commit(nodes: seq<Node>, prob: map<Node, real>, next: map<Node, real>) returns (prob': map<Node, real>, next': map<Node, real>)
    requires Distinct(nodes)
    requires forall v :: v in prob <==> v in nodes
    requires forall v :: v in next <==> v in nodes
    ensures prob' == next
    ensures next' == map v | v in nodes :: 0.0
  {
    prob', next' := prob, next;
    var i := 0;
    while i < |nodes|
      invariant i <= |nodes|
      invariant forall v :: v in prob' <==> v in nodes
      invariant forall v :: v in next' <==> v in nodes
      invariant forall v :: v in nodes[..i] ==> prob'[v] == next[v] && next'[v] == 0.0
      invariant forall v :: v in nodes && v !in nodes[..i] ==> next'[v] == next[v]
    {
      var u := nodes[i];
      assert nodes[..i + 1] == nodes[..i] + [u];
      DistinctPrefix(nodes, i);
      prob' := prob'[u := next'[u]];
      next' := next'[u := 0.0];
      i := i + 1;
    }
    assert nodes[..i] == nodes;
  }

  /**
   Starts from the uniform distribution and runs `nIter` rounds of
   propagation; the graph is only read. An empty graph gives an empty map.
   */
  method DistributionPageRank(graph: DiGraph, nIter: nat := 100) returns (r: Result<map<Node, real>, RankError>)
    requires graph.Valid()
    ensures r.Ok? <==> nIter == 0 || graph.Value().NoSinks()
    ensures r.Ok? ==> forall v :: v in r.value <==> v in graph.nodes
    ensures r.Ok? ==> r.value == Iterate(graph.Value(), Uniform(graph.Value()), nIter)
    ensures r.Err? ==> FirstSink(graph.Value(), r.error.node)
    ensures nIter == 0 ==> r == Ok(Uniform(graph.Value()))
    ensures |graph.nodes| == 0 ==> r == Ok(map[])
    ensures r.Ok? && |graph.nodes| > 0 ==> IsDistribution(graph.Value(), r.value)
  {
    ghost var g := graph.Value();
    var nodes := graph.nodes;
    var nodeProb := map v | v in nodes :: 1.0 / (|nodes| as real);
    var nextProb := map v | v in nodes :: 0.0;
    var x := 0;
    while x < nIter
      invariant x <= nIter
      invariant x > 0 ==> g.NoSinks()
      invariant nodeProb == Iterate(g, Uniform(g), x)
      invariant nextProb == Zeros(g)
    {
      var scattered := Scatter(graph, nodeProb, nextProb);
      if scattered.Err? {
        return Err(scattered.error);
      }
      nodeProb, nextProb := Commit(nodes, nodeProb, scattered.value);
      x := x + 1;
    }
    if |nodes| > 0 {
      if nIter == 0 {
        UniformIsDistribution(g);
      } else {
        IterateIsDistribution(g, nIter);
      }
    }
    return Ok(nodeProb);
  }
}
