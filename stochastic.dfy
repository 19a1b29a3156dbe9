/**
 PageRank estimated by random walks: each walk starts on a node chosen at
 random, follows `nSteps` links chosen at random, and the node it stops on
 gains `1/nIter` of score.

 Randomness is a parameter: the oracle `pick` answers, for walk `w` and
 choice `c` of that walk, a number that is reduced modulo the number of
 candidates. Choice 0 of a walk picks its start node; choice `z + 1` picks
 the neighbour taken at step `z`. Every sequence of uniform random choices
 is the answer sequence of some oracle.
 */
module StochasticRank {
  import opened Outcomes
  import opened Sums
  import opened DirectedGraph

  /** The errors a random choice from an empty list raises: at the start, or at a node with no outgoing edges. */
  datatype RankError = EmptyNodeChoice | EmptyNeighborChoice(node: Node)

  /** The candidate the oracle designates for choice `c` of walk `w`. */
  function Choose(s: seq<Node>, pick: (nat, nat) -> nat, w: nat, c: nat): (r: Node)
    requires |s| > 0
    ensures r in s
  {
    s[pick(w, c) % |s|]
  }

  /**
   The node walk `w` stops on when it is at `cur`, has `steps` links still to
   follow, and its next choice is number `c`; or the node it is stuck on.
   */
  ghost function WalkFrom(g: Graph, pick: (nat, nat) -> nat, w: nat, c: nat, cur: Node, steps: nat): (r: Result<Node, RankError>)
    requires g.Valid() && cur in g.succ
    ensures r.Ok? ==> r.value in g.nodes
    decreases steps
  {
    if steps == 0 then Ok(cur)
    else if |g.succ[cur]| == 0 then Err(EmptyNeighborChoice(cur))
    else WalkFrom(g, pick, w, c + 1, Choose(g.succ[cur], pick, w, c), steps - 1)
  }

  /** Where walk `w` ends: it starts on the node the oracle picks, then follows `nSteps` links. */
  ghost function Landing(g: Graph, pick: (nat, nat) -> nat, nSteps: nat, w: nat): Result<Node, RankError>
    requires g.Valid()
  {
    if |g.nodes| == 0 then Err(EmptyNodeChoice)
    else WalkFrom(g, pick, w, 1, Choose(g.nodes, pick, w, 0), nSteps)
  }

  /** The landing nodes of walks `0 .. n - 1`, or the error of the first of them that fails. */
  ghost function Walks(g: Graph, pick: (nat, nat) -> nat, nSteps: nat, n: nat): Result<seq<Node>, RankError>
    requires g.Valid()
  {
    if n == 0 then Ok([])
    else
      var prev := Walks(g, pick, nSteps, n - 1);
      if prev.Err? then prev
      else
        var last := Landing(g, pick, nSteps, n - 1);
        if last.Err? then Err(last.error) else Ok(prev.value + [last.value])
  }

  /** How many of the `landed` walks ended on `v`. */
  ghost function Hits(landed: seq<Node>, v: Node): nat {
    if landed == [] then 0 else Hits(landed[..|landed| - 1], v) + (if landed[|landed| - 1] == v then 1 else 0)
  }

  /** Each node's share of the `landed` walks, out of `nIter` walks in all; all zero when there are no walks. */
  ghost function Scores(g: Graph, landed: seq<Node>, nIter: nat): map<Node, real> {
    map v | v in g.nodes :: if nIter == 0 then 0.0 else (Hits(landed, v) as real) / (nIter as real)
  }

  /** `v` is at the end of a path of exactly `n` links that starts at `u`. */
  ghost predicate Reaches(g: Graph, u: Node, v: Node, n: nat)
    decreases n
  {
    if n == 0 then u == v
    else exists t :: g.HasEdge(u, t) && Reaches(g, t, v, n - 1)
  }

  /** Walk number `w`: a random start node, then `nSteps` random links. */
  method Walk(graph: DiGraph, nSteps: nat, pick: (nat, nat) -> nat, w: nat) returns (r: Result<Node, RankError>)
    requires graph.Valid()
    ensures r == Landing(graph.Value(), pick, nSteps, w)
  {
    ghost var g := graph.Value();
    if |graph.nodes| == 0 {
      return Err(EmptyNodeChoice);
    }
    var current := Choose(graph.nodes, pick, w, 0);
    var z := 0;
    while z < nSteps
      invariant z <= nSteps
      invariant current in graph.succ
      invariant Landing(g, pick, nSteps, w) == WalkFrom(g, pick, w, z + 1, current, nSteps - z)
    {
      var nbrs := graph.Neighbors(current);
      if |nbrs| == 0 {
        return Err(EmptyNeighborChoice(current));
      }
      current := Choose(nbrs, pick, w, z + 1);
      z := z + 1;
    }
    return Ok(current);
  }

  /** One more landing on `v` raises `v`'s score by one walk's worth and leaves the others alone. */
  lemma ScoresAddLanding(g: Graph, landed: seq<Node>, nIter: nat, v: Node)
    requires nIter > 0 && v in g.nodes
    ensures Scores(g, landed + [v], nIter)
      == Scores(g, landed, nIter)[v := Scores(g, landed, nIter)[v] + 1.0 / (nIter as real)]
  {
    var n := nIter as real;
    assert (landed + [v])[..|landed|] == landed;
    var k := Hits(landed, v) as real;
    assert Hits(landed + [v], v) as real == k + 1.0;
    assert (k + 1.0) / n == k / n + 1.0 / n;
    forall w | w != v
      ensures Hits(landed + [v], w) == Hits(landed, w)
    {
    }
  }

  /** Credits one walk's worth of score to the node `current` the walk landed on. */
  method Tally(ghost g: Graph, hitCount: map<Node, real>, ghost landed: seq<Node>, nIter: nat, current: Node)
    returns (h: map<Node, real>)
    requires nIter > 0 && current in g.nodes && hitCount == Scores(g, landed, nIter)
    ensures h == Scores(g, landed + [current], nIter)
  {
    ScoresAddLanding(g, landed, nIter, current);
    h := hitCount[current := hitCount[current] + 1.0 / (nIter as real)];
  }

  /**
   Runs `nIter` random walks of `nSteps` links each and scores every node by
   the fraction of walks that end on it. The graph is only read.
   */
  method StochasticPageRank(graph: DiGraph, pick: (nat, nat) -> nat, nIter: nat := 1_000_000, nSteps: nat := 100)
    returns (r: Result<map<Node, real>, RankError>)
    requires graph.Valid()
    ensures Walks(graph.Value(), pick, nSteps, nIter).Err? ==>
      r == Err(Walks(graph.Value(), pick, nSteps, nIter).error)
    ensures Walks(graph.Value(), pick, nSteps, nIter).Ok? ==>
      r == Ok(Scores(graph.Value(), Walks(graph.Value(), pick, nSteps, nIter).value, nIter))
    ensures nIter == 0 ==> r == Ok(map v | v in graph.nodes :: 0.0)
  {
    ghost var g := graph.Value();
    var hitCount := map v | v in graph.nodes :: 0.0;
    ghost var landed: seq<Node> := [];
    var x := 0;
    while x < nIter
      invariant x <= nIter
      invariant Walks(g, pick, nSteps, x) == Ok(landed)
      invariant hitCount == Scores(g, landed, nIter)
    {
      var landing := Walk(graph, nSteps, pick, x);
      if landing.Err? {
        WalksKeepError(g, pick, nSteps, x, nIter);
        return Err(landing.error);
      }
      var current := landing.value;
      WalksAddLanding(g, pick, nSteps, x, landed, current);
      hitCount := Tally(g, hitCount, landed, nIter, current);
      landed := landed + [current];
      x := x + 1;
    }
    return Ok(hitCount);
  }

  /** When the first `x` walks land on `landed` and walk `x` lands on `l`, the first `x + 1` walks land on `landed + [l]`. */
  lemma WalksAddLanding(g: Graph, pick: (nat, nat) -> nat, nSteps: nat, x: nat, landed: seq<Node>, l: Node)
    requires g.Valid() && Walks(g, pick, nSteps, x) == Ok(landed) && Landing(g, pick, nSteps, x) == Ok(l)
    ensures l in g.nodes
    ensures Walks(g, pick, nSteps, x + 1) == Ok(landed + [l])
  {
  }

  /** Once walk `x` fails, the whole run of `n` walks fails with its error. */
  lemma {:induction false} WalksKeepError(g: Graph, pick: (nat, nat) -> nat, nSteps: nat, x: nat, n: nat)
    requires g.Valid() && x < n
    requires Walks(g, pick, nSteps, x).Ok? && Landing(g, pick, nSteps, x).Err?
    ensures Walks(g, pick, nSteps, n) == Err(Landing(g, pick, nSteps, x).error)
    decreases n
  {
    if n > x + 1 {
      WalksKeepError(g, pick, nSteps, x, n - 1);
    }
  }

  /** The hit count of a node is its number of occurrences among the landings. */
  lemma {:induction false} HitsCountOccurrences(landed: seq<Node>, v: Node)
    ensures Hits(landed, v) == multiset(landed)[v]
  {
    if landed != [] {
      var init, last := landed[..|landed| - 1], landed[|landed| - 1];
      assert landed == init + [last];
      assert multiset(landed) == multiset(init) + multiset{last};
      HitsCountOccurrences(init, v);
    }
  }

  /** Summing scores over some keys sums their occurrences among the landings, divided by the number of walks. */
  lemma {:induction false} TotalOfScores(g: Graph, landed: seq<Node>, nIter: nat, keys: seq<Node>)
    requires nIter > 0 && forall k :: k in keys ==> k in g.nodes
    ensures Total(keys, Scores(g, landed, nIter)) == (Multiplicities(keys, multiset(landed)) as real) / (nIter as real)
  {
    if keys != [] {
      var init, last := keys[..|keys| - 1], keys[|keys| - 1];
      TotalOfScores(g, landed, nIter, init);
      HitsCountOccurrences(landed, last);
      var s := Scores(g, landed, nIter);
      var n := nIter as real;
      var m := Multiplicities(init, multiset(landed)) as real;
      var k := multiset(landed)[last] as real;
      assert Total(keys, s) == Total(init, s) + s[last];
      assert s[last] == k / n;
      assert Multiplicities(keys, multiset(landed)) as real == m + k;
      SumOfFractions(m, k, n);
    }
  }

  /** When all `nIter` walks land on nodes, the scores add up to one. */
  lemma ScoresSumToOne(g: Graph, landed: seq<Node>, nIter: nat)
    requires g.Valid() && nIter > 0 && |landed| == nIter
    requires forall v :: v in landed ==> v in g.nodes
    ensures Total(g.nodes, Scores(g, landed, nIter)) == 1.0
  {
    TotalOfScores(g, landed, nIter, g.nodes);
    MultiplicitiesCover(g.nodes, landed);
    DivideSelf(nIter as real);
  }

  /** No score is negative. */
  lemma ScoresNonNegative(g: Graph, landed: seq<Node>, nIter: nat)
    ensures forall v :: v in Scores(g, landed, nIter) ==> Scores(g, landed, nIter)[v] >= 0.0
  {
    forall v | v in g.nodes && nIter > 0
      ensures (Hits(landed, v) as real) / (nIter as real) >= 0.0
    {
      ShareNonNegative(Hits(landed, v) as real, nIter as real);
    }
  }

  /** A successful run of `n` walks lands `n` times, each time on a node. */
  lemma {:induction false} WalksLand(g: Graph, pick: (nat, nat) -> nat, nSteps: nat, n: nat)
    requires g.Valid() && Walks(g, pick, nSteps, n).Ok?
    ensures |Walks(g, pick, nSteps, n).value| == n
    ensures forall v :: v in Walks(g, pick, nSteps, n).value ==> v in g.nodes
  {
    if n > 0 {
      WalksLand(g, pick, nSteps, n - 1);
    }
  }

  /** The scores of a successful run of at least one walk are non-negative, cover the nodes, and add up to one. */
  lemma ScoresAreDistribution(g: Graph, pick: (nat, nat) -> nat, nSteps: nat, nIter: nat)
    requires g.Valid() && nIter > 0 && Walks(g, pick, nSteps, nIter).Ok?
    ensures var s := Scores(g, Walks(g, pick, nSteps, nIter).value, nIter);
      && (forall v :: v in s <==> v in g.nodes)
      && (forall v :: v in s ==> s[v] >= 0.0)
      && Total(g.nodes, s) == 1.0
  {
    WalksLand(g, pick, nSteps, nIter);
    ScoresNonNegative(g, Walks(g, pick, nSteps, nIter).value, nIter);
    ScoresSumToOne(g, Walks(g, pick, nSteps, nIter).value, nIter);
  }

  /** On a graph where every node has a successor, a walk never gets stuck. */
  lemma {:induction false} WalkFromSucceeds(g: Graph, pick: (nat, nat) -> nat, w: nat, c: nat, cur: Node, steps: nat)
    requires g.Valid() && g.NoSinks() && cur in g.succ
    ensures WalkFrom(g, pick, w, c, cur, steps).Ok?
    decreases steps
  {
    if steps > 0 {
      WalkFromSucceeds(g, pick, w, c + 1, Choose(g.succ[cur], pick, w, c), steps - 1);
    }
  }

  /** On a non-empty graph without sinks, every run of walks succeeds. */
  lemma {:induction false} WalksSucceed(g: Graph, pick: (nat, nat) -> nat, nSteps: nat, n: nat)
    requires g.Valid() && g.NoSinks() && |g.nodes| > 0
    ensures Walks(g, pick, nSteps, n).Ok?
  {
    if n > 0 {
      WalksSucceed(g, pick, nSteps, n - 1);
      WalkFromSucceeds(g, pick, n - 1, 1, Choose(g.nodes, pick, n - 1, 0), nSteps);
    }
  }

  /** On the empty graph, any run of at least one walk fails at the first choice of a start node. */
  lemma {:induction false} WalksOnEmpty(g: Graph, pick: (nat, nat) -> nat, nSteps: nat, n: nat)
    requires g.Valid() && |g.nodes| == 0 && n > 0
    ensures Walks(g, pick, nSteps, n) == Err(EmptyNodeChoice)
  {
    if n > 1 {
      WalksOnEmpty(g, pick, nSteps, n - 1);
    }
  }

  /** A walk that does not get stuck ends where a path of `steps` links from `cur` ends. */
  lemma {:induction false} WalkFromReaches(g: Graph, pick: (nat, nat) -> nat, w: nat, c: nat, cur: Node, steps: nat)
    requires g.Valid() && cur in g.succ && WalkFrom(g, pick, w, c, cur, steps).Ok?
    ensures Reaches(g, cur, WalkFrom(g, pick, w, c, cur, steps).value, steps)
    decreases steps
  {
    if steps > 0 {
      var next := Choose(g.succ[cur], pick, w, c);
      WalkFromReaches(g, pick, w, c + 1, next, steps - 1);
      assert g.HasEdge(cur, next);
    }
  }

  /**
   A walk that lands ends on a node reached by a path of exactly `nSteps`
   links from the start node the oracle picked for it.
   */
  lemma LandingReaches(g: Graph, pick: (nat, nat) -> nat, nSteps: nat, w: nat)
    requires g.Valid() && Landing(g, pick, nSteps, w).Ok?
    ensures |g.nodes| > 0
    ensures Reaches(g, Choose(g.nodes, pick, w, 0), Landing(g, pick, nSteps, w).value, nSteps)
  {
    WalkFromReaches(g, pick, w, 1, Choose(g.nodes, pick, w, 0), nSteps);
  }
}
