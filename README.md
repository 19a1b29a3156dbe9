# PageRank estimators over a link graph

A model of the two PageRank estimators in `practical-5/page_rank.py` and of the
graph loader they run on.

- **The loader** (`load_graph`) reads lines of whitespace-separated tokens.
  For each line it adds a directed edge from the first token to the second.
  - Tokens after the second are ignored.
  - A line with fewer than two tokens is an indexing error.
  - The graph has set semantics: a repeated edge is stored once, so a
    node's out-degree counts distinct targets. Self-loops are allowed.
- **The distribution ranker** (`distribution_page_rank`) is power iteration.
  1. Every node starts at `1/N`.
  2. Each round has two passes. The scatter pass adds `prob[u] / out_degree(u)`
     to `next_prob[v]` for every edge `u -> v`. The commit pass copies
     `next_prob` into `node_prob` and resets `next_prob` to zero.
  3. A node without outgoing edges makes the share a division by zero.
- **The stochastic ranker** (`stochastic_page_rank`) runs `n_iter` random walks.
  - Each walk starts on a randomly chosen node and follows `n_steps` randomly
    chosen links.
  - The node a walk stops on gains `1/n_iter`.
  - Choosing from an empty list fails. That happens at the start on an empty
    graph, or at a node without outgoing edges when a step remains to be taken
    there; a walk whose last link lands on such a node succeeds.

## How it is organised

| file | module | content |
|---|---|---|
| `outcomes.dfy` | `Outcomes` | `Result`: the exceptions the source raises become error values. |
| `sums.dfy` | `Sums` | Sums over sequences of keys, and counting facts about sequences without repeats. |
| `digraph.dfy` | `DirectedGraph` | The graph as a value (`Graph`) and as an object updated in place (`DiGraph`). Also `Build`, the line-by-line specification of the loader, and the loader method `LoadGraph`. |
| `distribution.dfy` | `DistributionRank` | The one-round transfer `Round` and its iteration `Iterate`. The in-place passes `Send`, `Spread`, `Scatter` and `Commit`. The ranker `DistributionPageRank`. Mass conservation. |
| `stochastic.dfy` | `StochasticRank` | The walk specification (`WalkFrom`, `Landing`, `Walks`, `Scores`). The methods `Walk`, `Tally` and `StochasticPageRank`. The lemmas on score totals, success and reachability. |

### Representation choices

- **Node identifiers.** A node identifier is an opaque type compared only for
  equality; in the web data it is a URL.
- **Graph.** A graph is its node list in insertion order plus a map from each
  node to its distinct successors in insertion order. `Valid` states the
  invariant the graph library maintains:
  - there are no repeated nodes;
  - the map's keys are exactly the nodes;
  - successor lists have no repeats;
  - every successor is a node.
- **Scores.** Scores are exact reals, so a sum does not depend on the order it
  is taken in.
- **Randomness.** Randomness is an oracle `pick: (nat, nat) -> nat`.
  - Choice `c` of walk `w` takes the candidate at index `pick(w, c) mod |candidates|`.
  - Choice 0 of a walk picks the start node; choice `z + 1` picks the link
    followed at step `z`.
  - Every run of uniform random choices is the answer sequence of some oracle.
- **Errors.** Each error becomes a `Result` error, not a precondition:
  - `TooFewTokens(line)`: a line with fewer than two tokens.
  - `ZeroOutDegree(node)`: the division by zero.
  - `EmptyNodeChoice`: a random choice of start node on an empty graph.
  - `EmptyNeighborChoice(node)`: a random choice of neighbour at a node without
    outgoing edges.
- **No sinks.** "Every node has an outgoing edge" is the hypothesis of the
  mass and success lemmas. It is not a requirement of the rankers.
- **Read-only rankers.** Neither ranker changes the graph: their methods have
  no `modifies` clause.

## Model

| member | source | states |
|---|---|---|
| DirectedGraph.Graph.AddNode | practical-5/page_rank.py:32 | After adding `w`, `w` is a node and every earlier node still is. |
| DirectedGraph.Graph.AddEdge | practical-5/page_rank.py:32 | After `add_edge(u, v)` the edge `u -> v` is present. |
| DirectedGraph.AddEdgeValid | practical-5/page_rank.py:32 | Adding an edge keeps the graph well formed: nodes and successor lists stay free of repeats, and both ends become nodes. |
| DirectedGraph.AddEdgeEdges | practical-5/page_rank.py:32 | The edges after adding `u -> v` are the old edges plus `u -> v`, and nothing else. A repeated edge changes nothing. |
| DirectedGraph.AddEdgeNodes | practical-5/page_rank.py:32 | The nodes after adding `u -> v` are the old nodes plus `u` and `v`. |
| DirectedGraph.AddEdgeKeepsOrder | practical-5/page_rank.py:32 | Old nodes keep their order; new nodes go at the end. |
| DirectedGraph.OutDegreeCountsTargets | practical-5/page_rank.py:95 | The out-degree equals the number of distinct nodes linked to. |
| DirectedGraph.DiGraph.constructor | practical-5/page_rank.py:26 | A new graph has no nodes and no edges. |
| DirectedGraph.DiGraph.AddEdge | practical-5/page_rank.py:32 | In place, the object's graph becomes the old graph with the edge added. |
| DirectedGraph.DiGraph.Neighbors | practical-5/page_rank.py:98 | The neighbours of `u` have no repeats, and `v` is among them exactly when `u -> v` is an edge. |
| DirectedGraph.DiGraph.OutDegree | practical-5/page_rank.py:95 | The out-degree is the number of distinct targets and the length of the neighbour list. |
| DirectedGraph.BuildValid | practical-5/page_rank.py:26-33 | The graph the lines build is well formed. |
| DirectedGraph.BuildEdges | practical-5/page_rank.py:29-32 | The built graph has edge `a -> b` exactly when some line's first two tokens are `a b`. Later tokens play no part. |
| DirectedGraph.BuildNodes | practical-5/page_rank.py:29-32 | The built graph's nodes are exactly the first two tokens of the lines. |
| DirectedGraph.PairedLine | practical-5/page_rank.py:31-32 | In a run of lines that all have two tokens, each line has two tokens. This is what rules out success after a short line. |
| DirectedGraph.AddLines | practical-5/page_rank.py:29-32 | The graph holds the `Build` of the lines before the first short line, or of all lines when there is none. That short line, if any, is where the method stops. |
| DirectedGraph.LoadGraph | practical-5/page_rank.py:26-33 | Loading succeeds exactly when every line has two tokens. It then returns a new, well-formed graph equal to `Build` of all lines. Otherwise it reports the first line with fewer than two tokens. |
| DistributionRank.OutflowCountsEdges | practical-5/page_rank.py:95-99 | What `u` sends to a list of nodes is its per-edge share once per edge into them. |
| DistributionRank.OutflowIsMass | practical-5/page_rank.py:95-99 | A node with outgoing edges sends out exactly its mass. |
| DistributionRank.ReceivedFromOneMore | practical-5/page_rank.py:93-99 | One more sender adds exactly what it sends to the total received. |
| DistributionRank.ReceivedIsSent | practical-5/page_rank.py:93-99 | The total the nodes receive equals the total the senders hold. |
| DistributionRank.ReceivedFromNone | practical-5/page_rank.py:93-99 | With no senders, nothing is received. |
| DistributionRank.TotalOfRound | practical-5/page_rank.py:93-103 | Summing a round's result sums the nodes' inflows. |
| DistributionRank.RoundConservesMass | practical-5/page_rank.py:93-105 | On a graph without sinks, one round leaves the total mass unchanged. |
| DistributionRank.InflowNonNegative | practical-5/page_rank.py:97-99 | Inflows of non-negative masses are non-negative. |
| DistributionRank.RoundKeepsDistribution | practical-5/page_rank.py:93-105 | Without sinks, a round maps a probability distribution over the nodes to another one. |
| DistributionRank.UniformIsDistribution | practical-5/page_rank.py:87-89 | On a non-empty graph the starting `1/N` map is a probability distribution. |
| DistributionRank.IterateIsDistribution | practical-5/page_rank.py:89-105 | On a non-empty graph without sinks, the result after any number of rounds covers exactly the nodes, is non-negative and sums to 1. |
| DistributionRank.Send | practical-5/page_rank.py:97-99 | Walking `u`'s neighbours adds `p` to the entry of each node `u` links to. The other entries are unchanged, and the keys stay the nodes. |
| DistributionRank.Spread | practical-5/page_rank.py:95-99 | Scattering one node succeeds exactly when it has outgoing edges, and adds to each node its share from `u`. With no outgoing edges it fails with a division by zero at `u`. |
| DistributionRank.Scatter | practical-5/page_rank.py:93-99 | Starting from zeros, the scatter pass succeeds exactly when no node is a sink, and then gives `Round` of the masses. Otherwise it fails at the first sink in node order. |
| DistributionRank.Commit | practical-5/page_rank.py:101-105 | After the commit pass the masses are the gathered values and the gathered map is all zeros. |
| DistributionRank.DistributionPageRank | practical-5/page_rank.py:71-106 | The result has a key for exactly the graph's nodes and equals `Iterate` of the uniform start. `n_iter = 0` gives `1/N` everywhere; an empty graph gives `{}`. The method fails exactly when some node is a sink and `n_iter >= 1`, and reports the first sink. On a non-empty result the values are non-negative and sum to 1. |
| StochasticRank.Choose | practical-5/page_rank.py:63-66 | A random choice from a non-empty list is an element of the list. |
| StochasticRank.WalkFrom | practical-5/page_rank.py:64-66 | A walk that does not get stuck stops on a node of the graph. |
| StochasticRank.Walk | practical-5/page_rank.py:63-66 | One walk lands where `Landing` says, or fails with the empty choice that stops it. |
| StochasticRank.ScoresAddLanding | practical-5/page_rank.py:68 | One more landing on `v` raises `v`'s score by `1/n_iter` and leaves the other scores alone. |
| StochasticRank.Tally | practical-5/page_rank.py:68 | Crediting the landing node turns the scores of the earlier walks into the scores including this one. |
| StochasticRank.StochasticPageRank | practical-5/page_rank.py:41-69 | If some walk fails, the result is the first walk's error. Otherwise each node's score is the number of walks landing on it divided by `n_iter`. `n_iter = 0` gives zero everywhere. |
| StochasticRank.WalksAddLanding | practical-5/page_rank.py:61-68 | When the first `x` walks land and walk `x` lands, the first `x + 1` landings are the earlier ones followed by walk `x`'s. |
| StochasticRank.WalksKeepError | practical-5/page_rank.py:61-66 | The first failing walk decides the error of the whole run. |
| StochasticRank.HitsCountOccurrences | practical-5/page_rank.py:68 | A node's hit count is its number of occurrences among the landings. |
| StochasticRank.TotalOfScores | practical-5/page_rank.py:60-68 | The scores of some nodes add up to their hit counts divided by `n_iter`. |
| StochasticRank.ScoresSumToOne | practical-5/page_rank.py:60-68 | When `n_iter >= 1` walks all land on nodes, the scores add up to 1. |
| StochasticRank.ScoresNonNegative | practical-5/page_rank.py:60-68 | No score is negative. |
| StochasticRank.WalksLand | practical-5/page_rank.py:61-68 | A successful run of `n` walks has `n` landings, each a node. |
| StochasticRank.ScoresAreDistribution | practical-5/page_rank.py:60-69 | A successful run of `n_iter >= 1` walks gives scores that cover exactly the nodes, are non-negative and sum to 1. |
| StochasticRank.WalkFromSucceeds | practical-5/page_rank.py:65-66 | Where every node has an outgoing edge, a walk never meets an empty choice. |
| StochasticRank.WalksSucceed | practical-5/page_rank.py:61-66 | On a non-empty graph without sinks, every run of walks succeeds. |
| StochasticRank.WalksOnEmpty | practical-5/page_rank.py:63 | On an empty graph, `n_iter >= 1` walks fail on the choice of start node. |
| StochasticRank.WalkFromReaches | practical-5/page_rank.py:65-66 | A walk that does not get stuck ends at the end of a path of exactly `n_steps` links from where it is. |
| StochasticRank.LandingReaches | practical-5/page_rank.py:63-66 | A walk's landing node is reached by exactly `n_steps` links from the start node the walk chose, so with `n_steps = 0` it is that start node itself. |

## Left out

- Reading the file and splitting lines into tokens (`open`, `str.split`): the loader takes the lines already split into tokens.
- `main`, `print_stats`, the timing, the top-20 sort and the printed report: these are presentation and input/output.
- The `WEB_DATA` path and the `progress` import: these are configuration and code outside this repository.
- The graph library's internals: the graph is the small adjacency structure described above. Only the operations the rankers and the loader use are modelled: `add_edge`, `nodes`, `neighbors`, `out_degree` and the node count.
- Real randomness: it is the `pick` oracle. Statistical convergence of the estimate is not stated.
- Floating-point rounding: all masses and scores are exact reals. Because of this, the sums equal exactly 1 here, which they need not do in floating point.
- Node identifiers are opaque values compared for equality, not URL strings.
- DistributionRank.DistributionPageRank: `nIter` is a `nat` defaulting to 100, as `n_iter` does. The source accepts any integer, and a negative `n_iter` makes the round loop empty, so it behaves as 0 (uniform `1/N`). The model does not accept negative counts.
- StochasticRank.StochasticPageRank: `nIter` and `nSteps` are `nat`s defaulting to 1 000 000 and 100, as `n_iter` and `n_steps` do. The source accepts any integers, and a negative count makes its loop empty, so it behaves as 0: a negative `n_iter` gives all-zero scores, and a negative `n_steps` makes each walk stop on its start node. The model does not accept negative counts. The oracle `pick` comes before the counts so that both can keep their defaults.
- DirectedGraph.DiGraph.AddEdge: its contract gives the new graph value but not well-formedness; `AddEdgeValid` states that separately about the value.
- StochasticRank.StochasticPageRank: the keys of the result are stated through `Scores`, whose keys are the nodes; the score total is the separate lemma `ScoresAreDistribution`.
