# junction-swap route solver, in Dafny

This project models the route solver of junction-swap
(`GraphSolver` in `app/services/graph_solver.py`) and proves properties of
the model. Given a list of tokens and a list of constant-product liquidity
pools, the solver does the following:

- It builds an undirected token graph with one edge per token pair.
- It enumerates the simple paths of 1 to `max_hops` edges between two tokens.
- It simulates each path hop by hop. A hop uses the x·y = k rule with a 0.3%
  fee and truncates its output toward zero to the output token's decimals.
- It returns the first path found with the greatest positive output, or no
  route.

Amounts are exact `real`s. Truncation to `d` decimals is an explicit function.

Modules, in dependency order:

| module | file | models |
|---|---|---|
| `Wrappers` | wrappers.dfy | `Option` and `Result` |
| `Sequences` | sequences.dfy | `Last` and `NoDup` |
| `Models` | models.dfy | `Token`, `Pool` and `SwapRoute` (app/models.py) |
| `Decimals` | decimals.dfy | `quantize(Decimal('1e-d'), rounding=ROUND_DOWN)` |
| `Graph` | graph.dfy | the `networkx.Graph` the solver uses, and the build loops of `update_graph` |
| `Swap` | swap.dfy | `_calculate_output_amount` |
| `Solver` | solver.dfy | the solver state: the graph plus the pool and token caches |
| `PathEval` | path_eval.dfy | `_get_path_details` |
| `Enumeration` | enumeration.dfy | `networkx.all_simple_paths` with a cutoff |
| `Routing` | routing.dfy | `find_best_route` |

Notes on the model:

- **Graph.** The graph is three things:
  - a node set;
  - a map from an unordered address pair (a `set<Address>`) to the edge's
    pool address;
  - the list of pairs in first-insertion order.

  The insertion order is the order in which `networkx` reports neighbours.
  It therefore fixes the order in which paths are found, and so which path
  wins a tie.
- **Enumeration.** Path enumeration is defined directly as the depth-first
  search that `networkx` 2.x runs: neighbours are tried in insertion order,
  a token already on the path is skipped, and the target is never passed
  through. `SimplePathsExact` proves that it yields exactly the simple paths
  within the cutoff.
- **Exceptions.** `find_best_route` catches every exception and returns
  `None`. There are two exceptions it can see:
  - An unknown end point. `networkx` raises `NodeNotFound` for an unknown
    source. For an unknown target it finds no path, apart from the
    `set(target)` fallback listed under "Left out". Both end in `None`, and
    the model tests node membership first.
  - A `KeyError` from the pool-cache lookup in `_get_path_details`, which
    that function does not catch. This is modelled as `Err(PoolNotCached)`.

  `UpdateGraphCoherent` proves that a state built by `update_graph` never
  raises the second one.
- **Hop failures.** Exceptions inside a hop are caught there and give 0:
  - an output token missing from the token cache;
  - negative decimals (the quantum `1e--d` does not parse).

Behaviour of the code that the model keeps as it is:

- A hop whose input token is neither pool token is not rejected. It is
  priced as token1 (`NonMemberPricedAsToken1`).
- Input 10 into reserves 1000 and 2000, with a 5-decimal output token,
  gives 19.74257 (`WorkedHop`).
- No hop checks reserves, because `_validate_reserves` is never called. The
  model accepts any reserves. Properties that need positive reserves say so
  in their `requires`.
- Round `n` of the search lists again every path with fewer than `n`
  edges, mixed in with the new ones. Those repeats never change the choice
  (`RoundAddsOnlyLongest`). Among routes with equal output, the one with
  the fewest hops wins (`FindBestRouteFewestHops`). Among equally short
  routes, the first one found wins; that order follows the order of the
  first pool for each token pair (`BuildGraphOrder`).

## Model

| member | source | states |
|---|---|---|
| Decimals.Truncate | app/services/graph_solver.py:224-229 | The result is the amount rounded toward zero to a whole multiple of 10^-d: it has at most d decimals, lies on the same side of zero, is no further from zero, and is less than one step of 10^-d closer to zero. |
| Decimals.TruncationUnique | app/services/graph_solver.py:224-229 | Rounding toward zero to d decimals has exactly one answer, so `Truncate` is the quantize operation and not just one admissible value. |
| Decimals.TruncateBounds | app/services/graph_solver.py:224-229 | Rounding never moves an amount away from zero or across zero: a non-negative amount x gives a result in [0, x], and a negative one gives a result in [x, 0]. |
| Decimals.TruncateIdempotent | app/services/graph_solver.py:224-229 | An amount that already has at most d decimals is left unchanged by a second rounding. |
| Decimals.TruncateMonotone | app/services/graph_solver.py:224-229 | Rounding toward zero preserves the order of two amounts. |
| Graph.KeysOf | app/services/graph_solver.py:44-51 | The set of pairs of an insertion order holds the pair of every entry and nothing else. |
| Graph.NeighborsIn | app/services/graph_solver.py:112-117 | v is listed as a neighbour of u exactly when the insertion order holds the pair {u, v}. |
| Graph.NeighborsExact | app/services/graph_solver.py:112-117 | In a well-formed graph, v is a neighbour of u exactly when there is an edge between them. |
| Graph.AddEdge | app/services/graph_solver.py:44-51 | Upserting an edge keeps the graph well formed. There is at most one edge per unordered pair, every pair is listed once in insertion order, and every edge joins two nodes. |
| Graph.AddTokens | app/services/graph_solver.py:30-36 | After the token loop, the nodes are the earlier nodes plus every token address, and the edges are unchanged. |
| Graph.AddPools | app/services/graph_solver.py:39-51 | The pool loop keeps the graph well formed. |
| Graph.AddPoolsNodes | app/services/graph_solver.py:39-51 | After the pool loop, the nodes are the earlier nodes plus both token addresses of every pool. |
| Graph.AddPoolsKeys | app/services/graph_solver.py:39-51 | After the pool loop, the edges are the earlier edges plus the token pair of every pool. |
| Graph.AddPoolsLastWins | app/services/graph_solver.py:39-51 | A pair's edge carries the address of the last pool with that pair. Pairs no pool touches keep their earlier data. |
| Graph.AddPoolsProvenance | app/services/graph_solver.py:39-51 | Every edge after the pool loop is either an untouched earlier edge or names one of the pools. |
| Graph.BuildGraph | app/services/graph_solver.py:26-51 | The graph built from a cleared graph is well formed. |
| Graph.BuildGraphNodes | app/services/graph_solver.py:30-51 | An address is a node exactly when it is some token's address or one of some pool's two tokens. |
| Graph.BuildGraphEdges | app/services/graph_solver.py:39-51 | There is an edge for a pair exactly when some pool has that pair. It carries the last such pool's address, and every edge names a pool. |
| Graph.FirstWith | app/services/graph_solver.py:39-51 | The index returned is that of the first pool with the pair, or the list length when no pool has it. |
| Graph.AddPoolsOrder | app/services/graph_solver.py:39-51 | Starting from a graph without edges, the pool loop lists each pair once, at the first pool with that pair and in that pool's token0/token1 orientation. Pairs are listed in the order of those first pools. |
| Graph.BuildGraphOrder | app/services/graph_solver.py:30-51 | In the built graph, pairs are listed in the order of the first pool with each pair, so neighbours are tried in that order. |
| Solver.IndexLastWins | app/services/graph_solver.py:23-24 | A cache built from a list has as keys exactly the addresses of the list's elements. |
| Solver.IndexKeepsLast | app/services/graph_solver.py:23-24 | Each cache key maps to the last element with that address. |
| Solver.UpdateGraph | app/services/graph_solver.py:15-51 | The rebuilt state's graph is well formed. |
| Solver.UpdateGraphCoherent | app/services/graph_solver.py:23-51 | Every pool address on an edge of a rebuilt state is in the pool cache, so the pool lookup in `_get_path_details` (line 170) cannot fail. |
| Swap.HopOutput | app/services/graph_solver.py:204-235 | There are three cases. The output is 0 when `reserve_in + amount_in <= 0`. It is 0 when the output token is not cached or has negative decimals. Otherwise it is 0.997 times the constant-product output, rounded toward zero to the output token's decimals. Reserves are (reserve0, reserve1) when the input is token0 and swapped otherwise. |
| Swap.ConstantProductKept | app/services/graph_solver.py:211-219 | With the input added and the gross output removed, the product of the two reserves equals the old product k. |
| Swap.GrossClosedForm | app/services/graph_solver.py:213-219 | The gross output equals reserve_out·amount_in/(reserve_in + amount_in). |
| Swap.GrossBounds | app/services/graph_solver.py:213-219 | Take a positive input reserve, a non-negative output reserve and a non-negative input. The gross output lies in [0, reserve_out]. It is below reserve_out when that is positive. It is positive when both the output reserve and the input are. |
| Swap.GrossMonotone | app/services/graph_solver.py:213-219 | A larger input never gives a smaller gross output. |
| Swap.HopBounds | app/services/graph_solver.py:213-229 | Take a positive input reserve, a non-negative output reserve and a non-negative input. Then 0 <= out <= 0.997·gross. Also out < reserve_out when reserve_out > 0. Truncation drops less than one unit of 10^-decimals. |
| Swap.HopMonotone | app/services/graph_solver.py:213-229 | Under the same conditions, more input never yields less output. |
| Swap.MemberDirectionIgnoresListing | app/services/graph_solver.py:204-209 | For either of the pool's own tokens, the output does not depend on which token is listed as token0. |
| Swap.NonMemberPricedAsToken1 | app/services/graph_solver.py:204-209 | An input token that is neither pool token is not rejected. It is priced exactly as token1. |
| Swap.EmptyInputReserveDrainsPool | app/services/graph_solver.py:214-229 | A zero input reserve is accepted. Any positive input then yields the whole output reserve times 0.997, truncated. |
| Swap.WorkedHop | app/services/graph_solver.py:204-229 | Input 10 into reserves 1000 and 2000, with a 5-decimal output token, yields 19.74257. |
| PathEval.PathDetails | app/services/graph_solver.py:138-182 | A path that goes through reports one pool per hop. An abandoned path reports `([], 0)`. On a coherent state, evaluation never raises. |
| PathEval.TraceComplete | app/services/graph_solver.py:157-182 | Suppose every hop has an edge, a cached pool and a non-zero output, with each hop fed the previous hop's output. Then evaluation returns the pools of those edges and the last output. |
| PathEval.FirstFailingHop | app/services/graph_solver.py:161-180 | At the first hop that does not go through, a missing edge gives `([], 0)`, an uncached pool raises `KeyError`, and a zero output gives `([], 0)`. |
| PathEval.TraceSound | app/services/graph_solver.py:157-182 | A path reporting one pool per hop went through every hop. `pools[i]` is the pool of the edge (path[i], path[i+1]), each hop is fed the previous output, and the reported amount is the last output. |
| PathEval.DetailsFromSound | app/services/graph_solver.py:157-182 | The same as TraceSound, for the loop resumed at hop i. |
| Enumeration.SimplePaths | app/services/graph_solver.py:110-117 | No paths when source equals target. Every path found starts at the source, ends at the target, follows listed neighbours, repeats no token and has 1 to cutoff edges. |
| Enumeration.Extend | app/services/graph_solver.py:112-117 | Every path found below a partial path continues it by 1 to budget steps along neighbours to the target, and stays simple. |
| Enumeration.ExtendComplete | app/services/graph_solver.py:112-117 | The search misses no simple continuation that reaches the target within the budget. |
| Enumeration.SimplePathsExact | app/services/graph_solver.py:110-117 | On a well-formed graph, a path is enumerated exactly when it is a simple path from source to target with 1 to cutoff edges. |
| Routing.Candidates | app/services/graph_solver.py:110-117 | The rounds for cutoffs 1 to max_hops, concatenated. There are none when source equals target. |
| Routing.CandidatesExact | app/services/graph_solver.py:110-117 | On a well-formed graph, a path is a candidate exactly when it is a simple path between the two tokens with 1 to max_hops edges. |
| Routing.Select | app/services/graph_solver.py:106-130 | On a coherent state the loop does not raise. The recorded output is non-negative, zero without a route, and equal to a route's positive estimated output. |
| Routing.SelectBound | app/services/graph_solver.py:119-130 | Every path is evaluated without raising, and each path yields no more than the recorded output. |
| Routing.SelectFirstBest | app/services/graph_solver.py:119-130 | A route kept is the route of the first path with the greatest yield. |
| Routing.SelectSpec | app/services/graph_solver.py:106-132 | There is no route exactly when no path yields more than 0. A route is that of the first path with the greatest yield; with the strict `>`, ties go to the earlier path. |
| Routing.SelectIgnoresRepeats | app/services/graph_solver.py:110-130 | Appending paths that were already evaluated leaves the selection unchanged. |
| Routing.DropLaterRepeat | app/services/graph_solver.py:119-130 | A path evaluated a second time, anywhere after its first evaluation, can be removed without changing the selection. |
| Routing.SelectSplit | app/services/graph_solver.py:119-130 | Selecting over a concatenation is selecting over the first part and then continuing the same loop through the second part from that state. |
| Routing.WithHops | app/services/graph_solver.py:110-117 | The paths kept are exactly those of the list with the given number of edges. |
| Routing.SelectDropsSeen | app/services/graph_solver.py:110-130 | If every path of a later list with other than n edges was already evaluated, selecting over the whole equals selecting over the earlier paths plus only the later paths with exactly n edges. |
| Routing.RoundAddsOnlyLongest | app/services/graph_solver.py:110-130 | The selection over rounds 1 to m equals the selection over rounds 1 to m-1 followed by only the round-m paths with exactly m edges. The repeats inside each later round never change the choice. |
| Routing.CandidatesPrefix | app/services/graph_solver.py:110-117 | The candidates for a smaller hop limit are a prefix, in the same order, of those for a larger one. |
| Routing.FindBestRouteFewestHops | app/services/graph_solver.py:110-130 | If a simple path within max_hops yields exactly the returned output, the returned route has no more hops than it. Among equal outputs, the fewest hops win. |
| Routing.FindBestRoute | app/services/graph_solver.py:86-136 | An unknown token gives `None`, as does a token routed to itself. A route returned has a positive estimated output. |
| Routing.FindBestRouteSound | app/services/graph_solver.py:86-136 | A route returned is a simple path from token_in to token_out with 1 to max_hops hops. Its pools and output form the hop-by-hop trace of that path. No simple path within max_hops yields more, and every earlier candidate yields strictly less. |
| Routing.FindBestRouteNone | app/services/graph_solver.py:86-136 | On a coherent state with both tokens in the graph, there is no route exactly when no simple path within max_hops yields more than 0. |

## Left out

- `_calculate_edge_weight` (graph_solver.py:56-84) and the edge's `weight` attribute. It is float arithmetic with a square root, and route selection never reads the weight.
- The asynchronous side of `update_graph`: the awaited fetches from the token store (lines 19-20), the in-place `graph.clear()` and rebuild, and printing caught errors (lines 27, 53-54). The build is modelled as a pure function of the token and pool lists. A build that raises partway is not modelled.
- The float copies of prices and reserves stored as node and edge attributes (lines 31-36, 49-50). Nothing in routing reads them. Node attributes in general are not modelled, so `AddNode` keeps an existing node as it is.
- Python `Decimal`'s 28-significant-digit context, which rounds `k / new_reserve_in` and the fee product. Amounts are exact reals. `quantize` raises `InvalidOperation` when the rounded result has more than 28 digits, for example an output of 10^10 or more at 18 decimals. The hop then returns 0, and the model does not reproduce that case.
- Swap.HopOutput: computes in exact reals. With more than 28 significant digits the source's result can differ in the last digits. The source's overflow to 0 described above is not modelled either, so `HopBounds` and `HopMonotone` describe the model and not outputs that overflow.
- Enumeration.SimplePaths: follows `networkx` 2.x. When the target string is not a node, `networkx` tries `set(target)`, which treats the string's characters as node names; the model instead gives no route. From `networkx` 3.3 on, a source equal to the target yields the one-node path, which the model does not follow.
- Address case normalisation: addresses are compared as given, as the code compares them.
- `_validate_reserves` (lines 237-240): it is never called, so no hop checks reserves.
- `async`/`await`, the `token_store` object, and everything outside the solver: app/services/asset_loader.py (HTTP and JSON polling), app/services/token_store.py (Redis storage), app/schema.py (GraphQL layer), app/config.py (settings), and main.py (web server wiring).
