/** The solver's state after `update_graph` (app/services/graph_solver.py,
    lines 15-51): the graph, and the pool and token caches keyed by address
    that the simulation reads. */
module Solver {
  import opened Models
  import opened Graph

  datatype Solver = Solver(
    graph: Graph,
    pools: map<Address, Pool>,
    tokens: map<Address, Token>)

  /** A dictionary built by `{key(x): x for x in xs}`: every key of some
      element, and nothing else. */
  function IndexLastWins<T>(xs: seq<T>, key: T -> Address): (m: map<Address, T>)
    ensures forall a :: a in m <==> exists i :: 0 <= i < |xs| && key(xs[i]) == a
  {
    if xs == [] then map[]
    else
      var init := xs[..|xs| - 1];
      var prior := IndexLastWins(init, key);
      assert forall i :: 0 <= i < |init| ==> init[i] == xs[i];
      prior[key(xs[|xs| - 1]) := xs[|xs| - 1]]
  }

  /** Each key maps to the last element with that key. */
  lemma {:induction false} IndexKeepsLast<T>(xs: seq<T>, key: T -> Address, i: nat)
    requires i < |xs|
    requires forall j :: i < j < |xs| ==> key(xs[j]) != key(xs[i])
    ensures IndexLastWins(xs, key)[key(xs[i])] == xs[i]
  {
    if i < |xs| - 1 {
      var init := xs[..|xs| - 1];
      assert forall j :: i < j < |init| ==> init[j] == xs[j];
      IndexKeepsLast(init, key, i);
    }
  }

  function PoolAddressOf(p: Pool): Address {
    p.address
  }

  function TokenAddressOf(t: Token): Address {
    t.address
  }

  /** `self.pools` (line 23). */
  function PoolCache(pools: seq<Pool>): map<Address, Pool> {
    IndexLastWins(pools, PoolAddressOf)
  }

  /** `self.tokens` (line 24). */
  function TokenCache(tokens: seq<Token>): map<Address, Token> {
    IndexLastWins(tokens, TokenAddressOf)
  }

  /** The pure part of `update_graph`: both caches and the graph are rebuilt
      from the same token and pool lists. */
  function UpdateGraph(tokens: seq<Token>, pools: seq<Pool>): (s: Solver)
    ensures WellFormed(s.graph)
  {
    Solver(BuildGraph(tokens, pools), PoolCache(pools), TokenCache(tokens))
  }

  /** Every pool address on an edge can be found in the pool cache, so the
      lookup at line 170 cannot fail. */
  ghost predicate Coherent(s: Solver) {
    forall k :: k in s.graph.edges ==> s.graph.edges[k].poolAddress in s.pools
  }

  /** A state built by `update_graph` is well formed and coherent. */
  lemma UpdateGraphCoherent(tokens: seq<Token>, pools: seq<Pool>)
    ensures Coherent(UpdateGraph(tokens, pools))
  {
    var s := UpdateGraph(tokens, pools);
    BuildGraphEdges(tokens, pools);
    forall k | k in s.graph.edges
      ensures s.graph.edges[k].poolAddress in s.pools
    {
      var i :| 0 <= i < |pools| && s.graph.edges[k] == EdgeData(pools[i].address);
      assert PoolAddressOf(pools[i]) == s.graph.edges[k].poolAddress;
    }
  }
}
