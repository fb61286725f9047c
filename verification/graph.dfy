/** The undirected token graph the solver searches (a `networkx.Graph`), and
    the pure part of `update_graph` that builds it from the token and pool
    lists (app/services/graph_solver.py, lines 30-51).

    Nodes are token addresses. An edge is keyed by the unordered pair of its
    end points, so a pair has at most one edge; it carries the address of the
    pool that last wrote it. `order` lists each pair once, in the order it was
    first added: that is the order in which `networkx` reports a node's
    neighbours, and so the order in which paths are found. */
module Graph {
  import opened Models

  /** An unordered pair of token addresses (one address for a self-loop). */
  type Pair = set<Address>

  datatype EdgeData = EdgeData(poolAddress: Address)

  datatype Graph = Graph(
    nodes: set<Address>,
    order: seq<(Address, Address)>,
    edges: map<Pair, EdgeData>)

  const Empty: Graph := Graph({}, [], map[])

  function Key(u: Address, v: Address): Pair {
    {u, v}
  }

  function PoolKey(p: Pool): Pair {
    Key(p.token0.address, p.token1.address)
  }

  lemma KeyEquals(u: Address, v: Address, a: Address, b: Address)
    ensures Key(u, v) == Key(a, b) <==> (u == a && v == b) || (u == b && v == a)
  {
    if Key(u, v) == Key(a, b) {
      assert u in Key(a, b) && v in Key(a, b);
      assert a in Key(u, v) && b in Key(u, v);
    }
  }

  /** The pairs listed in an insertion order. */
  function KeysOf(order: seq<(Address, Address)>): (ks: set<Pair>)
    ensures forall i :: 0 <= i < |order| ==> Key(order[i].0, order[i].1) in ks
    ensures forall k :: k in ks ==> exists i :: 0 <= i < |order| && Key(order[i].0, order[i].1) == k
  {
    if order == [] then {}
    else
      var e := order[|order| - 1];
      KeysOf(order[..|order| - 1]) + {Key(e.0, e.1)}
  }

  predicate DistinctKeys(order: seq<(Address, Address)>) {
    forall i, j :: 0 <= i < j < |order| ==> Key(order[i].0, order[i].1) != Key(order[j].0, order[j].1)
  }

  /** The insertion order lists every edge exactly once, and every edge joins
      two nodes. */
  ghost predicate WellFormed(g: Graph) {
    && KeysOf(g.order) == g.edges.Keys
    && DistinctKeys(g.order)
    && forall i :: 0 <= i < |g.order| ==> g.order[i].0 in g.nodes && g.order[i].1 in g.nodes
  }

  /** The neighbours of `u` in the order their edges were first added. */
  function NeighborsIn(order: seq<(Address, Address)>, u: Address): (r: seq<Address>)
    ensures forall v :: v in r <==> Key(u, v) in KeysOf(order)
  {
    if order == [] then []
    else
      var e := order[|order| - 1];
      var rest := NeighborsIn(order[..|order| - 1], u);
      forall v ensures Key(u, v) == Key(e.0, e.1) <==> (e.0 == u && v == e.1) || (e.0 != u && e.1 == u && v == e.0) {
        KeyEquals(u, v, e.0, e.1);
      }
      if e.0 == u then rest + [e.1]
      else if e.1 == u then rest + [e.0]
      else rest
  }

  function Neighbors(g: Graph, u: Address): seq<Address> {
    NeighborsIn(g.order, u)
  }

  /** In a well-formed graph, `v` is listed as a neighbour of `u` exactly
      when the graph has an edge between them. */
  lemma NeighborsExact(g: Graph, u: Address, v: Address)
    requires WellFormed(g)
    ensures v in Neighbors(g, u) <==> Key(u, v) in g.edges
  {
  }

  /** `add_node`: an existing node is kept (its attributes are not modelled). */
  function AddNode(g: Graph, a: Address): Graph {
    g.(nodes := g.nodes + {a})
  }

  /** `add_edge`: adds both end points as nodes; a new pair goes to the end
      of the insertion order, an existing pair keeps its place and has its
      data overwritten. */
  function AddEdge(g: Graph, u: Address, v: Address, data: EdgeData): (r: Graph)
    ensures WellFormed(g) ==> WellFormed(r)
  {
    var k := Key(u, v);
    var order := if k in g.edges then g.order else g.order + [(u, v)];
    var r := Graph(g.nodes + {u, v}, order, g.edges[k := data]);
    assert k !in g.edges ==> order[..|order| - 1] == g.order;
    r
  }

  /** The token loop (lines 30-36): one node per token address. */
  function AddTokens(g: Graph, tokens: seq<Token>): (r: Graph)
    ensures forall a :: a in r.nodes <==> a in g.nodes || exists i :: 0 <= i < |tokens| && tokens[i].address == a
    ensures r.order == g.order && r.edges == g.edges
  {
    if tokens == [] then g
    else
      var prior := AddTokens(g, tokens[..|tokens| - 1]);
      assert forall i :: 0 <= i < |tokens| - 1 ==> tokens[..|tokens| - 1][i] == tokens[i];
      AddNode(prior, tokens[|tokens| - 1].address)
  }

  /** The pool loop (lines 39-51): every pool writes the edge of its token
      pair, later pools overwriting earlier ones. */
  function AddPools(g: Graph, pools: seq<Pool>): (r: Graph)
    ensures WellFormed(g) ==> WellFormed(r)
  {
    if pools == [] then g
    else
      var p := pools[|pools| - 1];
      AddEdge(AddPools(g, pools[..|pools| - 1]), p.token0.address, p.token1.address, EdgeData(p.address))
  }

  /** The nodes after the pool loop: the earlier nodes and both tokens of
      every pool. */
  lemma {:induction false} AddPoolsNodes(g: Graph, pools: seq<Pool>)
    ensures forall a :: a in AddPools(g, pools).nodes <==>
      a in g.nodes || exists i :: 0 <= i < |pools| && (a == pools[i].token0.address || a == pools[i].token1.address)
  {
    if pools != [] {
      var init := pools[..|pools| - 1];
      AddPoolsNodes(g, init);
      assert forall i :: 0 <= i < |init| ==> init[i] == pools[i];
    }
  }

  /** The edges after the pool loop: one per token pair of some pool, plus
      the earlier ones. */
  lemma {:induction false} AddPoolsKeys(g: Graph, pools: seq<Pool>)
    ensures forall k :: k in AddPools(g, pools).edges <==>
      k in g.edges || exists i :: 0 <= i < |pools| && PoolKey(pools[i]) == k
  {
    if pools != [] {
      var init := pools[..|pools| - 1];
      AddPoolsKeys(g, init);
      assert forall i :: 0 <= i < |init| ==> init[i] == pools[i];
    }
  }

  /** Last write wins: the edge of a pair carries the address of the last
      pool with that pair; pairs no pool touches keep their earlier data. */
  lemma {:induction false} AddPoolsLastWins(g: Graph, pools: seq<Pool>)
    ensures forall i :: 0 <= i < |pools| && (forall j :: i < j < |pools| ==> PoolKey(pools[j]) != PoolKey(pools[i])) ==>
      PoolKey(pools[i]) in AddPools(g, pools).edges && AddPools(g, pools).edges[PoolKey(pools[i])] == EdgeData(pools[i].address)
    ensures forall k :: k in g.edges && (forall i :: 0 <= i < |pools| ==> PoolKey(pools[i]) != k) ==>
      k in AddPools(g, pools).edges && AddPools(g, pools).edges[k] == g.edges[k]
  {
    if pools != [] {
      var init := pools[..|pools| - 1];
      AddPoolsLastWins(g, init);
      assert forall i :: 0 <= i < |init| ==> init[i] == pools[i];
    }
  }

  /** Every edge written by the pool loop names one of the pools. */
  lemma {:induction false} AddPoolsProvenance(g: Graph, pools: seq<Pool>)
    ensures forall k :: k in AddPools(g, pools).edges ==>
      (k in g.edges && AddPools(g, pools).edges[k] == g.edges[k])
      || exists i :: 0 <= i < |pools| && AddPools(g, pools).edges[k] == EdgeData(pools[i].address)
  {
    if pools != [] {
      var init := pools[..|pools| - 1];
      AddPoolsProvenance(g, init);
      assert forall i :: 0 <= i < |init| ==> init[i] == pools[i];
    }
  }

  /** The index of the first pool with pair `k`, or `|pools|` if none has it. */
  function FirstWith(pools: seq<Pool>, k: Pair): (f: nat)
    ensures f <= |pools|
    ensures f < |pools| ==> PoolKey(pools[f]) == k
    ensures forall i :: 0 <= i < f && i < |pools| ==> PoolKey(pools[i]) != k
  {
    if pools == [] then 0
    else
      var init := pools[..|pools| - 1];
      var f := FirstWith(init, k);
      assert forall i :: 0 <= i < |init| ==> init[i] == pools[i];
      if f < |init| then f
      else if PoolKey(pools[|pools| - 1]) == k then |pools| - 1
      else |pools|
  }

  /** A pool's end points in its own orientation, as `add_edge` receives them. */
  function Ends(p: Pool): (Address, Address) {
    (p.token0.address, p.token1.address)
  }

  /** The index of the first pool with the pair of entry `e`. */
  function FirstOf(pools: seq<Pool>, e: (Address, Address)): nat {
    FirstWith(pools, Key(e.0, e.1))
  }

  /** `order` lists each pair at the first pool that has it, with that
      pool's orientation, in the order of those first pools. */
  ghost predicate ListedByFirstPool(order: seq<(Address, Address)>, pools: seq<Pool>) {
    && (forall i :: 0 <= i < |order| ==> FirstOf(pools, order[i]) < |pools| && order[i] == Ends(pools[FirstOf(pools, order[i])]))
    && (forall i, j :: 0 <= i < j < |order| ==> FirstOf(pools, order[i]) < FirstOf(pools, order[j]))
  }

  lemma FirstWithAppend(init: seq<Pool>, p: Pool, k: Pair)
    ensures FirstWith(init + [p], k) ==
      if FirstWith(init, k) < |init| then FirstWith(init, k)
      else if PoolKey(p) == k then |init| else |init| + 1
  {
    assert (init + [p])[..|init|] == init;
  }

  /** A pool whose pair is already listed changes nothing in the listing ... */
  lemma ListedKeep(order: seq<(Address, Address)>, init: seq<Pool>, p: Pool)
    requires ListedByFirstPool(order, init)
    ensures ListedByFirstPool(order, init + [p])
  {
    forall i | 0 <= i < |order| ensures FirstOf(init + [p], order[i]) == FirstOf(init, order[i]) {
      FirstWithAppend(init, p, Key(order[i].0, order[i].1));
    }
    assert forall i :: 0 <= i < |init| ==> (init + [p])[i] == init[i];
  }

  /** ... and a pool with a new pair is listed last. */
  lemma ListedAppend(order: seq<(Address, Address)>, init: seq<Pool>, p: Pool)
    requires ListedByFirstPool(order, init)
    requires forall i :: 0 <= i < |init| ==> PoolKey(init[i]) != PoolKey(p)
    ensures ListedByFirstPool(order + [Ends(p)], init + [p])
  {
    ListedKeep(order, init, p);
    FirstWithAppend(init, p, PoolKey(p));
    assert FirstWith(init, PoolKey(p)) == |init|;
    assert FirstOf(init + [p], Ends(p)) == |init|;
    var order' := order + [Ends(p)];
    assert forall i :: 0 <= i < |order| ==> order'[i] == order[i];
  }

  /** Started from a graph without edges, the pool loop lists each pair at
      the first pool that has it. This order decides which neighbour is
      tried first. */
  lemma {:induction false} AddPoolsOrder(g: Graph, pools: seq<Pool>)
    requires g.order == [] && g.edges == map[]
    ensures ListedByFirstPool(AddPools(g, pools).order, pools)
  {
    if pools != [] {
      var n := |pools|;
      var init, p := pools[..n - 1], pools[n - 1];
      assert pools == init + [p];
      AddPoolsOrder(g, init);
      var prior := AddPools(g, init);
      if PoolKey(p) in prior.edges {
        ListedKeep(prior.order, init, p);
      } else {
        AddPoolsKeys(g, init);
        ListedAppend(prior.order, init, p);
      }
    }
  }

  /** The pairs of the built graph are listed in the order of the first
      pool with each pair, each with that pool's orientation. */
  lemma BuildGraphOrder(tokens: seq<Token>, pools: seq<Pool>)
    ensures ListedByFirstPool(BuildGraph(tokens, pools).order, pools)
  {
    AddPoolsOrder(AddTokens(Empty, tokens), pools);
  }

  /** The graph `update_graph` builds from a cleared graph: token nodes
      first, then pool edges. */
  function BuildGraph(tokens: seq<Token>, pools: seq<Pool>): (g: Graph)
    ensures WellFormed(g)
  {
    var withNodes := AddTokens(Empty, tokens);
    assert WellFormed(withNodes);
    AddPools(withNodes, pools)
  }

  /** Every token and every pool end point becomes a node, and nothing else
      does. */
  lemma BuildGraphNodes(tokens: seq<Token>, pools: seq<Pool>, a: Address)
    ensures a in BuildGraph(tokens, pools).nodes <==>
      (exists i :: 0 <= i < |tokens| && tokens[i].address == a)
      || exists i :: 0 <= i < |pools| && (a == pools[i].token0.address || a == pools[i].token1.address)
  {
    AddPoolsNodes(AddTokens(Empty, tokens), pools);
  }

  /** There is exactly one edge per token pair of some pool, it carries the
      address of the last pool with that pair, and every edge names a pool. */
  lemma BuildGraphEdges(tokens: seq<Token>, pools: seq<Pool>)
    ensures forall k :: k in BuildGraph(tokens, pools).edges <==> exists i :: 0 <= i < |pools| && PoolKey(pools[i]) == k
    ensures forall i :: 0 <= i < |pools| && (forall j :: i < j < |pools| ==> PoolKey(pools[j]) != PoolKey(pools[i])) ==>
      BuildGraph(tokens, pools).edges[PoolKey(pools[i])] == EdgeData(pools[i].address)
    ensures forall k :: k in BuildGraph(tokens, pools).edges ==>
      exists i :: 0 <= i < |pools| && BuildGraph(tokens, pools).edges[k] == EdgeData(pools[i].address)
  {
    var withNodes := AddTokens(Empty, tokens);
    AddPoolsKeys(withNodes, pools);
    AddPoolsLastWins(withNodes, pools);
    AddPoolsProvenance(withNodes, pools);
  }
}
