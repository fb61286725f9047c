/** Evaluating one path: `_get_path_details` (app/services/graph_solver.py,
    lines 138-182). Each hop's output is the next hop's input; a missing edge
    or a hop that yields exactly zero abandons the path with `([], 0)`. */
module PathEval {
  import opened Wrappers
  import opened Sequences
  import opened Models
  import opened Graph
  import opened Swap
  import opened Solver

  /** The pools used and the final amount. */
  datatype PathDetail = PathDetail(pools: seq<Address>, amount: real)

  /** The one exception `_get_path_details` does not catch: an edge names a
      pool address that the pool cache does not hold (`KeyError`, line 170). */
  datatype Fault = PoolNotCached(address: Address)

  /** The number of hops in a path: one fewer than its tokens. */
  function Hops(path: seq<Address>): nat {
    if |path| == 0 then 0 else |path| - 1
  }

  /** A path that goes through either reports a pool for every hop or, when
      it was abandoned, no pool and a zero amount; on a coherent state it
      never raises. */
  function PathDetails(s: Solver, path: seq<Address>, amountIn: real): (r: Result<PathDetail, Fault>)
    ensures r.Ok? ==> |r.value.pools| == Hops(path) || (r.value.pools == [] && r.value.amount == 0.0)
    ensures Coherent(s) ==> r.Ok?
  {
    DetailsFrom(s, path, 0, amountIn, [])
  }

  /** The loop of lines 157-182 from hop `i` on, holding `amount` and the
      pools used so far. */
  function DetailsFrom(s: Solver, path: seq<Address>, i: nat, amount: real, pools: seq<Address>): (r: Result<PathDetail, Fault>)
    requires |pools| == i && (i < |path| || i == 0)
    ensures r.Ok? ==> |r.value.pools| == Hops(path) || (r.value.pools == [] && r.value.amount == 0.0)
    ensures Coherent(s) ==> r.Ok?
    decreases |path| - i
  {
    if i + 1 >= |path| then Ok(PathDetail(pools, amount))
    else
      var key := Key(path[i], path[i + 1]);
      if key !in s.graph.edges then Ok(PathDetail([], 0.0))
      else
        var address := s.graph.edges[key].poolAddress;
        if address !in s.pools then Err(PoolNotCached(address))
        else
          var out := HopOutput(s.pools[address], path[i], path[i + 1], amount, s.tokens);
          if out == 0.0 then Ok(PathDetail([], 0.0))
          else DetailsFrom(s, path, i + 1, out, pools + [address])
  }

  /** One hop from `u` to `v` that goes through: the graph has the edge, its
      pool is cached, and swapping `amountIn` through it yields a non-zero
      `amountOut`. */
  ghost predicate IsHop(s: Solver, u: Address, v: Address, amountIn: real, pool: Address, amountOut: real) {
    && Key(u, v) in s.graph.edges
    && s.graph.edges[Key(u, v)].poolAddress == pool
    && pool in s.pools
    && amountOut == HopOutput(s.pools[pool], u, v, amountIn, s.tokens)
    && amountOut != 0.0
  }

  /** The hop-by-hop account of a path that goes through: `amounts[0]` is the
      input, `pools[i]` is the pool of the edge from `path[i]` to
      `path[i + 1]`, and `amounts[i + 1]` is what hop `i` yields when fed
      `amounts[i]`. */
  ghost predicate IsTrace(s: Solver, path: seq<Address>, amountIn: real, pools: seq<Address>, amounts: seq<real>) {
    && |path| >= 1
    && |pools| == |path| - 1
    && |amounts| == |path|
    && amounts[0] == amountIn
    && forall i :: 0 <= i < |pools| ==> IsHop(s, path[i], path[i + 1], amounts[i], pools[i], amounts[i + 1])
  }

  /** Evaluation that has gone through the first `i` hops stands where the
      trace of those hops says. */
  lemma {:induction false} TraceReaches(s: Solver, path: seq<Address>, amountIn: real, i: nat,
                                        pools: seq<Address>, amounts: seq<real>)
    requires i < |path|
    requires IsTrace(s, path[..i + 1], amountIn, pools, amounts)
    ensures PathDetails(s, path, amountIn) == DetailsFrom(s, path, i, amounts[i], pools)
  {
    if i > 0 {
      var prefix := path[..i + 1];
      assert path[..i] == prefix[..i];
      assert IsTrace(s, path[..i], amountIn, pools[..i - 1], amounts[..i]) by {
        forall j | 0 <= j < i - 1
          ensures IsHop(s, path[..i][j], path[..i][j + 1], amounts[..i][j], pools[..i - 1][j], amounts[..i][j + 1])
        {
          assert IsHop(s, prefix[j], prefix[j + 1], amounts[j], pools[j], amounts[j + 1]);
        }
      }
      TraceReaches(s, path, amountIn, i - 1, pools[..i - 1], amounts[..i]);
      assert IsHop(s, prefix[i - 1], prefix[i], amounts[i - 1], pools[i - 1], amounts[i]);
      assert pools[..i - 1] + [pools[i - 1]] == pools;
    }
  }

  /** Every hop going through means the path goes through, with the pools of
      the trace and the last amount of the trace. */
  lemma TraceComplete(s: Solver, path: seq<Address>, amountIn: real, pools: seq<Address>, amounts: seq<real>)
    requires IsTrace(s, path, amountIn, pools, amounts)
    ensures PathDetails(s, path, amountIn) == Ok(PathDetail(pools, Last(amounts)))
  {
    assert path[..|path|] == path;
    TraceReaches(s, path, amountIn, |path| - 1, pools, amounts);
  }

  /** The first hop that does not go through decides the outcome: a missing
      edge or a zero output abandons the path with `([], 0)`, an uncached pool
      raises. */
  lemma FirstFailingHop(s: Solver, path: seq<Address>, amountIn: real, i: nat,
                        pools: seq<Address>, amounts: seq<real>)
    requires i + 1 < |path|
    requires IsTrace(s, path[..i + 1], amountIn, pools, amounts)
    ensures var key := Key(path[i], path[i + 1]);
      key !in s.graph.edges ==> PathDetails(s, path, amountIn) == Ok(PathDetail([], 0.0))
    ensures var key := Key(path[i], path[i + 1]);
      key in s.graph.edges && s.graph.edges[key].poolAddress !in s.pools ==>
        PathDetails(s, path, amountIn) == Err(PoolNotCached(s.graph.edges[key].poolAddress))
    ensures var key := Key(path[i], path[i + 1]);
      key in s.graph.edges && s.graph.edges[key].poolAddress in s.pools &&
      HopOutput(s.pools[s.graph.edges[key].poolAddress], path[i], path[i + 1], amounts[i], s.tokens) == 0.0 ==>
        PathDetails(s, path, amountIn) == Ok(PathDetail([], 0.0))
  {
    TraceReaches(s, path, amountIn, i, pools, amounts);
  }

  /** Conversely, a path that reports a pool per hop went through every hop:
      its pools and amounts form a trace ending in the reported amount. */
  lemma TraceSound(s: Solver, path: seq<Address>, amountIn: real) returns (amounts: seq<real>)
    requires |path| >= 1
    requires PathDetails(s, path, amountIn).Ok?
    requires |PathDetails(s, path, amountIn).value.pools| == |path| - 1
    ensures IsTrace(s, path, amountIn, PathDetails(s, path, amountIn).value.pools, amounts)
    ensures PathDetails(s, path, amountIn).value.amount == Last(amounts)
  {
    amounts := DetailsFromSound(s, path, 0, [], [amountIn]);
  }

  lemma {:induction false} DetailsFromSound(s: Solver, path: seq<Address>, i: nat, pools: seq<Address>, amounts: seq<real>)
    returns (all: seq<real>)
    requires i < |path| && |amounts| == i + 1
    requires IsTrace(s, path[..i + 1], amounts[0], pools, amounts)
    requires DetailsFrom(s, path, i, amounts[i], pools).Ok?
    requires |DetailsFrom(s, path, i, amounts[i], pools).value.pools| == |path| - 1
    ensures IsTrace(s, path, amounts[0], DetailsFrom(s, path, i, amounts[i], pools).value.pools, all)
    ensures DetailsFrom(s, path, i, amounts[i], pools).value.amount == Last(all)
    decreases |path| - i
  {
    if i + 1 >= |path| {
      assert path[..i + 1] == path;
      all := amounts;
    } else {
      var key := Key(path[i], path[i + 1]);
      var address := s.graph.edges[key].poolAddress;
      var out := HopOutput(s.pools[address], path[i], path[i + 1], amounts[i], s.tokens);
      var pools', amounts' := pools + [address], amounts + [out];
      var prefix, prefix' := path[..i + 1], path[..i + 2];
      assert IsTrace(s, prefix', amounts[0], pools', amounts') by {
        forall j | 0 <= j < |pools'|
          ensures IsHop(s, prefix'[j], prefix'[j + 1], amounts'[j], pools'[j], amounts'[j + 1])
        {
          if j < i {
            assert IsHop(s, prefix[j], prefix[j + 1], amounts[j], pools[j], amounts[j + 1]);
          }
        }
      }
      all := DetailsFromSound(s, path, i + 1, pools', amounts');
    }
  }
}
