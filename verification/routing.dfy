/** Choosing the route: `find_best_route` (app/services/graph_solver.py,
    lines 86-136). Paths are evaluated in the order the rounds of the search
    produce them; a path replaces the best so far only if its output is
    strictly greater, so the first path found with the greatest output wins.
    A route exists only if some path yields more than zero. Every exception
    raised on the way (an unknown end point, an uncached pool) is caught and
    turned into "no route". */
module Routing {
  import opened Wrappers
  import opened Sequences
  import opened Models
  import opened Graph
  import opened Solver
  import opened PathEval
  import opened Enumeration

  /** The paths in the order lines 110-121 evaluate them: round `n` lists
      the simple paths with at most `n` edges, for `n` from 1 to `maxHops`,
      so shorter paths come up again in later rounds. */
  function Candidates(g: Graph, source: Address, target: Address, maxHops: int): (r: seq<seq<Address>>)
    ensures source == target ==> r == []
    decreases maxHops
  {
    if maxHops < 1 then []
    else Candidates(g, source, target, maxHops - 1) + SimplePaths(g, source, target, maxHops)
  }

  /** The best route so far and its output (`best_route`,
      `best_output_amount`). */
  datatype Best = Best(route: Option<SwapRoute>, output: real)

  /** Lines 106-130 over a list of paths, written as a fold over its last
      element: the route kept has a positive output equal to the recorded
      one, and without a route the recorded output is zero. */
  function Select(s: Solver, paths: seq<seq<Address>>, amountIn: real): (r: Result<Best, Fault>)
    ensures Coherent(s) ==> r.Ok?
    ensures r.Ok? ==> r.value.output >= 0.0
    ensures r.Ok? && r.value.route.None? ==> r.value.output == 0.0
    ensures r.Ok? && r.value.route.Some? ==> r.value.route.value.estimatedOutput == r.value.output > 0.0
    decreases |paths|
  {
    if paths == [] then Ok(Best(None, 0.0))
    else Consider(s, Select(s, paths[..|paths| - 1], amountIn), Last(paths), amountIn)
  }

  /** Lines 121-130 for one path: evaluate it and keep it if its output is
      strictly greater than the best so far. */
  function Consider(s: Solver, prior: Result<Best, Fault>, p: seq<Address>, amountIn: real): Result<Best, Fault> {
    match prior
    case Err(f) => Err(f)
    case Ok(best) =>
      match PathDetails(s, p, amountIn)
      case Err(f) => Err(f)
      case Ok(d) =>
        if d.amount > best.output then Ok(Best(Some(SwapRoute(p, d.pools, d.amount)), d.amount))
        else Ok(best)
  }

  /** `find_best_route`: no route for an unknown end point, for a token
      routed to itself, or when anything raises; a route found always has a
      positive output. */
  function FindBestRoute(s: Solver, tokenIn: Address, tokenOut: Address, amountIn: real, maxHops: int): (r: Option<SwapRoute>)
    ensures tokenIn !in s.graph.nodes || tokenOut !in s.graph.nodes ==> r == None
    ensures tokenIn == tokenOut ==> r == None
    ensures r.Some? ==> r.value.estimatedOutput > 0.0
  {
    if tokenIn !in s.graph.nodes || tokenOut !in s.graph.nodes then None
    else
      match Select(s, Candidates(s.graph, tokenIn, tokenOut, maxHops), amountIn)
      case Err(_) => None
      case Ok(best) => best.route
  }

  /** What a path yields: its final amount, or zero if evaluating it raises. */
  function Yield(s: Solver, p: seq<Address>, amountIn: real): real {
    match PathDetails(s, p, amountIn)
    case Ok(d) => d.amount
    case Err(_) => 0.0
  }

  /** Path `i` is the first one with the greatest yield, and that yield is
      positive. */
  ghost predicate IsFirstBest(s: Solver, paths: seq<seq<Address>>, amountIn: real, i: int) {
    && 0 <= i < |paths|
    && Yield(s, paths[i], amountIn) > 0.0
    && (forall j :: 0 <= j < |paths| ==> Yield(s, paths[j], amountIn) <= Yield(s, paths[i], amountIn))
    && (forall j :: 0 <= j < i ==> Yield(s, paths[j], amountIn) < Yield(s, paths[i], amountIn))
  }

  /** The route built from path `p` as line 126 builds it. */
  ghost predicate IsRouteOf(s: Solver, p: seq<Address>, amountIn: real, route: SwapRoute) {
    && PathDetails(s, p, amountIn).Ok?
    && route == SwapRoute(p, PathDetails(s, p, amountIn).value.pools, PathDetails(s, p, amountIn).value.amount)
  }

  /** Every path was evaluated without raising and yields no more than the
      recorded output. */
  lemma {:induction false} SelectBound(s: Solver, paths: seq<seq<Address>>, amountIn: real)
    requires Select(s, paths, amountIn).Ok?
    ensures forall j :: 0 <= j < |paths| ==>
      PathDetails(s, paths[j], amountIn).Ok? && Yield(s, paths[j], amountIn) <= Select(s, paths, amountIn).value.output
    decreases |paths|
  {
    if paths != [] {
      var init := paths[..|paths| - 1];
      SelectBound(s, init, amountIn);
      assert forall j :: 0 <= j < |init| ==> init[j] == paths[j];
    }
  }

  /** A route kept by the selection is the one of the first path with the
      greatest yield. */
  lemma {:induction false} SelectFirstBest(s: Solver, paths: seq<seq<Address>>, amountIn: real)
    requires Select(s, paths, amountIn).Ok? && Select(s, paths, amountIn).value.route.Some?
    ensures exists i ::
      IsFirstBest(s, paths, amountIn, i) && IsRouteOf(s, paths[i], amountIn, Select(s, paths, amountIn).value.route.value)
    decreases |paths|
  {
    var n := |paths|;
    var init := paths[..n - 1];
    var p := paths[n - 1];
    SelectBound(s, init, amountIn);
    var prior := Select(s, init, amountIn).value;
    var d := PathDetails(s, p, amountIn).value;
    if d.amount > prior.output {
      assert forall j :: 0 <= j < n - 1 ==> init[j] == paths[j];
      NewBest(s, paths, amountIn, prior.output);
    } else {
      SelectFirstBest(s, init, amountIn);
      var i :| IsFirstBest(s, init, amountIn, i) && IsRouteOf(s, init[i], amountIn, prior.route.value);
      KeepBest(s, paths, amountIn, i);
    }
  }

  /** A last path that beats every earlier yield is the first best. */
  lemma NewBest(s: Solver, paths: seq<seq<Address>>, amountIn: real, bound: real)
    requires |paths| > 0 && bound >= 0.0
    requires forall j :: 0 <= j < |paths| - 1 ==> Yield(s, paths[j], amountIn) <= bound
    requires Yield(s, paths[|paths| - 1], amountIn) > bound
    ensures IsFirstBest(s, paths, amountIn, |paths| - 1)
  {
  }

  /** A last path that does not beat the first best of the earlier ones
      leaves it the first best. */
  lemma KeepBest(s: Solver, paths: seq<seq<Address>>, amountIn: real, i: int)
    requires |paths| > 0
    requires IsFirstBest(s, paths[..|paths| - 1], amountIn, i)
    requires Yield(s, paths[|paths| - 1], amountIn) <= Yield(s, paths[i], amountIn)
    ensures IsFirstBest(s, paths, amountIn, i)
  {
    var init := paths[..|paths| - 1];
    assert forall j :: 0 <= j < |init| ==> init[j] == paths[j];
  }

  /** What the selection computes, stated without the loop: there is no
      route exactly when no path yields more than zero, and a route is the
      one of the first path with the greatest yield. */
  lemma SelectSpec(s: Solver, paths: seq<seq<Address>>, amountIn: real)
    requires Select(s, paths, amountIn).Ok?
    ensures var b := Select(s, paths, amountIn).value;
      b.route.None? <==> forall j :: 0 <= j < |paths| ==> Yield(s, paths[j], amountIn) <= 0.0
    ensures var b := Select(s, paths, amountIn).value;
      b.route.Some? ==> exists i :: IsFirstBest(s, paths, amountIn, i) && IsRouteOf(s, paths[i], amountIn, b.route.value)
  {
    SelectBound(s, paths, amountIn);
    if Select(s, paths, amountIn).value.route.Some? {
      SelectFirstBest(s, paths, amountIn);
    }
  }

  /** Evaluating a path again that was evaluated before changes nothing:
      the repeated rounds of lines 110-117 do not alter the choice. */
  lemma {:induction false} SelectIgnoresRepeats(s: Solver, xs: seq<seq<Address>>, ys: seq<seq<Address>>, amountIn: real)
    requires forall y :: y in ys ==> y in xs
    ensures Select(s, xs + ys, amountIn) == Select(s, xs, amountIn)
    decreases |ys|
  {
    if ys == [] {
      assert xs + ys == xs;
    } else {
      var m := |ys|;
      var all := xs + ys;
      assert all[..|all| - 1] == xs + ys[..m - 1];
      assert Last(all) == ys[m - 1];
      SelectIgnoresRepeats(s, xs, ys[..m - 1], amountIn);
      assert Select(s, all, amountIn) == Consider(s, Select(s, xs, amountIn), ys[m - 1], amountIn);
      if Select(s, xs, amountIn).Ok? {
        SelectBound(s, xs, amountIn);
        var y := ys[m - 1];
        assert y in xs;
        var j :| 0 <= j < |xs| && xs[j] == y;
        var b := Select(s, xs, amountIn).value;
        assert Yield(s, y, amountIn) <= b.output;
        assert PathDetails(s, y, amountIn).Ok?;
      }
    }
  }

  /** On a well-formed graph the candidates are exactly the simple paths
      between the two tokens with 1 to `maxHops` edges. */
  lemma {:induction false} CandidatesExact(g: Graph, source: Address, target: Address, maxHops: int, p: seq<Address>)
    requires WellFormed(g)
    ensures p in Candidates(g, source, target, maxHops) <==>
      IsSimplePath(g, p, source, target) && 1 <= |p| - 1 <= maxHops
    decreases maxHops
  {
    if maxHops >= 1 {
      CandidatesExact(g, source, target, maxHops - 1, p);
      SimplePathsExact(g, source, target, maxHops, p);
    }
  }

  /** A route found is a simple path from `tokenIn` to `tokenOut` with 1 to
      `maxHops` hops; its pools and output are those of a trace of that path
      (each hop fed the previous hop's output, through the pool of its
      edge); no simple path within `maxHops` hops yields more; and no path
      found earlier yields as much. */
  lemma FindBestRouteSound(s: Solver, tokenIn: Address, tokenOut: Address, amountIn: real, maxHops: int)
    returns (amounts: seq<real>)
    requires WellFormed(s.graph)
    requires FindBestRoute(s, tokenIn, tokenOut, amountIn, maxHops).Some?
    ensures var r := FindBestRoute(s, tokenIn, tokenOut, amountIn, maxHops).value;
      && IsSimplePath(s.graph, r.path, tokenIn, tokenOut)
      && 1 <= |r.path| - 1 <= maxHops
      && IsTrace(s, r.path, amountIn, r.pools, amounts)
      && r.estimatedOutput == Last(amounts)
    ensures var r := FindBestRoute(s, tokenIn, tokenOut, amountIn, maxHops).value;
      forall p :: IsSimplePath(s.graph, p, tokenIn, tokenOut) && 1 <= |p| - 1 <= maxHops ==>
        Yield(s, p, amountIn) <= r.estimatedOutput
    ensures var r := FindBestRoute(s, tokenIn, tokenOut, amountIn, maxHops).value;
      var cs := Candidates(s.graph, tokenIn, tokenOut, maxHops);
      exists i :: 0 <= i < |cs| && cs[i] == r.path && forall j :: 0 <= j < i ==> Yield(s, cs[j], amountIn) < r.estimatedOutput
  {
    var r := FindBestRoute(s, tokenIn, tokenOut, amountIn, maxHops).value;
    var cs := Candidates(s.graph, tokenIn, tokenOut, maxHops);
    SelectSpec(s, cs, amountIn);
    SelectBound(s, cs, amountIn);
    var i :| IsFirstBest(s, cs, amountIn, i) && IsRouteOf(s, cs[i], amountIn, r);
    CandidatesExact(s.graph, tokenIn, tokenOut, maxHops, r.path);
    amounts := TraceSound(s, r.path, amountIn);
    forall p | IsSimplePath(s.graph, p, tokenIn, tokenOut) && 1 <= |p| - 1 <= maxHops
      ensures Yield(s, p, amountIn) <= r.estimatedOutput
    {
      CandidatesExact(s.graph, tokenIn, tokenOut, maxHops, p);
      var j :| 0 <= j < |cs| && cs[j] == p;
    }
  }

  /** On a well-formed, coherent state with both tokens in the graph, there
      is no route exactly when no simple path within `maxHops` hops yields
      more than zero. */
  lemma FindBestRouteNone(s: Solver, tokenIn: Address, tokenOut: Address, amountIn: real, maxHops: int)
    requires WellFormed(s.graph) && Coherent(s)
    requires tokenIn in s.graph.nodes && tokenOut in s.graph.nodes
    ensures FindBestRoute(s, tokenIn, tokenOut, amountIn, maxHops).None? <==>
      forall p :: IsSimplePath(s.graph, p, tokenIn, tokenOut) && 1 <= |p| - 1 <= maxHops ==>
        Yield(s, p, amountIn) <= 0.0
  {
    var cs := Candidates(s.graph, tokenIn, tokenOut, maxHops);
    SelectSpec(s, cs, amountIn);
    forall p ensures p in cs <==> IsSimplePath(s.graph, p, tokenIn, tokenOut) && 1 <= |p| - 1 <= maxHops {
      CandidatesExact(s.graph, tokenIn, tokenOut, maxHops, p);
    }
  }

  /** The selection loop continued from `prior` over `ys`, front to back. */
  function SelectFrom(s: Solver, prior: Result<Best, Fault>, ys: seq<seq<Address>>, amountIn: real): Result<Best, Fault>
    decreases |ys|
  {
    if ys == [] then prior else SelectFrom(s, Consider(s, prior, ys[0], amountIn), ys[1..], amountIn)
  }

  /** Selecting over `xs + ys` is selecting over `xs` and then going on
      through `ys`. */
  lemma {:induction false} SelectSplit(s: Solver, xs: seq<seq<Address>>, ys: seq<seq<Address>>, amountIn: real)
    ensures Select(s, xs + ys, amountIn) == SelectFrom(s, Select(s, xs, amountIn), ys, amountIn)
    decreases |ys|
  {
    if ys == [] {
      assert xs + ys == xs;
    } else {
      var xs' := xs + [ys[0]];
      assert xs'[..|xs'| - 1] == xs;
      assert Select(s, xs', amountIn) == Consider(s, Select(s, xs, amountIn), ys[0], amountIn);
      SelectSplit(s, xs', ys[1..], amountIn);
      assert xs' + ys[1..] == xs + ys;
    }
  }

  /** A path evaluated again, anywhere after its first evaluation, changes
      nothing: it can be dropped. */
  lemma DropLaterRepeat(s: Solver, xs: seq<seq<Address>>, y: seq<Address>, zs: seq<seq<Address>>, amountIn: real)
    requires y in xs
    ensures Select(s, xs + [y] + zs, amountIn) == Select(s, xs + zs, amountIn)
  {
    SelectSplit(s, xs + [y], zs, amountIn);
    SelectIgnoresRepeats(s, xs, [y], amountIn);
    SelectSplit(s, xs, zs, amountIn);
  }

  /** The paths of `ps` with exactly `n` edges, in their order. */
  function WithHops(ps: seq<seq<Address>>, n: int): (r: seq<seq<Address>>)
    ensures forall q :: q in r <==> q in ps && |q| == n + 1
  {
    if ps == [] then []
    else (if |ps[0]| == n + 1 then [ps[0]] else []) + WithHops(ps[1..], n)
  }

  /** The filter keeps the first path exactly when it has `n` edges. */
  lemma WithHopsFirst(ps: seq<seq<Address>>, n: int)
    requires ps != []
    ensures |ps[0]| == n + 1 ==> WithHops(ps, n) == [ps[0]] + WithHops(ps[1..], n)
    ensures |ps[0]| != n + 1 ==> WithHops(ps, n) == WithHops(ps[1..], n)
  {
  }

  /** Path `y` cannot change the choice from `prior` on: either the loop has
      already raised, or `y` evaluates without raising and yields no more
      than the best so far. */
  ghost predicate Covered(s: Solver, prior: Result<Best, Fault>, y: seq<Address>, amountIn: real) {
    prior.Ok? ==> PathDetails(s, y, amountIn).Ok? && Yield(s, y, amountIn) <= prior.value.output
  }

  /** Evaluating a covered path leaves the best so far as it was ... */
  lemma ConsiderCoveredKeeps(s: Solver, prior: Result<Best, Fault>, y: seq<Address>, amountIn: real)
    requires Covered(s, prior, y, amountIn)
    ensures Consider(s, prior, y, amountIn) == prior
  {
  }

  /** ... and evaluating any path keeps a covered path covered, since the
      best output only grows. */
  lemma ConsiderKeepsCovered(s: Solver, prior: Result<Best, Fault>, y: seq<Address>, z: seq<Address>, amountIn: real)
    requires Covered(s, prior, y, amountIn)
    ensures Covered(s, Consider(s, prior, z, amountIn), y, amountIn)
  {
  }

  /** Going on from `prior` through `ys`, the paths whose number of edges is
      not `n` and that are covered can all be skipped. */
  lemma {:induction false} SelectFromSkipsCovered(s: Solver, prior: Result<Best, Fault>, ys: seq<seq<Address>>, n: int,
                                                  amountIn: real)
    requires forall y :: y in ys && |y| != n + 1 ==> Covered(s, prior, y, amountIn)
    ensures SelectFrom(s, prior, ys, amountIn) == SelectFrom(s, prior, WithHops(ys, n), amountIn)
    decreases |ys|
  {
    if ys != [] {
      var y, rest := ys[0], ys[1..];
      WithHopsFirst(ys, n);
      assert forall z :: z in rest ==> z in ys;
      if |y| == n + 1 {
        var next := Consider(s, prior, y, amountIn);
        forall z | z in rest && |z| != n + 1 ensures Covered(s, next, z, amountIn) {
          ConsiderKeepsCovered(s, prior, z, y, amountIn);
        }
        SelectFromSkipsCovered(s, next, rest, n, amountIn);
        assert ([y] + WithHops(rest, n))[1..] == WithHops(rest, n);
      } else {
        ConsiderCoveredKeeps(s, prior, y, amountIn);
        SelectFromSkipsCovered(s, prior, rest, n, amountIn);
      }
    }
  }

  /** When every path of `ys` with other than `n` edges was already
      evaluated in `xs`, only the paths with exactly `n` edges matter. */
  lemma SelectDropsSeen(s: Solver, xs: seq<seq<Address>>, ys: seq<seq<Address>>, n: int, amountIn: real)
    requires forall y :: y in ys && |y| != n + 1 ==> y in xs
    ensures Select(s, xs + ys, amountIn) == Select(s, xs + WithHops(ys, n), amountIn)
  {
    var prior := Select(s, xs, amountIn);
    if prior.Ok? {
      SelectBound(s, xs, amountIn);
    }
    forall y | y in ys && |y| != n + 1 ensures Covered(s, prior, y, amountIn) {
      var j :| 0 <= j < |xs| && xs[j] == y;
    }
    SelectFromSkipsCovered(s, prior, ys, n, amountIn);
    SelectSplit(s, xs, ys, amountIn);
    SelectSplit(s, xs, WithHops(ys, n), amountIn);
  }

  /** Round `m` of lines 110-121 lists again every shorter path, mixed in
      with the new ones; only its paths with exactly `m` edges can change
      the choice. */
  lemma RoundAddsOnlyLongest(s: Solver, tokenIn: Address, tokenOut: Address, amountIn: real, m: int)
    requires WellFormed(s.graph) && m >= 1
    ensures var g := s.graph;
      Select(s, Candidates(g, tokenIn, tokenOut, m), amountIn)
      == Select(s, Candidates(g, tokenIn, tokenOut, m - 1) + WithHops(SimplePaths(g, tokenIn, tokenOut, m), m), amountIn)
  {
    var g := s.graph;
    var prior := Candidates(g, tokenIn, tokenOut, m - 1);
    var round := SimplePaths(g, tokenIn, tokenOut, m);
    forall y | y in round && |y| != m + 1 ensures y in prior {
      SimplePathsExact(g, tokenIn, tokenOut, m, y);
      CandidatesExact(g, tokenIn, tokenOut, m - 1, y);
    }
    SelectDropsSeen(s, prior, round, m, amountIn);
  }

  /** The candidates of a smaller hop limit come first, in the same order. */
  lemma {:induction false} CandidatesPrefix(g: Graph, source: Address, target: Address, k: int, m: int)
    requires k <= m
    ensures |Candidates(g, source, target, k)| <= |Candidates(g, source, target, m)|
    ensures Candidates(g, source, target, m)[..|Candidates(g, source, target, k)|] == Candidates(g, source, target, k)
    decreases m - k
  {
    if k < m && m >= 1 {
      CandidatesPrefix(g, source, target, k, m - 1);
      var pre := Candidates(g, source, target, m - 1);
      assert Candidates(g, source, target, m)[..|pre|] == pre;
    }
  }

  /** Among routes of equal output the one with the fewest hops wins: the
      rounds go up in hop count, and a path first appears in the round of
      its own hop count. */
  lemma FindBestRouteFewestHops(s: Solver, tokenIn: Address, tokenOut: Address, amountIn: real, maxHops: int,
                                p: seq<Address>)
    requires WellFormed(s.graph)
    requires FindBestRoute(s, tokenIn, tokenOut, amountIn, maxHops).Some?
    requires IsSimplePath(s.graph, p, tokenIn, tokenOut) && 1 <= |p| - 1 <= maxHops
    requires Yield(s, p, amountIn) == FindBestRoute(s, tokenIn, tokenOut, amountIn, maxHops).value.estimatedOutput
    ensures |FindBestRoute(s, tokenIn, tokenOut, amountIn, maxHops).value.path| <= |p|
  {
    var g := s.graph;
    var r := FindBestRoute(s, tokenIn, tokenOut, amountIn, maxHops).value;
    var cs := Candidates(g, tokenIn, tokenOut, maxHops);
    var _ := FindBestRouteSound(s, tokenIn, tokenOut, amountIn, maxHops);
    var i :| 0 <= i < |cs| && cs[i] == r.path && forall j :: 0 <= j < i ==> Yield(s, cs[j], amountIn) < r.estimatedOutput;
    var k := |p| - 1;
    var early := Candidates(g, tokenIn, tokenOut, k);
    CandidatesExact(g, tokenIn, tokenOut, k, p);
    var j :| 0 <= j < |early| && early[j] == p;
    CandidatesPrefix(g, tokenIn, tokenOut, k, maxHops);
    assert cs[j] == p;
    assert i <= j;
    assert early[i] == r.path;
    CandidatesExact(g, tokenIn, tokenOut, k, r.path);
  }
}
