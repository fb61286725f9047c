/** The simple paths the route search considers: what
    `networkx.all_simple_paths(graph, source, target, cutoff)` yields at
    app/services/graph_solver.py, lines 112-117, defined directly as the
    depth-first search that library runs. Neighbours are tried in the order
    their edges were first added; the target is never passed through; a token
    already on the path is skipped. */
module Enumeration {
  import opened Sequences
  import opened Models
  import opened Graph

  /** The simple paths from `source` to `target` with 1 to `cutoff` edges,
      in the order the search finds them. None when the two ends coincide. */
  function SimplePaths(g: Graph, source: Address, target: Address, cutoff: int): (r: seq<seq<Address>>)
    ensures source == target ==> r == []
    ensures forall q :: q in r ==> cutoff >= 1 && ExtendsTo(g, [source], target, cutoff, q)
  {
    if source == target || cutoff < 1 then []
    else Extend(g, [source], target, cutoff)
  }

  /** `q` continues `path` by 1 to `budget` steps, each to a listed neighbour,
      and ends at `target`; if `path` was simple and avoided `target`, so is
      `q`. */
  predicate ExtendsTo(g: Graph, path: seq<Address>, target: Address, budget: nat, q: seq<Address>) {
    && |path| >= 1
    && |path| < |q| <= |path| + budget
    && q[..|path|] == path
    && Last(q) == target
    && (NoDup(path) && target !in path ==> NoDup(q))
    && forall i :: |path| - 1 <= i < |q| - 1 ==> q[i + 1] in Neighbors(g, q[i])
  }

  /** The paths found below `path` with `budget` more edges allowed. */
  function Extend(g: Graph, path: seq<Address>, target: Address, budget: nat): (r: seq<seq<Address>>)
    requires |path| >= 1 && budget >= 1
    ensures forall q :: q in r ==> ExtendsTo(g, path, target, budget, q)
    decreases budget, |Neighbors(g, Last(path))| + 2
  {
    Through(g, path, target, budget, Neighbors(g, Last(path)))
  }

  /** The paths found through each of the neighbours `cs`, in order. */
  function Through(g: Graph, path: seq<Address>, target: Address, budget: nat, cs: seq<Address>): (r: seq<seq<Address>>)
    requires |path| >= 1 && budget >= 1
    requires forall c :: c in cs ==> c in Neighbors(g, Last(path))
    ensures forall q :: q in r ==> ExtendsTo(g, path, target, budget, q)
    decreases budget, |cs| + 1
  {
    if cs == [] then []
    else Branch(g, path, target, budget, cs[0]) + Through(g, path, target, budget, cs[1..])
  }

  /** The paths found through neighbour `c`: none if `c` is already on the
      path, the path itself if `c` is the target, otherwise those found below
      `c` while edges remain. */
  function Branch(g: Graph, path: seq<Address>, target: Address, budget: nat, c: Address): (r: seq<seq<Address>>)
    requires |path| >= 1 && budget >= 1
    requires c in Neighbors(g, Last(path))
    ensures forall q :: q in r ==> ExtendsTo(g, path, target, budget, q)
    decreases budget, 0
  {
    if c in path then []
    else if c == target then [path + [c]]
    else if budget > 1 then
      var below := Extend(g, path + [c], target, budget - 1);
      assert forall q :: q in below ==> q[..|path|] == (path + [c])[..|path|];
      below
    else []
  }

  /** A walk along edges of the graph. */
  ghost predicate Walkable(g: Graph, p: seq<Address>) {
    forall i :: 0 <= i < |p| - 1 ==> Key(p[i], p[i + 1]) in g.edges
  }

  /** A simple path from `source` to `target`: it starts and ends there,
      repeats no token, and follows edges of the graph. */
  ghost predicate IsSimplePath(g: Graph, p: seq<Address>, source: Address, target: Address) {
    && |p| >= 1
    && p[0] == source
    && Last(p) == target
    && NoDup(p)
    && Walkable(g, p)
  }

  /** Whatever the branch for `c` finds, the search through a list holding
      `c` finds too. */
  lemma {:induction false} ThroughContains(g: Graph, path: seq<Address>, target: Address, budget: nat,
                                           cs: seq<Address>, c: Address, q: seq<Address>)
    requires |path| >= 1 && budget >= 1
    requires forall x :: x in cs ==> x in Neighbors(g, Last(path))
    requires c in cs && q in Branch(g, path, target, budget, c)
    ensures q in Through(g, path, target, budget, cs)
    decreases |cs|
  {
    if cs[0] != c {
      ThroughContains(g, path, target, budget, cs[1..], c, q);
    }
  }

  /** The search misses no simple continuation of `path` that ends at the
      target within the budget. */
  lemma {:induction false} ExtendComplete(g: Graph, path: seq<Address>, target: Address, budget: nat, q: seq<Address>)
    requires WellFormed(g)
    requires |path| >= 1 && budget >= 1 && target !in path
    requires |path| < |q| <= |path| + budget && q[..|path|] == path && Last(q) == target && NoDup(q)
    requires forall i :: |path| - 1 <= i < |q| - 1 ==> Key(q[i], q[i + 1]) in g.edges
    ensures q in Extend(g, path, target, budget)
    decreases budget
  {
    var u, c := Last(path), q[|path|];
    assert Key(u, c) in g.edges by {
      assert u == q[|path| - 1];
    }
    NeighborsExact(g, u, c);
    NextStep(path, target, q);
    if c != target {
      ExtendComplete(g, path + [c], target, budget - 1, q);
    }
    assert q in Branch(g, path, target, budget, c);
    ThroughContains(g, path, target, budget, Neighbors(g, u), c, q);
  }

  /** The first new token of a simple continuation is not on the path yet; if
      it is the target the continuation stops there, otherwise the rest is a
      continuation of the longer path. */
  lemma NextStep(path: seq<Address>, target: Address, q: seq<Address>)
    requires |path| >= 1 && target !in path
    requires |path| < |q| && q[..|path|] == path && Last(q) == target && NoDup(q)
    ensures q[|path|] !in path
    ensures q[|path|] == target ==> q == path + [target]
    ensures q[|path|] != target ==> |q| > |path| + 1 && q[..|path| + 1] == path + [q[|path|]]
  {
    var c := q[|path|];
    forall j | 0 <= j < |path| ensures path[j] != c {
      assert path[j] == q[j];
    }
    if c == target {
      assert q == q[..|path|] + [q[|path|]];
    }
  }

  /** On a well-formed graph the enumeration yields exactly the simple paths
      from `source` to `target` with 1 to `cutoff` edges. */
  lemma SimplePathsExact(g: Graph, source: Address, target: Address, cutoff: int, p: seq<Address>)
    requires WellFormed(g)
    ensures p in SimplePaths(g, source, target, cutoff) <==>
      IsSimplePath(g, p, source, target) && 1 <= |p| - 1 <= cutoff
  {
    if p in SimplePaths(g, source, target, cutoff) {
      assert ExtendsTo(g, [source], target, cutoff, p);
      assert p[..1] == [source];
      forall i | 0 <= i < |p| - 1 ensures Key(p[i], p[i + 1]) in g.edges {
        NeighborsExact(g, p[i], p[i + 1]);
      }
    }
    if IsSimplePath(g, p, source, target) && 1 <= |p| - 1 <= cutoff {
      assert source != target by {
        assert p[0] != p[|p| - 1];
      }
      assert p[..1] == [source];
      ExtendComplete(g, [source], target, cutoff, p);
    }
  }
}
