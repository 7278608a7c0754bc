/** Steps 1 and 2 of the propagating solvers: components are collapsed and points-to sets are
    handed along the copy edges, sources first, with a cache of what each node handed on
    (include/aser/PointerAnalysis/Solver/WavePropagation.h and SolverBase.h).

    The functions say what each step does to the graph; the lemmas say what each step keeps. */
module Sweeping {
  import opened Constraints
  import opened CopyGraph
  import opened Lists
  import opened Reachability
  import opened SccOrder

  // ----- processCopySCC as a function -----

  ghost function MergeAll(g: Graph, members: seq<nat>, s: nat): (h: Graph)
    requires s < |g.pts| && forall i :: 0 <= i < |members| ==> members[i] < |g.pts|
    ensures |h.pts| == |g.pts|
    decreases |members|
  {
    if members == [] then g else MergeAll(Merge(g, members[0], s), members[1..], s)
  }

  function CollapseAll(g: Graph, members: seq<nat>, s: nat): (h: Graph)
    ensures h.pts == g.pts
    decreases |members|
  {
    if members == [] then g else CollapseAll(Collapse(g, members[0], s), members[1..], s)
  }

  /** The component's points-to sets are merged into its first node, the other nodes collapse
      into it, and it hands the result on. */
  ghost function CollapseScc(g: Graph, scc: seq<nat>): Graph
    requires scc != [] && forall i :: 0 <= i < |scc| ==> scc[i] < |g.pts|
  {
    Propagate(Collapsed(g, scc), scc[0])
  }

  ghost function Collapsed(g: Graph, scc: seq<nat>): (h: Graph)
    requires scc != [] && forall i :: 0 <= i < |scc| ==> scc[i] < |g.pts|
    ensures |h.pts| == |g.pts|
  {
    CollapseAll(MergeAll(g, scc[1..], scc[0]), scc[1..], scc[0])
  }

  // ----- the invariant of a sweep -----

  /** No node has handed on more than it has, and every copy successor has what was handed on;
      `but` is a node excused from the second part. */
  ghost predicate CacheOk(g: Graph, cached: seq<set<nat>>, but: int)
    requires LiveEdges(g.rep, g.copy) && |g.rep| == |g.pts|
  {
    && |cached| == |g.pts|
    && (forall x :: 0 <= x < |cached| ==> cached[x] <= g.pts[x])
    && (forall e :: e in g.copy && e.0 != but ==> cached[e.0] <= g.pts[e.1])
  }

  ghost predicate Ordered(g: Graph, pos: seq<nat>)
    requires LiveEdges(g.rep, g.copy) && |g.rep| == |pos|
  {
    forall e :: e in g.copy ==> pos[e.1] <= pos[e.0]
  }

  /** Components from position `k` on are done; those below `alive` still have all their nodes. */
  ghost predicate SweepInv(g0: Graph, g: Graph, cached: seq<set<nat>>, pos: seq<nat>, k: nat, alive: nat, but: int)
    requires WfGraph(|pos|, g0) && WfGraph(|pos|, g)
  {
    && Ordered(g, pos)
    && CacheOk(g, cached, but)
    && (forall x: nat :: Live(g, x) && pos[x] >= k ==> cached[x] == g.pts[x])
    && (forall x: nat :: Live(g, x) ==> Live(g0, x))
    && (forall x: nat :: Live(g0, x) && pos[x] < alive ==> Live(g, x))
  }

  lemma ComponentIsAlike(g: Graph, order: seq<seq<nat>>, pos: seq<nat>, x: nat, y: nat)
    requires WfGraph(|g.pts|, g) && IsSccOrder(g, order, pos) && Live(g, x) && Live(g, y) && pos[x] == pos[y]
    ensures Alike(g, x, y)
  {
    forall t | CopySound(g, t) ensures t[x] == t[y] {
      InclusionAlongReach(g.copy, t, x, y);
      InclusionAlongReach(g.copy, t, y, x);
    }
  }

  // ----- handing on from one node -----

  /** `a` is the only node of its component left, so handing on settles the component. */
  lemma PropagateSweeps(g0: Graph, g: Graph, cached: seq<set<nat>>, pos: seq<nat>, k: nat, but: int, a: nat)
    requires WfGraph(|pos|, g0) && WfGraph(|pos|, g) && SweepInv(g0, g, cached, pos, k + 1, k, but)
    requires Live(g, a) && pos[a] == k && (but == -1 || but == a)
    requires forall x: nat :: Live(g, x) && pos[x] == k ==> x == a
    ensures WfGraph(|pos|, Propagate(g, a))
    ensures Propagate(g, a).pts[a] == g.pts[a]
    ensures SweepInv(g0, Propagate(g, a), cached[a := g.pts[a]], pos, k, k, -1)
  {
    PropagateKeeps(|pos|, g, a);
    var h := Propagate(g, a);
    forall x: nat | Live(h, x) && pos[x] >= k ensures cached[a := g.pts[a]][x] == h.pts[x] {
      assert x == a || (a, x) !in g.copy;
    }
  }

  /** If nothing new is to be handed on, the source skips the propagation; it would change nothing. */
  lemma SkipIsPropagate(g: Graph, cached: seq<set<nat>>, a: nat)
    requires WfGraph(|g.pts|, g) && CacheOk(g, cached, -1) && a < |g.pts| && g.pts[a] - cached[a] == {}
    ensures Propagate(g, a) == g && cached == cached[a := g.pts[a]]
  {
    assert cached[a] <= g.pts[a];
    assert forall v :: v in g.pts[a] && v !in cached[a] ==> v in g.pts[a] - cached[a];
    var pts := AfterCopies(g.pts, g.copy, a);
    forall i | 0 <= i < |g.pts| ensures pts[i] == g.pts[i] {
      if (a, i) in g.copy {
        assert cached[(a, i).0] <= g.pts[(a, i).1];
      }
    }
    assert pts == g.pts && cached[a] == g.pts[a];
  }

  // ----- a component of several nodes -----

  ghost predicate Members(g0: Graph, g: Graph, pos: seq<nat>, k: nat, members: seq<nat>, s: nat)
    requires WfGraph(|pos|, g0) && |g.pts| == |g.rep| == |pos|
  {
    && Live(g, s) && pos[s] == k && s !in members && Distinct(members)
    && (forall i :: 0 <= i < |members| ==>
          Live(g, members[i]) && pos[members[i]] == k && members[i] != s && Alike(g0, members[i], s))
  }

  lemma MergeSweeps(g0: Graph, g: Graph, cached: seq<set<nat>>, pos: seq<nat>, k: nat, m: nat, s: nat)
    requires WfGraph(|pos|, g0) && WfGraph(|pos|, g) && SweepInv(g0, g, cached, pos, k + 1, k, s)
    requires Live(g, m) && Live(g, s) && pos[s] == k
    ensures WfGraph(|pos|, Merge(g, m, s)) && SweepInv(g0, Merge(g, m, s), cached, pos, k + 1, k, s)
  {
  }

  lemma {:induction false} MergeAllSweeps(sys: System, g0: Graph, g: Graph, cached: seq<set<nat>>, pos: seq<nat>,
                                          k: nat, members: seq<nat>, s: nat)
    requires WfSystem(sys) && sys.n == |pos| && Derived(sys, g0, g) && SweepInv(g0, g, cached, pos, k + 1, k, s)
    requires Members(g0, g, pos, k, members, s)
    ensures var h := MergeAll(g, members, s);
      && Derived(sys, g0, h) && SweepInv(g0, h, cached, pos, k + 1, k, s)
      && h.rep == g.rep && g.pts[s] <= h.pts[s]
      && (forall i :: 0 <= i < |members| ==> h.pts[members[i]] <= h.pts[s])
      && (forall x :: 0 <= x < |g.pts| && x != s ==> h.pts[x] == g.pts[x])
    decreases |members|
  {
    hide KeepsSound, Covers, Grows, Ordered, CacheOk;
    if members != [] {
      var m, rest := members[0], members[1..];
      var g1 := Merge(g, m, s);
      MergeDerived(sys, g0, g, m, s);
      MergeSweeps(g0, g, cached, pos, k, m, s);
      assert Members(g0, g1, pos, k, rest, s);
      MergeAllSweeps(sys, g0, g1, cached, pos, k, rest, s);
      var h := MergeAll(g1, rest, s);
      forall i | 0 <= i < |members| ensures h.pts[members[i]] <= h.pts[s] {
        if i > 0 {
          assert members[i] == rest[i - 1];
        }
      }
    }
  }

  lemma CollapseSweeps(g0: Graph, g: Graph, cached: seq<set<nat>>, pos: seq<nat>, k: nat, m: nat, s: nat)
    requires WfGraph(|pos|, g0) && WfGraph(|pos|, g) && SweepInv(g0, g, cached, pos, k + 1, k, s)
    requires Live(g, m) && Live(g, s) && m != s && pos[m] == pos[s] == k && g.pts[m] <= g.pts[s]
    ensures WfGraph(|pos|, Collapse(g, m, s))
    ensures SweepInv(g0, Collapse(g, m, s), cached, pos, k + 1, k, s)
  {
    CollapseWf(|pos|, g, m, s);
    var h := Collapse(g, m, s);
    forall e | e in h.copy ensures pos[e.1] <= pos[e.0] && (e.0 != s ==> cached[e.0] <= h.pts[e.1]) {
      var c :| c in g.copy && e == (Rename(m, s, c.0), Rename(m, s, c.1));
    }
  }

  lemma CollapseLeavesMembers(g0: Graph, g: Graph, pos: seq<nat>, k: nat, members: seq<nat>, s: nat)
    requires WfGraph(|pos|, g0) && WfGraph(|pos|, g) && members != [] && Members(g0, g, pos, k, members, s)
    ensures Members(g0, Collapse(g, members[0], s), pos, k, members[1..], s)
  {
    forall i | 0 <= i < |members[1..]| ensures members[1..][i] != members[0] {
      assert members[1..][i] == members[i + 1];
    }
  }

  lemma {:induction false} CollapseAllSweeps(sys: System, g0: Graph, g: Graph, cached: seq<set<nat>>, pos: seq<nat>,
                                             k: nat, members: seq<nat>, s: nat)
    requires WfSystem(sys) && sys.n == |pos| && Derived(sys, g0, g) && SweepInv(g0, g, cached, pos, k + 1, k, s)
    requires Members(g0, g, pos, k, members, s)
    requires forall i :: 0 <= i < |members| ==> g.pts[members[i]] <= g.pts[s]
    ensures var h := CollapseAll(g, members, s);
      && Derived(sys, g0, h) && SweepInv(g0, h, cached, pos, k + 1, k, s)
      && h.pts == g.pts && Live(h, s)
      && (forall x: nat :: Live(h, x) ==> Live(g, x))
      && (forall i :: 0 <= i < |members| ==> !Live(h, members[i]))
    decreases |members|
  {
    hide KeepsSound, Covers, Grows, Ordered, CacheOk;
    if members != [] {
      var m, rest := members[0], members[1..];
      var h := Collapse(g, m, s);
      CollapseDerived(sys, g0, g, m, s);
      CollapseSweeps(g0, g, cached, pos, k, m, s);
      CollapseLeavesMembers(g0, g, pos, k, members, s);
      CollapseAllSweeps(sys, g0, h, cached, pos, k, rest, s);
      forall i | 0 <= i < |members| ensures !Live(CollapseAll(h, rest, s), members[i]) {
        assert !Live(h, m);
        assert i > 0 ==> members[i] == rest[i - 1];
      }
    }
  }

  lemma ComponentMembers(g0: Graph, g: Graph, cached: seq<set<nat>>, order: seq<seq<nat>>, pos: seq<nat>, k: nat)
    requires WfGraph(|pos|, g0) && WfGraph(|pos|, g) && IsSccOrder(g0, order, pos)
    requires k < |order| && |order[k]| > 1 && SweepInv(g0, g, cached, pos, k + 1, k + 1, -1)
    ensures Members(g0, g, pos, k, order[k][1..], order[k][0])
  {
    var s, members := order[k][0], order[k][1..];
    assert Placed(g0, order, pos, k, order[k][0]);
    forall i | 0 <= i < |members|
      ensures Live(g, members[i]) && pos[members[i]] == k && members[i] != s && Alike(g0, members[i], s)
    {
      assert members[i] == order[k][i + 1] && Placed(g0, order, pos, k, order[k][i + 1]);
      ComponentIsAlike(g0, order, pos, members[i], s);
    }
    assert Distinct(members) by {
      assert forall i :: 0 <= i < |members| ==> members[i] == order[k][i + 1];
    }
  }

  lemma ComponentIsListed(g0: Graph, order: seq<seq<nat>>, pos: seq<nat>, k: nat, x: nat)
    requires WfGraph(|pos|, g0) && IsSccOrder(g0, order, pos) && k < |order| && Live(g0, x) && pos[x] == k
    ensures x == order[k][0] || x in order[k][1..]
  {
    assert x in order[pos[x]];
    assert order[k] == [order[k][0]] + order[k][1..];
  }

  lemma SccCollapses(sys: System, g0: Graph, g: Graph, cached: seq<set<nat>>, order: seq<seq<nat>>, pos: seq<nat>, k: nat)
    requires WfSystem(sys) && sys.n == |pos| && Derived(sys, g0, g) && IsSccOrder(g0, order, pos)
    requires k < |order| && |order[k]| > 1 && SweepInv(g0, g, cached, pos, k + 1, k + 1, -1)
    ensures forall i :: 0 <= i < |order[k]| ==> order[k][i] < |g.pts|
    ensures var s := order[k][0]; var h := Collapsed(g, order[k]);
      && Derived(sys, g0, h) && SweepInv(g0, h, cached, pos, k + 1, k, s)
      && Live(h, s) && pos[s] == k && forall x: nat :: Live(h, x) && pos[x] == k ==> x == s
  {
    hide KeepsSound, Covers, Grows, Ordered, MergeAll, CollapseAll;
    var s, members := order[k][0], order[k][1..];
    ComponentMembers(g0, g, cached, order, pos, k);
    MergeAllSweeps(sys, g0, g, cached, pos, k, members, s);
    CollapseAllSweeps(sys, g0, MergeAll(g, members, s), cached, pos, k, members, s);
    forall x: nat | Live(Collapsed(g, order[k]), x) && pos[x] == k ensures x == s {
      ComponentIsListed(g0, order, pos, k, x);
    }
  }

  /** Collapsing a whole component settles it. */
  lemma SccSweeps(sys: System, g0: Graph, g: Graph, cached: seq<set<nat>>, order: seq<seq<nat>>, pos: seq<nat>, k: nat)
    requires WfSystem(sys) && sys.n == |pos| && Derived(sys, g0, g) && IsSccOrder(g0, order, pos)
    requires k < |order| && |order[k]| > 1 && SweepInv(g0, g, cached, pos, k + 1, k + 1, -1)
    ensures forall i :: 0 <= i < |order[k]| ==> order[k][i] < |g.pts|
    ensures var h := CollapseScc(g, order[k]);
      && Derived(sys, g0, h)
      && SweepInv(g0, h, cached[order[k][0] := h.pts[order[k][0]]], pos, k, k, -1)
  {
    SccCollapses(sys, g0, g, cached, order, pos, k);
    PropagateDerived(sys, g0, Collapsed(g, order[k]), order[k][0]);
    PropagateSweeps(g0, Collapsed(g, order[k]), cached, pos, k, order[k][0], order[k][0]);
  }

  // ----- what collapsing does to the shape of the graph -----

  ghost predicate OnOneCycle(edges: set<Edge>, x: nat, y: nat) {
    Reaches(edges, x, y) && Reaches(edges, y, x)
  }

  ghost predicate ImageOf(rep: seq<nat>, edges0: set<Edge>, edges: set<Edge>) {
    forall e :: e in edges ==>
      exists c :: c in edges0 && c.0 < |rep| && c.1 < |rep| && e == (rep[c.0], rep[c.1])
  }

  /** `g` is `g0` with nodes merged: only nodes on a common copy cycle, and every edge is the
      image of an edge. */
  ghost predicate Quotient(g0: Graph, g: Graph) {
    && |g.rep| == |g0.rep|
    && (forall x: nat :: Live(g0, x) ==> OnOneCycle(g0.copy, x, g.rep[x]))
    && ImageOf(g.rep, g0.copy, g.copy) && ImageOf(g.rep, g0.load, g.load) && ImageOf(g.rep, g0.store, g.store)
  }

  lemma QuotientOfItself(g: Graph)
    requires WfGraph(|g.pts|, g)
    ensures Quotient(g, g)
  {
    forall x: nat | Live(g, x) ensures OnOneCycle(g.copy, x, g.rep[x]) {
      assert x in ReachFrom(g.copy, {x});
    }
  }

  lemma ImageOfCollapse(rep: seq<nat>, rep': seq<nat>, edges0: set<Edge>, edges: set<Edge>, m: nat, s: nat)
    requires ImageOf(rep, edges0, edges) && |rep'| == |rep|
    requires forall x :: 0 <= x < |rep| ==> rep'[x] == Rename(m, s, rep[x])
    ensures ImageOf(rep', edges0, RenameEdges(edges, m, s))
  {
    forall e | e in RenameEdges(edges, m, s)
      ensures exists c :: c in edges0 && c.0 < |rep'| && c.1 < |rep'| && e == (rep'[c.0], rep'[c.1])
    {
      var d :| d in edges && e == (Rename(m, s, d.0), Rename(m, s, d.1));
      var c :| c in edges0 && c.0 < |rep| && c.1 < |rep| && d == (rep[c.0], rep[c.1]);
      assert e == (rep'[c.0], rep'[c.1]);
    }
  }

  lemma CollapseIsQuotient(g0: Graph, g: Graph, m: nat, s: nat)
    requires Quotient(g0, g) && OnOneCycle(g0.copy, m, s)
    ensures Quotient(g0, Collapse(g, m, s))
  {
    var h := Collapse(g, m, s);
    ImageOfCollapse(g.rep, h.rep, g0.copy, g.copy, m, s);
    ImageOfCollapse(g.rep, h.rep, g0.load, g.load, m, s);
    ImageOfCollapse(g.rep, h.rep, g0.store, g.store, m, s);
    forall x: nat | Live(g0, x) ensures OnOneCycle(g0.copy, x, h.rep[x]) {
      if g.rep[x] == m {
        ReachesTransitive(g0.copy, x, m, s);
        ReachesTransitive(g0.copy, s, m, x);
      }
    }
  }

  lemma {:induction false} CollapseAllIsQuotient(g0: Graph, g: Graph, members: seq<nat>, s: nat)
    requires Quotient(g0, g) && forall i :: 0 <= i < |members| ==> OnOneCycle(g0.copy, members[i], s)
    ensures Quotient(g0, CollapseAll(g, members, s))
    decreases |members|
  {
    if members != [] {
      CollapseIsQuotient(g0, g, members[0], s);
      CollapseAllIsQuotient(g0, Collapse(g, members[0], s), members[1..], s);
    }
  }

  lemma {:induction false} MergeAllKeepsShape(g: Graph, members: seq<nat>, s: nat)
    requires s < |g.pts| && forall i :: 0 <= i < |members| ==> members[i] < |g.pts|
    ensures MergeAll(g, members, s) == g.(pts := MergeAll(g, members, s).pts)
    decreases |members|
  {
    if members != [] {
      MergeAllKeepsShape(Merge(g, members[0], s), members[1..], s);
    }
  }

  /** Collapsing a component keeps the quotient. */
  lemma SccIsQuotient(g0: Graph, g: Graph, order: seq<seq<nat>>, pos: seq<nat>, k: nat)
    requires IsSccOrder(g0, order, pos) && k < |order| && |order[k]| > 1 && Quotient(g0, g)
    requires forall i :: 0 <= i < |order[k]| ==> order[k][i] < |g.pts|
    ensures Quotient(g0, CollapseScc(g, order[k]))
  {
    var s, members := order[k][0], order[k][1..];
    assert Placed(g0, order, pos, k, order[k][0]);
    forall i | 0 <= i < |members| ensures OnOneCycle(g0.copy, members[i], s) {
      assert members[i] == order[k][i + 1] && Placed(g0, order, pos, k, order[k][i + 1]);
    }
    MergeAllKeepsShape(g, members, s);
    CollapseAllIsQuotient(g0, MergeAll(g, members, s), members, s);
  }

  // ----- what a finished sweep has computed -----

  lemma SweptIsClosed(g0: Graph, g: Graph, cached: seq<set<nat>>, pos: seq<nat>)
    requires WfGraph(|pos|, g0) && WfGraph(|pos|, g) && SweepInv(g0, g, cached, pos, 0, 0, -1)
    ensures CopyClosed(g.pts, g.copy)
  {
    forall e | e in g.copy ensures g.pts[e.0] <= g.pts[e.1] {
      assert Live(g, e.0) && pos[e.0] >= 0;
    }
  }

  /** Everything held by a node with a copy path to (the super node of) `x`. */
  ghost function Arrivals(g: Graph, x: nat): set<nat>
    requires WfGraph(|g.pts|, g) && x < |g.pts|
  {
    set u: nat, v | u < |g.pts| && g.rep[u] == u && Reaches(g.copy, u, g.rep[x]) && v in g.pts[u] :: v
  }

  lemma ArrivalsAreSound(g: Graph, t: seq<set<nat>>)
    requires WfGraph(|g.pts|, g) && |t| == |g.pts| && forall x :: 0 <= x < |t| ==> t[x] == Arrivals(g, x)
    ensures CopySound(g, t)
  {
    forall e | e in g.copy ensures t[e.0] <= t[e.1] {
      forall u: nat | u < |t| && Reaches(g.copy, u, e.0) ensures Reaches(g.copy, u, e.1) {
        ReachesEdge(g.copy, e);
        ReachesTransitive(g.copy, u, e.0, e.1);
      }
    }
    forall x | 0 <= x < |t| && g.rep[x] == x ensures g.pts[x] <= t[x] {
      assert Reaches(g.copy, x, x);
    }
  }

  lemma ReadFollowsCopies(g0: Graph, g: Graph, x: nat, y: nat)
    requires WfGraph(|g0.pts|, g0) && WfGraph(|g.pts|, g) && Grows(g0, g) && CopyClosed(g.pts, g.copy)
    requires x < |g.pts| && y < |g.pts| && CopyRel(g0, x, y)
    ensures Read(g)[x] <= Read(g)[y]
  {
    assert CopyRel(g, x, y);
    if g.rep[x] != g.rep[y] {
      assert g.pts[(g.rep[x], g.rep[y]).0] <= g.pts[(g.rep[x], g.rep[y]).1];
    }
  }

  lemma ReadsNoMore(sys: System, g0: Graph, g: Graph, x: nat)
    requires WfSystem(sys) && Derived(sys, g0, g) && x < sys.n
    ensures Read(g)[x] <= Arrivals(g0, x)
  {
    hide Arrivals, Covers, Grows;
    var t := seq(sys.n, i requires 0 <= i < sys.n => Arrivals(g0, i));
    ArrivalsAreSound(g0, t);
    assert CopySound(g, t);
    assert g.pts[g.rep[x]] <= t[g.rep[x]];
  }

  lemma ReadsNoLess(sys: System, g0: Graph, g: Graph, x: nat, u: nat)
    requires WfSystem(sys) && Derived(sys, g0, g) && CopyClosed(g.pts, g.copy) && x < sys.n
    requires u < sys.n && g0.rep[u] == u && Reaches(g0.copy, u, g0.rep[x])
    ensures g0.pts[u] <= Read(g)[x]
  {
    hide Covers, KeepsSound, Reaches;
    var r, w := Read(g), g0.rep[x];
    forall e | e in g0.copy ensures r[e.0] <= r[e.1] {
      ReadFollowsCopies(g0, g, e.0, e.1);
    }
    ReadFollowsCopies(g0, g, w, x);
    InclusionAlongReach(g0.copy, r, u, w);
    assert g0.pts[g0.rep[u]] <= g.pts[g.rep[u]];
  }

  /** One sweep is enough: afterwards every node reads exactly what has a copy path to it. */
  lemma SweepIsExact(sys: System, g0: Graph, g: Graph, x: nat)
    requires WfSystem(sys) && Derived(sys, g0, g) && CopyClosed(g.pts, g.copy) && x < sys.n
    ensures Read(g)[x] == Arrivals(g0, x)
  {
    ReadsNoMore(sys, g0, g, x);
    hide Read, Derived, CopyClosed, Reaches;
    forall u: nat | u < sys.n && g0.rep[u] == u && Reaches(g0.copy, u, g0.rep[x]) ensures g0.pts[u] <= Read(g)[x] {
      ReadsNoLess(sys, g0, g, x, u);
    }
  }
}
