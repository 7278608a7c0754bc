/** The mutable constraint graph shared by the propagating solvers, with the helpers of
    include/aser/PointerAnalysis/Solver/SolverBase.h that update it in place. */
module ConsGraph {
  import opened Constraints
  import opened CopyGraph
  import opened Lists
  import opened SccIteration
  import opened SccOrder
  import opened Sweeping

  /** What every solver keeps true of the graph. */
  ghost predicate Healthy(sys: System, g: Graph) {
    WfSystem(sys) && WfGraph(sys.n, g) && Covers(sys, g) && GraphSound(sys, g)
  }

  lemma DerivedStaysHealthy(sys: System, g0: Graph, g: Graph)
    requires Healthy(sys, g0) && Derived(sys, g0, g)
    ensures Healthy(sys, g)
  {
    forall t | Solves(sys, t) ensures SoundFor(g, t) {
      assert SoundFor(g0, t);
    }
  }

  /** The graph before solving: objects point nowhere but where addr_of says, nothing is collapsed. */
  ghost function InitialGraph(sys: System): Graph
    requires WfSystem(sys)
  {
    Graph(
      seq(sys.n, i requires 0 <= i < sys.n => set e | e in sys.addr && e.1 == i :: e.0),
      sys.copy, sys.load, sys.store, seq(sys.n, i => i))
  }

  lemma InitialGraphIsHealthy(sys: System)
    requires WfSystem(sys)
    ensures Healthy(sys, InitialGraph(sys))
  {
    var g := InitialGraph(sys);
    forall t | Solves(sys, t) ensures SoundFor(g, t) {
      assert CopySound(g, t);
    }
  }

  /** A copy edge between super nodes; a self edge is not stored. */
  function WithCopy(g: Graph, a: nat, b: nat): Graph
    requires a < |g.rep| && b < |g.rep|
  {
    if g.rep[a] == g.rep[b] then g else g.(copy := g.copy + {(g.rep[a], g.rep[b])})
  }

  /** insertConstraint: a copy edge from a node to itself is not stored. */
  function Inserted(edges: set<Edge>, a: nat, b: nat, copies: bool): set<Edge> {
    if copies && a == b then edges else edges + {(a, b)}
  }

  /** The edges of one kind while a node is collapsed: what leads to `node` is made to lead to `s` as
      well, then what leaves it to leave `s`, and then all its edges are cleared.  What remains are the
      old edges with the node renamed, for copy edges without those from `s` to itself. */
  method MoveEdges(edges: set<Edge>, node: nat, s: nat, copies: bool) returns (moved: set<Edge>)
    requires node != s && (copies ==> NoSelf(edges))
    ensures moved == set e | e in RenameEdges(edges, node, s) && (copies ==> e.0 != e.1)
  {
    var m := MoveIncoming(edges, node, s, copies);
    moved := MoveOutgoing(m, node, s, copies);
    MovedIsRenamed(edges, m, moved, node, s, copies);
    moved := set e | e in moved && e.0 != node && e.1 != node;
  }

  method MoveIncoming(edges: set<Edge>, node: nat, s: nat, copies: bool) returns (moved: set<Edge>)
    ensures moved == edges + set e | e in edges && e.1 == node && !(copies && e.0 == s) :: (e.0, s)
  {
    var preds := set e | e in edges && e.1 == node;
    var todo := preds;
    moved := edges;
    while todo != {}
      invariant todo <= preds
      invariant moved == edges + set e | e in preds - todo && !(copies && e.0 == s) :: (e.0, s)
      decreases todo
    {
      var e :| e in todo;
      moved := Inserted(moved, e.0, s, copies);
      todo := todo - {e};
    }
    assert preds - {} == preds;
  }

  method MoveOutgoing(edges: set<Edge>, node: nat, s: nat, copies: bool) returns (moved: set<Edge>)
    ensures moved == edges + set e | e in edges && e.0 == node && !(copies && e.1 == s) :: (s, e.1)
  {
    var succs := set e | e in edges && e.0 == node;
    var todo := succs;
    moved := edges;
    while todo != {}
      invariant todo <= succs
      invariant moved == edges + set e | e in succs - todo && !(copies && e.1 == s) :: (s, e.1)
      decreases todo
    {
      var e :| e in todo;
      moved := Inserted(moved, s, e.1, copies);
      todo := todo - {e};
    }
    assert succs - {} == succs;
  }

  lemma MovedIsRenamed(edges: set<Edge>, m: set<Edge>, moved: set<Edge>, node: nat, s: nat, copies: bool)
    requires node != s && (copies ==> NoSelf(edges))
    requires m == edges + set e | e in edges && e.1 == node && !(copies && e.0 == s) :: (e.0, s)
    requires moved == m + set e | e in m && e.0 == node && !(copies && e.1 == s) :: (s, e.1)
    ensures (set e | e in moved && e.0 != node && e.1 != node)
         == set e | e in RenameEdges(edges, node, s) && (copies ==> e.0 != e.1)
  {
    forall e | e in moved && e.0 != node && e.1 != node
      ensures e in RenameEdges(edges, node, s) && (copies ==> e.0 != e.1)
    {
      if e in edges {
        assert e == (Rename(node, s, e.0), Rename(node, s, e.1));
      } else if e in m {
        var c :| c in edges && c.1 == node && !(copies && c.0 == s) && e == (c.0, s);
        assert e == (Rename(node, s, c.0), Rename(node, s, c.1));
      } else {
        var c :| c in m && c.0 == node && !(copies && c.1 == s) && e == (s, c.1);
        var d := if c in edges then c else (node, node);
        assert d in edges && e == (Rename(node, s, d.0), Rename(node, s, d.1));
      }
    }
    forall c | c in edges && (copies ==> Rename(node, s, c.0) != Rename(node, s, c.1))
      ensures (Rename(node, s, c.0), Rename(node, s, c.1)) in moved
    {
      if c.1 == node {
        assert (c.0, s) in m;
      }
      if c.0 == node {
        assert (c.0, Rename(node, s, c.1)) in m;
      }
    }
  }

  class ConstraintGraph {
    ghost const sys: System
    var pts: seq<set<nat>>
    var copy: set<Edge>
    var load: set<Edge>
    var store: set<Edge>
    var rep: seq<nat>

    function G(): Graph
      reads this
    {
      Graph(pts, copy, load, store, rep)
    }

    constructor (sys: System)
      requires WfSystem(sys)
      ensures this.sys == sys && G() == InitialGraph(sys) && Healthy(sys, G())
    {
      this.sys := sys;
      pts := seq(sys.n, i requires 0 <= i < sys.n => set e | e in sys.addr && e.1 == i :: e.0);
      copy, load, store := sys.copy, sys.load, sys.store;
      rep := seq(sys.n, i => i);
      new;
      InitialGraphIsHealthy(sys);
      assert G() == InitialGraph(sys);
    }

    /** addConstraints for a copy edge: both ends go to their super nodes. */
    method AddCopy(src: nat, dst: nat) returns (isNew: bool)
      requires src < |rep| && dst < |rep|
      modifies this`copy
      ensures G() == WithCopy(old(G()), src, dst)
      ensures isNew <==> !old(CopyRel(G(), src, dst))
    {
      var a, b := rep[src], rep[dst];
      if src == dst || a == b {
        return false;
      }
      isNew := (a, b) !in copy;
      copy := copy + {(a, b)};
    }

    method ProcessCopy(src: nat, dst: nat) returns (grew: bool)
      requires src < |pts| && dst < |pts|
      modifies this`pts
      ensures G() == Merge(old(G()), src, dst)
      ensures grew <==> !(old(pts)[src] <= old(pts)[dst])
    {
      grew := !(pts[src] <= pts[dst]);
      pts := pts[dst := pts[dst] + pts[src]];
    }

    /** processCopy along every copy edge of one node. */
    method ProcessSuccessors(src: nat)
      requires WfGraph(|pts|, G()) && src < |pts|
      modifies this`pts
      ensures G() == Propagate(old(G()), src)
    {
      var succ := Targets(copy, src);
      var todo := succ;
      while todo != {}
        invariant todo <= succ && |pts| == |old(pts)|
        invariant forall i :: 0 <= i < |pts| ==>
          pts[i] == if i in succ && i !in todo then old(pts)[i] + old(pts)[src] else old(pts)[i]
        decreases todo
      {
        var dst :| dst in todo;
        assert (src, dst) in copy && src !in succ;
        var grew := ProcessCopy(src, dst);
        todo := todo - {dst};
      }
      assert forall i :: i in succ <==> (src, i) in copy;
      assert pts == AfterCopies(old(pts), copy, src);
    }

    /** One node gives its edges to its super node (the loop body of collapseSCCTo). */
    method CollapseInto(node: nat, superNode: nat)
      requires node != superNode && NoSelf(copy)
      modifies this`copy, this`load, this`store, this`rep
      ensures G() == Collapse(old(G()), node, superNode)
    {
      copy := MoveEdges(copy, node, superNode, true);
      load := MoveEdges(load, node, superNode, false);
      store := MoveEdges(store, node, superNode, false);
      var was := rep;
      rep := seq(|was|, x requires 0 <= x < |was| => Rename(node, superNode, was[x]));
    }

    /** Collapsing a component of several nodes into its first. */
    method ProcessCopySCC(scc: seq<nat>) returns (superNode: nat)
      requires |scc| > 1 && Distinct(scc) && forall i :: 0 <= i < |scc| ==> scc[i] < |pts|
      requires NoSelf(copy) && var h := Collapsed(G(), scc); WfGraph(|h.pts|, h)
      modifies this
      ensures superNode == scc[0] && G() == CollapseScc(old(G()), scc)
    {
      superNode := scc[0];
      ghost var g := G();
      var i := 1;
      while i < |scc|
        invariant 1 <= i <= |scc| && |pts| == |old(pts)| && copy == old(copy)
        invariant MergeAll(G(), scc[i..], superNode) == MergeAll(g, scc[1..], superNode)
      {
        assert scc[i..][0] == scc[i] && scc[i..][1..] == scc[i + 1..];
        var grew := ProcessCopy(scc[i], superNode);
        i := i + 1;
      }
      ghost var merged := G();
      i := 1;
      while i < |scc|
        invariant 1 <= i <= |scc| && |pts| == |old(pts)| && NoSelf(copy)
        invariant CollapseAll(G(), scc[i..], superNode) == CollapseAll(merged, scc[1..], superNode)
      {
        assert scc[i..][0] == scc[i] && scc[i..][1..] == scc[i + 1..];
        CollapseInto(scc[i], superNode);
        i := i + 1;
      }
      assert G() == Collapsed(g, scc);
      ProcessSuccessors(superNode);
    }

    /** Steps 1 and 2: find the components, then visit them sources first, collapsing those of
        several nodes and handing on what is new from the others. */
    method Sweep(cachedPTS: seq<set<nat>>) returns (cached: seq<set<nat>>)
      requires Healthy(sys, G()) && CacheOk(G(), cachedPTS, -1)
      modifies this
      ensures Swept(sys, old(G()), G()) && CacheOk(G(), cached, -1)
    {
      hide Quotient, KeepsSound, Covers, Grows, GraphSound, IsSccOrder, SweepInv, Arrivals;
      cached := cachedPTS;
      ghost var g0 := G();
      var order, pos := FindSccs(|pts|, G());
      var k := |order|;
      SweepBegins(sys, g0, cachedPTS, order, pos);
      while k > 0
        invariant 0 <= k <= |order| && Quotient(g0, G())
        invariant Derived(sys, g0, G()) && SweepInv(g0, G(), cached, pos, k, k, -1)
      {
        k := k - 1;
        cached := VisitComponent(cached, g0, order, pos, k);
      }
      SweepEnds(g0, G(), cached, pos);
      DerivedStaysHealthy(sys, g0, G());
      SweptIsClosed(g0, G(), cached, pos);
      forall x | 0 <= x < sys.n ensures Read(G())[x] == Arrivals(g0, x) {
        SweepIsExact(sys, g0, G(), x);
      }
    }

    /** A component of one node hands on what it has not handed on yet. */
    method VisitNode(cachedPTS: seq<set<nat>>, curNode: nat) returns (cached: seq<set<nat>>)
      requires WfGraph(|pts|, G()) && CacheOk(G(), cachedPTS, -1) && curNode < |pts|
      modifies this`pts
      ensures G() == Propagate(old(G()), curNode)
      ensures cached == cachedPTS[curNode := old(pts)[curNode]]
    {
      cached := cachedPTS;
      var diff := pts[curNode] - cached[curNode];
      if diff != {} {
        cached := cached[curNode := cached[curNode] + diff];
        assert cachedPTS[curNode] + diff == pts[curNode];
        ProcessSuccessors(curNode);
      } else {
        SkipIsPropagate(G(), cached, curNode);
      }
    }

    method VisitComponent(cachedPTS: seq<set<nat>>, ghost g0: Graph, order: seq<seq<nat>>, ghost pos: seq<nat>, k: nat)
      returns (cached: seq<set<nat>>)
      requires WfSystem(sys) && |pos| == sys.n && IsSccOrder(g0, order, pos) && k < |order|
      requires Derived(sys, g0, G()) && SweepInv(g0, G(), cachedPTS, pos, k + 1, k + 1, -1) && Quotient(g0, G())
      modifies this
      ensures Derived(sys, g0, G()) && SweepInv(g0, G(), cached, pos, k, k, -1) && Quotient(g0, G())
    {
      var scc := order[k];
      if |scc| > 1 {
        SccCollapses(sys, g0, G(), cachedPTS, order, pos, k);
        SccSweeps(sys, g0, G(), cachedPTS, order, pos, k);
        SccIsQuotient(g0, G(), order, pos, k);
        var superNode := ProcessCopySCC(scc);
        cached := cachedPTS[superNode := pts[superNode]];
      } else {
        SingleSweeps(sys, g0, G(), cachedPTS, order, pos, k);
        cached := VisitNode(cachedPTS, scc[0]);
      }
    }
  }

  lemma SweepBegins(sys: System, g: Graph, cached: seq<set<nat>>, order: seq<seq<nat>>, pos: seq<nat>)
    requires Healthy(sys, g) && IsSccOrder(g, order, pos) && CacheOk(g, cached, -1)
    ensures |pos| == sys.n && Quotient(g, g) && Derived(sys, g, g) && SweepInv(g, g, cached, pos, |order|, |order|, -1)
  {
    QuotientOfItself(g);
  }

  lemma SweepEnds(g0: Graph, g: Graph, cached: seq<set<nat>>, pos: seq<nat>)
    requires WfGraph(|pos|, g0) && WfGraph(|pos|, g) && SweepInv(g0, g, cached, pos, 0, 0, -1)
    ensures CacheOk(g, cached, -1)
  {
  }

  lemma SingleSweeps(sys: System, g0: Graph, g: Graph, cached: seq<set<nat>>, order: seq<seq<nat>>, pos: seq<nat>, k: nat)
    requires WfSystem(sys) && |pos| == sys.n && IsSccOrder(g0, order, pos) && k < |order| && |order[k]| == 1
    requires Derived(sys, g0, g) && SweepInv(g0, g, cached, pos, k + 1, k + 1, -1)
    ensures order[k][0] < |g.pts|
    ensures Derived(sys, g0, Propagate(g, order[k][0]))
    ensures SweepInv(g0, Propagate(g, order[k][0]), cached[order[k][0] := g.pts[order[k][0]]], pos, k, k, -1)
  {
    var a := order[k][0];
    assert Placed(g0, order, pos, k, order[k][0]);
    if !Live(g0, a) {
      DeadSweeps(g0, g, cached, order, pos, k);
      return;
    }
    forall x: nat | Live(g, x) && pos[x] == k ensures x == a {
      ComponentIsListed(g0, order, pos, k, x);
    }
    PropagateDerived(sys, g0, g, a);
    PropagateSweeps(g0, g, cached, pos, k, -1, a);
  }

  /** A collapsed node has no edges, so a component that is one hands nothing on. */
  lemma DeadSweeps(g0: Graph, g: Graph, cached: seq<set<nat>>, order: seq<seq<nat>>, pos: seq<nat>, k: nat)
    requires WfGraph(|pos|, g0) && WfGraph(|pos|, g) && IsSccOrder(g0, order, pos) && k < |order| && |order[k]| == 1
    requires order[k][0] < |pos| && !Live(g0, order[k][0])
    requires SweepInv(g0, g, cached, pos, k + 1, k + 1, -1)
    ensures Propagate(g, order[k][0]) == g
    ensures SweepInv(g0, g, cached[order[k][0] := g.pts[order[k][0]]], pos, k, k, -1)
  {
    var a := order[k][0];
    assert AfterCopies(g.pts, g.copy, a) == g.pts;
    forall x: nat | Live(g, x) && pos[x] == k ensures x == a {
      ComponentIsListed(g0, order, pos, k, x);
    }
  }

  /** What a sweep makes of `g0`. */
  ghost predicate Swept(sys: System, g0: Graph, g: Graph) {
    && Healthy(sys, g0) && Healthy(sys, g) && Derived(sys, g0, g) && Quotient(g0, g)
    && CopyClosed(g.pts, g.copy)
    && forall x :: 0 <= x < sys.n ==> Read(g)[x] == Arrivals(g0, x)
  }

  // ----- copy edges for loads and stores -----

  /** Every solution includes `a` in `b`. */
  ghost predicate Included(sys: System, a: nat, b: nat)
    requires WfSystem(sys) && a < sys.n && b < sys.n
  {
    forall t :: Solves(sys, t) ==> t[a] <= t[b]
  }

  lemma LoadIncludes(sys: System, g: Graph, src: nat, dst: nat, v: nat)
    requires Healthy(sys, g) && (src, dst) in g.load && v in g.pts[src]
    ensures Included(sys, v, dst)
  {
    forall t | Solves(sys, t) ensures t[v] <= t[dst] {
      assert SoundFor(g, t) && v in t[(src, dst).0];
    }
  }

  lemma StoreIncludes(sys: System, g: Graph, src: nat, dst: nat, v: nat)
    requires Healthy(sys, g) && (src, dst) in g.store && v in g.pts[dst]
    ensures Included(sys, src, v)
  {
    forall t | Solves(sys, t) ensures t[src] <= t[v] {
      assert SoundFor(g, t) && v in t[(src, dst).1];
    }
  }

  /** A step that only adds justified copy edges and facts. */
  ghost predicate Extends(sys: System, g: Graph, h: Graph)
    requires Healthy(sys, g)
  {
    && Healthy(sys, h) && Grows(g, h)
    && h.load == g.load && h.store == g.store && h.rep == g.rep
  }

  lemma ExtendsTransitive(sys: System, g: Graph, h: Graph, k: Graph)
    requires Healthy(sys, g) && Extends(sys, g, h) && Extends(sys, h, k)
    ensures Extends(sys, g, k)
  {
  }

  lemma WithCopyExtends(sys: System, g: Graph, a: nat, b: nat)
    requires Healthy(sys, g) && a < sys.n && b < sys.n && Included(sys, a, b)
    ensures Extends(sys, g, WithCopy(g, a, b)) && CopyRel(WithCopy(g, a, b), a, b)
  {
    var h := WithCopy(g, a, b);
    assert WfGraph(sys.n, h) && Grows(g, h);
    forall t | Solves(sys, t) ensures SoundFor(h, t) {
      assert SoundFor(g, t);
      assert t[a] <= t[b] && t[a] == t[g.rep[a]] && t[b] == t[g.rep[b]];
    }
  }

  /** Handing on along a copy edge that is there. */
  lemma MergeExtends(sys: System, g: Graph, a: nat, b: nat)
    requires Healthy(sys, g) && (a, b) in g.copy
    ensures Extends(sys, g, Merge(g, a, b))
  {
    var h := Merge(g, a, b);
    assert WfGraph(sys.n, h) && Grows(g, h);
    forall t | Solves(sys, t) ensures SoundFor(h, t) {
      assert SoundFor(g, t) && t[(a, b).0] <= t[(a, b).1];
    }
  }

  /** The pairs of nodes still without a copy edge; solving can only shrink it. */
  ghost function Unrelated(g: Graph): set<Edge> {
    set x: nat, y: nat | x < |g.rep| && y < |g.rep| && !CopyRel(g, x, y) :: (x, y)
  }

  lemma GrowsShrinks(g: Graph, h: Graph)
    requires WfGraph(|g.pts|, g) && WfGraph(|h.pts|, h) && Grows(g, h)
    ensures Unrelated(h) <= Unrelated(g)
  {
  }
}
