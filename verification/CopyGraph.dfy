/** The constraint graph as the propagating solvers see it: points-to sets, the edges of each
    kind between live nodes, and the super node each node has been collapsed into
    (include/aser/PointerAnalysis/Graph/ConstraintGraph). */
module CopyGraph {
  import opened Constraints

  /** `rep[x]` is what getSuperNode returns for `x`; a node is live while it is its own. */
  datatype Graph = Graph(pts: seq<set<nat>>, copy: set<Edge>, load: set<Edge>, store: set<Edge>, rep: seq<nat>)

  ghost predicate WfGraph(n: nat, g: Graph) {
    && PtsIn(n, g.pts)
    && |g.rep| == n
    && (forall x :: 0 <= x < n ==> g.rep[x] < n && g.rep[g.rep[x]] == g.rep[x])
    && LiveEdges(g.rep, g.copy) && LiveEdges(g.rep, g.load) && LiveEdges(g.rep, g.store)
    && NoSelf(g.copy)
  }

  ghost predicate Live(g: Graph, x: nat) {
    x < |g.rep| && g.rep[x] == x
  }

  ghost predicate LiveEdges(rep: seq<nat>, edges: set<Edge>) {
    forall e :: e in edges ==> e.0 < |rep| && e.1 < |rep| && rep[e.0] == e.0 && rep[e.1] == e.1
  }

  /** There is a copy edge between the super nodes, or there needs to be none. */
  ghost predicate CopyRel(g: Graph, x: nat, y: nat)
    requires x < |g.rep| && y < |g.rep|
  {
    g.rep[x] == g.rep[y] || (g.rep[x], g.rep[y]) in g.copy
  }

  /** Every constraint of the system is present, possibly between super nodes. */
  ghost predicate Covers(sys: System, g: Graph)
    requires WfSystem(sys) && WfGraph(sys.n, g)
  {
    && (forall e :: e in sys.addr ==> e.0 in g.pts[g.rep[e.1]])
    && (forall e :: e in sys.copy ==> CopyRel(g, e.0, e.1))
    && (forall e :: e in sys.load ==> (g.rep[e.0], g.rep[e.1]) in g.load)
    && (forall e :: e in sys.store ==> (g.rep[e.0], g.rep[e.1]) in g.store)
  }

  /** The live points-to sets stay below `t`, and every copy edge and every collapse is an
      inclusion that `t` satisfies. */
  ghost predicate CopySound(g: Graph, t: seq<set<nat>>)
    requires WfGraph(|g.pts|, g)
  {
    && |t| == |g.pts|
    && (forall x :: 0 <= x < |t| && g.rep[x] == x ==> g.pts[x] <= t[x])
    && CopyClosed(t, g.copy)
    && (forall x :: 0 <= x < |t| ==> t[x] == t[g.rep[x]])
  }

  ghost predicate SoundFor(g: Graph, t: seq<set<nat>>)
    requires WfGraph(|g.pts|, g)
  {
    && CopySound(g, t)
    && PtsIn(|g.pts|, t)
    && (forall x :: 0 <= x < |t| ==> g.pts[x] <= t[x])
    && (forall e, v :: e in g.load && v in t[e.0] ==> t[v] <= t[e.1])
    && (forall e, v :: e in g.store && v in t[e.1] ==> t[e.0] <= t[v])
  }

  /** Nothing in the graph goes beyond any solution of the system. */
  ghost predicate GraphSound(sys: System, g: Graph)
    requires WfSystem(sys) && WfGraph(sys.n, g)
  {
    forall t :: Solves(sys, t) ==> SoundFor(g, t)
  }

  /** The points-to set a client reads: that of the super node. */
  function Read(g: Graph): (r: seq<set<nat>>)
    requires |g.rep| == |g.pts| && forall x :: 0 <= x < |g.rep| ==> g.rep[x] < |g.pts|
  {
    seq(|g.pts|, x requires 0 <= x < |g.pts| => g.pts[g.rep[x]])
  }

  ghost predicate LoadsMet(g: Graph)
    requires WfGraph(|g.pts|, g)
  {
    forall e, v :: e in g.load && v in g.pts[e.0] ==> CopyRel(g, v, e.1)
  }

  ghost predicate StoresMet(g: Graph)
    requires WfGraph(|g.pts|, g)
  {
    forall e, v :: e in g.store && v in g.pts[e.1] ==> CopyRel(g, e.0, v)
  }

  /** A fixpoint of the collapsed graph, read through the super nodes, is the least solution
      of the original system. */
  lemma FixpointIsLeast(sys: System, g: Graph)
    requires WfSystem(sys) && WfGraph(sys.n, g) && Covers(sys, g) && GraphSound(sys, g)
    requires CopyClosed(g.pts, g.copy) && LoadsMet(g) && StoresMet(g)
    ensures IsLeastPts(sys, Read(g))
  {
    FixpointSolves(sys, g);
    forall t | Solves(sys, t) ensures forall i :: 0 <= i < sys.n ==> Read(g)[i] <= t[i] {
      assert SoundFor(g, t);
    }
  }

  lemma FixpointSolves(sys: System, g: Graph)
    requires WfSystem(sys) && WfGraph(sys.n, g) && Covers(sys, g)
    requires CopyClosed(g.pts, g.copy) && LoadsMet(g) && StoresMet(g)
    ensures Solves(sys, Read(g))
  {
    var r := Read(g);
    forall x, y | 0 <= x < sys.n && 0 <= y < sys.n && CopyRel(g, x, y) ensures r[x] <= r[y] {
      assert (g.rep[x], g.rep[y]) in g.copy ==> g.pts[g.rep[x]] <= g.pts[g.rep[y]];
    }
    forall e, v | e in sys.load && v in r[e.0] ensures r[v] <= r[e.1] {
      assert (g.rep[e.0], g.rep[e.1]) in g.load;
      assert CopyRel(g, v, (g.rep[e.0], g.rep[e.1]).1);
      assert CopyRel(g, v, e.1);
    }
    forall e, v | e in sys.store && v in r[e.1] ensures r[e.0] <= r[v] {
      assert (g.rep[e.0], g.rep[e.1]) in g.store;
      assert CopyRel(g, (g.rep[e.0], g.rep[e.1]).0, v);
      assert CopyRel(g, e.0, v);
    }
  }

  // ----- the order in which graphs grow -----

  ghost predicate Grows(g: Graph, h: Graph)
    requires WfGraph(|g.pts|, g) && WfGraph(|h.pts|, h)
  {
    && |g.pts| == |h.pts|
    && (forall x :: 0 <= x < |g.pts| ==> g.pts[g.rep[x]] <= h.pts[h.rep[x]])
    && (forall x, y :: 0 <= x < |g.pts| && 0 <= y < |g.pts| && CopyRel(g, x, y) ==> CopyRel(h, x, y))
  }

  lemma GrowsTransitive(g: Graph, h: Graph, k: Graph)
    requires WfGraph(|g.pts|, g) && WfGraph(|h.pts|, h) && WfGraph(|k.pts|, k) && Grows(g, h) && Grows(h, k)
    ensures Grows(g, k)
  {
  }

  /** All that a step on the graph has to keep. */
  ghost predicate KeepsSound(g: Graph, h: Graph)
    requires WfGraph(|g.pts|, g) && WfGraph(|h.pts|, h)
  {
    && (forall t :: CopySound(g, t) ==> CopySound(h, t))
    && (forall t :: SoundFor(g, t) ==> SoundFor(h, t))
  }

  // ----- steps: propagation from one node, collapsing one node -----

  /** `a` hands its points-to set to every copy successor. */
  ghost function Propagate(g: Graph, a: nat): Graph
    requires a < |g.pts|
  {
    g.(pts := AfterCopies(g.pts, g.copy, a))
  }

  lemma PropagateKeeps(n: nat, g: Graph, a: nat)
    requires WfGraph(n, g) && Live(g, a)
    ensures WfGraph(n, Propagate(g, a)) && Grows(g, Propagate(g, a)) && KeepsSound(g, Propagate(g, a))
    ensures forall sys :: WfSystem(sys) && sys.n == n && Covers(sys, g) ==> Covers(sys, Propagate(g, a))
  {
    var h := Propagate(g, a);
    forall t | CopySound(g, t) ensures CopySound(h, t) {
      PropagateBelow(g, a, t);
    }
    forall t | SoundFor(g, t) ensures SoundFor(h, t) {
      PropagateBelow(g, a, t);
    }
  }

  lemma PropagateBelow(g: Graph, a: nat, t: seq<set<nat>>)
    requires WfGraph(|g.pts|, g) && Live(g, a) && CopySound(g, t)
    ensures forall x :: 0 <= x < |t| && g.pts[x] <= t[x] ==> Propagate(g, a).pts[x] <= t[x]
  {
    forall x | 0 <= x < |t| && g.pts[x] <= t[x] ensures Propagate(g, a).pts[x] <= t[x] {
      if (a, x) in g.copy {
        assert t[(a, x).0] <= t[(a, x).1];
      }
    }
  }

  function Rename(node: nat, s: nat, x: nat): nat {
    if x == node then s else x
  }

  function RenameEdges(edges: set<Edge>, node: nat, s: nat): set<Edge> {
    set e | e in edges :: (Rename(node, s, e.0), Rename(node, s, e.1))
  }

  /** `node` hands all its edges to `s` and becomes part of it; copy edges from `s` to itself vanish. */
  function Collapse(g: Graph, node: nat, s: nat): Graph {
    Graph(
      g.pts,
      (set e | e in RenameEdges(g.copy, node, s) && e.0 != e.1),
      RenameEdges(g.load, node, s),
      RenameEdges(g.store, node, s),
      seq(|g.rep|, x requires 0 <= x < |g.rep| => Rename(node, s, g.rep[x])))
  }

  lemma CollapseWf(n: nat, g: Graph, node: nat, s: nat)
    requires WfGraph(n, g) && Live(g, node) && Live(g, s) && node != s
    ensures WfGraph(n, Collapse(g, node, s))
    ensures forall x, y :: 0 <= x < n && 0 <= y < n && CopyRel(g, x, y) ==> CopyRel(Collapse(g, node, s), x, y)
  {
    var h := Collapse(g, node, s);
    forall x, y | 0 <= x < n && 0 <= y < n && CopyRel(g, x, y) ensures CopyRel(h, x, y) {
      if (g.rep[x], g.rep[y]) in g.copy {
        assert (h.rep[x], h.rep[y]) in RenameEdges(g.copy, node, s);
      }
    }
  }

  lemma CollapseKeeps(sys: System, g: Graph, node: nat, s: nat)
    requires WfSystem(sys) && WfGraph(sys.n, g) && Live(g, node) && Live(g, s) && node != s
    requires g.pts[node] <= g.pts[s]
    ensures WfGraph(sys.n, Collapse(g, node, s)) && Grows(g, Collapse(g, node, s))
    ensures Covers(sys, g) ==> Covers(sys, Collapse(g, node, s))
  {
    CollapseWf(sys.n, g, node, s);
    var h := Collapse(g, node, s);
    if Covers(sys, g) {
      forall e | e in sys.load ensures (h.rep[e.0], h.rep[e.1]) in h.load {
        assert (g.rep[e.0], g.rep[e.1]) in g.load;
      }
      forall e | e in sys.store ensures (h.rep[e.0], h.rep[e.1]) in h.store {
        assert (g.rep[e.0], g.rep[e.1]) in g.store;
      }
    }
  }

  lemma CollapseSound(g: Graph, node: nat, s: nat, t: seq<set<nat>>)
    requires WfGraph(|g.pts|, g) && Live(g, node) && Live(g, s) && node != s
    requires WfGraph(|g.pts|, Collapse(g, node, s))
    requires |t| == |g.pts| && t[node] == t[s]
    ensures CopySound(g, t) ==> CopySound(Collapse(g, node, s), t)
    ensures SoundFor(g, t) ==> SoundFor(Collapse(g, node, s), t)
  {
    var h := Collapse(g, node, s);
    if CopySound(g, t) {
      forall e | e in h.copy ensures t[e.0] <= t[e.1] {
        var c :| c in g.copy && e == (Rename(node, s, c.0), Rename(node, s, c.1));
      }
    }
    if SoundFor(g, t) {
      forall e, v | e in h.load && v in t[e.0] ensures t[v] <= t[e.1] {
        var c :| c in g.load && e == (Rename(node, s, c.0), Rename(node, s, c.1));
        assert v in t[c.0];
      }
      forall e, v | e in h.store && v in t[e.1] ensures t[e.0] <= t[v] {
        var c :| c in g.store && e == (Rename(node, s, c.0), Rename(node, s, c.1));
        assert v in t[c.1];
      }
    }
  }

  // ----- chains of steps -----

  /** `g` comes from `g0` by steps that lose no constraint and go beyond no solution. */
  ghost predicate Derived(sys: System, g0: Graph, g: Graph)
    requires WfSystem(sys)
  {
    && WfGraph(sys.n, g0) && WfGraph(sys.n, g)
    && (Covers(sys, g0) ==> Covers(sys, g))
    && Grows(g0, g) && KeepsSound(g0, g)
  }

  lemma DerivedTransitive(sys: System, g0: Graph, g: Graph, h: Graph)
    requires WfSystem(sys) && Derived(sys, g0, g) && Derived(sys, g, h)
    ensures Derived(sys, g0, h)
  {
    forall t | CopySound(g0, t) ensures CopySound(h, t) {
      assert CopySound(g, t);
    }
    forall t | SoundFor(g0, t) ensures SoundFor(h, t) {
      assert SoundFor(g, t);
    }
  }

  lemma PropagateDerived(sys: System, g0: Graph, g: Graph, a: nat)
    requires WfSystem(sys) && Derived(sys, g0, g) && Live(g, a)
    ensures Derived(sys, g0, Propagate(g, a))
  {
    PropagateKeeps(sys.n, g, a);
    DerivedTransitive(sys, g0, g, Propagate(g, a));
  }

  /** `m` and `s` have equal points-to sets in whatever the first graph is sound for. */
  ghost predicate Alike(g0: Graph, m: nat, s: nat)
    requires WfGraph(|g0.pts|, g0) && m < |g0.pts| && s < |g0.pts|
  {
    forall t :: CopySound(g0, t) ==> t[m] == t[s]
  }

  ghost function Merge(g: Graph, m: nat, s: nat): Graph
    requires m < |g.pts| && s < |g.pts|
  {
    g.(pts := g.pts[s := g.pts[s] + g.pts[m]])
  }

  lemma MergeDerived(sys: System, g0: Graph, g: Graph, m: nat, s: nat)
    requires WfSystem(sys) && Derived(sys, g0, g)
    requires Live(g, m) && Live(g, s) && Alike(g0, m, s)
    ensures Derived(sys, g0, Merge(g, m, s))
  {
    var h := Merge(g, m, s);
    MergeShape(sys.n, g, m, s);
    assert Covers(sys, g0) ==> Covers(sys, h) by {
      if Covers(sys, g0) {
        MergeCovers(sys, g, m, s);
      }
    }
    GrowsTransitive(g0, g, h);
    hide Covers, WfGraph, Grows, Merge;
    forall t | CopySound(g0, t) ensures CopySound(h, t) {
      assert CopySound(g, t) && t[m] == t[s];
      MergeBelow(g, m, s, t);
    }
    forall t | SoundFor(g0, t) ensures SoundFor(h, t) {
      assert SoundFor(g, t) && t[m] == t[s];
      MergeBelow(g, m, s, t);
    }
  }

  lemma MergeShape(n: nat, g: Graph, m: nat, s: nat)
    requires WfGraph(n, g) && Live(g, m) && Live(g, s)
    ensures WfGraph(n, Merge(g, m, s)) && Grows(g, Merge(g, m, s))
  {
  }

  lemma MergeCovers(sys: System, g: Graph, m: nat, s: nat)
    requires WfSystem(sys) && WfGraph(sys.n, g) && Live(g, m) && Live(g, s) && Covers(sys, g)
    ensures WfGraph(sys.n, Merge(g, m, s)) && Covers(sys, Merge(g, m, s))
  {
  }

  lemma MergeBelow(g: Graph, m: nat, s: nat, t: seq<set<nat>>)
    requires WfGraph(|g.pts|, g) && Live(g, m) && Live(g, s) && WfGraph(|g.pts|, Merge(g, m, s))
    requires |t| == |g.pts| && t[m] == t[s]
    ensures CopySound(g, t) ==> CopySound(Merge(g, m, s), t)
    ensures SoundFor(g, t) ==> SoundFor(Merge(g, m, s), t)
  {
  }

  lemma CollapseDerived(sys: System, g0: Graph, g: Graph, m: nat, s: nat)
    requires WfSystem(sys) && Derived(sys, g0, g)
    requires Live(g, m) && Live(g, s) && m != s && Alike(g0, m, s) && g.pts[m] <= g.pts[s]
    ensures Derived(sys, g0, Collapse(g, m, s))
  {
    var h := Collapse(g, m, s);
    CollapseKeeps(sys, g, m, s);
    forall t | CopySound(g0, t) ensures CopySound(h, t) {
      assert CopySound(g, t) && t[m] == t[s];
      CollapseSound(g, m, s, t);
    }
    forall t | SoundFor(g0, t) ensures SoundFor(h, t) {
      assert SoundFor(g, t) && t[m] == t[s];
      CollapseSound(g, m, s, t);
    }
  }
}
