/** When the deep solver is exact (include/aser/PointerAnalysis/Solver/DeepPropagation.h).

    For systems without stores, in which no object and nothing a load leads to is on a copy cycle, the
    result is the least solution iff no fork has to receive anything that the sweep has not brought.
    Both sides are properties of the system; `DeepForks.ForkIsMissed` is the failing side for all
    systems. */
module DeepExact {
  import opened Constraints
  import opened CopyGraph
  import opened ConsGraph
  import opened DeepForks
  import opened DeepSolver
  import opened DeepSteps
  import opened GraphBuilding
  import opened Reachability
  import opened Sweeping

  // ----- the condition -----

  /** A load can bring facts to `x` during the deep phase. */
  ghost predicate Downstream(sys: System, x: nat) {
    exists e :: e in sys.load && Reaches(sys.copy, e.1, x)
  }

  ghost predicate Branches(sys: System, x: nat, c1: nat, c2: nat) {
    c1 != c2 && (x, c1) in sys.copy && (x, c2) in sys.copy
  }

  /** The systems for which the condition is exact. */
  ghost predicate LoadsOnly(sys: System)
    requires WfSystem(sys)
  {
    && sys.store == {}
    && (forall v :: v in Objects(sys) ==> OnNoCycle(sys.copy, v))
    && (forall x: nat :: Downstream(sys, x) ==> x !in Objects(sys) && OnNoCycle(sys.copy, x))
    && (forall x: nat, c1: nat, c2: nat :: Downstream(sys, x) && Branches(sys, x, c1, c2) ==>
          FedOnlyBy(sys, c1, x) && FedOnlyBy(sys, c2, x))
  }

  /** Every branching node downstream of a load has all it needs from the given copies alone. */
  ghost predicate ForksNeedNothing(sys: System)
    requires WfSystem(sys)
  {
    forall x: nat, c1: nat, c2: nat :: x < sys.n && Downstream(sys, x) && Branches(sys, x, c1, c2) ==>
      LeastPts(sys)[x] <= Arrivals(InitialGraph(sys), x)
  }

  // ----- one call of deepPropagate closes the copies it opens -----

  ghost predicate AllDefault(color: seq<Color>) {
    forall x :: 0 <= x < |color| ==> color[x] == Default
  }

  /** Below a load the copy edges are the given ones. */
  ghost predicate GivenBelow(sys: System, copy: set<Edge>) {
    forall e :: e in copy && Downstream(sys, e.0) ==> e in sys.copy
  }

  ghost predicate ClosedBut(pts: seq<set<nat>>, copy: set<Edge>, start: nat, diff: set<nat>)
    requires EdgesIn(|pts|, copy)
  {
    forall e :: e in copy ==> pts[e.0] <= if e.1 == start then pts[e.1] + diff else pts[e.1]
  }

  ghost predicate ForksStay(sys: System, p: seq<set<nat>>, q: seq<set<nat>>)
    requires |p| == |q|
  {
    forall x: nat, c1: nat, c2: nat :: x < |p| && Downstream(sys, x) && Branches(sys, x, c1, c2) ==> q[x] <= p[x]
  }

  lemma DownstreamFollows(sys: System, x: nat, c: nat)
    requires Downstream(sys, x) && (x, c) in sys.copy
    ensures Downstream(sys, c)
  {
    var e :| e in sys.load && Reaches(sys.copy, e.1, x);
    ReachesEdge(sys.copy, (x, c));
    ReachesTransitive(sys.copy, e.1, x, c);
  }

  lemma EdgeBackClosesCycle(edges: set<Edge>, start: nat, stop: nat)
    requires (start, stop) in edges && Reaches(edges, stop, start)
    ensures OnOneCycle(edges, stop, start)
  {
    ReachesEdge(edges, (start, stop));
  }

  /** `stop` is on no cycle, so a node below it has no copy edge back to it. */
  lemma NoWayBack(sys: System, start: nat, stop: nat)
    requires WfSystem(sys) && OnNoCycle(sys.copy, stop) && Reaches(sys.copy, stop, start)
    ensures (start, stop) !in sys.copy
  {
    assert (start, stop) in sys.copy ==> (start, stop).0 != (start, stop).1;
    if (start, stop) in sys.copy {
      EdgeBackClosesCycle(sys.copy, start, stop);
    }
  }

  lemma {:induction false} ChainCloses(sys: System, color: seq<Color>, g: Graph, h: Graph, start: nat, stop: nat,
                                       diff: set<nat>, found: bool, path: seq<nat>)
    requires WfSystem(sys) && Chain(color, g, h, start, stop, diff, found, path) && AllDefault(color)
    requires EdgesIn(|g.pts|, g.copy) && NoSelf(g.copy) && GivenBelow(sys, g.copy)
    requires Downstream(sys, start) && OnNoCycle(sys.copy, stop) && Reaches(sys.copy, stop, start)
    requires ClosedBut(g.pts, g.copy, start, diff)
    requires |h.pts| == |g.pts| && ForksStay(sys, g.pts, h.pts)
    ensures !found && EdgesIn(|h.pts|, h.copy) && CopyClosed(h.pts, h.copy)
    decreases |path|
  {
    NoWayBack(sys, start, stop);
    ChainFrame(color, g, h, start, stop, diff, found, path);
    if !(diff <= g.pts[start]) {
      var g1 := AddFacts(g, start, diff);
      OneSuccessor(sys, g, h, start, diff);
      if |path| == 1 {
        assert forall e :: e in g.copy && e.0 == start ==> e.1 in Targets(g.copy, start);
      } else {
        var c := path[1];
        DownstreamFollows(sys, start, c);
        ReachesEdge(sys.copy, (start, c));
        ReachesTransitive(sys.copy, stop, start, c);
        StillClosedBut(g, start, c, diff);
        ChainCloses(sys, color, g1, h, c, stop, diff - g.pts[start], found, path[1..]);
      }
    }
  }

  /** A branching node takes nothing new, so a node that does has at most one copy successor. */
  lemma OneSuccessor(sys: System, g: Graph, h: Graph, start: nat, diff: set<nat>)
    requires |h.pts| == |g.pts| && ForksStay(sys, g.pts, h.pts) && GivenBelow(sys, g.copy)
    requires start < |g.pts| && Downstream(sys, start) && diff <= h.pts[start] && !(diff <= g.pts[start])
    ensures forall c1: nat, c2: nat :: (start, c1) in g.copy && (start, c2) in g.copy ==> c1 == c2
  {
    forall c1: nat, c2: nat | (start, c1) in g.copy && (start, c2) in g.copy ensures c1 == c2 {
      assert !Branches(sys, start, c1, c2);
    }
  }

  lemma StillClosedBut(g: Graph, start: nat, c: nat, diff: set<nat>)
    requires EdgesIn(|g.pts|, g.copy) && NoSelf(g.copy) && start < |g.pts| && (start, c) in g.copy
    requires ClosedBut(g.pts, g.copy, start, diff)
    requires forall c1: nat, c2: nat :: (start, c1) in g.copy && (start, c2) in g.copy ==> c1 == c2
    ensures ClosedBut(AddFacts(g, start, diff).pts, g.copy, c, diff - g.pts[start])
  {
    var pts := AddFacts(g, start, diff).pts;
    assert (start, c).0 != (start, c).1 && g.pts[(start, c).0] <= g.pts[(start, c).1];
    forall e | e in g.copy ensures pts[e.0] <= if e.1 == c then pts[e.1] + (diff - g.pts[start]) else pts[e.1] {
      if e.0 == start {
        assert (start, e.1) in g.copy;
      }
    }
  }

  // ----- the invariant of the phase -----

  ghost predicate Settled(sys: System, s: Phase)
    requires WfSystem(sys)
  {
    && Healthy(sys, s.g)
    && |s.color| == sys.n && AllDefault(s.color)
    && s.g.store == {}
    && GivenBelow(sys, s.g.copy)
    && (forall e :: e in s.g.load ==> Downstream(sys, e.1) && s.g.rep[e.1] == e.1)
    && (forall v :: v in Objects(sys) ==> s.g.rep[v] == v)
    && CopyClosed(s.g.pts, s.g.copy)
    && ForksHave(sys, s.g.pts)
  }

  ghost predicate ForksHave(sys: System, pts: seq<set<nat>>)
    requires WfSystem(sys) && |pts| == sys.n
  {
    forall x: nat, c1: nat, c2: nat :: x < sys.n && Downstream(sys, x) && Branches(sys, x, c1, c2) ==>
      Arrivals(InitialGraph(sys), x) <= pts[x]
  }

  lemma ForksDoNotGrow(sys: System, p: seq<set<nat>>, h: Graph)
    requires Healthy(sys, h) && |p| == sys.n && ForksNeedNothing(sys) && ForksHave(sys, p)
    ensures ForksStay(sys, p, h.pts)
  {
    LeastPtsIsLeast(sys);
    assert SoundFor(h, LeastPts(sys));
  }

  /** The new copy edges of a load lead from objects, whose sets the load carries. */
  lemma NewLink(sys: System, s: Phase, dst: nat, from: set<nat>, facts: set<nat>, e: Edge)
    requires WfSystem(sys) && Settled(sys, s) && dst < sys.n && s.g.rep[dst] == dst
    requires from <= Objects(sys) && AllBrought(s.g, from, dst, facts)
    requires e in LinkedAll(s.g, from, dst).copy && e !in s.g.copy
    ensures e.0 in Objects(sys) && e.1 == dst && e.0 != e.1 && e.0 < sys.n && s.g.pts[e.0] <= facts
  {
    hide GivenBelow, CopyClosed, ForksHave, GraphSound, Covers;
    var v :| v in from && v < sys.n && s.g.rep[v] != s.g.rep[dst] && e == (s.g.rep[v], s.g.rep[dst]);
    assert Brought(s.g, from, v, facts);
    var w :| w in from && w < sys.n && s.g.rep[w] == s.g.rep[v] && s.g.pts[w] <= facts;
  }

  lemma LinkedClosedBut(sys: System, s: Phase, dst: nat, from: set<nat>, facts: set<nat>)
    requires WfSystem(sys) && Settled(sys, s) && LoadsOnly(sys) && dst < sys.n && s.g.rep[dst] == dst
    requires from <= Objects(sys) && AllBrought(s.g, from, dst, facts)
    ensures var g := LinkedAll(s.g, from, dst);
      && EdgesIn(|g.pts|, g.copy) && NoSelf(g.copy) && GivenBelow(sys, g.copy)
      && ClosedBut(g.pts, g.copy, dst, facts - s.g.pts[dst])
  {
    hide AllBrought, GraphSound, Covers, ForksHave, LoadsOnly;
    var g := LinkedAll(s.g, from, dst);
    forall e | e in g.copy && e !in s.g.copy
      ensures e.0 < sys.n && !Downstream(sys, e.0) && e.1 == dst && e.0 != e.1 && s.g.pts[e.0] <= facts
    {
      NewLink(sys, s, dst, from, facts, e);
      ObjectsAreAbove(sys, e.0);
    }
    AddedClosedBut(sys, s.g.pts, s.g.copy, g.copy, dst, facts);
  }

  lemma ObjectsAreAbove(sys: System, v: nat)
    requires WfSystem(sys) && LoadsOnly(sys) && v in Objects(sys)
    ensures !Downstream(sys, v)
  {
  }

  lemma AddedClosedBut(sys: System, pts: seq<set<nat>>, copy: set<Edge>, more: set<Edge>, dst: nat, facts: set<nat>)
    requires EdgesIn(|pts|, copy) && NoSelf(copy) && GivenBelow(sys, copy) && CopyClosed(pts, copy) && dst < |pts|
    requires forall e :: e in more && e !in copy ==>
      e.0 < |pts| && !Downstream(sys, e.0) && e.1 == dst && e.0 != e.1 && pts[e.0] <= facts
    ensures EdgesIn(|pts|, more) && NoSelf(more) && GivenBelow(sys, more)
    ensures ClosedBut(pts, more, dst, facts - pts[dst])
  {
    hide Downstream;
  }

  lemma EventKeepsSettled(sys: System, s: Phase, ev: Event, t: Phase)
    requires WfSystem(sys) && Happens(sys, s, ev, t) && Settled(sys, s) && LoadsOnly(sys) && ForksNeedNothing(sys)
    ensures Settled(sys, t)
  {
    hide ForksNeedNothing, Chain, LoadsOnly, GraphSound, Covers, ForksHave, GivenBelow, Downstream, Carried, CopyClosed;
    EventKeepsReps(sys, s, ev, t);
    match ev
    case Loaded(src, dst, from, facts, found, path) =>
      LoadKeepsSettled(sys, s, src, dst, from, facts, found, path, t);
    case Stored(src, dst, v, found, path) =>
    case Unmarked =>
  }

  lemma LoadKeepsSettled(sys: System, s: Phase, src: nat, dst: nat, from: set<nat>, facts: set<nat>,
                         found: bool, path: seq<nat>, t: Phase)
    requires WfSystem(sys) && Happens(sys, s, Loaded(src, dst, from, facts, found, path), t)
    requires Settled(sys, s) && LoadsOnly(sys) && ForksNeedNothing(sys)
    requires t.g == s.g.(pts := t.g.pts, copy := t.g.copy)
    ensures Settled(sys, t)
  {
    hide ForksNeedNothing, LoadsOnly, GraphSound, Covers, ForksHave, Chain, AllBrought, Downstream;
    var e := (src, dst);
    assert e in s.g.load && Downstream(sys, e.1) && s.g.rep[e.1] == e.1;
    LoadTargetFacts(sys, s, src, dst, from);
    LinkedClosedBut(sys, s, dst, from, facts);
    LoadCloses(sys, s, LinkedAll(s.g, from, dst), t.g, dst, facts - s.g.pts[dst], found, path);
    RecoloredDefault(s, t.g, path);
  }

  lemma LoadCloses(sys: System, s: Phase, g: Graph, h: Graph, dst: nat, diff: set<nat>, found: bool, path: seq<nat>)
    requires Healthy(sys, s.g) && Healthy(sys, h) && g.pts == s.g.pts && AllDefault(s.color)
    requires LoadsOnly(sys) && ForksNeedNothing(sys) && ForksHave(sys, s.g.pts)
    requires EdgesIn(|g.pts|, g.copy) && NoSelf(g.copy) && GivenBelow(sys, g.copy)
    requires ClosedBut(g.pts, g.copy, dst, diff) && Chain(s.color, g, h, dst, dst, diff, found, path)
    requires Downstream(sys, dst) && OnNoCycle(sys.copy, dst) && Reaches(sys.copy, dst, dst)
    ensures !found && CopyClosed(h.pts, h.copy) && GivenBelow(sys, h.copy) && ForksHave(sys, h.pts)
  {
    hide ForksNeedNothing, LoadsOnly, GraphSound, Covers, ForksHave, Downstream, GivenBelow, ClosedBut, OnNoCycle, Chain;
    ChainFrame(s.color, g, h, dst, dst, diff, found, path);
    ForksDoNotGrow(sys, s.g.pts, h);
    ChainCloses(sys, s.color, g, h, dst, dst, diff, found, path);
    ForksKeep(sys, s.g.pts, h.pts);
  }

  /** Where nothing is found, all that was colored is listed, and unmarked. */
  lemma RecoloredDefault(s: Phase, h: Graph, path: seq<nat>)
    requires AllDefault(s.color)
    ensures AllDefault(Unmark(After(s, h, path, false)).color)
  {
  }

  lemma LoadTargetFacts(sys: System, s: Phase, src: nat, dst: nat, from: set<nat>)
    requires WfSystem(sys) && Settled(sys, s) && LoadsOnly(sys) && Downstream(sys, dst)
    requires (src, dst) in s.g.load && from <= s.g.pts[src]
    ensures from <= Objects(sys) && OnNoCycle(sys.copy, dst) && Reaches(sys.copy, dst, dst)
  {
    OnlyObjects(sys, s.g);
  }

  lemma ForksKeep(sys: System, p: seq<set<nat>>, q: seq<set<nat>>)
    requires WfSystem(sys) && |p| == |q| == sys.n && ForksHave(sys, p)
    requires forall x :: 0 <= x < sys.n ==> p[x] <= q[x]
    ensures ForksHave(sys, q)
  {
    hide Arrivals, Downstream, Branches;
  }

  lemma {:induction false} PhaseKeepsSettled(sys: System, s: Phase, t: Phase, k: nat)
    requires WfSystem(sys) && Within(sys, s, t, k) && Settled(sys, s) && LoadsOnly(sys) && ForksNeedNothing(sys)
    ensures Settled(sys, t)
    decreases k
  {
    hide Settled, LoadsOnly, ForksNeedNothing, Happens;
    if k > 0 {
      var m :| Within(sys, s, m, k - 1) && Moves(sys, m, t);
      PhaseKeepsSettled(sys, s, m, k - 1);
      var ev :| Happens(sys, m, ev, t);
      EventKeepsSettled(sys, m, ev, t);
    }
  }

  lemma SweptSettled(sys: System, s: Phase)
    requires WfSystem(sys) && Swept(sys, InitialGraph(sys), s.g) && LoadsOnly(sys)
    requires |s.color| == sys.n && AllDefault(s.color)
    ensures Settled(sys, s)
  {
    hide Quotient, LoadsOnly, GraphSound, Covers, Arrivals, Derived, CopyClosed, Downstream, Branches;
    forall e | e in s.g.copy && Downstream(sys, e.0) ensures e in sys.copy {
      SweptBelow(sys, s.g, e);
    }
    forall e | e in s.g.load ensures Downstream(sys, e.1) && s.g.rep[e.1] == e.1 {
      SweptLoad(sys, s.g, e);
    }
    SweptObjects(sys, s.g);
    forall x: nat, c1: nat, c2: nat | x < sys.n && Downstream(sys, x) && Branches(sys, x, c1, c2)
      ensures Arrivals(InitialGraph(sys), x) <= s.g.pts[x]
    {
      SweptNode(sys, s.g, x);
    }
  }

  lemma SweptNode(sys: System, g: Graph, x: nat)
    requires WfSystem(sys) && Swept(sys, InitialGraph(sys), g) && LoadsOnly(sys) && x < sys.n && Downstream(sys, x)
    ensures g.pts[x] == Arrivals(InitialGraph(sys), x)
  {
    hide Arrivals, GraphSound, Covers, Derived, CopyClosed;
    Unmerged(sys, g, x);
    assert Read(g)[x] == Arrivals(InitialGraph(sys), x);
  }

  lemma SweptObjects(sys: System, g: Graph)
    requires WfSystem(sys) && Quotient(InitialGraph(sys), g) && LoadsOnly(sys)
    ensures g.store == {}
    ensures |g.rep| == sys.n && forall v :: v in Objects(sys) ==> g.rep[v] == v
  {
    forall v | v in Objects(sys) ensures g.rep[v] == v {
      Unmerged(sys, g, v);
    }
  }

  lemma SweptBelow(sys: System, g: Graph, e: Edge)
    requires WfSystem(sys) && Quotient(InitialGraph(sys), g) && LoadsOnly(sys)
    requires e in g.copy && Downstream(sys, e.0)
    ensures e in sys.copy
  {
    var c :| c in sys.copy && c.0 < |g.rep| && c.1 < |g.rep| && e == (g.rep[c.0], g.rep[c.1]);
    hide FedOnlyBy, OnNoCycle, Downstream, Reaches, Objects;
    Unmerged(sys, g, e.0);
    DownstreamFollows(sys, c.0, c.1);
    Unmerged(sys, g, c.1);
  }

  lemma SweptLoad(sys: System, g: Graph, e: Edge)
    requires WfSystem(sys) && Quotient(InitialGraph(sys), g) && LoadsOnly(sys) && e in g.load
    ensures Downstream(sys, e.1) && e.1 < |g.rep| && g.rep[e.1] == e.1
  {
    var c :| c in sys.load && c.0 < |g.rep| && c.1 < |g.rep| && e == (g.rep[c.0], g.rep[c.1]);
    assert c.1 in ReachFrom(sys.copy, {c.1});
    assert Downstream(sys, c.1);
    Unmerged(sys, g, c.1);
  }

  // ----- the theorem -----

  /** What the deep phase leads to from a sweep that found all nodes uncolored, if its loads and
      stores are met there. */
  lemma ExactIffForksNeedNothing(sys: System, s: Phase, t: Phase)
    requires WfSystem(sys) && LoadsOnly(sys)
    requires Swept(sys, InitialGraph(sys), s.g) && |s.color| == sys.n && AllDefault(s.color)
    requires Leads(sys, s, t) && Healthy(sys, t.g) && LoadsMet(t.g) && StoresMet(t.g)
    ensures IsLeastPts(sys, Read(t.g)) <==> ForksNeedNothing(sys)
  {
    hide LoadsOnly, Settled, Swept, LoadsMet, StoresMet, Within, Downstream, Arrivals;
    if ForksNeedNothing(sys) {
      SettledIsLeast(sys, s, t);
    } else {
      var x: nat, c1: nat, c2: nat :|
        x < sys.n && Downstream(sys, x) && Branches(sys, x, c1, c2)
        && !(LeastPts(sys)[x] <= Arrivals(InitialGraph(sys), x));
      var o :| o in LeastPts(sys)[x] && o !in Arrivals(InitialGraph(sys), x);
      BranchIsFork(sys, x, c1, c2);
      ForkIsMissed(sys, s, t, x, c1, c2, o);
    }
  }

  lemma BranchIsFork(sys: System, x: nat, c1: nat, c2: nat)
    requires WfSystem(sys) && LoadsOnly(sys) && Downstream(sys, x) && Branches(sys, x, c1, c2)
    ensures IsFork(sys, x, c1, c2)
  {
  }

  lemma SettledIsLeast(sys: System, s: Phase, t: Phase)
    requires WfSystem(sys) && LoadsOnly(sys) && ForksNeedNothing(sys)
    requires Swept(sys, InitialGraph(sys), s.g) && |s.color| == sys.n && AllDefault(s.color)
    requires Leads(sys, s, t) && Healthy(sys, t.g) && LoadsMet(t.g) && StoresMet(t.g)
    ensures IsLeastPts(sys, Read(t.g))
  {
    SweptSettled(sys, s);
    var k: nat :| Within(sys, s, t, k);
    PhaseKeepsSettled(sys, s, t, k);
    FixpointIsLeast(sys, t.g);
  }

  /** In particular where nothing below a load branches. */
  lemma NoForksNoNeed(sys: System)
    requires WfSystem(sys)
    requires forall x: nat, c1: nat, c2: nat :: Downstream(sys, x) ==> !Branches(sys, x, c1, c2)
    ensures ForksNeedNothing(sys)
  {
  }

  /** Some fork has to receive an object that does not reach it by the given copies. */
  ghost predicate LateFork(sys: System, x: nat, c1: nat, c2: nat, o: nat)
    requires WfSystem(sys)
  {
    IsFork(sys, x, c1, c2) && x < sys.n && o in LeastPts(sys)[x] && o !in Arrivals(InitialGraph(sys), x)
  }

  lemma LateForkIsMissed(sys: System, s: Phase, t: Phase, x: nat, c1: nat, c2: nat, o: nat)
    requires WfSystem(sys) && Swept(sys, InitialGraph(sys), s.g) && Leads(sys, s, t) && LateFork(sys, x, c1, c2, o)
    ensures WfGraph(sys.n, t.g) && !IsLeastPts(sys, Read(t.g))
  {
    ForkIsMissed(sys, s, t, x, c1, c2, o);
  }

  /** Solving a system with a new graph and a new solver: what a client reads is below every solution;
      it is not the least one if there is a late fork; and for systems with loads only it is the least
      one exactly if no fork needs anything. */
  method Solve(sys: System) returns (pts: seq<set<nat>>)
    requires WfSystem(sys)
    ensures |pts| == sys.n && forall t :: Solves(sys, t) ==> forall x :: 0 <= x < sys.n ==> pts[x] <= t[x]
    ensures forall x, c1, c2, o :: LateFork(sys, x, c1, c2, o) ==> !IsLeastPts(sys, pts)
    ensures LoadsOnly(sys) ==> (IsLeastPts(sys, pts) <==> ForksNeedNothing(sys))
  {
    hide LateFork, LoadsOnly, ForksNeedNothing, Swept, Leads, LoadsMet, StoresMet, IsLeastPts, CopyClosed, CachesExact;
    var graph := new ConstraintGraph(sys);
    var solver := new DeepPropagation(graph);
    ghost var swept := solver.RunSolver();
    ghost var end := solver.Now();
    pts := Read(graph.G());
    forall t | Solves(sys, t) ensures forall x :: 0 <= x < sys.n ==> pts[x] <= t[x] {
      assert SoundFor(end.g, t);
    }
    forall x, c1, c2, o | LateFork(sys, x, c1, c2, o) ensures !IsLeastPts(sys, pts) {
      LateForkIsMissed(sys, swept, end, x, c1, c2, o);
    }
    if LoadsOnly(sys) {
      ExactIffForksNeedNothing(sys, swept, end);
    }
  }

  // ----- an input that fails -----

  /** Objects 0 and 2 with their anonymous nodes 1 and 3; pointer 4 takes the address of 0, and 0 holds
      that of 2; node 5 loads through 4 and is copied to 6 and 7. */
  function TwoReadersProgram(): Program {
    Program(8, {0, 2}, {(0, 4), (2, 0)}, {(5, 6), (5, 7)}, {(4, 5)}, {})
  }

  /** The graph that is built for it. */
  function TwoReaders(): System {
    System(8, {(0, 1), (2, 3)}, {(1, 4), (3, 0), (5, 6), (5, 7)}, {(4, 5)}, {})
  }

  lemma TwoReadersBuilds()
    ensures WfProgram(TwoReadersProgram()) && Build(TwoReadersProgram()) == TwoReaders()
  {
    var p := TwoReadersProgram();
    assert 0 in p.objects && 2 in p.objects && (0, 4) in p.addrOf && (2, 0) in p.addrOf;
    assert Build(p).addr == {(0, 0 + 1), (2, 2 + 1)};
    assert Build(p).copy == {(5, 6), (5, 7)} + {(0 + 1, 4), (2 + 1, 0)};
  }

  lemma NothingArrivesAtFive()
    ensures WfSystem(TwoReaders()) && 2 !in Arrivals(InitialGraph(TwoReaders()), 5)
    ensures OnNoCycle(TwoReaders().copy, 5)
  {
    var sys := TwoReaders();
    InitialGraphIsHealthy(sys);
    forall y: nat | Reaches(sys.copy, y, 5) ensures y == 5 {
      if y != 5 {
        LastEdge(sys.copy, y, 5);
      }
    }
  }

  lemma FiveNeedsObjectTwo(t: seq<set<nat>>)
    requires WfSystem(TwoReaders()) && Solves(TwoReaders(), t)
    ensures 2 in t[5]
  {
    var sys := TwoReaders();
    assert (0, 1) in sys.addr && (2, 3) in sys.addr && (1, 4) in sys.copy && (3, 0) in sys.copy && (4, 5) in sys.load;
    assert t[(1, 4).0] <= t[(1, 4).1] && t[(3, 0).0] <= t[(3, 0).1];
    assert 0 in t[(4, 5).0];
    assert t[0] <= t[(4, 5).1];
  }

  lemma TwoReadersHasALateFork()
    ensures WfSystem(TwoReaders()) && LateFork(TwoReaders(), 5, 6, 7, 2)
  {
    NothingArrivesAtFive();
    forall t | Solves(TwoReaders(), t) ensures 2 in t[5] {
      FiveNeedsObjectTwo(t);
    }
    assert InEverySolution(TwoReaders(), 5, 2);
  }

  /** The deep solver on this program: the result is not the least solution. */
  method SolveTwoReaders() returns (pts: seq<set<nat>>)
    ensures WfProgram(TwoReadersProgram()) && WfSystem(Build(TwoReadersProgram()))
    ensures !IsLeastPts(Build(TwoReadersProgram()), pts)
  {
    TwoReadersBuilds();
    TwoReadersHasALateFork();
    pts := Solve(TwoReaders());
  }
}
