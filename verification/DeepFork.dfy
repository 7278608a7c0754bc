/** Why the deep solver misses facts: its loop over copy successors returns at the first
    (include/aser/PointerAnalysis/Solver/DeepPropagation.h:166-175).  A fact that reaches a node with
    two copy successors only after the sweep never arrives at both. */
module DeepForks {
  import opened Constraints
  import opened CopyGraph
  import opened ConsGraph
  import opened DeepSteps
  import opened Reachability
  import opened Sweeping

  ghost predicate OnNoCycle(edges: set<Edge>, x: nat) {
    forall y: nat :: OnOneCycle(edges, x, y) ==> y == x
  }

  /** Nothing but a copy edge from `x` can ever bring a fact to `c`. */
  ghost predicate FedOnlyBy(sys: System, c: nat, x: nat)
    requires WfSystem(sys)
  {
    && (forall e :: e in sys.copy && e.1 == c ==> e.0 == x)
    && (forall e :: e in sys.load + sys.addr ==> e.1 != c)
    && c !in Objects(sys)
  }

  /** A node with two copy successors that depend on it alone. */
  ghost predicate IsFork(sys: System, x: nat, c1: nat, c2: nat)
    requires WfSystem(sys)
  {
    && c1 != c2 && (x, c1) in sys.copy && (x, c2) in sys.copy
    && OnNoCycle(sys.copy, x) && FedOnlyBy(sys, c1, x) && FedOnlyBy(sys, c2, x)
  }

  // ----- reaching a node means reaching it by its last edge -----

  lemma LastEdge(edges: set<Edge>, a: nat, b: nat)
    requires Reaches(edges, a, b) && a != b
    ensures exists e :: e in edges && e.1 == b && Reaches(edges, a, e.0)
  {
    if forall e :: e in edges && e.1 == b ==> !Reaches(edges, a, e.0) {
      var others := ReachFrom(edges, {a}) - {b};
      ReachIsClosed(edges, {a});
      forall e | e in edges && e.0 in others ensures e.1 in others {
        assert Reaches(edges, a, e.0);
      }
      ReachIsLeast(edges, {a}, others);
    }
  }

  lemma CycleThroughFork(sys: System, x: nat, c: nat, y: nat)
    requires WfSystem(sys) && (x, c) in sys.copy && FedOnlyBy(sys, c, x) && OnOneCycle(sys.copy, c, y) && y != c
    ensures OnOneCycle(sys.copy, x, y) && OnOneCycle(sys.copy, x, c)
  {
    ReachesEdge(sys.copy, (x, c));
    LastEdge(sys.copy, y, c);
    ReachesTransitive(sys.copy, x, c, y);
    ReachesTransitive(sys.copy, c, y, x);
  }

  lemma SuccessorOnNoCycle(sys: System, x: nat, c: nat)
    requires WfSystem(sys) && (x, c) in sys.copy && OnNoCycle(sys.copy, x) && FedOnlyBy(sys, c, x)
    ensures OnNoCycle(sys.copy, c) && c != x
  {
    assert (x, c).0 != (x, c).1;
    forall y: nat | OnOneCycle(sys.copy, c, y) ensures y == c {
      if y != c {
        CycleThroughFork(sys, x, c, y);
      }
    }
  }

  lemma ArrivesThrough(sys: System, x: nat, c: nat)
    requires WfSystem(sys) && c < sys.n && x < sys.n && FedOnlyBy(sys, c, x)
    ensures Arrivals(InitialGraph(sys), c) <= Arrivals(InitialGraph(sys), x)
  {
    InitialGraphIsHealthy(sys);
    var g := InitialGraph(sys);
    forall o | o in Arrivals(g, c) ensures o in Arrivals(g, x) {
      var u: nat :| u < sys.n && Reaches(g.copy, u, c) && o in g.pts[u];
      assert (o, u) in sys.addr;
      assert u != c;
      LastEdge(g.copy, u, c);
    }
  }

  // ----- the invariant: never at both -----

  /** What comes to the successors has come through the fork, and never to both. */
  ghost predicate Split(pts: seq<set<nat>>, x: nat, c1: nat, c2: nat, o: nat)
    requires x < |pts| && c1 < |pts| && c2 < |pts|
  {
    && !(o in pts[c1] && o in pts[c2])
    && (o in pts[c1] || o in pts[c2] ==> o in pts[x])
  }

  ghost predicate OnlyFrom(copy: set<Edge>, x: nat, c1: nat, c2: nat) {
    forall e :: e in copy && (e.1 == c1 || e.1 == c2) ==> e.0 == x
  }

  /** No load and no store can add a copy edge to the two successors. */
  ghost predicate OutOfReach(sys: System, g: Graph, c1: nat, c2: nat)
    requires WfSystem(sys) && |g.rep| == sys.n
  {
    && (forall e :: e in g.load ==> e.1 != c1 && e.1 != c2)
    && (forall v :: v in Objects(sys) ==> v != c1 && v != c2 && g.rep[v] != c1 && g.rep[v] != c2)
  }

  ghost predicate ForkKept(sys: System, g: Graph, x: nat, c1: nat, c2: nat, o: nat)
    requires WfSystem(sys) && |g.rep| == |g.pts| == sys.n
  {
    && x < sys.n && c1 < sys.n && c2 < sys.n && x != c1 && x != c2 && c1 != c2
    && OnlyFrom(g.copy, x, c1, c2) && OutOfReach(sys, g, c1, c2) && Split(g.pts, x, c1, c2, o)
  }

  /** One call of deepPropagate: if it is about to serve one of the two, it comes from the fork, so
      the other does not have what is new. */
  ghost predicate ServesOne(pts: seq<set<nat>>, x: nat, c1: nat, c2: nat, o: nat, start: nat, diff: set<nat>)
    requires x < |pts| && c1 < |pts| && c2 < |pts|
  {
    && (start == c1 && o in diff ==> o in pts[x] && o !in pts[c2])
    && (start == c2 && o in diff ==> o in pts[x] && o !in pts[c1])
  }

  lemma {:induction false} ChainKeepsSplit(color: seq<Color>, g: Graph, h: Graph, start: nat, stop: nat, diff: set<nat>,
                                           found: bool, path: seq<nat>, x: nat, c1: nat, c2: nat, o: nat)
    requires Chain(color, g, h, start, stop, diff, found, path)
    requires x < |g.pts| && c1 < |g.pts| && c2 < |g.pts| && x != c1 && x != c2 && c1 != c2
    requires OnlyFrom(g.copy, x, c1, c2) && Split(g.pts, x, c1, c2, o) && ServesOne(g.pts, x, c1, c2, o, start, diff)
    ensures |h.pts| == |g.pts| && Split(h.pts, x, c1, c2, o)
    decreases |path|
  {
    if color[start] == Default && !(diff <= g.pts[start]) {
      var g1 := AddFacts(g, start, diff);
      assert Split(g1.pts, x, c1, c2, o);
      if |path| > 1 {
        assert (start, path[1]) in g.copy;
        assert ServesOne(g1.pts, x, c1, c2, o, path[1], diff - g.pts[start]);
        ChainKeepsSplit(color, g1, h, path[1], stop, diff - g.pts[start], found, path[1..], x, c1, c2, o);
      }
    }
  }

  /** The points-to sets hold objects only. */
  lemma OnlyObjects(sys: System, g: Graph)
    requires Healthy(sys, g)
    ensures forall x, v :: 0 <= x < sys.n && v in g.pts[x] ==> v in Objects(sys)
  {
    AllObjectsSolve(sys);
    assert SoundFor(g, seq(sys.n, i => Objects(sys)));
  }

  lemma LinkedOnlyFrom(g: Graph, from: set<nat>, dst: nat, x: nat, c1: nat, c2: nat)
    requires dst < |g.rep| && g.rep[dst] == dst && dst != c1 && dst != c2 && OnlyFrom(g.copy, x, c1, c2)
    ensures OnlyFrom(LinkedAll(g, from, dst).copy, x, c1, c2)
  {
  }

  lemma EventKeepsFork(sys: System, s: Phase, ev: Event, t: Phase, x: nat, c1: nat, c2: nat, o: nat)
    requires Happens(sys, s, ev, t) && ForkKept(sys, s.g, x, c1, c2, o)
    ensures ForkKept(sys, t.g, x, c1, c2, o)
  {
    hide GraphSound, Covers, Marked, Listed, Carried;
    OnlyObjects(sys, s.g);
    match ev
    case Loaded(src, dst, from, facts, found, path) =>
      var g := LinkedAll(s.g, from, dst);
      assert (src, dst).1 != c1 && (src, dst).1 != c2;
      LinkedOnlyFrom(s.g, from, dst, x, c1, c2);
      ChainFrame(s.color, g, t.g, dst, dst, facts - s.g.pts[dst], found, path);
      hide LinkedAll, Chain;
      ChainKeepsSplit(s.color, g, t.g, dst, dst, facts - s.g.pts[dst], found, path, x, c1, c2, o);
    case Stored(src, dst, v, found, path) =>
      var g := WithCopy(s.g, src, v);
      assert v in Objects(sys);
      assert OnlyFrom(g.copy, x, c1, c2);
      ChainFrame(s.color, g, t.g, v, src, s.g.pts[src] - s.g.pts[v], found, path);
      ChainKeepsSplit(s.color, g, t.g, v, src, s.g.pts[src] - s.g.pts[v], found, path, x, c1, c2, o);
    case Unmarked =>
  }

  lemma {:induction false} PhaseKeepsFork(sys: System, s: Phase, t: Phase, k: nat, x: nat, c1: nat, c2: nat, o: nat)
    requires Healthy(sys, s.g) && Within(sys, s, t, k) && ForkKept(sys, s.g, x, c1, c2, o)
    ensures Healthy(sys, t.g) && ForkKept(sys, t.g, x, c1, c2, o)
    decreases k
  {
    hide ForkKept, Healthy;
    if k > 0 {
      var m :| Within(sys, s, m, k - 1) && Moves(sys, m, t);
      PhaseKeepsFork(sys, s, m, k - 1, x, c1, c2, o);
      var ev :| Happens(sys, m, ev, t);
      EventKeepsFork(sys, m, ev, t, x, c1, c2, o);
    }
  }

  // ----- how the phase begins -----

  lemma Unmerged(sys: System, g: Graph, x: nat)
    requires WfSystem(sys) && Quotient(InitialGraph(sys), g) && x < sys.n && OnNoCycle(sys.copy, x)
    ensures g.rep[x] == x && forall y :: 0 <= y < sys.n && g.rep[y] == x ==> y == x
  {
    var g0 := InitialGraph(sys);
    assert Live(g0, x);
    forall y: nat | y < sys.n && g.rep[y] == x ensures y == x {
      assert Live(g0, y) && OnOneCycle(sys.copy, x, y);
    }
  }

  lemma ImageStaysOnlyFrom(sys: System, g: Graph, x: nat, c: nat)
    requires WfSystem(sys) && Quotient(InitialGraph(sys), g) && c < sys.n && FedOnlyBy(sys, c, x)
    requires x < sys.n && g.rep[x] == x && forall y :: 0 <= y < sys.n && g.rep[y] == c ==> y == c
    ensures forall e :: e in g.copy && e.1 == c ==> e.0 == x
    ensures forall e :: e in g.load ==> e.1 != c
    ensures forall v :: v in Objects(sys) ==> v != c && g.rep[v] != c
  {
    forall e | e in g.copy && e.1 == c ensures e.0 == x {
      var d :| d in sys.copy && e == (g.rep[d.0], g.rep[d.1]);
      assert d.1 == c;
    }
    forall e | e in g.load ensures e.1 != c {
      var d :| d in sys.load && e == (g.rep[d.0], g.rep[d.1]);
      assert d in sys.load + sys.addr;
    }
  }

  /** Where a sweep leaves one successor of a fork. */
  lemma SweptSuccessor(sys: System, g: Graph, x: nat, c: nat, o: nat)
    requires WfSystem(sys) && Swept(sys, InitialGraph(sys), g) && (x, c) in sys.copy && x < sys.n
    requires OnNoCycle(sys.copy, x) && FedOnlyBy(sys, c, x) && o !in Arrivals(InitialGraph(sys), x)
    ensures g.rep[x] == x && c < sys.n && g.rep[c] == c && c != x
    ensures forall e :: e in g.copy && e.1 == c ==> e.0 == x
    ensures forall e :: e in g.load ==> e.1 != c
    ensures forall v :: v in Objects(sys) ==> v != c && g.rep[v] != c
    ensures o !in g.pts[c]
  {
    hide Quotient, FedOnlyBy, OnNoCycle, Arrivals, Derived, GraphSound, Covers, CopyClosed, Objects;
    assert (x, c).1 < sys.n;
    SuccessorOnNoCycle(sys, x, c);
    Unmerged(sys, g, x);
    Unmerged(sys, g, c);
    ImageStaysOnlyFrom(sys, g, x, c);
    ArrivesThrough(sys, x, c);
    assert Read(g)[c] == g.pts[c];
  }

  lemma SweptFork(sys: System, g: Graph, x: nat, c1: nat, c2: nat, o: nat)
    requires WfSystem(sys) && Swept(sys, InitialGraph(sys), g) && IsFork(sys, x, c1, c2)
    requires x < sys.n && o !in Arrivals(InitialGraph(sys), x)
    ensures g.rep[x] == x && c1 < sys.n && c2 < sys.n && g.rep[c1] == c1 && g.rep[c2] == c2
    ensures ForkKept(sys, g, x, c1, c2, o)
  {
    hide Swept, FedOnlyBy, OnNoCycle, Arrivals, Objects;
    SweptSuccessor(sys, g, x, c1, o);
    SweptSuccessor(sys, g, x, c2, o);
  }

  lemma LeastReachesBoth(sys: System, g: Graph, x: nat, c1: nat, c2: nat, o: nat)
    requires Healthy(sys, g) && IsLeastPts(sys, Read(g)) && x < sys.n && o in LeastPts(sys)[x]
    requires (x, c1) in sys.copy && (x, c2) in sys.copy && g.rep[c1] == c1 && g.rep[c2] == c2
    ensures o in g.pts[c1] && o in g.pts[c2]
  {
    assert InEverySolution(sys, x, o) && o in Read(g)[x];
    assert Read(g)[(x, c1).0] <= Read(g)[(x, c1).1] && Read(g)[(x, c2).0] <= Read(g)[(x, c2).1];
  }

  /** A fork that has to receive an object which does not reach it by the given copies: the deep
      solver's result is not the least solution, whatever order nodes and successors come in. */
  lemma ForkIsMissed(sys: System, s: Phase, t: Phase, x: nat, c1: nat, c2: nat, o: nat)
    requires WfSystem(sys) && Swept(sys, InitialGraph(sys), s.g) && Leads(sys, s, t)
    requires IsFork(sys, x, c1, c2) && x < sys.n
    requires o in LeastPts(sys)[x] && o !in Arrivals(InitialGraph(sys), x)
    ensures WfGraph(sys.n, t.g) && !IsLeastPts(sys, Read(t.g))
  {
    SweptFork(sys, s.g, x, c1, c2, o);
    var k: nat :| Within(sys, s, t, k);
    PhaseKeepsReps(sys, s, t, k);
    if IsLeastPts(sys, Read(t.g)) {
      LeastReachesBoth(sys, t.g, x, c1, c2, o);
      PhaseKeepsFork(sys, s, t, k, x, c1, c2, o);
    }
  }

  /** The deep phase merges no nodes and moves no load or store. */
  lemma {:induction false} PhaseKeepsReps(sys: System, s: Phase, t: Phase, k: nat)
    requires Healthy(sys, s.g) && Within(sys, s, t, k)
    ensures Healthy(sys, t.g)
    ensures t.g == s.g.(pts := t.g.pts, copy := t.g.copy)
    decreases k
  {
    hide Healthy;
    if k > 0 {
      var m :| Within(sys, s, m, k - 1) && Moves(sys, m, t);
      PhaseKeepsReps(sys, s, m, k - 1);
      var ev :| Happens(sys, m, ev, t);
      EventKeepsReps(sys, m, ev, t);
    }
  }

  lemma EventKeepsReps(sys: System, s: Phase, ev: Event, t: Phase)
    requires Happens(sys, s, ev, t)
    ensures t.g == s.g.(pts := t.g.pts, copy := t.g.copy)
  {
    match ev
    case Loaded(src, dst, from, facts, found, path) =>
      ChainFrame(s.color, LinkedAll(s.g, from, dst), t.g, dst, dst, facts - s.g.pts[dst], found, path);
    case Stored(src, dst, v, found, path) =>
      ChainFrame(s.color, WithCopy(s.g, src, v), t.g, v, src, s.g.pts[src] - s.g.pts[v], found, path);
    case Unmarked =>
  }
}
