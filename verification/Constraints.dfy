/** Inclusion constraints over a fixed universe of constraint-graph nodes, and what
    it means for a points-to assignment to solve them.

    A node is its id.  `addr` holds the pairs (object, pointer) of addr_of edges; the
    solver never adds to it.  `copy` holds the copy edges present before solving;
    a copy edge from a node to itself is never stored. */
module Constraints {

  type Edge = (nat, nat)

  datatype System = System(n: nat, addr: set<Edge>, copy: set<Edge>, load: set<Edge>, store: set<Edge>)

  /** What a solver has found so far: the points-to set of every node, and the copy edges. */
  datatype Facts = Facts(pts: seq<set<nat>>, copy: set<Edge>)

  ghost predicate EdgesIn(n: nat, edges: set<Edge>) {
    forall e :: e in edges ==> e.0 < n && e.1 < n
  }

  ghost predicate NoSelf(edges: set<Edge>) {
    forall e :: e in edges ==> e.0 != e.1
  }

  ghost predicate PtsIn(n: nat, pts: seq<set<nat>>) {
    |pts| == n && forall i, v :: 0 <= i < n && v in pts[i] ==> v < n
  }

  ghost predicate WfSystem(sys: System) {
    && EdgesIn(sys.n, sys.addr) && EdgesIn(sys.n, sys.copy)
    && EdgesIn(sys.n, sys.load) && EdgesIn(sys.n, sys.store)
    && NoSelf(sys.copy)
  }

  ghost predicate WfFacts(n: nat, s: Facts) {
    PtsIn(n, s.pts) && EdgesIn(n, s.copy) && NoSelf(s.copy)
  }

  // ----- the four kinds of constraint -----

  ghost predicate AddrClosed(sys: System, pts: seq<set<nat>>)
    requires |pts| == sys.n && WfSystem(sys)
  {
    forall e :: e in sys.addr ==> e.0 in pts[e.1]
  }

  ghost predicate CopyClosed(pts: seq<set<nat>>, copy: set<Edge>)
    requires EdgesIn(|pts|, copy)
  {
    forall e :: e in copy ==> pts[e.0] <= pts[e.1]
  }

  /** A load p->d asks for a copy edge v->d from every v that p points to. */
  ghost predicate LoadClosed(sys: System, s: Facts)
    requires |s.pts| == sys.n && WfSystem(sys)
  {
    forall e, v :: e in sys.load && v in s.pts[e.0] ==> v == e.1 || (v, e.1) in s.copy
  }

  /** A store s->p asks for a copy edge s->v to every v that p points to. */
  ghost predicate StoreClosed(sys: System, s: Facts)
    requires |s.pts| == sys.n && WfSystem(sys)
  {
    forall e, v :: e in sys.store && v in s.pts[e.1] ==> v == e.0 || (e.0, v) in s.copy
  }

  ghost predicate Closed(sys: System, s: Facts)
    requires WfSystem(sys)
  {
    && WfFacts(sys.n, s)
    && AddrClosed(sys, s.pts)
    && sys.copy <= s.copy
    && CopyClosed(s.pts, s.copy)
    && LoadClosed(sys, s)
    && StoreClosed(sys, s)
  }

  // ----- the order on facts, and least solutions -----

  ghost predicate Below(s: Facts, t: Facts) {
    && |s.pts| == |t.pts|
    && (forall i :: 0 <= i < |s.pts| ==> s.pts[i] <= t.pts[i])
    && s.copy <= t.copy
  }

  /** Nothing in `s` goes beyond any closed state, so nothing goes beyond their intersection. */
  ghost predicate Sound(sys: System, s: Facts)
    requires WfSystem(sys)
  {
    forall t :: Closed(sys, t) ==> Below(s, t)
  }

  ghost predicate IsLeast(sys: System, s: Facts)
    requires WfSystem(sys)
  {
    Closed(sys, s) && Sound(sys, s)
  }

  lemma LeastIsUnique(sys: System, s: Facts, t: Facts)
    requires WfSystem(sys) && IsLeast(sys, s) && IsLeast(sys, t)
    ensures s == t
  {
    assert Below(s, t) && Below(t, s);
    assert forall i :: 0 <= i < |s.pts| ==> s.pts[i] == t.pts[i];
    assert s.pts == t.pts;
  }

  // ----- the same constraints, read on points-to sets alone -----

  /** The textbook reading: every constraint is an inclusion between points-to sets. */
  ghost predicate Solves(sys: System, pts: seq<set<nat>>)
    requires WfSystem(sys)
  {
    && PtsIn(sys.n, pts)
    && AddrClosed(sys, pts)
    && CopyClosed(pts, sys.copy)
    && (forall e, v :: e in sys.load && v in pts[e.0] ==> pts[v] <= pts[e.1])
    && (forall e, v :: e in sys.store && v in pts[e.1] ==> pts[e.0] <= pts[v])
  }

  ghost predicate IsLeastPts(sys: System, pts: seq<set<nat>>)
    requires WfSystem(sys)
  {
    && Solves(sys, pts)
    && forall t :: Solves(sys, t) ==> forall i :: 0 <= i < sys.n ==> pts[i] <= t[i]
  }

  /** The copy edges that an assignment justifies. */
  ghost function Justified(sys: System, pts: seq<set<nat>>): (r: set<Edge>)
    requires WfSystem(sys) && PtsIn(sys.n, pts)
  {
    sys.copy
    + (set e, v | e in sys.load && v in pts[e.0] && v != e.1 :: (v, e.1))
    + (set e, v | e in sys.store && v in pts[e.1] && v != e.0 :: (e.0, v))
  }

  /** The two readings agree: an assignment solves the inclusions iff some set of copy
      edges closes it, and the edges it justifies are then such a set, contained in any other. */
  lemma SolvesIffClosed(sys: System, pts: seq<set<nat>>)
    requires WfSystem(sys) && PtsIn(sys.n, pts)
    ensures Solves(sys, pts) <==> Closed(sys, Facts(pts, Justified(sys, pts)))
    ensures forall copy :: Closed(sys, Facts(pts, copy)) ==> Solves(sys, pts) && Justified(sys, pts) <= copy
  {
    var own := Facts(pts, Justified(sys, pts));
    if Solves(sys, pts) {
      assert CopyClosed(pts, own.copy);
      assert Closed(sys, own);
    }
    forall copy | Closed(sys, Facts(pts, copy))
      ensures Solves(sys, pts) && Justified(sys, pts) <= copy
    {
      ClosedSolves(sys, Facts(pts, copy));
    }
  }

  lemma ClosedSolves(sys: System, s: Facts)
    requires WfSystem(sys) && Closed(sys, s)
    ensures Solves(sys, s.pts) && Justified(sys, s.pts) <= s.copy
  {
    forall e, v | e in sys.load && v in s.pts[e.0] ensures s.pts[v] <= s.pts[e.1] {
      assert v == e.1 || (v, e.1) in s.copy;
    }
    forall e, v | e in sys.store && v in s.pts[e.1] ensures s.pts[e.0] <= s.pts[v] {
      assert v == e.0 || (e.0, v) in s.copy;
    }
  }

  lemma JustifiedMonotone(sys: System, p: seq<set<nat>>, q: seq<set<nat>>)
    requires WfSystem(sys) && PtsIn(sys.n, p) && PtsIn(sys.n, q)
    requires forall i :: 0 <= i < sys.n ==> p[i] <= q[i]
    ensures Justified(sys, p) <= Justified(sys, q)
  {
  }

  /** A least closed state carries the least assignment, and its edges are exactly the justified ones. */
  lemma LeastClosedIsLeastPts(sys: System, s: Facts)
    requires WfSystem(sys)
    ensures IsLeast(sys, s) <==> PtsIn(sys.n, s.pts) && IsLeastPts(sys, s.pts) && s.copy == Justified(sys, s.pts)
  {
    if IsLeast(sys, s) {
      ClosedSolves(sys, s);
      SolvesIffClosed(sys, s.pts);
      assert Below(s, Facts(s.pts, Justified(sys, s.pts)));
      forall t | Solves(sys, t) ensures forall i :: 0 <= i < sys.n ==> s.pts[i] <= t[i] {
        SolvesIffClosed(sys, t);
        assert Below(s, Facts(t, Justified(sys, t)));
      }
    }
    if PtsIn(sys.n, s.pts) && IsLeastPts(sys, s.pts) && s.copy == Justified(sys, s.pts) {
      SolvesIffClosed(sys, s.pts);
      assert s == Facts(s.pts, Justified(sys, s.pts));
      forall t | Closed(sys, t) ensures Below(s, t) {
        ClosedSolves(sys, t);
        JustifiedMonotone(sys, s.pts, t.pts);
      }
    }
  }

  // ----- the least solution itself -----

  ghost function Objects(sys: System): set<nat>
    requires WfSystem(sys)
  {
    set e | e in sys.addr :: e.0
  }

  /** Every node may point to every object: the largest solution worth considering. */
  lemma AllObjectsSolve(sys: System)
    requires WfSystem(sys)
    ensures Solves(sys, seq(sys.n, i => Objects(sys)))
  {
  }

  /** What every solution has. */
  ghost function LeastPts(sys: System): (pts: seq<set<nat>>)
    requires WfSystem(sys)
    ensures |pts| == sys.n
  {
    seq(sys.n, i requires 0 <= i < sys.n => set v: nat | v < sys.n && InEverySolution(sys, i, v))
  }

  ghost predicate InEverySolution(sys: System, x: nat, v: nat)
    requires WfSystem(sys) && x < sys.n
  {
    forall t :: Solves(sys, t) ==> v in t[x]
  }

  /** What every solution has is itself a solution, so every system has a least one. */
  lemma LeastPtsIsLeast(sys: System)
    requires WfSystem(sys)
    ensures IsLeastPts(sys, LeastPts(sys))
    ensures forall x :: 0 <= x < sys.n ==> LeastPts(sys)[x] <= Objects(sys)
  {
    var p := LeastPts(sys);
    forall t | Solves(sys, t) ensures forall x :: 0 <= x < sys.n ==> p[x] <= t[x] {
    }
    forall e | e in sys.copy ensures p[e.0] <= p[e.1] {
      LeastFollows(sys, e.0, e.1);
    }
    forall e, v | e in sys.load && v in p[e.0] ensures p[v] <= p[e.1] {
      LeastFollows(sys, v, e.1);
    }
    forall e, v | e in sys.store && v in p[e.1] ensures p[e.0] <= p[v] {
      LeastFollows(sys, e.0, v);
    }
    AllObjectsSolve(sys);
  }

  lemma LeastFollows(sys: System, x: nat, y: nat)
    requires WfSystem(sys) && x < sys.n && y < sys.n
    requires forall t :: Solves(sys, t) ==> t[x] <= t[y]
    ensures LeastPts(sys)[x] <= LeastPts(sys)[y]
  {
    forall v | v in LeastPts(sys)[x] ensures InEverySolution(sys, y, v) {
      assert InEverySolution(sys, x, v);
    }
  }

  // ----- propagation along the copy edges of one node -----

  function Targets(edges: set<Edge>, a: nat): set<nat> {
    set e | e in edges && e.0 == a :: e.1
  }

  /** Every copy successor of `a` receives what `a` points to. */
  ghost function AfterCopies(pts: seq<set<nat>>, copy: set<Edge>, a: nat): (r: seq<set<nat>>)
    requires a < |pts|
  {
    seq(|pts|, i requires 0 <= i < |pts| => if (a, i) in copy then pts[i] + pts[a] else pts[i])
  }
}
