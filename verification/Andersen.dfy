/** The plain worklist solver of include/aser/PointerAnalysis/Solver/Andersen.h.

    `Process` says what popping one node does to the facts, `Step` what it does to the
    whole run, and the class `Andersen` carries the loops out in place.  Everything
    promised about the solver is proved of `Step`, for every order in which the
    pushes of one node may happen. */
module AndersenSolver {
  import opened Constraints
  import opened Lists

  // ----- one pop, as a function of the facts -----

  ghost function StoreEdges(sys: System, pts: seq<set<nat>>, a: nat): set<Edge>
    requires WfSystem(sys) && |pts| == sys.n
  {
    set e, v | e in sys.store && e.0 == a && v in pts[e.1] && v != a :: (a, v)
  }

  ghost function LoadEdges(sys: System, pts: seq<set<nat>>, a: nat): set<Edge>
    requires WfSystem(sys) && |pts| == sys.n && a < sys.n
  {
    set e, v | e in sys.load && e.0 == a && v in pts[a] && v != e.1 :: (v, e.1)
  }

  /** The facts after `a` is processed: copies first, then stores, then loads, which is
      the order in which a node's edges are listed. */
  ghost function Process(sys: System, s: Facts, a: nat): Facts
    requires WfSystem(sys) && WfFacts(sys.n, s) && a < sys.n
  {
    var pts := AfterCopies(s.pts, s.copy, a);
    Facts(pts, s.copy + StoreEdges(sys, pts, a) + LoadEdges(sys, pts, a))
  }

  /** The nodes pushed while `a` is processed: copy targets that grew, `a` itself if a
      store added an edge, everything `a` points to if a load did. */
  ghost function Pushed(sys: System, s: Facts, a: nat): set<nat>
    requires WfSystem(sys) && WfFacts(sys.n, s) && a < sys.n
  {
    var pts := AfterCopies(s.pts, s.copy, a);
    var afterStores := s.copy + StoreEdges(sys, pts, a);
    (set b | b in Targets(s.copy, a) && b < sys.n && !(s.pts[a] <= s.pts[b]))
    + (if StoreEdges(sys, pts, a) <= s.copy then {} else {a})
    + (if LoadEdges(sys, pts, a) <= afterStores then {} else pts[a])
  }

  lemma ProcessWf(sys: System, s: Facts, a: nat)
    requires WfSystem(sys) && WfFacts(sys.n, s) && a < sys.n
    ensures WfFacts(sys.n, Process(sys, s, a)) && Below(s, Process(sys, s, a))
    ensures Process(sys, s, a).pts[a] == s.pts[a]
    ensures forall b :: b in Pushed(sys, s, a) ==> b < sys.n
  {
  }

  function AllNodes(n: nat): (q: seq<nat>)
    ensures |q| == n && forall i :: 0 <= i < n ==> q[i] == i
    ensures forall x: nat :: x < n ==> x in q
  {
    if n == 0 then [] else AllNodes(n - 1) + [n - 1]
  }

  // ----- runs -----

  datatype Run = Run(facts: Facts, queue: seq<nat>)

  ghost predicate WfRun(sys: System, r: Run)
    requires WfSystem(sys)
  {
    WfFacts(sys.n, r.facts) && forall i :: 0 <= i < |r.queue| ==> r.queue[i] < sys.n
  }

  ghost predicate Step(sys: System, r: Run, r': Run)
    requires WfSystem(sys) && WfRun(sys, r)
  {
    && r.queue != []
    && r'.facts == Process(sys, r.facts, r.queue[0])
    && r.queue[1..] <= r'.queue
    && SameElements(r'.queue[|r.queue| - 1..], Pushed(sys, r.facts, r.queue[0]))
  }

  lemma StepFromPushes(sys: System, s: Facts, a: nat, queue: seq<nat>, p1: seq<nat>, p2: seq<nat>, p3: seq<nat>)
    requires WfSystem(sys) && WfRun(sys, Run(s, [a] + queue)) && a < sys.n
    requires SameElements(p1, set b | b in Targets(s.copy, a) && b < sys.n && !(s.pts[a] <= s.pts[b]))
    requires var pts := AfterCopies(s.pts, s.copy, a);
      SameElements(p2, if StoreEdges(sys, pts, a) <= s.copy then {} else {a})
    requires var pts := AfterCopies(s.pts, s.copy, a);
      SameElements(p3, if LoadEdges(sys, pts, a) <= s.copy + StoreEdges(sys, pts, a) then {} else pts[a])
    ensures Step(sys, Run(s, [a] + queue), Run(Process(sys, s, a), queue + p1 + p2 + p3))
  {
    hide StoreEdges, LoadEdges, Targets;
    var q := queue + p1 + p2 + p3;
    assert q[|queue|..] == p1 + p2 + p3;
    assert ([a] + queue)[1..] == queue;
    ThreeLists(p1, p2, p3,
      set b | b in Targets(s.copy, a) && b < sys.n && !(s.pts[a] <= s.pts[b]),
      if StoreEdges(sys, AfterCopies(s.pts, s.copy, a), a) <= s.copy then {} else {a},
      if LoadEdges(sys, AfterCopies(s.pts, s.copy, a), a) <= s.copy + StoreEdges(sys, AfterCopies(s.pts, s.copy, a), a)
      then {} else AfterCopies(s.pts, s.copy, a)[a]);
  }

  lemma ThreeLists(p1: seq<nat>, p2: seq<nat>, p3: seq<nat>, s1: set<nat>, s2: set<nat>, s3: set<nat>)
    requires SameElements(p1, s1) && SameElements(p2, s2) && SameElements(p3, s3)
    ensures SameElements(p1 + p2 + p3, s1 + s2 + s3)
  {
    assert forall x :: x in p1 + p2 + p3 <==> x in p1 || x in p2 || x in p3;
  }

  lemma StepWf(sys: System, r: Run, r': Run)
    requires WfSystem(sys) && WfRun(sys, r) && Step(sys, r, r')
    ensures WfRun(sys, r') && Below(r.facts, r'.facts)
    ensures forall x :: x in r'.queue <==> x in r.queue[1..] || x in Pushed(sys, r.facts, r.queue[0])
  {
    ProcessWf(sys, r.facts, r.queue[0]);
    QueueElements(r.queue[1..], r'.queue, Pushed(sys, r.facts, r.queue[0]));
  }

  lemma QueueElements(q: seq<nat>, q': seq<nat>, pushed: set<nat>)
    requires q <= q' && SameElements(q'[|q|..], pushed)
    ensures forall x :: x in q' <==> x in q || x in pushed
    ensures q' != q ==> pushed != {}
  {
    var pushes := q'[|q|..];
    assert q' == q + pushes;
    assert pushes != [] ==> pushes[0] in pushed;
    forall x ensures x in q' <==> x in q || x in pushed {
      assert x in q' <==> x in q || x in pushes;
    }
  }

  function Last(rs: seq<Run>): Run
    requires rs != []
  {
    rs[|rs| - 1]
  }

  function Front(rs: seq<Run>): seq<Run>
    requires rs != []
  {
    rs[..|rs| - 1]
  }

  /** A sequence of states, each a step from the one before; every reachable state ends such a run. */
  ghost predicate IsRun(sys: System, rs: seq<Run>)
    requires WfSystem(sys)
  {
    && rs != []
    && WfRun(sys, Last(rs))
    && (|rs| > 1 ==> IsRun(sys, Front(rs)) && Step(sys, Last(Front(rs)), Last(rs)))
  }

  /** What holds before `runSolver`: every addr_of fact is already in the points-to sets,
      and the given copy edges are in the graph. */
  ghost predicate Prepared(sys: System, s: Facts)
    requires WfSystem(sys)
  {
    WfFacts(sys.n, s) && AddrClosed(sys, s.pts) && sys.copy <= s.copy
  }

  ghost predicate IsStart(sys: System, r: Run)
    requires WfSystem(sys)
  {
    && WfRun(sys, r) && Prepared(sys, r.facts)
    && forall x: nat :: x < sys.n ==> x in r.queue
  }

  // ----- soundness -----

  lemma ProcessSound(sys: System, s: Facts, a: nat)
    requires WfSystem(sys) && WfFacts(sys.n, s) && a < sys.n && Sound(sys, s)
    ensures Sound(sys, Process(sys, s, a))
  {
    var s' := Process(sys, s, a);
    forall t | Closed(sys, t) ensures Below(s', t) {
      assert Below(s, t);
      forall i | 0 <= i < sys.n ensures s'.pts[i] <= t.pts[i] {
        if (a, i) in s.copy {
          assert (a, i) in t.copy;
        }
      }
      forall c | c in s'.copy ensures c in t.copy {
        if c in StoreEdges(sys, s'.pts, a) {
          var e :| e in sys.store && e.0 == a && c.1 in s'.pts[e.1] && c == (a, c.1) && c.1 != a;
          assert c.1 in t.pts[e.1];
        } else if c in LoadEdges(sys, s'.pts, a) {
          var e :| e in sys.load && e.0 == a && c.0 in s'.pts[a] && c == (c.0, e.1) && c.0 != e.1;
          assert c.0 in t.pts[e.0];
        }
      }
    }
  }

  /** No fact and no copy edge of any run leaves the least solution. */
  lemma {:induction false} RunSound(sys: System, rs: seq<Run>)
    requires WfSystem(sys) && IsRun(sys, rs) && WfRun(sys, rs[0]) && Sound(sys, rs[0].facts)
    ensures Sound(sys, Last(rs).facts)
  {
    if |rs| > 1 {
      RunSound(sys, Front(rs));
      ProcessSound(sys, Last(Front(rs)).facts, Last(Front(rs)).queue[0]);
    }
  }

  // ----- what waits in the queue -----

  /** Whatever copy or load constraint is not met has its source waiting in the queue. */
  ghost predicate Pending(sys: System, r: Run)
    requires WfSystem(sys) && WfRun(sys, r)
  {
    && (forall e :: e in r.facts.copy ==> r.facts.pts[e.0] <= r.facts.pts[e.1] || e.0 in r.queue)
    && (forall e, v :: e in sys.load && v in r.facts.pts[e.0] ==>
          v == e.1 || (v, e.1) in r.facts.copy || e.0 in r.queue)
  }

  lemma StartPending(sys: System, r: Run)
    requires WfSystem(sys) && IsStart(sys, r)
    ensures Pending(sys, r)
  {
  }

  lemma StepPending(sys: System, r: Run, r': Run)
    requires WfSystem(sys) && WfRun(sys, r) && Pending(sys, r) && Step(sys, r, r')
    ensures WfRun(sys, r') && Pending(sys, r')
  {
    hide Process, Pushed, Targets;
    StepWf(sys, r, r');
    assert forall x :: x in r.queue ==> x == r.queue[0] || x in r.queue[1..];
    forall e | e in r'.facts.copy ensures r'.facts.pts[e.0] <= r'.facts.pts[e.1] || e.0 in r'.queue {
      CopyPending(sys, r, r', e);
    }
    forall e, v | e in sys.load && v in r'.facts.pts[e.0]
      ensures v == e.1 || (v, e.1) in r'.facts.copy || e.0 in r'.queue
    {
      LoadPending(sys, r, r', e, v);
    }
  }

  lemma LoadPending(sys: System, r: Run, r': Run, e: Edge, v: nat)
    requires WfSystem(sys) && WfRun(sys, r) && Pending(sys, r) && Step(sys, r, r')
    requires WfRun(sys, r') && e in sys.load && v in r'.facts.pts[e.0]
    requires forall x :: x in r'.queue <==> x in r.queue[1..] || x in Pushed(sys, r.facts, r.queue[0])
    requires forall x :: x in r.queue ==> x == r.queue[0] || x in r.queue[1..]
    ensures v == e.1 || (v, e.1) in r'.facts.copy || e.0 in r'.queue
  {
    hide StoreEdges;
    var a := r.queue[0];
    if e.0 == a {
      assert v == e.1 || (v, e.1) in LoadEdges(sys, r'.facts.pts, a);
    } else if v !in r.facts.pts[e.0] {
      assert e.0 in Targets(r.facts.copy, a) by {
        assert (a, e.0) in r.facts.copy;
      }
      assert e.0 in Pushed(sys, r.facts, a);
    }
  }

  lemma CopyPending(sys: System, r: Run, r': Run, e: Edge)
    requires WfSystem(sys) && WfRun(sys, r) && Pending(sys, r) && Step(sys, r, r') && e in r'.facts.copy
    requires WfRun(sys, r')
    requires forall x :: x in r'.queue <==> x in r.queue[1..] || x in Pushed(sys, r.facts, r.queue[0])
    requires forall x :: x in r.queue ==> x == r.queue[0] || x in r.queue[1..]
    ensures r'.facts.pts[e.0] <= r'.facts.pts[e.1] || e.0 in r'.queue
  {
    hide WfSystem;
    var a := r.queue[0];
    var s, s' := r.facts, r'.facts;
    if e in s.copy {
      if e.0 == a {
      } else if (a, e.0) in s.copy && !(s.pts[a] <= s.pts[e.0]) {
        assert e.0 in Targets(s.copy, a);
        assert e.0 in Pushed(sys, s, a);
      } else {
        assert s'.pts[e.0] == s.pts[e.0];
      }
    } else if e in StoreEdges(sys, s'.pts, a) {
      assert a in Pushed(sys, s, a);
    } else {
      assert e in LoadEdges(sys, s'.pts, a);
      assert e.0 in Pushed(sys, s, a);
    }
  }

  lemma {:induction false} RunPending(sys: System, rs: seq<Run>)
    requires WfSystem(sys) && IsRun(sys, rs) && IsStart(sys, rs[0])
    ensures Pending(sys, Last(rs))
  {
    if |rs| == 1 {
      StartPending(sys, rs[0]);
    } else {
      RunPending(sys, Front(rs));
      StepPending(sys, Last(Front(rs)), Last(rs));
    }
  }

  lemma {:induction false} RunGrows(sys: System, rs: seq<Run>)
    requires WfSystem(sys) && IsRun(sys, rs)
    ensures Below(rs[0].facts, Last(rs).facts)
  {
    if |rs| > 1 {
      RunGrows(sys, Front(rs));
      StepWf(sys, Last(Front(rs)), Last(rs));
    }
  }

  /** At exit every copy edge, also those added on the way, and every load is met. */
  lemma RunExit(sys: System, rs: seq<Run>)
    requires WfSystem(sys) && IsRun(sys, rs) && IsStart(sys, rs[0]) && Last(rs).queue == []
    ensures Prepared(sys, Last(rs).facts)
    ensures CopyClosed(Last(rs).facts.pts, Last(rs).facts.copy)
    ensures LoadClosed(sys, Last(rs).facts)
  {
    RunPending(sys, rs);
    RunGrows(sys, rs);
  }

  /** The exit state is the least solution iff it meets the stores; one inspection decides. */
  lemma ExitIsLeastIffStoresMet(sys: System, rs: seq<Run>)
    requires WfSystem(sys) && IsRun(sys, rs) && IsStart(sys, rs[0]) && Sound(sys, rs[0].facts)
    requires Last(rs).queue == []
    ensures IsLeast(sys, Last(rs).facts) <==> StoreClosed(sys, Last(rs).facts)
  {
    RunExit(sys, rs);
    RunSound(sys, rs);
  }

  // ----- a pass that adds nothing -----

  /** All constraints whose edges leave `a`. */
  ghost predicate MetAt(sys: System, s: Facts, a: nat)
    requires WfSystem(sys) && WfFacts(sys.n, s) && a < sys.n
  {
    && (forall e :: e in s.copy && e.0 == a ==> s.pts[a] <= s.pts[e.1])
    && StoreEdges(sys, s.pts, a) <= s.copy
    && LoadEdges(sys, s.pts, a) <= s.copy
  }

  lemma ProcessIdleIffMet(sys: System, s: Facts, a: nat)
    requires WfSystem(sys) && WfFacts(sys.n, s) && a < sys.n
    ensures Process(sys, s, a) == s <==> MetAt(sys, s, a)
  {
    var pts := AfterCopies(s.pts, s.copy, a);
    if MetAt(sys, s, a) {
      forall i | 0 <= i < sys.n ensures pts[i] == s.pts[i] {
        assert (a, i) in s.copy ==> s.pts[a] <= s.pts[(a, i).1];
      }
      assert pts == s.pts;
    }
    if Process(sys, s, a) == s {
      forall e | e in s.copy && e.0 == a ensures s.pts[a] <= s.pts[e.1] {
        assert pts[e.1] == s.pts[e.1] + s.pts[a];
      }
    }
  }

  ghost predicate MetExcept(sys: System, s: Facts, queue: seq<nat>)
    requires WfSystem(sys) && WfFacts(sys.n, s)
  {
    forall a :: 0 <= a < sys.n ==> a in queue || MetAt(sys, s, a)
  }

  lemma ClosedIffMetEverywhere(sys: System, s: Facts)
    requires WfSystem(sys) && Prepared(sys, s)
    ensures Closed(sys, s) <==> MetExcept(sys, s, [])
  {
    if MetExcept(sys, s, []) {
      forall e | e in s.copy ensures s.pts[e.0] <= s.pts[e.1] {
        assert MetAt(sys, s, e.0);
      }
      forall e, v | e in sys.load && v in s.pts[e.0] ensures v == e.1 || (v, e.1) in s.copy {
        assert MetAt(sys, s, e.0);
        assert v == e.1 || (v, e.1) in LoadEdges(sys, s.pts, e.0);
      }
      forall e, v | e in sys.store && v in s.pts[e.1] ensures v == e.0 || (e.0, v) in s.copy {
        assert MetAt(sys, s, e.0);
        assert v == e.0 || (e.0, v) in StoreEdges(sys, s.pts, e.0);
      }
    }
  }

  /** A pass ends where it began iff it began at a closed state. */
  lemma PassAddsNothingIffClosed(sys: System, rs: seq<Run>)
    requires WfSystem(sys) && IsRun(sys, rs) && IsStart(sys, rs[0]) && Last(rs).queue == []
    ensures Last(rs).facts == rs[0].facts <==> Closed(sys, rs[0].facts)
  {
    ClosedIffMetEverywhere(sys, rs[0].facts);
    IdlePrefix(sys, rs);
  }

  /** Along a run the facts stay put exactly while only met nodes are popped. */
  lemma {:induction false} IdlePrefix(sys: System, rs: seq<Run>)
    requires WfSystem(sys) && IsRun(sys, rs) && IsStart(sys, rs[0])
    ensures Last(rs).facts == rs[0].facts ==> MetExcept(sys, rs[0].facts, Last(rs).queue)
    ensures MetExcept(sys, rs[0].facts, []) ==> Last(rs).facts == rs[0].facts
  {
    if |rs| > 1 {
      IdlePrefix(sys, Front(rs));
      RunGrows(sys, Front(rs));
      var r, r' := Last(Front(rs)), Last(rs);
      StepWf(sys, r, r');
      ProcessIdleIffMet(sys, r.facts, r.queue[0]);
      if r'.facts == rs[0].facts {
        BelowBothWays(r.facts, r'.facts);
        assert forall x :: x in r.queue ==> x == r.queue[0] || x in r.queue[1..];
      }
    }
  }

  lemma BelowBothWays(s: Facts, t: Facts)
    ensures Below(s, t) && Below(t, s) ==> s == t
  {
    if Below(s, t) && Below(t, s) {
      assert forall i :: 0 <= i < |s.pts| ==> s.pts[i] == t.pts[i];
      assert s.pts == t.pts;
    }
  }

  // ----- termination -----

  /** What is still missing: facts tagged 0, copy edges tagged 1. */
  ghost function Missing(n: nat, s: Facts): set<(nat, nat, nat)>
    requires |s.pts| == n
  {
    (set i: nat, v: nat | i < n && v < n && v !in s.pts[i] :: (0, i, v))
    + (set a: nat, b: nat | a < n && b < n && (a, b) !in s.copy :: (1, a, b))
  }

  lemma MissingShrinks(n: nat, s: Facts, t: Facts)
    requires WfFacts(n, s) && WfFacts(n, t) && Below(s, t) && s != t
    ensures Missing(n, t) < Missing(n, s)
  {
    assert Missing(n, t) <= Missing(n, s);
    if t.copy != s.copy {
      var e :| e in t.copy && e !in s.copy;
      assert (1, e.0, e.1) in Missing(n, s) && (1, e.0, e.1) !in Missing(n, t);
    } else {
      var i :| 0 <= i < n && t.pts[i] != s.pts[i];
      var v :| v in t.pts[i] && v !in s.pts[i];
      assert (0, i, v) in Missing(n, s) && (0, i, v) !in Missing(n, t);
    }
  }

  /** Every step either adds a fact or an edge, or only shortens the queue. */
  lemma StepDecreases(sys: System, r: Run, r': Run)
    requires WfSystem(sys) && WfRun(sys, r) && Step(sys, r, r')
    ensures WfRun(sys, r')
    ensures || Missing(sys.n, r'.facts) < Missing(sys.n, r.facts)
            || (r'.facts == r.facts && |r'.queue| < |r.queue|)
  {
    StepWf(sys, r, r');
    if r'.facts == r.facts {
      IdleStepPushesNothing(sys, r.facts, r.queue[0]);
      QueueElements(r.queue[1..], r'.queue, Pushed(sys, r.facts, r.queue[0]));
    } else {
      MissingShrinks(sys.n, r.facts, r'.facts);
    }
  }

  lemma IdleStepPushesNothing(sys: System, s: Facts, a: nat)
    requires WfSystem(sys) && WfFacts(sys.n, s) && a < sys.n && Process(sys, s, a) == s
    ensures Pushed(sys, s, a) == {}
  {
    ProcessIdleIffMet(sys, s, a);
    assert forall b :: b in Targets(s.copy, a) ==> s.pts[a] <= s.pts[b];
  }

  // ----- how solving begins -----

  ghost function InitialAt(sys: System, x: nat): set<nat>
    requires WfSystem(sys)
  {
    set e | e in sys.addr && e.1 == x :: e.0
  }

  /** The facts before the first run: what addr_of gave, and the given copies. */
  ghost function Initial(sys: System): Facts
    requires WfSystem(sys)
  {
    Facts(seq(sys.n, i requires 0 <= i < sys.n => InitialAt(sys, i)), sys.copy)
  }

  lemma InitialReady(sys: System)
    requires WfSystem(sys)
    ensures Prepared(sys, Initial(sys)) && Sound(sys, Initial(sys))
  {
  }

  /** Every run of the solver on a new graph begins with all nodes in the order of their numbers. */
  ghost predicate IsFirstRun(sys: System, rs: seq<Run>)
    requires WfSystem(sys)
  {
    IsRun(sys, rs) && rs[0] == Run(Initial(sys), AllNodes(sys.n))
  }

  lemma FirstRunStarts(sys: System, rs: seq<Run>)
    requires WfSystem(sys) && IsFirstRun(sys, rs)
    ensures IsStart(sys, rs[0]) && Sound(sys, rs[0].facts)
  {
    InitialReady(sys);
  }

  /** All that a finished run promises. */
  lemma RunOutcome(sys: System, rs: seq<Run>)
    requires WfSystem(sys) && IsRun(sys, rs) && IsStart(sys, rs[0]) && Last(rs).queue == []
    ensures CopyClosed(Last(rs).facts.pts, Last(rs).facts.copy)
    ensures LoadClosed(sys, Last(rs).facts)
    ensures Sound(sys, rs[0].facts) ==>
      && Sound(sys, Last(rs).facts)
      && (IsLeast(sys, Last(rs).facts) <==> StoreClosed(sys, Last(rs).facts))
    ensures Last(rs).facts == rs[0].facts <==> Closed(sys, rs[0].facts)
  {
    RunExit(sys, rs);
    PassAddsNothingIffClosed(sys, rs);
    if Sound(sys, rs[0].facts) {
      RunSound(sys, rs);
      ExitIsLeastIffStoresMet(sys, rs);
    }
  }

  lemma ExtendRun(sys: System, rs: seq<Run>, r: Run)
    requires WfSystem(sys) && IsRun(sys, rs) && Step(sys, Last(rs), r)
    ensures IsRun(sys, rs + [r])
  {
    assert Front(rs + [r]) == rs;
    StepWf(sys, Last(rs), r);
  }

  // ----- the solver itself -----

  /** The solver: the points-to sets and the copy edges are updated in place, the given
      constraints never change. */
  class Andersen {
    const sys: System
    var pts: seq<set<nat>>
    var copy: set<Edge>

    ghost function State(): Facts
      reads this
    {
      Facts(pts, copy)
    }

    ghost predicate Valid()
      reads this
    {
      WfSystem(sys) && Prepared(sys, State())
    }

    constructor (sys: System)
      requires WfSystem(sys)
      ensures Valid() && this.sys == sys && State() == Initial(sys)
    {
      this.sys := sys;
      pts := seq(sys.n, i requires 0 <= i < sys.n => set e | e in sys.addr && e.1 == i :: e.0);
      copy := sys.copy;
    }

    /** Adding a copy edge: a self edge is refused, and the result says whether the edge is new. */
    method AddCopy(src: nat, dst: nat) returns (isNew: bool)
      modifies this`copy
      ensures copy == if src == dst then old(copy) else old(copy) + {(src, dst)}
      ensures isNew <==> copy != old(copy)
    {
      if src == dst {
        return false;
      }
      isNew := (src, dst) !in copy;
      copy := copy + {(src, dst)};
      assert isNew ==> (src, dst) in copy && (src, dst) !in old(copy);
    }

    /** Propagation along one copy edge; true iff the target grew. */
    method ProcessCopy(src: nat, dst: nat) returns (grew: bool)
      requires src < |pts| && dst < |pts|
      modifies this`pts
      ensures pts == old(pts)[dst := old(pts)[dst] + old(pts)[src]]
      ensures grew <==> !(old(pts)[src] <= old(pts)[dst])
    {
      grew := !(pts[src] <= pts[dst]);
      pts := pts[dst := pts[dst] + pts[src]];
    }

    method ProcessLoad(src: nat, dst: nat) returns (changed: bool)
      requires src < |pts|
      modifies this`copy
      ensures copy == old(copy) + set v | v in pts[src] && v != dst :: (v, dst)
      ensures changed <==> copy != old(copy)
    {
      changed := false;
      var todo := pts[src];
      while todo != {}
        invariant todo <= pts[src]
        invariant copy == old(copy) + set v | v in pts[src] - todo && v != dst :: (v, dst)
        invariant changed <==> copy != old(copy)
        decreases todo
      {
        var v :| v in todo;
        ghost var before := copy;
        var isNew := AddCopy(v, dst);
        changed := changed || isNew;
        todo := todo - {v};
        assert old(copy) <= before <= copy;
      }
      assert pts[src] - todo == pts[src];
    }

    method ProcessStore(src: nat, dst: nat) returns (changed: bool)
      requires dst < |pts|
      modifies this`copy
      ensures copy == old(copy) + set v | v in pts[dst] && v != src :: (src, v)
      ensures changed <==> copy != old(copy)
    {
      changed := false;
      var todo := pts[dst];
      while todo != {}
        invariant todo <= pts[dst]
        invariant copy == old(copy) + set v | v in pts[dst] - todo && v != src :: (src, v)
        invariant changed <==> copy != old(copy)
        decreases todo
      {
        var v :| v in todo;
        ghost var before := copy;
        var isNew := AddCopy(src, v);
        changed := changed || isNew;
        todo := todo - {v};
        assert old(copy) <= before <= copy;
      }
      assert pts[dst] - todo == pts[dst];
    }

    /** The addr_of edges of a node: nothing to do, the facts are there already. */
    method ProcessAddrOfs(src: nat)
      requires Valid()
    {
      var todo := Targets(sys.addr, src);
      while todo != {}
        invariant todo <= Targets(sys.addr, src)
        decreases todo
      {
        var dst :| dst in todo;
        assert (src, dst) in sys.addr;
        assert src in pts[dst];
        todo := todo - {dst};
      }
    }

    /** The copy edges of a node, pushing each target that grew. */
    method ProcessCopies(src: nat) returns (pushes: seq<nat>)
      requires Valid() && src < sys.n
      modifies this`pts
      ensures pts == AfterCopies(old(pts), copy, src)
      ensures SameElements(pushes, set b | b in Targets(copy, src) && b < sys.n && !(old(pts)[src] <= old(pts)[b]))
    {
      pushes := [];
      ghost var grown := set b | b in Targets(copy, src) && b < sys.n && !(pts[src] <= pts[b]);
      var todo := Targets(copy, src);
      while todo != {}
        invariant todo <= Targets(copy, src)
        invariant |pts| == sys.n
        invariant forall i :: 0 <= i < sys.n ==>
          pts[i] == if i in Targets(copy, src) && i !in todo then old(pts)[i] + old(pts)[src] else old(pts)[i]
        invariant SameElements(pushes, grown - todo)
        decreases todo
      {
        var dst :| dst in todo;
        assert (src, dst) in copy;
        assert pts[dst] == old(pts)[dst] && pts[src] == old(pts)[src];
        var grew := ProcessCopy(src, dst);
        todo := todo - {dst};
        if grew {
          assert grown - todo == grown - (todo + {dst}) + {dst};
          pushes := pushes + [dst];
        } else {
          assert grown - todo == grown - (todo + {dst});
        }
      }
      assert grown - todo == grown;
      assert pts == AfterCopies(old(pts), copy, src) by {
        assert forall i :: i in Targets(copy, src) <==> (src, i) in copy;
      }
    }

    method ProcessStores(src: nat) returns (pushes: seq<nat>)
      requires Valid() && src < sys.n
      modifies this`copy
      ensures copy == old(copy) + StoreEdges(sys, pts, src)
      ensures SameElements(pushes, if StoreEdges(sys, pts, src) <= old(copy) then {} else {src})
    {
      pushes := [];
      var todo := Targets(sys.store, src);
      ghost var done: set<nat> := {};
      while todo != {}
        invariant todo <= Targets(sys.store, src) && done == Targets(sys.store, src) - todo
        invariant copy == old(copy) + set dst, v | dst in done && dst < sys.n && v in pts[dst] && v != src :: (src, v)
        invariant SameElements(pushes, if copy == old(copy) then {} else {src})
        decreases todo
      {
        var dst :| dst in todo;
        assert (src, dst) in sys.store;
        ghost var before := copy;
        var changed := ProcessStore(src, dst);
        todo, done := todo - {dst}, done + {dst};
        assert old(copy) <= before <= copy;
        if changed {
          pushes := pushes + [src];
        }
      }
      assert StoreEdges(sys, pts, src)
          == set dst, v | dst in done && dst < sys.n && v in pts[dst] && v != src :: (src, v) by {
        assert forall dst :: dst in done <==> (src, dst) in sys.store;
      }
    }

    /** The load edges of a node; a load that adds an edge pushes everything `src` points to. */
    method ProcessLoads(src: nat) returns (pushes: seq<nat>)
      requires Valid() && src < sys.n
      modifies this`copy
      ensures copy == old(copy) + LoadEdges(sys, pts, src)
      ensures SameElements(pushes, if LoadEdges(sys, pts, src) <= old(copy) then {} else pts[src])
    {
      pushes := [];
      var todo := Targets(sys.load, src);
      ghost var done: set<nat> := {};
      while todo != {}
        invariant todo <= Targets(sys.load, src) && done == Targets(sys.load, src) - todo
        invariant copy == old(copy) + set dst, v | dst in done && v in pts[src] && v != dst :: (v, dst)
        invariant SameElements(pushes, if copy == old(copy) then {} else pts[src])
        decreases todo
      {
        var dst :| dst in todo;
        ghost var before := copy;
        var changed := ProcessLoad(src, dst);
        todo, done := todo - {dst}, done + {dst};
        assert old(copy) <= before <= copy;
        if changed {
          var all := SetToSeq(pts[src]);
          pushes := pushes + all;
        }
      }
      assert LoadEdges(sys, pts, src) == set dst, v | dst in done && v in pts[src] && v != dst :: (v, dst) by {
        assert forall dst :: dst in done <==> (src, dst) in sys.load;
      }
    }

    /** One pop: the edges of `src`, addr_of first, then copies, stores and loads. */
    method ProcessNode(src: nat, workList: seq<nat>) returns (workList': seq<nat>)
      requires Valid() && src < sys.n
      requires forall i :: 0 <= i < |workList| ==> workList[i] < sys.n
      modifies this
      ensures Valid()
      ensures Step(sys, Run(old(State()), [src] + workList), Run(State(), workList'))
    {
      ProcessAddrOfs(src);
      var p1 := ProcessCopies(src);
      var p2 := ProcessStores(src);
      var p3 := ProcessLoads(src);
      workList' := workList + p1 + p2 + p3;
      ProcessWf(sys, old(State()), src);
      StepFromPushes(sys, old(State()), src, workList, p1, p2, p3);
    }

    /** Solving until the worklist is empty; the ghost result is the whole run. */
    method RunSolver() returns (ghost run: seq<Run>)
      requires Valid()
      modifies this
      ensures Valid()
      ensures IsRun(sys, run) && IsStart(sys, run[0]) && run[0] == Run(old(State()), AllNodes(sys.n))
      ensures Last(run) == Run(State(), [])
      ensures CopyClosed(pts, copy) && LoadClosed(sys, State())
      ensures Sound(sys, old(State())) ==> Sound(sys, State())
      ensures Sound(sys, old(State())) ==> (IsLeast(sys, State()) <==> StoreClosed(sys, State()))
      ensures State() == old(State()) <==> Closed(sys, old(State()))
    {
      hide Step, CopyClosed, LoadClosed, StoreClosed, Sound, IsLeast, Closed, Missing;
      var workList := AllNodes(sys.n);
      run := [Run(State(), workList)];
      while workList != []
        invariant Valid()
        invariant IsRun(sys, run) && Last(run) == Run(State(), workList)
        invariant IsStart(sys, run[0]) && run[0] == Run(old(State()), AllNodes(sys.n))
        decreases Missing(sys.n, State()), |workList|
      {
        ghost var r := Run(State(), workList);
        var curNode := workList[0];
        workList := workList[1..];
        assert [curNode] + workList == r.queue;
        workList := ProcessNode(curNode, workList);
        StepDecreases(sys, r, Run(State(), workList));
        ExtendRun(sys, run, Run(State(), workList));
        run := run + [Run(State(), workList)];
      }
      RunOutcome(sys, run);
    }
  }
}
