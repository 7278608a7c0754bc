/** The first pass of the worklist solver (include/aser/PointerAnalysis/Solver/Andersen.h:65-79): the
    worklist begins with all nodes in the order of their numbers and is a queue, so every node is
    popped once in that order before any node is popped again.  For pointers that loads cannot reach
    and that are fed in this order, it says exactly what they hold at each moment. */
module FirstPass {
  import opened AndersenSolver
  import opened Constraints

  // ----- which pointers are fed in order -----

  /** Nothing but the given copies leads to `x`: it is no object and no load ends there. */
  ghost predicate Quiet(sys: System, x: nat)
    requires WfSystem(sys)
  {
    x !in Objects(sys) && forall e :: e in sys.load ==> e.1 != x
  }

  /** Everything `x` will ever hold is there when the first pass comes to `x`. */
  ghost predicate Forward(sys: System, x: nat)
    requires WfSystem(sys)
    decreases x
  {
    Quiet(sys, x) && forall y: nat :: (y, x) in sys.copy ==> y < x && Forward(sys, y)
  }

  /** Everything `x` will ever hold is there when the first pass ends. */
  ghost predicate Fed(sys: System, x: nat)
    requires WfSystem(sys)
  {
    Quiet(sys, x) && forall y: nat :: (y, x) in sys.copy ==> Forward(sys, y)
  }

  /** What a fed node holds when the first pass has come to `k`. */
  ghost function Before(sys: System, x: nat, k: nat): set<nat>
    requires WfSystem(sys)
    decreases k
  {
    InitialAt(sys, x) + set e, v | e in sys.copy && e.1 == x && e.0 < k && v in Before(sys, e.0, e.0) :: v
  }

  lemma BeforeGrows(sys: System, x: nat, k: nat, m: nat)
    requires WfSystem(sys) && k <= m
    ensures Before(sys, x, k) <= Before(sys, x, m)
  {
  }

  lemma BeforeNext(sys: System, x: nat, k: nat)
    requires WfSystem(sys)
    ensures Before(sys, x, k + 1) == Before(sys, x, k) + if (k, x) in sys.copy then Before(sys, k, k) else {}
  {
    forall v | v in Before(sys, x, k + 1) && v !in Before(sys, x, k)
      ensures (k, x) in sys.copy && v in Before(sys, k, k)
    {
      var e :| e in sys.copy && e.1 == x && e.0 < k + 1 && v in Before(sys, e.0, e.0);
      assert e == (k, x);
    }
    if (k, x) in sys.copy {
      forall v | v in Before(sys, k, k) ensures v in Before(sys, x, k + 1) {
        assert (k, x).1 == x;
      }
    }
  }

  lemma ForwardSettles(sys: System, x: nat, k: nat)
    requires WfSystem(sys) && Forward(sys, x) && x <= k
    ensures Before(sys, x, k) == Before(sys, x, x)
  {
    forall v | v in Before(sys, x, k) ensures v in Before(sys, x, x) {
      if v !in InitialAt(sys, x) {
        var e :| e in sys.copy && e.1 == x && e.0 < k && v in Before(sys, e.0, e.0);
        assert (e.0, x) in sys.copy;
      }
    }
    BeforeGrows(sys, x, x, k);
  }

  lemma FedBefore(sys: System, y: nat, x: nat, k: nat)
    requires WfSystem(sys) && (y, x) in sys.copy && y < k
    ensures Before(sys, y, y) <= Before(sys, x, k)
  {
    forall v | v in Before(sys, y, y) ensures v in Before(sys, x, k) {
      assert (y, x).1 == x;
    }
  }

  // ----- the invariant -----

  /** The queue still begins with the nodes from `k` on. */
  ghost predicate PassAt(n: nat, queue: seq<nat>, k: nat) {
    k <= n && n - k <= |queue| && forall i :: 0 <= i < n - k ==> queue[i] == k + i
  }

  /** `x` has been pushed and waits behind the first pass. */
  ghost predicate Waits(n: nat, queue: seq<nat>, k: nat, x: nat)
    requires PassAt(n, queue, k)
  {
    x in queue[n - k..]
  }

  ghost predicate OnlyGiven(sys: System, copy: set<Edge>)
    requires WfSystem(sys)
  {
    sys.copy <= copy && forall e :: e in copy && Quiet(sys, e.1) ==> e in sys.copy
  }

  ghost predicate ObjectsOnly(sys: System, pts: seq<set<nat>>)
    requires WfSystem(sys)
  {
    forall i :: 0 <= i < |pts| ==> pts[i] <= Objects(sys)
  }

  ghost predicate HoldBefore(sys: System, pts: seq<set<nat>>, k: nat)
    requires WfSystem(sys) && |pts| == sys.n
  {
    forall x: nat :: x < sys.n && Fed(sys, x) ==> pts[x] == Before(sys, x, k)
  }

  /** The state of a run in which the first pass has come to `k`. */
  ghost predicate Flow(sys: System, r: Run, k: nat)
    requires WfSystem(sys)
  {
    && WfRun(sys, r) && PassAt(sys.n, r.queue, k)
    && ObjectsOnly(sys, r.facts.pts) && OnlyGiven(sys, r.facts.copy) && HoldBefore(sys, r.facts.pts, k)
  }

  function Next(n: nat, k: nat): nat {
    if k < n then k + 1 else k
  }

  lemma ProcessKeepsGiven(sys: System, s: Facts, a: nat)
    requires WfSystem(sys) && WfFacts(sys.n, s) && a < sys.n
    requires ObjectsOnly(sys, s.pts) && OnlyGiven(sys, s.copy)
    ensures ObjectsOnly(sys, Process(sys, s, a).pts) && OnlyGiven(sys, Process(sys, s, a).copy)
  {
    var s' := Process(sys, s, a);
    forall c | c in LoadEdges(sys, s'.pts, a) ensures !Quiet(sys, c.1) {
      var e :| e in sys.load && e.1 == c.1;
    }
  }

  /** A fed node receives exactly what the next node of the first pass holds, and later nothing. */
  lemma ProcessFeeds(sys: System, s: Facts, a: nat, k: nat)
    requires WfSystem(sys) && WfFacts(sys.n, s) && a < sys.n && k <= sys.n && (k < sys.n ==> a == k)
    requires OnlyGiven(sys, s.copy) && HoldBefore(sys, s.pts, k)
    ensures HoldBefore(sys, Process(sys, s, a).pts, Next(sys.n, k))
  {
    forall x: nat | x < sys.n && Fed(sys, x) ensures Process(sys, s, a).pts[x] == Before(sys, x, Next(sys.n, k)) {
      NodeIsFed(sys, s, a, k, x);
    }
  }

  lemma NodeIsFed(sys: System, s: Facts, a: nat, k: nat, x: nat)
    requires WfSystem(sys) && WfFacts(sys.n, s) && a < sys.n && k <= sys.n && (k < sys.n ==> a == k)
    requires OnlyGiven(sys, s.copy) && HoldBefore(sys, s.pts, k) && x < sys.n && Fed(sys, x)
    ensures Process(sys, s, a).pts[x] == Before(sys, x, Next(sys.n, k))
  {
    assert (a, x) in s.copy <==> (a, x) in sys.copy by {
      assert (a, x).1 == x;
    }
    if (a, x) in sys.copy {
      assert Forward(sys, a) && Fed(sys, a);
      ForwardSettles(sys, a, if k < sys.n then k else sys.n);
      FedBefore(sys, a, x, Next(sys.n, k));
    }
    BeforeNext(sys, x, k);
  }

  lemma StepKeepsPass(sys: System, r: Run, r': Run, k: nat)
    requires WfSystem(sys) && WfRun(sys, r) && Step(sys, r, r') && PassAt(sys.n, r.queue, k)
    ensures PassAt(sys.n, r'.queue, Next(sys.n, k)) && (k < sys.n ==> r.queue[0] == k)
    ensures var rest := if k < sys.n then r.queue[sys.n - k..] else r.queue[1..];
      r'.queue[sys.n - Next(sys.n, k)..] == rest + r'.queue[|r.queue| - 1..]
  {
    hide Process, Pushed;
    var rest := r.queue[1..];
    var pushes := r'.queue[|r.queue| - 1..];
    assert r'.queue == rest + pushes;
    hide Step, WfRun;
    assert forall i :: 0 <= i < |rest| ==> rest[i] == r.queue[i + 1];
    if k < sys.n {
      assert rest[sys.n - k - 1..] == r.queue[sys.n - k..];
    }
  }

  lemma StepKeepsFlow(sys: System, r: Run, r': Run, k: nat)
    requires WfSystem(sys) && Flow(sys, r, k) && Step(sys, r, r')
    ensures Flow(sys, r', Next(sys.n, k))
  {
    StepWf(sys, r, r');
    StepKeepsPass(sys, r, r', k);
    ProcessKeepsGiven(sys, r.facts, r.queue[0]);
    ProcessFeeds(sys, r.facts, r.queue[0], k);
  }

  /** How far the first pass has come in the last state of a run. */
  function Pass(n: nat, rs: seq<Run>): nat
    requires rs != []
  {
    if |rs| - 1 < n then |rs| - 1 else n
  }

  lemma FirstFlow(sys: System)
    requires WfSystem(sys)
    ensures Flow(sys, Run(Initial(sys), AllNodes(sys.n)), 0)
  {
    var s := Initial(sys);
    forall x: nat | x < sys.n && Fed(sys, x) ensures s.pts[x] == Before(sys, x, 0) {
      assert Before(sys, x, 0) == InitialAt(sys, x) + {};
    }
    forall i | 0 <= i < sys.n ensures s.pts[i] <= Objects(sys) {
      forall v | v in s.pts[i] ensures v in Objects(sys) {
        assert (v, i) in sys.addr;
      }
    }
  }

  lemma {:induction false} RunFlow(sys: System, rs: seq<Run>)
    requires WfSystem(sys) && IsFirstRun(sys, rs)
    ensures Flow(sys, Last(rs), Pass(sys.n, rs))
  {
    hide Flow, Step;
    if |rs| == 1 {
      FirstFlow(sys);
    } else {
      RunFlow(sys, Front(rs));
      StepKeepsFlow(sys, Last(Front(rs)), Last(rs), Pass(sys.n, Front(rs)));
    }
  }

  /** When the run ends, a fed node holds what all its copy predecessors held in the first pass. */
  lemma EndOfFlow(sys: System, rs: seq<Run>)
    requires WfSystem(sys) && IsFirstRun(sys, rs) && Last(rs).queue == []
    ensures Pass(sys.n, rs) == sys.n && Flow(sys, Last(rs), sys.n)
  {
    RunFlow(sys, rs);
  }

  // ----- who is pushed -----

  /** A node that is no object waits after a step iff it waited and was not popped, or it grew, or a
      store of its own has added an edge. */
  lemma PushedIff(sys: System, s: Facts, a: nat, x: nat)
    requires WfSystem(sys) && WfFacts(sys.n, s) && a < sys.n && x < sys.n && ObjectsOnly(sys, s.pts) && x !in Objects(sys)
    ensures x in Pushed(sys, s, a) <==>
      || Process(sys, s, a).pts[x] != s.pts[x]
      || (x == a && !(StoreEdges(sys, Process(sys, s, a).pts, a) <= s.copy))
  {
    var s' := Process(sys, s, a);
    ProcessWf(sys, s, a);
    if s'.pts[x] != s.pts[x] {
      assert (a, x) in s.copy && !(s.pts[a] <= s.pts[x]);
      assert x in Targets(s.copy, a) by {
        assert (a, x).0 == a;
      }
    }
    if x in Targets(s.copy, a) && !(s.pts[a] <= s.pts[x]) {
      var e :| e in s.copy && e.0 == a && e.1 == x;
      assert e == (a, x);
      var v :| v in s.pts[a] && v !in s.pts[x];
      assert v in s'.pts[x];
    }
  }

  /** The new copy edges that leave a node that is no object are its own store edges. */
  lemma NewEdgesFrom(sys: System, s: Facts, a: nat, x: nat)
    requires WfSystem(sys) && WfFacts(sys.n, s) && a < sys.n && ObjectsOnly(sys, s.pts) && x !in Objects(sys)
    ensures forall v: nat :: (x, v) in Process(sys, s, a).copy && (x, v) !in s.copy ==>
      x == a && (x, v) in StoreEdges(sys, Process(sys, s, a).pts, a)
  {
    ProcessWf(sys, s, a);
  }
}
