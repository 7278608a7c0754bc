/** When the worklist solver meets its stores (include/aser/PointerAnalysis/Solver/Andersen.h).

    A store is carried out when its source is popped, never when its pointer grows.  If the pointers
    of all stores are fed in order, a source that was pushed at all is popped again after its
    pointers are complete; only a source popped once, too early, misses an edge. */
module AndersenExact {
  import opened AndersenSolver
  import opened Constraints
  import opened FirstPass
  import opened Lists

  // ----- conditions on the system -----

  /** The pointers of `a`'s stores are fed in order. */
  ghost predicate PointersFed(sys: System, a: nat)
    requires WfSystem(sys)
  {
    forall e :: e in sys.store && e.0 == a ==> Fed(sys, e.1)
  }

  ghost predicate AllPointersFed(sys: System)
    requires WfSystem(sys)
  {
    forall e :: e in sys.store ==> Fed(sys, e.1)
  }

  ghost predicate SourcesFed(sys: System)
    requires WfSystem(sys)
  {
    forall e :: e in sys.store ==> Fed(sys, e.0)
  }

  /** No source of a store holds anything before solving, as in every graph that is built from a
      program, where only anonymous nodes do. */
  ghost predicate SourcesStartEmpty(sys: System)
    requires WfSystem(sys)
  {
    forall e :: e in sys.store ==> InitialAt(sys, e.0) == {}
  }

  /** `a` needs no new copy edge to any of `vs`. */
  ghost predicate Linked(sys: System, a: nat, vs: set<nat>) {
    forall v :: v in vs ==> v == a || (a, v) in sys.copy
  }

  /** What the pointers of `a`'s stores hold when the first pass comes to `a` asks for no new edge. */
  ghost predicate NothingEarly(sys: System, a: nat)
    requires WfSystem(sys)
  {
    forall e :: e in sys.store && e.0 == a ==> Linked(sys, a, Before(sys, e.1, a + 1))
  }

  /** Nor does anything they ever hold. */
  ghost predicate NothingAtAll(sys: System, a: nat)
    requires WfSystem(sys)
  {
    forall e :: e in sys.store && e.0 == a ==> Linked(sys, a, Before(sys, e.1, sys.n))
  }

  /** A given copy brings something to `a`. */
  ghost predicate Receives(sys: System, a: nat)
    requires WfSystem(sys)
  {
    exists e :: e in sys.copy && e.1 == a && !(Before(sys, e.0, e.0) <= InitialAt(sys, a))
  }

  /** The first pass pushes `a`, so that it is popped a second time. */
  ghost predicate PoppedAgain(sys: System, a: nat)
    requires WfSystem(sys)
  {
    Receives(sys, a) || !NothingEarly(sys, a)
  }

  ghost predicate NoSourceTooEarly(sys: System)
    requires WfSystem(sys)
  {
    forall e :: e in sys.store ==> PoppedAgain(sys, e.0) || NothingAtAll(sys, e.0)
  }

  // ----- the invariant of a source -----

  ghost predicate StoresMetAt(sys: System, s: Facts, a: nat)
    requires WfSystem(sys) && |s.pts| == sys.n
  {
    StoreEdges(sys, s.pts, a) <= s.copy
  }

  /** `a` holds what it held at first; if it is no object, it has no new edge, and if it has been
      popped, it needed none. */
  ghost predicate Untouched(sys: System, s: Facts, k: nat, a: nat)
    requires WfSystem(sys) && |s.pts| == sys.n && a < sys.n
  {
    && s.pts[a] == InitialAt(sys, a)
    && (a !in Objects(sys) ==> (forall v: nat :: (a, v) in s.copy ==> (a, v) in sys.copy) && (a < k ==> NothingEarly(sys, a)))
  }

  /** A source waits, or has been popped when its pointers were complete, or nothing has come of it yet. */
  ghost predicate Served(sys: System, r: Run, k: nat, a: nat)
    requires WfSystem(sys) && Flow(sys, r, k) && a < sys.n
  {
    || Waits(sys.n, r.queue, k, a)
    || (k == sys.n && StoresMetAt(sys, r.facts, a))
    || Untouched(sys, r.facts, k, a)
  }

  lemma GrownIsPushed(sys: System, s: Facts, a: nat, x: nat)
    requires WfSystem(sys) && WfFacts(sys.n, s) && a < sys.n && x < sys.n
    requires Process(sys, s, a).pts[x] != s.pts[x]
    ensures x in Pushed(sys, s, a)
  {
    assert (a, x) in s.copy && !(s.pts[a] <= s.pts[x]);
    assert x in Targets(s.copy, a) by {
      assert (a, x).0 == a;
    }
  }

  lemma PushedWaits(sys: System, r: Run, r': Run, k: nat, x: nat)
    requires WfSystem(sys) && WfRun(sys, r) && PassAt(sys.n, r.queue, k) && Step(sys, r, r')
    ensures PassAt(sys.n, r'.queue, Next(sys.n, k))
    ensures x in Pushed(sys, r.facts, r.queue[0]) ==> Waits(sys.n, r'.queue, Next(sys.n, k), x)
    ensures Waits(sys.n, r.queue, k, x) && (k < sys.n || x != r.queue[0]) ==> Waits(sys.n, r'.queue, Next(sys.n, k), x)
    ensures Waits(sys.n, r'.queue, Next(sys.n, k), x) ==>
      x in Pushed(sys, r.facts, r.queue[0]) || Waits(sys.n, r.queue, k, x)
  {
    hide Step, Process, Pushed;
    StepKeepsPass(sys, r, r', k);
    StepParts(sys, r, r');
    var rest := if k < sys.n then r.queue[sys.n - k..] else r.queue[1..];
    var pushes := r'.queue[|r.queue| - 1..];
    var pushed := Pushed(sys, r.facts, r.queue[0]);
    JoinedElements(rest, pushes, pushed, x);
    if k == sys.n {
      assert r.queue[sys.n - k..] == r.queue == [r.queue[0]] + rest;
    }
  }

  lemma StepParts(sys: System, r: Run, r': Run)
    requires WfSystem(sys) && WfRun(sys, r) && Step(sys, r, r')
    ensures r.queue != [] && r'.facts == Process(sys, r.facts, r.queue[0]) && |r'.queue| >= |r.queue| - 1
    ensures SameElements(r'.queue[|r.queue| - 1..], Pushed(sys, r.facts, r.queue[0]))
  {
  }

  lemma JoinedElements(rest: seq<nat>, pushes: seq<nat>, pushed: set<nat>, x: nat)
    requires SameElements(pushes, pushed)
    ensures x in rest + pushes <==> x in rest || x in pushed
  {
    assert x in rest + pushes <==> x in rest || x in pushes;
  }

  /** Once the first pass is over, the pointers of the stores do not change. */
  lemma MetStaysMet(sys: System, r: Run, r': Run, a: nat)
    requires WfSystem(sys) && PointersFed(sys, a) && Flow(sys, r, sys.n) && Flow(sys, r', sys.n)
    requires Below(r.facts, r'.facts) && StoresMetAt(sys, r.facts, a)
    ensures StoresMetAt(sys, r'.facts, a)
  {
    assert forall e :: e in sys.store && e.0 == a ==> r'.facts.pts[e.1] == r.facts.pts[e.1];
    forall c | c in StoreEdges(sys, r'.facts.pts, a) ensures c in r'.facts.copy {
      var e, v :| e in sys.store && e.0 == a && v in r'.facts.pts[e.1] && v != a && c == (a, v);
      assert c in StoreEdges(sys, r.facts.pts, a);
    }
  }

  lemma UntouchedStays(sys: System, r: Run, r': Run, k: nat, x: nat)
    requires WfSystem(sys) && PointersFed(sys, x) && Flow(sys, r, k) && Step(sys, r, r') && Flow(sys, r', Next(sys.n, k))
    requires x < sys.n && Untouched(sys, r.facts, k, x) && x !in Pushed(sys, r.facts, r.queue[0])
    ensures Untouched(sys, r'.facts, Next(sys.n, k), x)
  {
    StepKeepsPass(sys, r, r', k);
    var a := r.queue[0];
    if r'.facts.pts[x] != r.facts.pts[x] {
      GrownIsPushed(sys, r.facts, a, x);
    }
    if x !in Objects(sys) {
      NewEdgesFrom(sys, r.facts, a, x);
      PushedIff(sys, r.facts, a, x);
      if x == a && k < sys.n {
        PoppedInOrder(sys, r, r', k);
      }
    }
  }

  /** The first pass pops `k`: if its stores add nothing, nothing was early. */
  lemma PoppedInOrder(sys: System, r: Run, r': Run, k: nat)
    requires WfSystem(sys) && PointersFed(sys, k) && Flow(sys, r, k) && Step(sys, r, r') && Flow(sys, r', k + 1) && k < sys.n
    requires r.queue[0] == k && StoreEdges(sys, r'.facts.pts, k) <= r.facts.copy
    requires forall v: nat :: (k, v) in r.facts.copy ==> (k, v) in sys.copy
    ensures NothingEarly(sys, k)
  {
    forall e, v | e in sys.store && e.0 == k && v in Before(sys, e.1, k + 1)
      ensures v == k || (k, v) in sys.copy
    {
      assert v in r'.facts.pts[e.1];
      assert v == k || (k, v) in StoreEdges(sys, r'.facts.pts, k);
    }
  }

  lemma StepServes(sys: System, r: Run, r': Run, k: nat, x: nat)
    requires WfSystem(sys) && PointersFed(sys, x) && Flow(sys, r, k) && Step(sys, r, r') && Flow(sys, r', Next(sys.n, k))
    requires x < sys.n && Served(sys, r, k, x)
    ensures Served(sys, r', Next(sys.n, k), x)
  {
    hide HoldBefore, OnlyGiven, ObjectsOnly, PointersFed, Untouched, StoresMetAt, Pushed, Process;
    StepWf(sys, r, r');
    PushedWaits(sys, r, r', k, x);
    if Waits(sys.n, r'.queue, Next(sys.n, k), x) {
    } else if Waits(sys.n, r.queue, k, x) {
      PoppedMeets(sys, r, r', x);
    } else if Untouched(sys, r.facts, k, x) {
      UntouchedStays(sys, r, r', k, x);
    } else {
      MetStaysMet(sys, r, r', x);
    }
  }

  lemma PoppedMeets(sys: System, r: Run, r': Run, a: nat)
    requires WfSystem(sys) && WfRun(sys, r) && Step(sys, r, r') && r.queue[0] == a
    ensures WfRun(sys, r') && StoresMetAt(sys, r'.facts, a)
  {
    StepWf(sys, r, r');
  }

  lemma {:induction false} RunServes(sys: System, rs: seq<Run>, x: nat)
    requires WfSystem(sys) && PointersFed(sys, x) && IsFirstRun(sys, rs) && x < sys.n
    ensures Flow(sys, Last(rs), Pass(sys.n, rs)) && Served(sys, Last(rs), Pass(sys.n, rs), x)
  {
    hide Flow, Step, PointersFed;
    RunFlow(sys, rs);
    if |rs| > 1 {
      RunServes(sys, Front(rs), x);
      StepServes(sys, Last(Front(rs)), Last(rs), Pass(sys.n, Front(rs)), x);
    }
  }

  // ----- what a finished run has -----

  /** A source at the end: all its stores are met, or it has stayed as it was. */
  lemma EndServes(sys: System, rs: seq<Run>, x: nat)
    requires WfSystem(sys) && PointersFed(sys, x) && IsFirstRun(sys, rs) && Last(rs).queue == [] && x < sys.n
    ensures WfFacts(sys.n, Last(rs).facts)
    ensures StoresMetAt(sys, Last(rs).facts, x) || Untouched(sys, Last(rs).facts, sys.n, x)
  {
    EndOfFlow(sys, rs);
    RunServes(sys, rs, x);
  }

  lemma EndStoreIncludes(sys: System, rs: seq<Run>, e: Edge, v: nat)
    requires WfSystem(sys) && PointersFed(sys, e.0) && InitialAt(sys, e.0) == {} && IsFirstRun(sys, rs) && Last(rs).queue == []
    requires e in sys.store && WfFacts(sys.n, Last(rs).facts) && v in Last(rs).facts.pts[e.1]
    requires CopyClosed(Last(rs).facts.pts, Last(rs).facts.copy)
    ensures Last(rs).facts.pts[e.0] <= Last(rs).facts.pts[v]
  {
    var s := Last(rs).facts;
    EndServes(sys, rs, e.0);
    if StoresMetAt(sys, s, e.0) && v != e.0 {
      assert (e.0, v) in StoreEdges(sys, s.pts, e.0);
      assert s.pts[(e.0, v).0] <= s.pts[(e.0, v).1];
    }
  }

  /** A finished run has the least solution if its store constraints hold between points-to sets. */
  lemma LeastIfStoresInclude(sys: System, rs: seq<Run>)
    requires WfSystem(sys) && IsFirstRun(sys, rs) && Last(rs).queue == []
    requires WfFacts(sys.n, Last(rs).facts)
    requires forall e, v :: e in sys.store && v in Last(rs).facts.pts[e.1] ==>
      Last(rs).facts.pts[e.0] <= Last(rs).facts.pts[v]
    ensures IsLeastPts(sys, Last(rs).facts.pts)
  {
    var s := Last(rs).facts;
    FirstRunStarts(sys, rs);
    RunExit(sys, rs);
    RunSound(sys, rs);
    SoundIsBelow(sys, s);
    forall e, v | e in sys.load && v in s.pts[e.0] ensures s.pts[v] <= s.pts[e.1] {
      assert v == e.1 || (v, e.1) in s.copy;
    }
  }

  /** On graphs built from programs, pointers fed in order are enough: the points-to sets are the
      least solution. */
  lemma ExactWhenPointersFed(sys: System, rs: seq<Run>)
    requires WfSystem(sys) && AllPointersFed(sys) && SourcesStartEmpty(sys) && IsFirstRun(sys, rs) && Last(rs).queue == []
    ensures IsLeastPts(sys, Last(rs).facts.pts)
  {
    var s := Last(rs).facts;
    FirstRunStarts(sys, rs);
    RunExit(sys, rs);
    forall e, v | e in sys.store && v in s.pts[e.1] ensures s.pts[e.0] <= s.pts[v] {
      EndStoreIncludes(sys, rs, e, v);
    }
    LeastIfStoresInclude(sys, rs);
  }

  lemma SoundIsBelow(sys: System, s: Facts)
    requires WfSystem(sys) && Sound(sys, s) && |s.pts| == sys.n
    ensures forall t :: Solves(sys, t) ==> forall i :: 0 <= i < sys.n ==> s.pts[i] <= t[i]
  {
    forall t | Solves(sys, t) ensures forall i :: 0 <= i < sys.n ==> s.pts[i] <= t[i] {
      SolvesIffClosed(sys, t);
      assert Below(s, Facts(t, Justified(sys, t)));
    }
  }

  // ----- a source that is popped once -----

  ghost predicate Asleep(sys: System, r: Run, k: nat, a: nat)
    requires WfSystem(sys) && Flow(sys, r, k) && a < sys.n
  {
    !Waits(sys.n, r.queue, k, a) && Untouched(sys, r.facts, k, a)
  }

  lemma StaysAsleep(sys: System, r: Run, r': Run, k: nat, a: nat)
    requires WfSystem(sys) && PointersFed(sys, a) && Flow(sys, r, k) && Step(sys, r, r') && Flow(sys, r', Next(sys.n, k))
    requires a < sys.n && Fed(sys, a) && !PoppedAgain(sys, a) && Asleep(sys, r, k, a)
    ensures Asleep(sys, r', Next(sys.n, k), a)
  {
    StepKeepsPass(sys, r, r', k);
    NotPushed(sys, r, r', k, a);
    PushedWaits(sys, r, r', k, a);
    UntouchedStays(sys, r, r', k, a);
  }

  lemma NotPushed(sys: System, r: Run, r': Run, k: nat, a: nat)
    requires WfSystem(sys) && PointersFed(sys, a) && Flow(sys, r, k) && Step(sys, r, r') && Flow(sys, r', Next(sys.n, k))
    requires a < sys.n && Fed(sys, a) && !PoppedAgain(sys, a) && Asleep(sys, r, k, a)
    requires k < sys.n ==> r.queue[0] == k
    ensures a !in Pushed(sys, r.facts, r.queue[0])
  {
    hide Step, Process, Pushed, StoreEdges, PassAt, HoldBefore, Waits, PointersFed, PoppedAgain;
    StepParts(sys, r, r');
    PushedIff(sys, r.facts, r.queue[0], a);
    NothingReceived(sys, r.facts, r'.facts, k, a);
    if r.queue[0] == a {
      AsleepIsFirst(sys, r, k, a);
      NothingAdded(sys, r.facts, r'.facts, a);
    }
  }

  lemma AsleepIsFirst(sys: System, r: Run, k: nat, a: nat)
    requires WfSystem(sys) && Flow(sys, r, k) && a < sys.n && Asleep(sys, r, k, a) && r.queue != [] && r.queue[0] == a
    ensures k < sys.n
  {
    assert r.queue[0..] == r.queue;
  }

  lemma NothingReceived(sys: System, s: Facts, s': Facts, k: nat, a: nat)
    requires WfSystem(sys) && |s.pts| == |s'.pts| == sys.n && a < sys.n && Fed(sys, a) && !PoppedAgain(sys, a)
    requires HoldBefore(sys, s.pts, k) && HoldBefore(sys, s'.pts, Next(sys.n, k)) && s.pts[a] == InitialAt(sys, a)
    ensures s'.pts[a] == s.pts[a]
  {
    BeforeNext(sys, a, k);
    assert (k, a) in sys.copy ==> Before(sys, (k, a).0, (k, a).0) <= InitialAt(sys, (k, a).1);
  }

  lemma NothingAdded(sys: System, s: Facts, s': Facts, a: nat)
    requires WfSystem(sys) && PointersFed(sys, a) && |s'.pts| == sys.n && a < sys.n && !PoppedAgain(sys, a)
    requires HoldBefore(sys, s'.pts, a + 1) && sys.copy <= s.copy
    ensures StoreEdges(sys, s'.pts, a) <= s.copy
  {
    forall d | d in StoreEdges(sys, s'.pts, a) ensures d in s.copy {
      var e, v :| e in sys.store && e.0 == a && v in s'.pts[e.1] && v != a && d == (a, v);
      assert v in Before(sys, e.1, a + 1);
    }
  }

  lemma FirstAsleep(sys: System, r: Run, a: nat)
    requires WfSystem(sys) && r == Run(Initial(sys), AllNodes(sys.n)) && Flow(sys, r, 0) && a < sys.n
    ensures Asleep(sys, r, 0, a)
  {
  }

  lemma {:induction false} RunStaysAsleep(sys: System, rs: seq<Run>, a: nat)
    requires WfSystem(sys) && PointersFed(sys, a) && IsFirstRun(sys, rs) && a < sys.n && Fed(sys, a) && !PoppedAgain(sys, a)
    ensures Flow(sys, Last(rs), Pass(sys.n, rs)) && Asleep(sys, Last(rs), Pass(sys.n, rs), a)
  {
    hide Flow, Step, PointersFed, PoppedAgain, Fed, Untouched, Waits;
    RunFlow(sys, rs);
    if |rs| == 1 {
      FirstAsleep(sys, rs[0], a);
    } else {
      RunStaysAsleep(sys, Front(rs), a);
      StaysAsleep(sys, Last(Front(rs)), Last(rs), Pass(sys.n, Front(rs)), a);
    }
  }

  // ----- the exact condition -----

  lemma SourceMetIff(sys: System, rs: seq<Run>, a: nat)
    requires WfSystem(sys) && PointersFed(sys, a) && IsFirstRun(sys, rs) && Last(rs).queue == [] && a < sys.n && Fed(sys, a)
    ensures WfFacts(sys.n, Last(rs).facts)
    ensures StoresMetAt(sys, Last(rs).facts, a) <==> PoppedAgain(sys, a) || NothingAtAll(sys, a)
  {
    var s := Last(rs).facts;
    EndOfFlow(sys, rs);
    EndServes(sys, rs, a);
    if PoppedAgain(sys, a) {
      ReceivesMoves(sys, s, a);
    } else {
      RunStaysAsleep(sys, rs, a);
      AsleepMetIff(sys, s, a);
    }
  }

  lemma ReceivesMoves(sys: System, s: Facts, a: nat)
    requires WfSystem(sys) && WfFacts(sys.n, s) && HoldBefore(sys, s.pts, sys.n) && a < sys.n && Fed(sys, a)
    requires PoppedAgain(sys, a)
    ensures !Untouched(sys, s, sys.n, a)
  {
    if Receives(sys, a) {
      var e :| e in sys.copy && e.1 == a && !(Before(sys, e.0, e.0) <= InitialAt(sys, a));
      FedBefore(sys, e.0, a, sys.n);
    }
  }

  lemma AsleepMetIff(sys: System, s: Facts, a: nat)
    requires WfSystem(sys) && WfFacts(sys.n, s) && HoldBefore(sys, s.pts, sys.n) && a < sys.n && Fed(sys, a)
    requires PointersFed(sys, a) && sys.copy <= s.copy && Untouched(sys, s, sys.n, a)
    ensures StoresMetAt(sys, s, a) <==> NothingAtAll(sys, a)
  {
    forall e, v | e in sys.store && e.0 == a && v in s.pts[e.1] && v != a
      ensures (a, v) in StoreEdges(sys, s.pts, a)
    {
    }
    assert forall e :: e in sys.store && e.0 == a ==> s.pts[e.1] == Before(sys, e.1, sys.n);
  }

  /** Over fed pointers and sources, a finished run is the least closed state iff every source that
      ever needs a new edge is popped again after the first pass. */
  lemma ExactIffNoSourceTooEarly(sys: System, rs: seq<Run>)
    requires WfSystem(sys) && AllPointersFed(sys) && SourcesFed(sys) && IsFirstRun(sys, rs) && Last(rs).queue == []
    ensures IsLeast(sys, Last(rs).facts) <==> NoSourceTooEarly(sys)
  {
    FirstRunStarts(sys, rs);
    RunExit(sys, rs);
    ExitIsLeastIffStoresMet(sys, rs);
    forall e | e in sys.store
      ensures StoresMetAt(sys, Last(rs).facts, e.0) <==> PoppedAgain(sys, e.0) || NothingAtAll(sys, e.0)
    {
      SourceMetIff(sys, rs, e.0);
    }
    StoreClosedBySource(sys, Last(rs).facts);
  }

  lemma StoreClosedBySource(sys: System, s: Facts)
    requires WfSystem(sys) && WfFacts(sys.n, s)
    ensures StoreClosed(sys, s) <==> forall e :: e in sys.store ==> StoresMetAt(sys, s, e.0)
  {
    if forall e :: e in sys.store ==> StoresMetAt(sys, s, e.0) {
      forall e, v | e in sys.store && v in s.pts[e.1] ensures v == e.0 || (e.0, v) in s.copy {
        assert v == e.0 || (e.0, v) in StoreEdges(sys, s.pts, e.0);
      }
    }
  }

  /** In particular a source that receives nothing and stands before its pointer's facts loses them. */
  lemma FirstAndStillIsTooEarly(sys: System, e: Edge, v: nat)
    requires WfSystem(sys) && e in sys.store && v in Before(sys, e.1, sys.n) && v != e.0 && (e.0, v) !in sys.copy
    requires !Receives(sys, e.0) && forall d :: d in sys.store && d.0 == e.0 ==> Before(sys, d.1, e.0 + 1) == {}
    ensures !NoSourceTooEarly(sys)
  {
    assert !Linked(sys, e.0, Before(sys, e.1, sys.n));
  }
}
