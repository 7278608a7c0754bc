/** Stores that the worklist solver loses (include/aser/PointerAnalysis/Solver/Andersen.h:36-57).

    If a store's pointer is fed through nodes that stand before their own feeders, its facts come
    after the source of the store has been popped for the last time. */
module AndersenLate {
  import opened AndersenSolver
  import opened Constraints
  import opened AndersenExact
  import opened FirstPass

  // ----- the condition -----

  /** `z` holds nothing until, in the first pass, its turn is over and that of `a` has come. */
  ghost predicate FedFromBehind(sys: System, z: nat, a: nat)
    requires WfSystem(sys)
  {
    && Quiet(sys, z) && InitialAt(sys, z) == {}
    && (forall e :: e in sys.store ==> e.0 != z)
    && forall w: nat :: (w, z) in sys.copy ==> Forward(sys, w) && z < w && a <= w
  }

  /** The nodes that feed the pointers of `a`'s stores. */
  function Relays(sys: System, a: nat): set<nat> {
    set e, c | e in sys.store && e.0 == a && c in sys.copy && c.1 == e.1 :: c.0
  }

  /** All facts about the pointers of `a`'s stores come through such relays. */
  ghost predicate PopsTooEarly(sys: System, a: nat)
    requires WfSystem(sys)
  {
    && Forward(sys, a)
    && (forall e :: e in sys.store && e.0 == a ==>
          Quiet(sys, e.1) && InitialAt(sys, e.1) == {} && (a, e.1) !in sys.copy)
    && (forall z :: z in Relays(sys, a) ==> FedFromBehind(sys, z, a))
  }

  // ----- the invariant -----

  ghost predicate PointersEmpty(sys: System, pts: seq<set<nat>>, a: nat)
    requires WfSystem(sys) && |pts| == sys.n
  {
    forall e :: e in sys.store && e.0 == a ==> pts[e.1] == {}
  }

  ghost predicate RelaysEmpty(sys: System, pts: seq<set<nat>>, a: nat)
    requires WfSystem(sys) && |pts| == sys.n
  {
    forall z :: z in Relays(sys, a) && z < sys.n ==> pts[z] == {}
  }

  /** In the queue `a` does not stand behind a relay that has something to hand on. */
  ghost predicate StandsFirst(sys: System, r: Run, a: nat)
    requires WfSystem(sys) && WfRun(sys, r)
  {
    forall i, j :: 0 <= i < j < |r.queue| && r.queue[i] in Relays(sys, a) && r.facts.pts[r.queue[i]] != {} ==>
      r.queue[j] != a
  }

  ghost predicate RelaysWaitFull(sys: System, r: Run, k: nat, a: nat)
    requires WfSystem(sys) && WfRun(sys, r) && PassAt(sys.n, r.queue, k)
  {
    forall z :: z in Relays(sys, a) && Waits(sys.n, r.queue, k, z) ==> z < sys.n && r.facts.pts[z] != {}
  }

  ghost predicate NothingNewFrom(sys: System, copy: set<Edge>, a: nat) {
    forall v: nat :: (a, v) in copy ==> (a, v) in sys.copy
  }

  ghost predicate TooEarly(sys: System, r: Run, k: nat, a: nat)
    requires WfSystem(sys)
  {
    && Flow(sys, r, k)
    && (a in r.queue ==> PointersEmpty(sys, r.facts.pts, a))
    && (k <= a ==> RelaysEmpty(sys, r.facts.pts, a))
    && (a < k ==> StandsFirst(sys, r, a))
    && RelaysWaitFull(sys, r, k, a)
    && NothingNewFrom(sys, r.facts.copy, a)
  }

  // ----- one step -----

  lemma RelayIsFed(sys: System, a: nat, z: nat)
    requires WfSystem(sys) && PopsTooEarly(sys, a) && z in Relays(sys, a)
    ensures Fed(sys, z) && z < sys.n && FedFromBehind(sys, z, a)
  {
    var e, c :| e in sys.store && e.0 == a && c in sys.copy && c.1 == e.1 && c.0 == z;
  }

  /** Before the turn of `a` no relay receives anything. */
  lemma RelaysStayEmpty(sys: System, pts: seq<set<nat>>, pts': seq<set<nat>>, k: nat, a: nat)
    requires WfSystem(sys) && PopsTooEarly(sys, a) && |pts| == |pts'| == sys.n && k < a && k < sys.n
    requires HoldBefore(sys, pts, k) && HoldBefore(sys, pts', k + 1) && RelaysEmpty(sys, pts, a)
    ensures RelaysEmpty(sys, pts', a)
  {
    forall z | z in Relays(sys, a) && z < sys.n ensures pts'[z] == {} {
      RelayIsFed(sys, a, z);
      BeforeNext(sys, z, k);
    }
  }

  /** Popping `a`, or anything but a relay, leaves the pointers of its stores as they are. */
  lemma PointersStay(sys: System, s: Facts, c: nat, a: nat)
    requires WfSystem(sys) && WfFacts(sys.n, s) && c < sys.n && PopsTooEarly(sys, a) && OnlyGiven(sys, s.copy)
    requires PointersEmpty(sys, s.pts, a) && (c in Relays(sys, a) ==> s.pts[c] == {})
    ensures PointersEmpty(sys, Process(sys, s, c).pts, a)
  {
    forall e | e in sys.store && e.0 == a ensures Process(sys, s, c).pts[e.1] == {} {
      if (c, e.1) in s.copy {
        assert (c, e.1).1 == e.1 && Quiet(sys, (c, e.1).1);
        assert c in Relays(sys, a);
      }
    }
  }

  lemma EmptyPointersNoEdges(sys: System, pts: seq<set<nat>>, a: nat)
    requires WfSystem(sys) && |pts| == sys.n && PointersEmpty(sys, pts, a)
    ensures StoreEdges(sys, pts, a) == {}
  {
  }

  /** From its turn on `a` is not pushed any more. */
  lemma NeverPushedAgain(sys: System, r: Run, r': Run, k: nat, a: nat)
    requires WfSystem(sys) && PopsTooEarly(sys, a) && TooEarly(sys, r, k, a) && a < sys.n && a <= k
    requires Step(sys, r, r') && Flow(sys, r', Next(sys.n, k))
    ensures a !in Pushed(sys, r.facts, r.queue[0])
  {
    hide Pushed, StandsFirst, RelaysWaitFull, NothingNewFrom;
    var c := r.queue[0];
    PushedIff(sys, r.facts, c, a);
    assert Fed(sys, a);
    ForwardSettles(sys, a, k);
    ForwardSettles(sys, a, Next(sys.n, k));
    if c == a {
      SelfIsNoRelay(sys, a);
      PointersStay(sys, r.facts, c, a);
      EmptyPointersNoEdges(sys, r'.facts.pts, a);
    }
  }

  lemma SelfIsNoRelay(sys: System, a: nat)
    requires WfSystem(sys) && PopsTooEarly(sys, a)
    ensures a !in Relays(sys, a)
  {
    forall e, c | e in sys.store && e.0 == a && c in sys.copy && c.1 == e.1 ensures c.0 != a {
      assert c == (c.0, e.1);
    }
  }

  lemma StillInQueue(sys: System, r: Run, r': Run, k: nat, a: nat)
    requires WfSystem(sys) && PopsTooEarly(sys, a) && TooEarly(sys, r, k, a) && a < sys.n
    requires Step(sys, r, r') && Flow(sys, r', Next(sys.n, k)) && a in r'.queue
    ensures a in r.queue && (a <= k ==> a in r.queue[1..])
  {
    hide PointersEmpty, RelaysEmpty, StandsFirst, RelaysWaitFull, NothingNewFrom, Pushed, PopsTooEarly;
    StepParts(sys, r, r');
    QueueElements(r.queue[1..], r'.queue, Pushed(sys, r.facts, r.queue[0]));
    if a <= k {
      NeverPushedAgain(sys, r, r', k, a);
    } else {
      FlowPass(sys, r, k, a);
    }
  }

  lemma FlowPass(sys: System, r: Run, k: nat, a: nat)
    requires WfSystem(sys) && TooEarly(sys, r, k, a) && k <= a < sys.n
    ensures a in r.queue
  {
    assert r.queue[a - k] == a;
  }

  lemma PointersStayEmpty(sys: System, r: Run, r': Run, k: nat, a: nat)
    requires WfSystem(sys) && PopsTooEarly(sys, a) && TooEarly(sys, r, k, a) && a < sys.n
    requires Step(sys, r, r') && Flow(sys, r', Next(sys.n, k)) && a in r'.queue
    ensures PointersEmpty(sys, r'.facts.pts, a)
  {
    StillInQueue(sys, r, r', k, a);
    if a <= k {
      HeadIsNoFullRelay(sys, r, k, a);
    }
    PointersStay(sys, r.facts, r.queue[0], a);
  }

  lemma HeadIsNoFullRelay(sys: System, r: Run, k: nat, a: nat)
    requires WfSystem(sys) && TooEarly(sys, r, k, a) && a < sys.n && a <= k && r.queue != [] && a in r.queue[1..]
    ensures r.queue[0] in Relays(sys, a) ==> r.facts.pts[r.queue[0]] == {}
  {
    var j :| 0 <= j < |r.queue[1..]| && r.queue[1..][j] == a;
    assert r.queue[j + 1] == a;
  }

  /** A relay that is filled has had its turn, so it does not stand in the queue. */
  lemma FilledIsNotInQueue(sys: System, r: Run, r': Run, k: nat, a: nat, z: nat)
    requires WfSystem(sys) && PopsTooEarly(sys, a) && Flow(sys, r, k) && RelaysWaitFull(sys, r, k, a)
    requires Step(sys, r, r') && Flow(sys, r', Next(sys.n, k))
    requires z in Relays(sys, a) && z < sys.n && r.facts.pts[z] == {} && r'.facts.pts[z] != {}
    ensures z !in r.queue
  {
    RelayIsFed(sys, a, z);
    BeforeNext(sys, z, k);
    assert k < sys.n && (k, z) in sys.copy && z < k;
    assert !Waits(sys.n, r.queue, k, z);
    forall i | 0 <= i < |r.queue| ensures r.queue[i] != z {
      if i >= sys.n - k {
        assert r.queue[sys.n - k..][i - (sys.n - k)] == r.queue[i];
      }
    }
  }

  lemma StandsFirstStays(sys: System, r: Run, r': Run, k: nat, a: nat)
    requires WfSystem(sys) && PopsTooEarly(sys, a) && TooEarly(sys, r, k, a) && a < sys.n && a <= k
    requires Step(sys, r, r') && Flow(sys, r', Next(sys.n, k))
    ensures StandsFirst(sys, r', a)
  {
    forall i, j | 0 <= i < j < |r'.queue| && r'.queue[i] in Relays(sys, a) && r'.facts.pts[r'.queue[i]] != {}
      ensures r'.queue[j] != a
    {
      hide Step, TooEarly, Process, Pushed, PopsTooEarly;
      if j >= |r.queue| - 1 {
        NewPlaces(sys, r, r', k, a, j);
      } else {
        OldPlaces(sys, r, r', k, a, i, j);
      }
    }
  }

  lemma NewPlaces(sys: System, r: Run, r': Run, k: nat, a: nat, j: nat)
    requires WfSystem(sys) && PopsTooEarly(sys, a) && TooEarly(sys, r, k, a) && a < sys.n && a <= k
    requires Step(sys, r, r') && Flow(sys, r', Next(sys.n, k))
    requires |r.queue| - 1 <= j < |r'.queue|
    ensures r'.queue[j] != a
  {
    hide PopsTooEarly, Process, Pushed;
    NeverPushedAgain(sys, r, r', k, a);
    StepParts(sys, r, r');
    assert r'.queue[j] == r'.queue[|r.queue| - 1..][j - (|r.queue| - 1)];
  }

  lemma OldPlaces(sys: System, r: Run, r': Run, k: nat, a: nat, i: nat, j: nat)
    requires WfSystem(sys) && PopsTooEarly(sys, a) && TooEarly(sys, r, k, a) && a < sys.n && a <= k
    requires Step(sys, r, r') && Flow(sys, r', Next(sys.n, k))
    requires i < j < |r.queue| - 1 && j < |r'.queue| && r'.queue[i] in Relays(sys, a) && r'.facts.pts[r'.queue[i]] != {}
    ensures r'.queue[j] != a
  {
    hide Process, Pushed, PopsTooEarly, RelaysWaitFull, NothingNewFrom;
    assert r'.queue[i] == r.queue[1..][i] == r.queue[i + 1] && r'.queue[j] == r.queue[1..][j] == r.queue[j + 1];
    var z := r.queue[i + 1];
    if r.facts.pts[z] == {} {
      FilledIsNotInQueue(sys, r, r', k, a, z);
    }
  }

  lemma RelaysWaitFullStays(sys: System, r: Run, r': Run, k: nat, a: nat)
    requires WfSystem(sys) && PopsTooEarly(sys, a) && TooEarly(sys, r, k, a) && a < sys.n
    requires Step(sys, r, r') && Flow(sys, r', Next(sys.n, k))
    ensures RelaysWaitFull(sys, r', Next(sys.n, k), a)
  {
    hide Pushed, PopsTooEarly, StandsFirst, NothingNewFrom, PointersEmpty, RelaysEmpty;
    StepWf(sys, r, r');
    forall z | z in Relays(sys, a) && Waits(sys.n, r'.queue, Next(sys.n, k), z)
      ensures z < sys.n && r'.facts.pts[z] != {}
    {
      RelayIsFed(sys, a, z);
      PushedWaits(sys, r, r', k, z);
      PushedIff(sys, r.facts, r.queue[0], z);
    }
  }

  lemma StepKeepsTooEarly(sys: System, r: Run, r': Run, k: nat, a: nat)
    requires WfSystem(sys) && PopsTooEarly(sys, a) && TooEarly(sys, r, k, a) && a < sys.n && Step(sys, r, r')
    ensures TooEarly(sys, r', Next(sys.n, k), a)
  {
    StepKeepsFlow(sys, r, r', k);
    RelaysWaitFullStays(sys, r, r', k, a);
    if a in r'.queue {
      PointersStayEmpty(sys, r, r', k, a);
    }
    if a <= k {
      StandsFirstStays(sys, r, r', k, a);
    } else {
      RelaysStayEmpty(sys, r.facts.pts, r'.facts.pts, k, a);
    }
    NothingNewStays(sys, r, r', k, a);
  }

  lemma NothingNewStays(sys: System, r: Run, r': Run, k: nat, a: nat)
    requires WfSystem(sys) && PopsTooEarly(sys, a) && TooEarly(sys, r, k, a) && a < sys.n && Step(sys, r, r')
    ensures NothingNewFrom(sys, r'.facts.copy, a)
  {
    var c := r.queue[0];
    NewEdgesFrom(sys, r.facts, c, a);
    if c == a {
      SelfIsNoRelay(sys, a);
      PointersStay(sys, r.facts, c, a);
      EmptyPointersNoEdges(sys, r'.facts.pts, a);
    }
  }

  lemma FirstTooEarly(sys: System, a: nat)
    requires WfSystem(sys) && PopsTooEarly(sys, a) && a < sys.n
    ensures TooEarly(sys, Run(Initial(sys), AllNodes(sys.n)), 0, a)
  {
    FirstFlow(sys);
    var r := Run(Initial(sys), AllNodes(sys.n));
    assert r.queue[sys.n..] == [];
    forall z | z in Relays(sys, a) && z < sys.n ensures r.facts.pts[z] == {} {
      RelayIsFed(sys, a, z);
    }
  }

  lemma {:induction false} RunStaysTooEarly(sys: System, rs: seq<Run>, a: nat)
    requires WfSystem(sys) && PopsTooEarly(sys, a) && IsFirstRun(sys, rs) && a < sys.n
    ensures TooEarly(sys, Last(rs), Pass(sys.n, rs), a)
  {
    hide TooEarly, Step, PopsTooEarly;
    if |rs| == 1 {
      FirstTooEarly(sys, a);
    } else {
      RunStaysTooEarly(sys, Front(rs), a);
      StepKeepsTooEarly(sys, Last(Front(rs)), Last(rs), Pass(sys.n, Front(rs)), a);
    }
  }

  // ----- what is lost -----

  /** Only a store of `a` can bring `u` to the object `v`. */
  ghost predicate OnlyByStoreOf(sys: System, a: nat, v: nat, u: nat)
    requires WfSystem(sys)
  {
    && v != a && (u, v) !in sys.addr
    && (forall e :: e in sys.copy + sys.load ==> e.1 != v)
    && (forall e :: e in sys.store && e.0 != a ==> u !in LeastPts(sys)[e.0])
  }

  ghost predicate Lacks(sys: System, s: Facts, a: nat, v: nat, u: nat)
    requires WfSystem(sys) && |s.pts| == sys.n && v < sys.n
  {
    u !in s.pts[v] && forall c :: c in s.copy && c.1 == v ==> c.0 == a || exists e :: e in sys.store && e.0 == c.0
  }

  lemma SoundIsBelowLeast(sys: System, s: Facts)
    requires WfSystem(sys) && Sound(sys, s) && |s.pts| == sys.n
    ensures forall x :: 0 <= x < sys.n ==> s.pts[x] <= LeastPts(sys)[x]
  {
    LeastPtsIsLeast(sys);
    SoundIsBelow(sys, s);
  }

  lemma ProcessLacks(sys: System, s: Facts, c: nat, a: nat, v: nat, u: nat)
    requires WfSystem(sys) && WfFacts(sys.n, s) && c < sys.n && v < sys.n && OnlyByStoreOf(sys, a, v, u)
    requires Sound(sys, s) && Lacks(sys, s, a, v, u) && (a, v) !in s.copy
    ensures Lacks(sys, Process(sys, s, c), a, v, u)
  {
    var s' := Process(sys, s, c);
    SoundIsBelowLeast(sys, s);
    if (c, v) in s.copy {
      assert (c, v).1 == v && c != a;
    }
    forall d | d in LoadEdges(sys, s'.pts, c) ensures d.1 != v {
      var e :| e in sys.load && e.1 == d.1;
      assert e in sys.copy + sys.load;
    }
    forall d | d in StoreEdges(sys, s'.pts, c) ensures exists e :: e in sys.store && e.0 == d.0 {
      var e :| e in sys.store && e.0 == c;
    }
  }

  lemma {:induction false} RunLacks(sys: System, rs: seq<Run>, a: nat, v: nat, u: nat)
    requires WfSystem(sys) && PopsTooEarly(sys, a) && IsFirstRun(sys, rs) && a < sys.n && v < sys.n
    requires OnlyByStoreOf(sys, a, v, u)
    ensures Sound(sys, Last(rs).facts) && Lacks(sys, Last(rs).facts, a, v, u)
    ensures (a, v) !in Last(rs).facts.copy
  {
    RunStaysTooEarly(sys, rs, a);
    assert (a, v) !in sys.copy by {
      assert (a, v) in sys.copy ==> (a, v) in sys.copy + sys.load && (a, v).1 == v;
    }
    hide PopsTooEarly, Sound, TooEarly, Flow;
    if |rs| == 1 {
      InitialReady(sys);
      FirstLacks(sys, a, v, u);
    } else {
      RunLacks(sys, Front(rs), a, v, u);
      ProcessSound(sys, Last(Front(rs)).facts, Last(Front(rs)).queue[0]);
      ProcessLacks(sys, Last(Front(rs)).facts, Last(Front(rs)).queue[0], a, v, u);
    }
  }

  lemma FirstLacks(sys: System, a: nat, v: nat, u: nat)
    requires WfSystem(sys) && v < sys.n && OnlyByStoreOf(sys, a, v, u)
    ensures Lacks(sys, Initial(sys), a, v, u)
  {
    assert forall c :: c in sys.copy ==> c in sys.copy + sys.load;
  }

  /** Some store of `a` has to bring `u` to the object `v`, and `a` is always popped too early. */
  ghost predicate LateStore(sys: System, a: nat, p: nat, v: nat, u: nat)
    requires WfSystem(sys)
  {
    && (a, p) in sys.store && PopsTooEarly(sys, a) && OnlyByStoreOf(sys, a, v, u)
    && a < sys.n && p < sys.n && v < sys.n
    && v in LeastPts(sys)[p] && u in LeastPts(sys)[a]
  }

  /** Such a store is lost: the points-to sets are not the least solution, in whatever order the nodes
      pushed by one pop are pushed. */
  lemma LateStoreIsMissed(sys: System, rs: seq<Run>, a: nat, p: nat, v: nat, u: nat)
    requires WfSystem(sys) && IsFirstRun(sys, rs) && LateStore(sys, a, p, v, u)
    ensures |Last(rs).facts.pts| == sys.n && !IsLeastPts(sys, Last(rs).facts.pts)
  {
    var pts := Last(rs).facts.pts;
    if IsLeastPts(sys, pts) {
      LeastStores(sys, pts, a, p, v, u);
      RunLacks(sys, rs, a, v, u);
    }
  }

  lemma LeastStores(sys: System, pts: seq<set<nat>>, a: nat, p: nat, v: nat, u: nat)
    requires WfSystem(sys) && IsLeastPts(sys, pts) && (a, p) in sys.store && a < sys.n && p < sys.n && v < sys.n
    requires v in LeastPts(sys)[p] && u in LeastPts(sys)[a]
    ensures u in pts[v]
  {
    assert InEverySolution(sys, p, v) && InEverySolution(sys, a, u);
    assert v in pts[(a, p).1] && pts[(a, p).0] <= pts[v];
  }

  // ----- the exact condition -----

  /** The objects that `a`'s stores write get what they write from nowhere else. */
  ghost predicate WritesAlone(sys: System, a: nat)
    requires WfSystem(sys)
  {
    forall e, v, u :: e in sys.store && e.0 == a && v in LeastPts(sys)[e.1] && u in LeastPts(sys)[a] ==>
      OnlyByStoreOf(sys, a, v, u)
  }

  /** Every store is one of the two kinds. */
  ghost predicate StoresDecided(sys: System)
    requires WfSystem(sys)
  {
    forall e :: e in sys.store ==>
      InitialAt(sys, e.0) == {} && (PointersFed(sys, e.0) || (PopsTooEarly(sys, e.0) && WritesAlone(sys, e.0)))
  }

  /** A store whose pointer is not fed in order has nothing to do. */
  ghost predicate LateStoresIdle(sys: System)
    requires WfSystem(sys)
  {
    forall e :: e in sys.store ==>
      PointersFed(sys, e.0) || LeastPts(sys)[e.0] == {} || LeastPts(sys)[e.1] == {}
  }

  lemma IdleStoreIncludes(sys: System, rs: seq<Run>, e: Edge, v: nat)
    requires WfSystem(sys) && StoresDecided(sys) && LateStoresIdle(sys) && IsFirstRun(sys, rs) && Last(rs).queue == []
    requires e in sys.store && WfFacts(sys.n, Last(rs).facts) && v in Last(rs).facts.pts[e.1]
    requires Sound(sys, Last(rs).facts) && CopyClosed(Last(rs).facts.pts, Last(rs).facts.copy)
    ensures Last(rs).facts.pts[e.0] <= Last(rs).facts.pts[v]
  {
    hide PopsTooEarly, WritesAlone, Sound, CopyClosed, PointersFed;
    if PointersFed(sys, e.0) {
      EndStoreIncludes(sys, rs, e, v);
    } else {
      SoundIsBelowLeast(sys, Last(rs).facts);
    }
  }

  lemma BusyStoreIsMissed(sys: System, rs: seq<Run>, e: Edge)
    requires WfSystem(sys) && StoresDecided(sys) && IsFirstRun(sys, rs)
    requires e in sys.store && !PointersFed(sys, e.0) && LeastPts(sys)[e.0] != {} && LeastPts(sys)[e.1] != {}
    ensures |Last(rs).facts.pts| == sys.n && !IsLeastPts(sys, Last(rs).facts.pts)
  {
    hide PopsTooEarly, IsFirstRun, PointersFed, OnlyByStoreOf;
    var v :| v in LeastPts(sys)[e.1];
    var u :| u in LeastPts(sys)[e.0];
    assert (e.0, e.1) in sys.store;
    assert OnlyByStoreOf(sys, e.0, v, u);
    LateStoreIsMissed(sys, rs, e.0, e.1, v, u);
  }

  /** Over such stores a finished run has the least solution iff no late store has anything to do. */
  lemma ExactIffLateStoresIdle(sys: System, rs: seq<Run>)
    requires WfSystem(sys) && StoresDecided(sys) && IsFirstRun(sys, rs) && Last(rs).queue == []
    ensures WfFacts(sys.n, Last(rs).facts)
    ensures IsLeastPts(sys, Last(rs).facts.pts) <==> LateStoresIdle(sys)
  {
    hide StoresDecided, Sound, CopyClosed, PointersFed, IsLeastPts, LoadClosed, Closed;
    FirstRunStarts(sys, rs);
    RunExit(sys, rs);
    RunSound(sys, rs);
    if LateStoresIdle(sys) {
      forall e, v | e in sys.store && v in Last(rs).facts.pts[e.1]
        ensures Last(rs).facts.pts[e.0] <= Last(rs).facts.pts[v]
      {
        IdleStoreIncludes(sys, rs, e, v);
      }
      LeastIfStoresInclude(sys, rs);
    } else {
      var e :| e in sys.store && !PointersFed(sys, e.0) && LeastPts(sys)[e.0] != {} && LeastPts(sys)[e.1] != {};
      BusyStoreIsMissed(sys, rs, e);
    }
  }
}
