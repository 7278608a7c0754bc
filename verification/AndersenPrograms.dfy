/** The worklist solver (include/aser/PointerAnalysis/Solver/Andersen.h) on the graphs that are built from
    programs: when its result is the least solution, and a program for which it is not. */
module AndersenPrograms {
  import opened AndersenExact
  import opened AndersenLate
  import opened AndersenSolver
  import opened Constraints
  import opened FirstPass
  import opened GraphBuilding

  lemma OnlyAnonymousStartFull(p: Program, x: nat)
    requires WfProgram(p) && WfSystem(Build(p)) && !IsAnonymous(p, x)
    ensures InitialAt(Build(p), x) == {}
  {
    forall e | e in Build(p).addr ensures e.1 != x {
      var o :| o in p.objects && e == (o, o + 1);
    }
  }

  lemma BuiltSourcesStartEmpty(p: Program)
    requires WfProgram(p) && WfSystem(Build(p))
    ensures SourcesStartEmpty(Build(p))
  {
    forall e | e in p.store ensures InitialAt(Build(p), e.0) == {} {
      OnlyAnonymousStartFull(p, e.0);
    }
  }

  /** Solving a program with a new worklist solver: nothing goes beyond the least solution; it is
      reached if all pointers of stores are fed in order, missed if there is a late store, and where
      every store is one or the other, it is reached iff no late store has anything to do. */
  method SolveProgram(p: Program) returns (pts: seq<set<nat>>)
    requires WfProgram(p)
    ensures WfSystem(Build(p)) && WfSystem(Direct(p)) && |pts| == p.n
    ensures var least := WithAnonymous(p, LeastPts(Direct(p)));
      && (forall x :: 0 <= x < p.n ==> pts[x] <= least[x])
      && (AllPointersFed(Build(p)) ==> pts == least)
      && (forall a, q, v, u :: LateStore(Build(p), a, q, v, u) ==> pts != least)
      && (StoresDecided(Build(p)) ==> (pts == least <==> LateStoresIdle(Build(p))))
  {
    BuildIsWf(p);
    BuildKeepsMeaning(p);
    BuiltSourcesStartEmpty(p);
    var solver := new Andersen(Build(p));
    ghost var run := solver.RunSolver();
    pts := solver.pts;
    InitialReady(Build(p));
    SoundIsBelowLeast(Build(p), Last(run).facts);
    LeastIffEqual(Build(p), pts);
    if AllPointersFed(Build(p)) {
      ExactWhenPointersFed(Build(p), run);
    }
    forall a, q, v, u | LateStore(Build(p), a, q, v, u) ensures !IsLeastPts(Build(p), pts) {
      LateStoreIsMissed(Build(p), run, a, q, v, u);
    }
    if StoresDecided(Build(p)) {
      ExactIffLateStoresIdle(Build(p), run);
    }
  }

  lemma LeastIffEqual(sys: System, pts: seq<set<nat>>)
    requires WfSystem(sys) && |pts| == sys.n
    ensures IsLeastPts(sys, pts) <==> pts == LeastPts(sys)
  {
    LeastPtsIsLeast(sys);
    if IsLeastPts(sys, pts) {
      assert forall x :: 0 <= x < sys.n ==> pts[x] == LeastPts(sys)[x];
    }
  }

  // ----- a program whose store is lost -----

  /** Object 1 with its anonymous node 2; pointer 3 takes its address, 0 is a copy of 3 and 4 of 0;
      then 3 is stored through 4, so that the object has to point to itself. */
  function StoreOfItself(): Program {
    Program(5, {1}, {(1, 3)}, {(3, 0), (0, 4)}, {}, {(3, 4)})
  }

  /** The graph that is built for it. */
  function StoreOfItselfBuilt(): System {
    System(5, {(1, 2)}, {(2, 3), (3, 0), (0, 4)}, {}, {(3, 4)})
  }

  lemma StoreOfItselfBuilds()
    ensures WfProgram(StoreOfItself()) && Build(StoreOfItself()) == StoreOfItselfBuilt() && WfSystem(StoreOfItselfBuilt())
  {
    var sys := Build(StoreOfItself());
    assert sys.addr == {(1, 2)};
    assert (1, 3) in StoreOfItself().addrOf;
    assert sys.copy == {(3, 0), (0, 4)} + {(1 + 1, 3)};
  }

  lemma QuietNode(x: nat)
    requires WfSystem(StoreOfItselfBuilt()) && x != 1
    ensures Quiet(StoreOfItselfBuilt(), x) && (x != 2 ==> InitialAt(StoreOfItselfBuilt(), x) == {})
  {
  }

  lemma ThreeIsForward()
    requires WfSystem(StoreOfItselfBuilt())
    ensures Forward(StoreOfItselfBuilt(), 3)
  {
    QuietNode(2);
    QuietNode(3);
    hide Quiet;
    assert Forward(StoreOfItselfBuilt(), 2);
  }

  lemma PopsThreeTooEarly()
    requires WfSystem(StoreOfItselfBuilt())
    ensures PopsTooEarly(StoreOfItselfBuilt(), 3)
  {
    var sys := StoreOfItselfBuilt();
    QuietNode(0);
    QuietNode(4);
    ThreeIsForward();
    hide Quiet, Forward, InitialAt;
    OnlyZeroRelays();
    assert FedFromBehind(sys, 0, 3);
    hide Relays, FedFromBehind;
  }

  lemma OnlyZeroRelays()
    ensures forall z :: z in Relays(StoreOfItselfBuilt(), 3) ==> z == 0
  {
  }

  lemma ThreeAndFourNeedOne(t: seq<set<nat>>)
    requires WfSystem(StoreOfItselfBuilt()) && Solves(StoreOfItselfBuilt(), t)
    ensures 1 in t[3] && 1 in t[4]
  {
    var sys := StoreOfItselfBuilt();
    assert (1, 2) in sys.addr && (2, 3) in sys.copy && (3, 0) in sys.copy && (0, 4) in sys.copy;
    assert t[(2, 3).0] <= t[(2, 3).1] && t[(3, 0).0] <= t[(3, 0).1] && t[(0, 4).0] <= t[(0, 4).1];
  }

  lemma StoreOfItselfIsLate()
    requires WfSystem(StoreOfItselfBuilt())
    ensures LateStore(StoreOfItselfBuilt(), 3, 4, 1, 1)
  {
    PopsThreeTooEarly();
    hide PopsTooEarly;
    forall t | Solves(StoreOfItselfBuilt(), t) ensures 1 in t[3] && 1 in t[4] {
      ThreeAndFourNeedOne(t);
    }
    assert InEverySolution(StoreOfItselfBuilt(), 3, 1) && InEverySolution(StoreOfItselfBuilt(), 4, 1);
  }

  /** The worklist solver on this program: it ends without the self reference. */
  method SolveStoreOfItself() returns (pts: seq<set<nat>>)
    ensures WfSystem(Direct(StoreOfItself())) && |pts| == 5
    ensures pts != WithAnonymous(StoreOfItself(), LeastPts(Direct(StoreOfItself())))
  {
    StoreOfItselfBuilds();
    StoreOfItselfIsLate();
    pts := SolveProgram(StoreOfItself());
  }
}
