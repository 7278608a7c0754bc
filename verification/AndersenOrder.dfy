/** The worklist solver's result is not a function of its input
    (include/aser/PointerAnalysis/Solver/Andersen.h:28-40).

    The copy successors of a node are kept in a hash set of pointers, so the order in which one pop
    pushes them is unspecified.  On the program below both orders of one pair give complete runs, one
    with the least solution and one without, so no condition on programs alone decides exactness for
    all of them. */
module AndersenOrder {
  import opened AndersenExact
  import opened AndersenSolver
  import opened Constraints
  import opened GraphBuilding
  import opened Lists

  /** Object 3 with its anonymous node 4; pointers 0 and 1 take its address, 2 is a copy of 1, and 0 is
      stored through 2. */
  function TwoTakers(): Program {
    Program(5, {3}, {(3, 0), (3, 1)}, {(1, 2)}, {}, {(0, 2)})
  }

  function TwoTakersBuilt(): System {
    System(5, {(3, 4)}, {(4, 0), (4, 1), (1, 2)}, {}, {(0, 2)})
  }

  lemma TwoTakersBuilds()
    ensures WfProgram(TwoTakers()) && Build(TwoTakers()) == TwoTakersBuilt() && WfSystem(TwoTakersBuilt())
  {
    hide WfSystem;
    TwoTakersCopies();
    assert Build(TwoTakers()).addr == {(3, 4)};
    BuildIsWf(TwoTakers());
  }

  lemma TwoTakersCopies()
    ensures Build(TwoTakers()).copy == TwoTakersBuilt().copy
  {
    var sys := Build(TwoTakers());
    assert (3, 0) in TwoTakers().addrOf && (3, 1) in TwoTakers().addrOf;
    assert sys.copy == {(1, 2)} + {(3 + 1, 0), (3 + 1, 1)};
  }

  // ----- steps -----

  /** The facts in which 0 and 1, then 2, then 3 point to the object, and perhaps the edge of the store. */
  function At(taken: bool, copied: bool, linked: bool, stored: bool): Facts {
    Facts(
      [if taken then {3} else {}, if taken then {3} else {}, if copied then {3} else {}, if stored then {3} else {}, {3}],
      {(4, 0), (4, 1), (1, 2)} + if linked then {(0, 3)} else {})
  }

  lemma EdgesOf(s: Facts, a: nat)
    requires WfSystem(TwoTakersBuilt()) && |s.pts| == 5 && a < 5
    ensures LoadEdges(TwoTakersBuilt(), s.pts, a) == {}
    ensures StoreEdges(TwoTakersBuilt(), s.pts, a) == if a == 0 then set v | v in s.pts[2] && v != 0 :: (0, v) else {}
  {
    if a == 0 {
      forall v | v in s.pts[2] && v != 0 ensures (0, v) in StoreEdges(TwoTakersBuilt(), s.pts, 0) {
        assert (0, 2) in TwoTakersBuilt().store;
      }
    }
  }

  lemma Idle(s: Facts, a: nat, rest: seq<nat>)
    requires WfSystem(TwoTakersBuilt()) && WfRun(TwoTakersBuilt(), Run(s, [a] + rest)) && a < 5
    requires forall e :: e in s.copy && e.0 == a ==> s.pts[a] <= s.pts[e.1]
    requires a == 0 ==> forall v :: v in s.pts[2] ==> (0, v) in s.copy
    ensures Step(TwoTakersBuilt(), Run(s, [a] + rest), Run(s, rest))
  {
    EdgesOf(s, a);
    ProcessIdleIffMet(TwoTakersBuilt(), s, a);
    IdleStepPushesNothing(TwoTakersBuilt(), s, a);
    assert ([a] + rest)[1..] == rest && rest[|rest|..] == [];
  }

  /** A step that changes something, from what it makes of the facts and whom it pushes. */
  lemma Busy(s: Facts, a: nat, rest: seq<nat>, s': Facts, pushes: seq<nat>)
    requires WfSystem(TwoTakersBuilt()) && WfRun(TwoTakersBuilt(), Run(s, [a] + rest)) && a < 5
    requires Process(TwoTakersBuilt(), s, a) == s' && SameElements(pushes, Pushed(TwoTakersBuilt(), s, a))
    ensures Step(TwoTakersBuilt(), Run(s, [a] + rest), Run(s', rest + pushes))
  {
    assert ([a] + rest)[1..] == rest && (rest + pushes)[|rest|..] == pushes;
  }

  lemma CopiesOf(s: Facts, a: nat, s': Facts)
    requires WfSystem(TwoTakersBuilt()) && WfFacts(5, s) && WfFacts(5, s') && a < 5 && s'.copy == s.copy
    requires forall i :: 0 <= i < 5 ==> s'.pts[i] == if (a, i) in s.copy then s.pts[i] + s.pts[a] else s.pts[i]
    requires a == 0 ==> forall v :: v in s'.pts[2] ==> (0, v) in s.copy
    ensures Process(TwoTakersBuilt(), s, a) == s'
    ensures Pushed(TwoTakersBuilt(), s, a) == set b | b in Targets(s.copy, a) && b < 5 && !(s.pts[a] <= s.pts[b])
  {
    assert AfterCopies(s.pts, s.copy, a) == s'.pts;
    EdgesOf(s', a);
    assert s.copy + StoreEdges(TwoTakersBuilt(), s'.pts, a) + {} == s.copy;
  }

  lemma TargetsOf(copy: set<Edge>)
    requires copy == {(4, 0), (4, 1), (1, 2)} || copy == {(4, 0), (4, 1), (1, 2), (0, 3)}
    ensures Targets(copy, 4) == {0, 1} && Targets(copy, 1) == {2}
    ensures Targets(copy, 0) == if (0, 3) in copy then {3} else {}
  {
    assert (4, 0) in copy && (4, 1) in copy && (1, 2) in copy;
    assert (0, 3) in copy ==> 3 in Targets(copy, 0);
  }

  lemma FourIsCopied()
    requires WfSystem(TwoTakersBuilt())
    ensures Process(TwoTakersBuilt(), At(false, false, false, false), 4) == At(true, false, false, false)
    ensures Pushed(TwoTakersBuilt(), At(false, false, false, false), 4) == {0, 1}
  {
    var s, s' := At(false, false, false, false), At(true, false, false, false);
    assert s.copy == {(4, 0), (4, 1), (1, 2)};
    TargetsOf(s.copy);
    CopiesOf(s, 4, s');
    assert !(s.pts[4] <= s.pts[0]) && !(s.pts[4] <= s.pts[1]) by {
      assert 3 in s.pts[4];
    }
  }

  lemma PopFour(pushes: seq<nat>)
    requires WfSystem(TwoTakersBuilt()) && pushes in [[0, 1], [1, 0]]
    ensures Step(TwoTakersBuilt(), Run(At(false, false, false, false), [4]), Run(At(true, false, false, false), pushes))
  {
    hide Process, Pushed;
    FourIsCopied();
    assert 0 in pushes && 1 in pushes;
    Busy(At(false, false, false, false), 4, [], At(true, false, false, false), pushes);
    assert [4] + [] == [4] && [] + pushes == pushes;
  }

  lemma OneIsCopied()
    requires WfSystem(TwoTakersBuilt())
    ensures Process(TwoTakersBuilt(), At(true, false, false, false), 1) == At(true, true, false, false)
    ensures Pushed(TwoTakersBuilt(), At(true, false, false, false), 1) == {2}
  {
    var s, s' := At(true, false, false, false), At(true, true, false, false);
    assert s.copy == {(4, 0), (4, 1), (1, 2)};
    TargetsOf(s.copy);
    CopiesOf(s, 1, s');
    assert !(s.pts[1] <= s.pts[2]) by {
      assert 3 in s.pts[1];
    }
  }

  lemma PopOne(rest: seq<nat>)
    requires WfSystem(TwoTakersBuilt()) && forall i :: 0 <= i < |rest| ==> rest[i] < 5
    ensures Step(TwoTakersBuilt(), Run(At(true, false, false, false), [1] + rest), Run(At(true, true, false, false), rest + [2]))
  {
    hide Process, Pushed;
    OneIsCopied();
    Busy(At(true, false, false, false), 1, rest, At(true, true, false, false), [2]);
  }

  lemma ZeroHasNoCopies()
    requires WfSystem(TwoTakersBuilt())
    ensures AfterCopies(At(true, true, false, false).pts, At(true, true, false, false).copy, 0) == At(true, true, false, false).pts
    ensures Targets(At(true, true, false, false).copy, 0) == {}
  {
    var s := At(true, true, false, false);
    assert s.copy == {(4, 0), (4, 1), (1, 2)};
    TargetsOf(s.copy);
    assert forall i :: (0, i) !in s.copy;
  }

  lemma ZeroStores()
    requires WfSystem(TwoTakersBuilt())
    ensures StoreEdges(TwoTakersBuilt(), At(true, true, false, false).pts, 0) == {(0, 3)}
    ensures LoadEdges(TwoTakersBuilt(), At(true, true, false, false).pts, 0) == {}
  {
    EdgesOf(At(true, true, false, false), 0);
    assert At(true, true, false, false).pts[2] == {3};
  }

  lemma ZeroIsLinked()
    requires WfSystem(TwoTakersBuilt())
    ensures Process(TwoTakersBuilt(), At(true, true, false, false), 0) == At(true, true, true, false)
    ensures Pushed(TwoTakersBuilt(), At(true, true, false, false), 0) == {0}
  {
    ZeroHasNoCopies();
    ZeroStores();
    hide AfterCopies, StoreEdges, LoadEdges, Targets;
    var s := At(true, true, false, false);
    assert s.copy + {(0, 3)} + {} == At(true, true, true, false).copy;
    assert (0, 3) !in s.copy;
  }

  /** Node 0 popped after 2 has its object: the store adds its edge, and 0 is pushed for it. */
  lemma PopZero()
    requires WfSystem(TwoTakersBuilt())
    ensures Step(TwoTakersBuilt(), Run(At(true, true, false, false), [0] + [2]), Run(At(true, true, true, false), [2] + [0]))
  {
    hide Process, Pushed;
    ZeroIsLinked();
    Busy(At(true, true, false, false), 0, [2], At(true, true, true, false), [0]);
  }

  lemma StoreIsCopied()
    requires WfSystem(TwoTakersBuilt())
    ensures Process(TwoTakersBuilt(), At(true, true, true, false), 0) == At(true, true, true, true)
    ensures Pushed(TwoTakersBuilt(), At(true, true, true, false), 0) == {3}
  {
    var s, s' := At(true, true, true, false), At(true, true, true, true);
    assert s.copy == {(4, 0), (4, 1), (1, 2), (0, 3)};
    TargetsOf(s.copy);
    CopiesOf(s, 0, s');
    assert !(s.pts[0] <= s.pts[3]) by {
      assert 3 in s.pts[0];
    }
  }

  lemma PopZeroAgain()
    requires WfSystem(TwoTakersBuilt())
    ensures Step(TwoTakersBuilt(), Run(At(true, true, true, false), [0] + []), Run(At(true, true, true, true), [] + [3]))
  {
    hide Process, Pushed;
    StoreIsCopied();
    Busy(At(true, true, true, false), 0, [], At(true, true, true, true), [3]);
  }

  // ----- the two runs -----

  lemma Extended(rs: seq<Run>, r: Run)
    requires WfSystem(TwoTakersBuilt()) && IsFirstRun(TwoTakersBuilt(), rs) && Step(TwoTakersBuilt(), Last(rs), r)
    ensures IsFirstRun(TwoTakersBuilt(), rs + [r]) && Last(rs + [r]) == r
  {
    ExtendRun(TwoTakersBuilt(), rs, r);
  }

  lemma InitialIs()
    requires WfSystem(TwoTakersBuilt())
    ensures Initial(TwoTakersBuilt()) == At(false, false, false, false)
  {
    var s := At(false, false, false, false);
    forall i | 0 <= i < 5 ensures Initial(TwoTakersBuilt()).pts[i] == s.pts[i] {
      assert (3, 4) in TwoTakersBuilt().addr;
      assert InitialAt(TwoTakersBuilt(), i) == if i == 4 then {3} else {};
    }
    assert Initial(TwoTakersBuilt()).copy == s.copy;
  }

  /** A run goes on by popping a node that has nothing to do. */
  lemma IdleNext(rs: seq<Run>, s: Facts, a: nat, rest: seq<nat>) returns (rs': seq<Run>)
    requires WfSystem(TwoTakersBuilt()) && IsFirstRun(TwoTakersBuilt(), rs) && Last(rs) == Run(s, [a] + rest) && a < 5
    requires WfRun(TwoTakersBuilt(), Run(s, [a] + rest))
    requires forall e :: e in s.copy && e.0 == a ==> s.pts[a] <= s.pts[e.1]
    requires a == 0 ==> forall v :: v in s.pts[2] ==> (0, v) in s.copy
    ensures IsFirstRun(TwoTakersBuilt(), rs') && Last(rs') == Run(s, rest)
  {
    hide Step, IsFirstRun;
    Idle(s, a, rest);
    Extended(rs, Run(s, rest));
    rs' := rs + [Run(s, rest)];
  }

  lemma NothingPopped(rs: seq<Run>)
    requires WfSystem(TwoTakersBuilt()) && rs == [Run(At(false, false, false, false), [0] + [1, 2, 3, 4])]
    ensures IsFirstRun(TwoTakersBuilt(), rs) && Last(rs) == rs[0]
  {
    InitialIs();
    assert AllNodes(5) == [0] + [1, 2, 3, 4];
    hide At, Initial, TwoTakersBuilt;
  }

  /** Nothing happens until node 4 is popped. */
  lemma FirstFour() returns (rs: seq<Run>)
    requires WfSystem(TwoTakersBuilt())
    ensures IsFirstRun(TwoTakersBuilt(), rs) && Last(rs) == Run(At(false, false, false, false), [4])
  {
    hide Step, IsFirstRun;
    var s := At(false, false, false, false);
    rs := [Run(s, [0] + [1, 2, 3, 4])];
    NothingPopped(rs);
    rs := IdleNext(rs, s, 0, [1, 2, 3, 4]);
    assert [1, 2, 3, 4] == [1] + [2, 3, 4];
    rs := IdleNext(rs, s, 1, [2, 3, 4]);
    assert [2, 3, 4] == [2] + [3, 4];
    rs := IdleNext(rs, s, 2, [3, 4]);
    assert [3, 4] == [3] + [4];
    rs := IdleNext(rs, s, 3, [4]);
  }

  lemma ZeroFirst() returns (rs: seq<Run>)
    requires WfSystem(TwoTakersBuilt())
    ensures IsFirstRun(TwoTakersBuilt(), rs) && Last(rs) == Run(At(true, true, false, false), [])
  {
    hide Step, IsFirstRun;
    rs := FirstFour();
    PopFour([0, 1]);
    Extended(rs, Run(At(true, false, false, false), [0, 1]));
    rs := rs + [Run(At(true, false, false, false), [0, 1])];
    assert [0, 1] == [0] + [1];
    rs := IdleNext(rs, At(true, false, false, false), 0, [1]);
    PopOne([]);
    assert [1] + [] == [1] && [] + [2] == [2];
    Extended(rs, Run(At(true, true, false, false), [2]));
    rs := rs + [Run(At(true, true, false, false), [2])];
    assert [2] + [] == [2];
    rs := IdleNext(rs, At(true, true, false, false), 2, []);
  }

  lemma OneFirst() returns (rs: seq<Run>)
    requires WfSystem(TwoTakersBuilt())
    ensures IsFirstRun(TwoTakersBuilt(), rs) && Last(rs) == Run(At(true, true, true, true), [])
  {
    hide Step, IsFirstRun;
    rs := FirstFour();
    PopFour([1, 0]);
    Extended(rs, Run(At(true, false, false, false), [1, 0]));
    rs := rs + [Run(At(true, false, false, false), [1, 0])];
    assert [1, 0] == [1] + [0] && [0] + [2] == [0, 2];
    PopOne([0]);
    Extended(rs, Run(At(true, true, false, false), [0, 2]));
    rs := rs + [Run(At(true, true, false, false), [0, 2])];
    PopZero();
    Extended(rs, Run(At(true, true, true, false), [2] + [0]));
    rs := rs + [Run(At(true, true, true, false), [2] + [0])];
    rs := StoreArrives(rs);
  }

  lemma StoreArrives(rs: seq<Run>) returns (rs': seq<Run>)
    requires WfSystem(TwoTakersBuilt()) && IsFirstRun(TwoTakersBuilt(), rs) && Last(rs) == Run(At(true, true, true, false), [2] + [0])
    ensures IsFirstRun(TwoTakersBuilt(), rs') && Last(rs') == Run(At(true, true, true, true), [])
  {
    hide Step, IsFirstRun;
    rs' := IdleNext(rs, At(true, true, true, false), 2, [0]);
    assert [0] + [] == [0] && [] + [3] == [3] && [3] + [] == [3];
    PopZeroAgain();
    Extended(rs', Run(At(true, true, true, true), [3]));
    rs' := rs' + [Run(At(true, true, true, true), [3])];
    rs' := IdleNext(rs', At(true, true, true, true), 3, []);
  }

  lemma StoreNeedsObject(t: seq<set<nat>>)
    requires WfSystem(TwoTakersBuilt()) && Solves(TwoTakersBuilt(), t)
    ensures 3 in t[3]
  {
    assert (3, 4) in TwoTakersBuilt().addr && (4, 0) in TwoTakersBuilt().copy && (4, 1) in TwoTakersBuilt().copy && (1, 2) in TwoTakersBuilt().copy;
    assert (0, 2) in TwoTakersBuilt().store;
    assert t[(4, 0).0] <= t[(4, 0).1] && t[(4, 1).0] <= t[(4, 1).1] && t[(1, 2).0] <= t[(1, 2).1];
    assert 3 in t[(0, 2).1] && t[(0, 2).0] <= t[3];
  }

  lemma GoodIncludes(pts: seq<set<nat>>)
    requires pts == At(true, true, true, true).pts
    ensures forall e, v :: e in TwoTakersBuilt().store && v in pts[e.1] ==> v < 5 && pts[e.0] <= pts[v]
  {
    assert pts[0] == pts[2] == pts[3] == {3};
  }

  lemma GoodIsLeast(rs: seq<Run>)
    requires WfSystem(TwoTakersBuilt()) && IsFirstRun(TwoTakersBuilt(), rs) && Last(rs) == Run(At(true, true, true, true), [])
    ensures IsLeastPts(TwoTakersBuilt(), Last(rs).facts.pts)
  {
    GoodIncludes(Last(rs).facts.pts);
    hide At, TwoTakersBuilt, IsLeastPts;
    LeastIfStoresInclude(TwoTakersBuilt(), rs);
  }

  lemma BadIsNotLeast(pts: seq<set<nat>>)
    requires WfSystem(TwoTakersBuilt()) && pts == At(true, true, false, false).pts
    ensures !IsLeastPts(TwoTakersBuilt(), pts)
  {
    if IsLeastPts(TwoTakersBuilt(), pts) {
      StoreNeedsObject(pts);
    }
  }

  /** Two complete runs of the solver on the same graph: one ends with the least solution, one does not. */
  lemma PushOrderDecides() returns (good: seq<Run>, bad: seq<Run>)
    ensures WfProgram(TwoTakers()) && WfSystem(Build(TwoTakers()))
    ensures IsFirstRun(Build(TwoTakers()), good) && Last(good).queue == []
    ensures IsFirstRun(Build(TwoTakers()), bad) && Last(bad).queue == []
    ensures IsLeastPts(Build(TwoTakers()), Last(good).facts.pts)
    ensures |Last(bad).facts.pts| == 5 && !IsLeastPts(Build(TwoTakers()), Last(bad).facts.pts)
  {
    TwoTakersBuilds();
    good := OneFirst();
    bad := ZeroFirst();
    hide IsFirstRun, IsLeastPts, TwoTakersBuilt, Build, TwoTakers;
    GoodIsLeast(good);
    BadIsNotLeast(Last(bad).facts.pts);
  }
}
