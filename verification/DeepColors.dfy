/** What the colors of the deep phase mean (include/aser/PointerAnalysis/Solver/DeepPropagation.h:141-195):
    a grey node leads into a cycle of copy edges, and the black ones are those still to be unmarked.  So
    where the copy edges have no cycle the colors never keep a node from taking what it is given. */
module DeepColors {
  import opened Constraints
  import opened CopyGraph
  import opened ConsGraph
  import opened DeepSteps
  import opened Reachability

  /** There is a path of copy edges from `x` to a copy edge that is on a cycle. */
  ghost predicate LeadsToCycle(copy: set<Edge>, x: nat) {
    exists e :: e in copy && Reaches(copy, x, e.0) && Reaches(copy, e.1, e.0)
  }

  ghost predicate HasCycle(copy: set<Edge>) {
    exists e :: e in copy && Reaches(copy, e.1, e.0)
  }

  /** There is a path of one copy edge or more from `x` to `stop`. */
  ghost predicate LeadsTo(copy: set<Edge>, x: nat, stop: nat) {
    exists e :: e in copy && e.1 == stop && Reaches(copy, x, e.0)
  }

  ghost predicate GreyLeadsToCycle(color: seq<Color>, copy: set<Edge>) {
    forall x: nat :: x < |color| && color[x] == Grey ==> LeadsToCycle(copy, x)
  }

  ghost predicate ColorsMean(s: Phase) {
    && GreyLeadsToCycle(s.color, s.g.copy)
    && forall x: nat :: x < |s.color| ==> (s.color[x] == Black <==> x in s.black)
  }

  // ----- paths in a growing graph -----

  lemma ReachesGrows(few: set<Edge>, many: set<Edge>, a: nat, b: nat)
    requires few <= many && Reaches(few, a, b)
    ensures Reaches(many, a, b)
  {
    ReachIsClosed(many, {a});
    ReachIsLeast(few, {a}, ReachFrom(many, {a}));
  }

  lemma CycleGrows(few: set<Edge>, many: set<Edge>, x: nat)
    requires few <= many && LeadsToCycle(few, x)
    ensures LeadsToCycle(many, x)
  {
    var e :| e in few && Reaches(few, x, e.0) && Reaches(few, e.1, e.0);
    ReachesGrows(few, many, x, e.0);
    ReachesGrows(few, many, e.1, e.0);
  }

  lemma GreyGrows(color: seq<Color>, few: set<Edge>, many: set<Edge>)
    requires few <= many && GreyLeadsToCycle(color, few)
    ensures GreyLeadsToCycle(color, many)
  {
    forall x: nat | x < |color| && color[x] == Grey ensures LeadsToCycle(many, x) {
      CycleGrows(few, many, x);
    }
  }

  lemma CycleAhead(copy: set<Edge>, x: nat, y: nat)
    requires Reaches(copy, x, y) && LeadsToCycle(copy, y)
    ensures LeadsToCycle(copy, x)
  {
    var e :| e in copy && Reaches(copy, y, e.0) && Reaches(copy, e.1, e.0);
    ReachesTransitive(copy, x, y, e.0);
  }

  lemma StopAhead(copy: set<Edge>, x: nat, y: nat, stop: nat)
    requires Reaches(copy, x, y) && LeadsTo(copy, y, stop)
    ensures LeadsTo(copy, x, stop)
  {
    var e :| e in copy && e.1 == stop && Reaches(copy, y, e.0);
    ReachesTransitive(copy, x, y, e.0);
  }

  /** What leads to the beginning of a cycle leads to the cycle. */
  lemma CycleBehindStop(copy: set<Edge>, x: nat, stop: nat)
    requires LeadsTo(copy, x, stop) && LeadsToCycle(copy, stop)
    ensures LeadsToCycle(copy, x)
  {
    var e :| e in copy && e.1 == stop && Reaches(copy, x, e.0);
    ReachesEdge(copy, e);
    ReachesTransitive(copy, x, e.0, stop);
    CycleAhead(copy, x, stop);
  }

  /** A path from `x` back to `x`. */
  lemma BackToItself(copy: set<Edge>, x: nat)
    requires LeadsTo(copy, x, x)
    ensures LeadsToCycle(copy, x)
  {
    var e :| e in copy && e.1 == x && Reaches(copy, x, e.0);
  }

  // ----- what an answer means -----

  /** If a call answers true, each node it visited leads to `stop` or into a cycle. */
  lemma {:induction false} ChainFinds(color: seq<Color>, g: Graph, h: Graph, start: nat, stop: nat, diff: set<nat>,
                                      found: bool, path: seq<nat>)
    requires Chain(color, g, h, start, stop, diff, found, path) && GreyLeadsToCycle(color, g.copy) && found
    ensures forall x :: x in path ==> LeadsToCycle(g.copy, x) || LeadsTo(g.copy, x, stop)
    decreases |path|
  {
    if color[start] != Default {
      assert path == [start];
    } else if |path| == 1 {
      assert path == [start] && (start, stop) in g.copy;
      assert Reaches(g.copy, start, (start, stop).0);
    } else {
      var next := path[1];
      ChainFinds(color, AddFacts(g, start, diff), h, next, stop, diff - g.pts[start], found, path[1..]);
      assert path == [start] + path[1..];
      ReachesEdge(g.copy, (start, next));
      assert next in path[1..];
      if LeadsToCycle(g.copy, next) {
        CycleAhead(g.copy, start, next);
      } else {
        StopAhead(g.copy, start, next, stop);
      }
    }
  }

  /** A call goes along copy edges, past uncolored nodes, not to `stop`; where it ends decides its answer. */
  lemma {:induction false} ChainAnswers(color: seq<Color>, g: Graph, h: Graph, start: nat, stop: nat, diff: set<nat>,
                                        found: bool, path: seq<nat>)
    requires Chain(color, g, h, start, stop, diff, found, path)
    ensures path != [] && IsPath(g.copy, path, start, path[|path| - 1]) && stop !in path[1..]
    ensures forall i :: 0 <= i < |path| - 1 ==> path[i] < |color| && color[path[i]] == Default
    ensures var end := path[|path| - 1];
      && end < |color|
      && (found <==> color[end] == Grey || (color[end] == Default && (end, stop) in g.copy))
    decreases |path|
  {
    if |path| > 1 {
      var rest := path[1..];
      ChainAnswers(color, AddFacts(g, start, diff), h, path[1], stop, diff - g.pts[start], found, rest);
      assert rest[|rest| - 1] == path[|path| - 1];
      assert stop !in rest by {
        assert rest == [path[1]] + rest[1..];
      }
      forall i | 0 <= i < |path| - 1
        ensures (path[i], path[i + 1]) in g.copy && path[i] < |color| && color[path[i]] == Default
      {
        if i > 0 {
          var j := i - 1;
          assert rest[j] == path[i] && rest[j + 1] == path[i + 1];
          assert (rest[j], rest[j + 1]) in g.copy;
        }
      }
    } else if color[start] == Default && !found && !(diff <= g.pts[start]) {
      assert (start, stop) in g.copy ==> stop in Targets(g.copy, start);
    }
  }

  // ----- what the colors mean throughout the phase -----

  lemma AfterMeans(s: Phase, h: Graph, path: seq<nat>, found: bool)
    requires ColorsMean(s) && s.g.copy <= h.copy
    requires found ==> forall x :: x in path && x < |s.color| && s.color[x] == Default ==> LeadsToCycle(h.copy, x)
    ensures ColorsMean(After(s, h, path, found))
    ensures KeepsGrey(s, After(s, h, path, found))
  {
    hide LeadsToCycle;
    GreyGrows(s.color, s.g.copy, h.copy);
  }

  /** Grey is for good. */
  ghost predicate KeepsGrey(s: Phase, t: Phase) {
    |t.color| == |s.color| && forall x :: 0 <= x < |s.color| && s.color[x] == Grey ==> t.color[x] == Grey
  }

  ghost predicate NoneBlack(s: Phase) {
    s.black == {} && forall x :: 0 <= x < |s.color| ==> s.color[x] != Black
  }

  lemma UnmarkMeans(s: Phase)
    requires ColorsMean(s)
    ensures ColorsMean(Unmark(s)) && NoneBlack(Unmark(s)) && KeepsGrey(s, Unmark(s))
  {
  }

  /** A load looks for the node it starts from, so finding it closes a cycle. */
  lemma LoadFindsCycle(color: seq<Color>, g: Graph, h: Graph, dst: nat, diff: set<nat>, path: seq<nat>)
    requires Chain(color, g, h, dst, dst, diff, true, path) && GreyLeadsToCycle(color, g.copy)
    ensures forall x :: x in path ==> LeadsToCycle(g.copy, x)
  {
    ChainFinds(color, g, h, dst, dst, diff, true, path);
    assert dst in path;
    hide Chain, LeadsTo, LeadsToCycle;
    if LeadsTo(g.copy, dst, dst) {
      BackToItself(g.copy, dst);
    }
    forall x | x in path ensures LeadsToCycle(g.copy, x) {
      if LeadsTo(g.copy, x, dst) {
        CycleBehindStop(g.copy, x, dst);
      }
    }
  }

  /** A store looks for the source of the edge it has just inserted into `v`. */
  lemma StoreFindsCycle(color: seq<Color>, g: Graph, h: Graph, src: nat, v: nat, diff: set<nat>, path: seq<nat>)
    requires Chain(color, g, h, v, src, diff, true, path) && GreyLeadsToCycle(color, g.copy) && (src, v) in g.copy
    ensures forall x :: x in path ==> LeadsToCycle(g.copy, x)
  {
    ChainFinds(color, g, h, v, src, diff, true, path);
    ReachesEdge(g.copy, (src, v));
    assert v in path;
    hide Chain, LeadsTo, LeadsToCycle;
    if LeadsTo(g.copy, v, src) {
      StopAhead(g.copy, src, v, src);
      BackToItself(g.copy, src);
    } else {
      CycleAhead(g.copy, src, v);
    }
    forall x | x in path ensures LeadsToCycle(g.copy, x) {
      if LeadsTo(g.copy, x, src) {
        CycleBehindStop(g.copy, x, src);
      }
    }
  }

  /** From a node without copy edges an uncolored call finds nothing. */
  lemma NothingFound(color: seq<Color>, g: Graph, h: Graph, start: nat, stop: nat, diff: set<nat>, found: bool,
                     path: seq<nat>)
    requires Chain(color, g, h, start, stop, diff, found, path) && forall e :: e in g.copy ==> e.0 != start
    ensures path == [start] && (color[start] == Default ==> !found)
  {
    assert |path| > 1 ==> (start, path[1]).0 == start;
    assert (start, stop).0 == start;
  }

  lemma LoadKeepsColors(sys: System, s: Phase, ev: Event, t: Phase)
    requires Happens(sys, s, ev, t) && ev.Loaded? && ColorsMean(s)
    ensures ColorsMean(t) && NoneBlack(t) && KeepsGrey(s, t)
  {
    hide Covers, GraphSound, Carried, LeadsToCycle, Marked, Listed, Unmark, ColorsMean, KeepsGrey, NoneBlack;
    var g := LinkedAll(s.g, ev.from, ev.dst);
    var diff := ev.facts - s.g.pts[ev.dst];
    ChainFrame(s.color, g, t.g, ev.dst, ev.dst, diff, ev.found, ev.path);
    GreyOf(s);
    GreyGrows(s.color, s.g.copy, g.copy);
    if ev.found {
      LoadFindsCycle(s.color, g, t.g, ev.dst, diff, ev.path);
    }
    AfterMeans(s, t.g, ev.path, ev.found);
    UnmarkMeans(After(s, t.g, ev.path, ev.found));
    GreyKept(s, After(s, t.g, ev.path, ev.found), t);
  }

  lemma GreyOf(s: Phase)
    requires ColorsMean(s)
    ensures GreyLeadsToCycle(s.color, s.g.copy)
  {
  }

  lemma GreyKept(s: Phase, m: Phase, t: Phase)
    requires KeepsGrey(s, m) && KeepsGrey(m, t)
    ensures KeepsGrey(s, t)
  {
  }

  lemma StoreKeepsColors(sys: System, s: Phase, ev: Event, t: Phase)
    requires Happens(sys, s, ev, t) && ev.Stored? && ColorsMean(s)
    ensures ColorsMean(t) && KeepsGrey(s, t)
  {
    hide Covers, GraphSound, LeadsToCycle, Marked, Listed, ColorsMean, KeepsGrey, GreyLeadsToCycle;
    var g := WithCopy(s.g, ev.src, ev.v);
    var diff := s.g.pts[ev.src] - s.g.pts[ev.v];
    ChainFrame(s.color, g, t.g, ev.v, ev.src, diff, ev.found, ev.path);
    GreyOf(s);
    GreyGrows(s.color, s.g.copy, g.copy);
    if s.g.rep[ev.v] != ev.v {
      NothingFound(s.color, g, t.g, ev.v, ev.src, diff, ev.found, ev.path);
    } else if ev.found {
      StoreFindsCycle(s.color, g, t.g, ev.src, ev.v, diff, ev.path);
    }
    AfterMeans(s, t.g, ev.path, ev.found);
  }

  lemma EventKeepsColors(sys: System, s: Phase, ev: Event, t: Phase)
    requires Happens(sys, s, ev, t) && ColorsMean(s)
    ensures ColorsMean(t) && KeepsGrey(s, t)
    ensures !ev.Stored? ==> NoneBlack(t)
  {
    match ev
    case Loaded(_, _, _, _, _, _) => LoadKeepsColors(sys, s, ev, t);
    case Stored(_, _, _, _, _) => StoreKeepsColors(sys, s, ev, t);
    case Unmarked => UnmarkMeans(s);
  }

  lemma {:induction false} PhaseKeepsColors(sys: System, s: Phase, t: Phase, k: nat)
    requires Within(sys, s, t, k) && ColorsMean(s)
    ensures ColorsMean(t) && KeepsGrey(s, t)
    decreases k
  {
    hide ColorsMean, KeepsGrey, Happens;
    if k == 0 {
      NoGreyLost(s);
    } else {
      var m :| Within(sys, s, m, k - 1) && Moves(sys, m, t);
      PhaseKeepsColors(sys, s, m, k - 1);
      var ev :| Happens(sys, m, ev, t);
      EventKeepsColors(sys, m, ev, t);
      GreyKept(s, m, t);
    }
  }

  lemma NoGreyLost(s: Phase)
    ensures KeepsGrey(s, s)
  {
  }

  // ----- the phase of a new solver -----

  ghost predicate Uncolored(s: Phase) {
    s.black == {} && forall x :: 0 <= x < |s.color| ==> s.color[x] == Default
  }

  /** In every state of the phase a grey node has a path of copy edges into a copy cycle, and the black
      nodes are those listed for unmarking. */
  lemma GreyMeansCycle(sys: System, s: Phase, t: Phase)
    requires Uncolored(s) && Leads(sys, s, t)
    ensures forall x :: 0 <= x < |t.color| && t.color[x] == Grey ==> LeadsToCycle(t.g.copy, x)
    ensures forall x :: 0 <= x < |t.color| ==> (t.color[x] == Black <==> x in t.black)
  {
    hide LeadsToCycle;
    var k: nat :| Within(sys, s, t, k);
    PhaseKeepsColors(sys, s, t, k);
  }

  /** Nothing but grey nodes that lead into cycles is left of the colors when all are unmarked. */
  lemma ColorsAtTheEnd(sys: System, s: Phase, t: Phase)
    requires Uncolored(s) && Leads(sys, s, t) && t.black == {}
    ensures forall x :: 0 <= x < |t.color| ==>
      t.color[x] == Default || (t.color[x] == Grey && LeadsToCycle(t.g.copy, x))
    ensures !HasCycle(t.g.copy) ==> Uncolored(t)
  {
    hide Leads, Reaches;
    GreyMeansCycle(sys, s, t);
  }

  /** So as long as the copy edges have no cycle, each load and each store finds all nodes uncolored
      once the black nodes of the one before it are unmarked. */
  lemma NoCycleNoColor(sys: System, s: Phase, m: Phase, ev: Event, t: Phase)
    requires Uncolored(s) && Leads(sys, s, m) && Happens(sys, m, ev, t) && !ev.Stored?
    requires !HasCycle(t.g.copy)
    ensures Uncolored(t)
  {
    hide Happens, Reaches;
    var k: nat :| Within(sys, s, m, k);
    PhaseKeepsColors(sys, s, m, k);
    EventKeepsColors(sys, m, ev, t);
  }
}
