/** What the deep phase of include/aser/PointerAnalysis/Solver/DeepPropagation.h does, step by step:
    exactly which facts one call of deepPropagate hands on and which colors it leaves, and the events
    of which every run of the phase consists. */
module DeepSteps {
  import opened Constraints
  import opened CopyGraph
  import opened ConsGraph

  datatype Color = Default | Grey | Black

  /** The graph, the colors, and the nodes listed as black. */
  datatype Phase = Phase(g: Graph, color: seq<Color>, black: set<nat>)

  ghost function AddFacts(g: Graph, x: nat, diff: set<nat>): Graph
    requires x < |g.pts|
  {
    g.(pts := g.pts[x := g.pts[x] + diff])
  }

  // ----- one call of deepPropagate -----

  /** Pushing `diff` into `start` turns `g` into `h`, visits `path`, and answers `found`.

      A colored node takes nothing, and one that has all of `diff` hands nothing on.  Any other takes
      `diff` and hands what is new to it to one copy successor and no further one; `stop` is
      recognized but not served. */
  ghost predicate Chain(color: seq<Color>, g: Graph, h: Graph, start: nat, stop: nat, diff: set<nat>,
                        found: bool, path: seq<nat>)
    decreases |path|
  {
    && path != [] && path[0] == start && start < |g.pts| && start < |color|
    && if color[start] != Default then
         h == g && |path| == 1 && found == (color[start] == Grey)
       else if diff <= g.pts[start] then
         h == g && |path| == 1 && found == ((start, stop) in g.copy)
       else if |path| == 1 then
         h == AddFacts(g, start, diff) && if found then (start, stop) in g.copy else Targets(g.copy, start) == {}
       else
         && (start, path[1]) in g.copy && path[1] != stop
         && Chain(color, AddFacts(g, start, diff), h, path[1], stop, diff - g.pts[start], found, path[1..])
  }

  /** Only points-to sets change, they grow by parts of `diff`, and only along the path. */
  lemma {:induction false} ChainFrame(color: seq<Color>, g: Graph, h: Graph, start: nat, stop: nat, diff: set<nat>,
                                      found: bool, path: seq<nat>)
    requires Chain(color, g, h, start, stop, diff, found, path)
    ensures h == g.(pts := h.pts) && |h.pts| == |g.pts|
    ensures forall x :: 0 <= x < |g.pts| ==> g.pts[x] <= h.pts[x] <= g.pts[x] + diff
    ensures forall x :: 0 <= x < |g.pts| && x !in path ==> h.pts[x] == g.pts[x]
    ensures color[start] == Default ==> diff <= h.pts[start]
    decreases |path|
  {
    if color[start] == Default && !(diff <= g.pts[start]) && |path| > 1 {
      var g1 := AddFacts(g, start, diff);
      ChainFrame(color, g1, h, path[1], stop, diff - g.pts[start], found, path[1..]);
      assert path == [start] + path[1..];
      assert g1.pts[start] <= h.pts[start];
    }
  }

  /** On the way back every uncolored node of the path becomes grey if `stop` was found, else black. */
  ghost function Marked(color: seq<Color>, path: seq<nat>, found: bool): seq<Color> {
    seq(|color|, x requires 0 <= x < |color| =>
      if x in path && color[x] == Default then (if found then Grey else Black) else color[x])
  }

  ghost function Listed(color: seq<Color>, black: set<nat>, path: seq<nat>, found: bool): set<nat> {
    if found then black else black + set x | x in path && x < |color| && color[x] == Default
  }

  /** The state after such a call. */
  ghost function After(s: Phase, h: Graph, path: seq<nat>, found: bool): Phase {
    Phase(h, Marked(s.color, path, found), Listed(s.color, s.black, path, found))
  }

  /** The listed nodes, and only they, get the default color back. */
  ghost function Unmark(s: Phase): Phase {
    Phase(s.g, seq(|s.color|, x requires 0 <= x < |s.color| => if x in s.black then Default else s.color[x]), {})
  }

  // ----- the events of the phase -----

  /** Copy edges to (the super node of) `dst` from the super nodes of the given nodes. */
  function LinkedAll(g: Graph, from: set<nat>, dst: nat): Graph
    requires dst < |g.rep|
  {
    g.(copy := g.copy + set v | v in from && v < |g.rep| && g.rep[v] != g.rep[dst] :: (g.rep[v], g.rep[dst]))
  }

  /** Some node of the same super node as `v` has brought its points-to set. */
  ghost predicate Brought(g: Graph, from: set<nat>, v: nat, facts: set<nat>)
    requires v < |g.rep| && |g.pts| == |g.rep|
  {
    exists w :: w in from && w < |g.rep| && g.rep[w] == g.rep[v] && g.pts[w] <= facts
  }

  /** Each copy edge that is new for a load has brought the set of one node of its super node: the
      node's own set, which is stale if the node has been collapsed. */
  ghost predicate AllBrought(g: Graph, from: set<nat>, dst: nat, facts: set<nat>)
    requires dst < |g.rep| && |g.pts| == |g.rep|
  {
    forall v :: v in from && v < |g.rep| && !CopyRel(g, v, dst) ==> Brought(g, from, v, facts)
  }

  ghost predicate BroughtBySome(g: Graph, from: set<nat>, dst: nat, o: nat)
    requires dst < |g.rep| && |g.pts| == |g.rep|
  {
    exists w :: w in from && w < |g.rep| && !CopyRel(g, w, dst) && o in g.pts[w]
  }

  /** The facts that the new copy edges of a load bring, and no others. */
  ghost predicate Carried(g: Graph, from: set<nat>, dst: nat, facts: set<nat>)
    requires dst < |g.rep| && |g.pts| == |g.rep|
  {
    AllBrought(g, from, dst, facts) && forall o :: o in facts ==> BroughtBySome(g, from, dst, o)
  }

  /** A load edge visited, one new copy edge for a store, or the black nodes unmarked after a store. */
  datatype Event =
    | Loaded(src: nat, dst: nat, from: set<nat>, facts: set<nat>, found: bool, path: seq<nat>)
    | Stored(src: nat, dst: nat, v: nat, found: bool, path: seq<nat>)
    | Unmarked

  ghost predicate Happens(sys: System, s: Phase, ev: Event, t: Phase) {
    && Healthy(sys, s.g) && Healthy(sys, t.g)
    && match ev
       case Loaded(src, dst, from, facts, found, path) =>
         && (src, dst) in s.g.load && from <= s.g.pts[src] && Carried(s.g, from, dst, facts)
         && Chain(s.color, LinkedAll(s.g, from, dst), t.g, dst, dst, facts - s.g.pts[dst], found, path)
         && t == Unmark(After(s, t.g, path, found))
       case Stored(src, dst, v, found, path) =>
         && (src, dst) in s.g.store && v in s.g.pts[dst] && !CopyRel(s.g, src, v)
         && Chain(s.color, WithCopy(s.g, src, v), t.g, v, src, s.g.pts[src] - s.g.pts[v], found, path)
         && t == After(s, t.g, path, found)
       case Unmarked =>
         t == Unmark(s)
  }

  ghost predicate Moves(sys: System, s: Phase, t: Phase) {
    exists ev :: Happens(sys, s, ev, t)
  }

  /** `t` comes from `s` by `k` events. */
  ghost predicate Within(sys: System, s: Phase, t: Phase, k: nat)
    decreases k
  {
    if k == 0 then s == t else exists m :: Within(sys, s, m, k - 1) && Moves(sys, m, t)
  }

  ghost predicate Leads(sys: System, s: Phase, t: Phase) {
    exists k: nat :: Within(sys, s, t, k)
  }

  lemma LeadsNowhere(sys: System, s: Phase)
    ensures Leads(sys, s, s)
  {
    assert Within(sys, s, s, 0);
  }

  lemma LeadsByOne(sys: System, s: Phase, m: Phase, ev: Event, t: Phase)
    requires Leads(sys, s, m) && Happens(sys, m, ev, t)
    ensures Leads(sys, s, t)
  {
    var k: nat :| Within(sys, s, m, k);
    assert Moves(sys, m, t);
    assert Within(sys, s, t, k + 1);
  }

  lemma {:induction false} WithinTransitive(sys: System, s: Phase, m: Phase, t: Phase, j: nat, k: nat)
    requires Within(sys, s, m, j) && Within(sys, m, t, k)
    ensures Within(sys, s, t, j + k)
    decreases k
  {
    hide Moves;
    if k > 0 {
      var l :| Within(sys, m, l, k - 1) && Moves(sys, l, t);
      WithinTransitive(sys, s, m, l, j, k - 1);
      assert Within(sys, s, l, j + k - 1) && Moves(sys, l, t);
    }
  }

  lemma LeadsTransitive(sys: System, s: Phase, m: Phase, t: Phase)
    requires Leads(sys, s, m) && Leads(sys, m, t)
    ensures Leads(sys, s, t)
  {
    var j: nat :| Within(sys, s, m, j);
    var k: nat :| Within(sys, m, t, k);
    WithinTransitive(sys, s, m, t, j, k);
  }
}
