/** Deep propagation (include/aser/PointerAnalysis/Solver/DeepPropagation.h): one sweep over the
    copy edges, then a loop over loads and stores that pushes new facts depth-first. */
module DeepSolver {
  import opened Constraints
  import opened CopyGraph
  import opened ConsGraph
  import opened DeepColors
  import opened DeepSteps
  import opened Reachability
  import opened WaveSolver

  /** A step of the deep phase: every points-to set, also of collapsed nodes, can only grow. */
  ghost predicate Deepens(sys: System, g: Graph, h: Graph)
    requires Healthy(sys, g)
  {
    Extends(sys, g, h) && forall x :: 0 <= x < sys.n ==> g.pts[x] <= h.pts[x]
  }

  lemma DeepensTransitive(sys: System, g: Graph, h: Graph, k: Graph)
    requires Healthy(sys, g) && Deepens(sys, g, h) && Deepens(sys, h, k)
    ensures Deepens(sys, g, k)
  {
  }

  /** `diff` is in the points-to set of `x` in every solution. */
  ghost predicate Owed(sys: System, x: nat, diff: set<nat>)
    requires WfSystem(sys) && x < sys.n
  {
    (forall v :: v in diff ==> v < sys.n) && forall t :: Solves(sys, t) ==> diff <= t[x]
  }

  lemma AddFactsDeepens(sys: System, g: Graph, x: nat, diff: set<nat>)
    requires Healthy(sys, g) && x < sys.n && Owed(sys, x, diff)
    ensures Deepens(sys, g, AddFacts(g, x, diff))
  {
    var h := AddFacts(g, x, diff);
    assert WfGraph(sys.n, h) && Grows(g, h);
    forall t | Solves(sys, t) ensures SoundFor(h, t) {
      assert SoundFor(g, t);
    }
  }

  lemma WithCopyDeepens(sys: System, g: Graph, a: nat, b: nat)
    requires Healthy(sys, g) && a < sys.n && b < sys.n && Included(sys, a, b)
    ensures Deepens(sys, g, WithCopy(g, a, b)) && CopyRel(WithCopy(g, a, b), a, b)
  {
    WithCopyExtends(sys, g, a, b);
  }

  /** What is owed to a node is owed to its copy successors, and to whatever includes it. */
  lemma OwedAlongCopy(sys: System, g: Graph, a: nat, b: nat, diff: set<nat>)
    requires Healthy(sys, g) && (a, b) in g.copy && Owed(sys, a, diff)
    ensures Owed(sys, b, diff)
  {
    forall t | Solves(sys, t) ensures diff <= t[b] {
      assert SoundFor(g, t) && t[(a, b).0] <= t[(a, b).1];
    }
  }

  lemma OwedByInclusion(sys: System, g: Graph, a: nat, b: nat, diff: set<nat>)
    requires Healthy(sys, g) && a < sys.n && b < sys.n && Included(sys, a, b) && diff <= g.pts[a]
    ensures Owed(sys, b, diff)
  {
    forall t | Solves(sys, t) ensures diff <= t[b] {
      assert SoundFor(g, t) && g.pts[a] <= t[a] <= t[b];
    }
  }

  /** Linking one node more. */
  lemma OneMoreLinked(g0: Graph, from: set<nat>, more: set<nat>, dst: nat, v: nat)
    requires WfGraph(|g0.pts|, g0) && dst < |g0.rep| && v < |g0.rep| && more == from + {v}
    ensures WithCopy(LinkedAll(g0, from, dst), v, dst) == LinkedAll(g0, more, dst)
    ensures CopyRel(LinkedAll(g0, more, dst), v, dst)
  {
  }

  lemma LinkedIff(g0: Graph, from: set<nat>, dst: nat, v: nat)
    requires WfGraph(|g0.pts|, g0) && dst < |g0.rep| && v < |g0.rep|
    ensures CopyRel(LinkedAll(g0, from, dst), v, dst) <==>
      CopyRel(g0, v, dst) || exists w :: w in from && w < |g0.rep| && g0.rep[w] == g0.rep[v]
  {
  }

  /** The facts carried so far, with those of `v` if its copy edge is new. */
  lemma OneMoreCarried(g0: Graph, from: set<nat>, more: set<nat>, dst: nat, v: nat, facts: set<nat>)
    requires WfGraph(|g0.pts|, g0) && dst < |g0.rep| && v < |g0.rep| && more == from + {v}
    requires Carried(g0, from, dst, facts)
    ensures Carried(g0, more, dst, if CopyRel(LinkedAll(g0, from, dst), v, dst) then facts else facts + g0.pts[v])
  {
    LinkedIff(g0, from, dst, v);
    OneMoreBrought(g0, from, more, dst, v, facts);
    hide LinkedAll, WfGraph, AllBrought;
    forall o | o in facts ensures BroughtBySome(g0, more, dst, o) {
      assert BroughtBySome(g0, from, dst, o);
    }
  }

  lemma OneMoreBrought(g0: Graph, from: set<nat>, more: set<nat>, dst: nat, v: nat, facts: set<nat>)
    requires WfGraph(|g0.pts|, g0) && dst < |g0.rep| && v < |g0.rep| && more == from + {v}
    requires AllBrought(g0, from, dst, facts)
    ensures AllBrought(g0, more, dst, if CopyRel(LinkedAll(g0, from, dst), v, dst) then facts else facts + g0.pts[v])
  {
    LinkedIff(g0, from, dst, v);
    hide LinkedAll, CopyRel, Brought, WfGraph;
    if !CopyRel(LinkedAll(g0, from, dst), v, dst) {
      BroughtGrows(g0, from, more, facts, facts + g0.pts[v]);
      BringsItself(g0, more, v, facts + g0.pts[v]);
    } else if CopyRel(g0, v, dst) {
      BroughtGrows(g0, from, more, facts, facts);
    } else {
      var w :| w in from && w < |g0.rep| && g0.rep[w] == g0.rep[v];
      SameSuperNode(g0, from, dst, v, w, facts);
      BroughtGrows(g0, from, more, facts, facts);
    }
  }

  lemma BringsItself(g: Graph, from: set<nat>, v: nat, facts: set<nat>)
    requires |g.pts| == |g.rep| && v < |g.rep| && v in from && g.pts[v] <= facts
    ensures Brought(g, from, v, facts)
  {
  }

  lemma SameSuperNode(g: Graph, from: set<nat>, dst: nat, v: nat, w: nat, facts: set<nat>)
    requires |g.pts| == |g.rep| && dst < |g.rep| && v < |g.rep| && w < |g.rep| && g.rep[w] == g.rep[v]
    requires w in from && AllBrought(g, from, dst, facts) && !CopyRel(g, v, dst)
    ensures Brought(g, from, v, facts)
  {
    assert Brought(g, from, w, facts);
  }

  lemma NothingLinked(g0: Graph, dst: nat)
    requires WfGraph(|g0.pts|, g0) && dst < |g0.rep|
    ensures LinkedAll(g0, {}, dst) == g0 && Carried(g0, {}, dst, {})
  {
    assert LinkedAll(g0, {}, dst).copy == g0.copy;
  }

  lemma AllLinked(g0: Graph, from: set<nat>, dst: nat)
    requires WfGraph(|g0.pts|, g0) && dst < |g0.rep|
    ensures forall v :: v in from && v < |g0.rep| ==> CopyRel(LinkedAll(g0, from, dst), v, dst)
  {
  }

  lemma BroughtGrows(g: Graph, from: set<nat>, more: set<nat>, facts: set<nat>, facts': set<nat>)
    requires |g.pts| == |g.rep| && from <= more && facts <= facts'
    ensures forall v: nat :: v < |g.rep| && Brought(g, from, v, facts) ==> Brought(g, more, v, facts')
  {
  }

  ghost function MissingFacts(g: Graph): set<Edge> {
    set x: nat, v: nat | x < |g.pts| && v < |g.pts| && v !in g.pts[x] :: (x, v)
  }

  lemma MissingFactsShrinks(sys: System, g: Graph, h: Graph)
    requires Healthy(sys, g) && Deepens(sys, g, h)
    ensures MissingFacts(h) <= MissingFacts(g)
    ensures h.pts != g.pts ==> MissingFacts(h) < MissingFacts(g)
  {
    if h.pts != g.pts {
      var x: nat :| x < sys.n && h.pts[x] != g.pts[x];
      var v :| v in h.pts[x] && v !in g.pts[x];
      assert (x, v) in MissingFacts(g) && (x, v) !in MissingFacts(h);
    }
  }

  /** With loads and stores met, the result is the least solution iff no copy edge is left unsatisfied. */
  lemma LeastIffCopiesMet(sys: System, g: Graph)
    requires Healthy(sys, g) && LoadsMet(g) && StoresMet(g)
    ensures IsLeastPts(sys, Read(g)) <==> CopyClosed(g.pts, g.copy)
  {
    if CopyClosed(g.pts, g.copy) {
      FixpointIsLeast(sys, g);
    }
    if IsLeastPts(sys, Read(g)) {
      assert SoundFor(g, Read(g));
      forall e | e in g.copy ensures g.pts[e.0] <= g.pts[e.1] {
        assert Read(g)[e.0] <= Read(g)[e.1];
      }
    }
  }

  // ----- the pass over loads and stores -----

  /** A pass that began at `g1` and has seen the given loads and stores; `changed` records
      exactly whether some points-to set has grown. */
  ghost predicate DeepInv(sys: System, g1: Graph, g: Graph, cache: map<Key, set<nat>>,
                          changed: bool, loads: set<Edge>, stores: set<Edge>)
    requires Healthy(sys, g1)
  {
    && Deepens(sys, g1, g) && EdgeCacheOk(g, cache)
    && (changed <==> g.pts != g1.pts)
    && LoadsSeen(g1, loads, cache) && StoresSeen(g1, stores, cache)
  }

  lemma SameDeepConstraints(sys: System, g1: Graph, g: Graph, cache: map<Key, set<nat>>,
                            changed: bool, loads: set<Edge>, stores: set<Edge>)
    requires Healthy(sys, g1) && DeepInv(sys, g1, g, cache, changed, loads, stores)
    ensures g.load == g1.load && g.store == g1.store
  {
  }

  lemma EdgeDeepened(sys: System, g1: Graph, g: Graph, h: Graph, cache: map<Key, set<nat>>,
                     changed: bool, changed': bool, loads: set<Edge>, stores: set<Edge>, key: Key)
    requires Healthy(sys, g1) && DeepInv(sys, g1, g, cache, changed, loads, stores)
    requires Deepens(sys, g, h) && (changed' <==> changed || h.pts != g.pts)
    requires key.0 < sys.n && key.1 < sys.n && g.rep[key.0] == key.0
    requires forall v :: v in g.pts[key.0] - Cached(cache, key) ==> v < sys.n && Demands(h, key, v)
    ensures var cache' := cache[key := Cached(cache, key) + g.pts[key.0]];
      DeepInv(sys, g1, h, cache', changed',
        if key.2.Load? then loads + {(key.0, key.1)} else loads,
        if key.2.Store? then stores + {(key.1, key.0)} else stores)
  {
    hide Covers, GraphSound, EdgeCacheOk, Demands, LoadsSeen, StoresSeen;
    DeepensTransitive(sys, g1, g, h);
    EdgeCacheGrows(g, h, cache);
    CacheOneMore(h, cache, key, g.pts[key.0]);
    SeenOneMore(g1, cache, key, g.pts[key.0], loads, stores);
    PtsStayDifferent(g1.pts, g.pts, h.pts);
  }

  lemma PtsStayDifferent(p: seq<set<nat>>, q: seq<set<nat>>, r: seq<set<nat>>)
    requires |p| == |q| == |r| && forall x :: 0 <= x < |p| ==> p[x] <= q[x] <= r[x]
    ensures r != p <==> q != p || r != q
  {
    if r == p {
      assert forall x :: 0 <= x < |p| ==> p[x] == q[x];
    }
  }

  /** What the deep phase certifies when it stops: loads and stores are met, and each cache is
      exactly the points-to set it stands for. */
  ghost predicate CachesExact(g: Graph, cache: map<Key, set<nat>>)
    requires WfGraph(|g.pts|, g)
  {
    && (forall e :: e in g.load ==> Cached(cache, (e.0, e.1, Load)) == g.pts[e.0])
    && (forall e :: e in g.store ==> Cached(cache, (e.1, e.0, Store)) == g.pts[e.1])
  }

  lemma QuietDeepPass(sys: System, g1: Graph, g: Graph, cache: map<Key, set<nat>>, loads: set<Edge>, stores: set<Edge>)
    requires Healthy(sys, g1) && DeepInv(sys, g1, g, cache, false, loads, stores)
    requires g1.load <= loads && g1.store <= stores
    ensures LoadsMet(g) && StoresMet(g) && CachesExact(g, cache)
  {
    forall e | e in g.load ensures Cached(cache, (e.0, e.1, Load)) == g.pts[e.0] {
      var key := (e.0, e.1, Load);
      assert e in loads && forall v :: v in Cached(cache, key) ==> v in cache[key];
    }
    forall e | e in g.store ensures Cached(cache, (e.1, e.0, Store)) == g.pts[e.1] {
      var key := (e.1, e.0, Store);
      assert e in stores && forall v :: v in Cached(cache, key) ==> v in cache[key];
    }
    ExactCachesMeet(g, cache);
  }

  lemma ExactCachesMeet(g: Graph, cache: map<Key, set<nat>>)
    requires WfGraph(|g.pts|, g) && EdgeCacheOk(g, cache) && CachesExact(g, cache)
    ensures LoadsMet(g) && StoresMet(g)
  {
    forall e, v | e in g.load && v in g.pts[e.0] ensures CopyRel(g, v, e.1) {
      var key := (e.0, e.1, Load);
      assert v in cache[key] && Demands(g, key, v);
    }
    forall e, v | e in g.store && v in g.pts[e.1] ensures CopyRel(g, e.0, v) {
      var key := (e.1, e.0, Store);
      assert v in cache[key] && Demands(g, key, v);
    }
  }

  // ----- the colors one call leaves -----

  lemma NothingMarked(s: Phase, found: bool)
    ensures After(s, s.g, [], found) == s
  {
    assert Marked(s.color, [], found) == s.color;
  }

  lemma OnlyColored(s: Phase, x: nat, found: bool)
    requires x < |s.color| && s.color[x] != Default
    ensures After(s, s.g, [x], found) == s
  {
    assert Marked(s.color, [x], found) == s.color;
  }

  /** The head of the path is marked last. */
  lemma MarkOneMore(s: Phase, h: Graph, path: seq<nat>, found: bool)
    requires path != [] && path[0] < |s.color| && s.color[path[0]] == Default
    ensures var t := After(s, h, path[1..], found); After(s, h, path, found) == Phase(h,
      t.color[path[0] := if found then Grey else Black],
      if found then t.black else t.black + {path[0]})
  {
    assert forall x :: x in path <==> x == path[0] || x in path[1..];
    var t := After(s, h, path[1..], found);
    assert Marked(s.color, path, found) == t.color[path[0] := if found then Grey else Black];
  }

  class DeepPropagation {
    const g: ConstraintGraph
    var cachedPTS: seq<set<nat>>
    var edgeCachedPTS: map<Key, set<nat>>
    var color: seq<Color>
    var blackNodes: seq<nat>

    ghost predicate Valid()
      reads this, g
    {
      && Healthy(g.sys, g.G()) && EdgeCacheOk(g.G(), edgeCachedPTS)
      && |color| == g.sys.n && forall i :: 0 <= i < |blackNodes| ==> blackNodes[i] < |color|
    }

    /** The state of the deep phase. */
    ghost function Now(): Phase
      reads this, g
    {
      Phase(g.G(), color, set x | x in blackNodes)
    }

    constructor (g: ConstraintGraph)
      requires Healthy(g.sys, g.G())
      ensures Valid() && this.g == g && edgeCachedPTS == map[] && blackNodes == []
      ensures color == seq(g.sys.n, i => Default)
    {
      this.g := g;
      cachedPTS, edgeCachedPTS := [], map[];
      color, blackNodes := seq(|g.pts|, i => Default), [];
    }

    method MarkBlack(x: nat)
      requires x < |color|
      modifies this`color, this`blackNodes
      ensures color == old(color)[x := Black] && blackNodes == old(blackNodes) + [x]
      ensures Now() == old(Now()).(color := color, black := old(Now()).black + {x})
    {
      color, blackNodes := color[x := Black], blackNodes + [x];
    }

    /** Only the nodes in `blackNodes` go back to the default color; grey nodes stay grey. */
    method UnmarkBlack()
      requires forall i :: 0 <= i < |blackNodes| ==> blackNodes[i] < |color|
      modifies this`color, this`blackNodes
      ensures blackNodes == [] && |color| == |old(color)|
      ensures forall x :: 0 <= x < |color| ==>
        color[x] == if x in old(blackNodes) then Default else old(color)[x]
      ensures Now() == Unmark(old(Now()))
    {
      var i := 0;
      while i < |blackNodes|
        invariant i <= |blackNodes| && |color| == |old(color)| && blackNodes == old(blackNodes)
        invariant forall x :: 0 <= x < |color| ==> color[x] == if x in blackNodes[..i] then Default else old(color)[x]
      {
        color := color[blackNodes[i] := Default];
        assert blackNodes[..i + 1] == blackNodes[..i] + [blackNodes[i]];
        i := i + 1;
      }
      assert blackNodes[..i] == blackNodes;
      blackNodes := [];
      assert color == Unmark(old(Now())).color;
    }

    ghost predicate ColorsOk()
      reads this, g
    {
      |color| == g.sys.n && forall i :: 0 <= i < |blackNodes| ==> blackNodes[i] < |color|
    }

    /** Pushes `diff` into `start` and on along one copy successor, unless `start` is colored: exactly
        what `Chain` and `After` say happens to the facts, the answer and the colors.  The nodes it goes
        past are uncolored, and where it ends decides the answer: a grey node answers true, a black one
        false, and an uncolored one true iff it has a copy edge to `stop`. */
    method DeepPropagate(start: nat, stop: nat, diff: set<nat>, changed: bool)
      returns (found: bool, changed': bool, ghost path: seq<nat>)
      requires Healthy(g.sys, g.G()) && ColorsOk() && start < g.sys.n && Owed(g.sys, start, diff)
      modifies g`pts, this`color, this`blackNodes
      ensures Deepens(g.sys, old(g.G()), g.G()) && ColorsOk()
      ensures Chain(old(color), old(g.G()), g.G(), start, stop, diff, found, path)
      ensures path != [] && IsPath(g.copy, path, start, path[|path| - 1]) && stop !in path[1..]
      ensures forall i :: 0 <= i < |path| - 1 ==> path[i] < g.sys.n && old(color)[path[i]] == Default
      ensures var end := path[|path| - 1]; end < g.sys.n && (found <==>
        old(color)[end] == Grey || (old(color)[end] == Default && (end, stop) in g.copy))
      ensures Now() == After(old(Now()), g.G(), path, found)
      ensures changed' <==> changed || g.pts != old(g.pts)
      ensures old(color)[start] == Default ==> diff <= g.pts[start]
      decreases MissingFacts(g.G()), 1
    {
      hide Marked, Listed, Covers, GraphSound;
      found, changed', path := color[start] == Grey, changed, [start];
      ghost var s := Now();
      if color[start] == Default {
        if diff - g.pts[start] == {} {
          found := stop in Targets(g.copy, start);
          assert forall v :: v in diff && v !in g.pts[start] ==> v in diff - g.pts[start];
          NothingMarked(s, found);
          assert path[1..] == [];
        } else {
          found, path := PushOn(start, stop, diff);
          changed' := true;
        }
        MarkOneMore(s, g.G(), path, found);
        if found {
          color := color[start := Grey];
        } else {
          MarkBlack(start);
        }
      } else {
        OnlyColored(s, start, found);
      }
      ChainAnswers(s.color, s.g, g.G(), start, stop, diff, found, path);
    }

    /** The loop over the copy successors returns at the first, so at most one of them is served. */
    method PushOn(start: nat, stop: nat, diff: set<nat>) returns (found: bool, ghost path: seq<nat>)
      requires Healthy(g.sys, g.G()) && ColorsOk() && start < g.sys.n && Owed(g.sys, start, diff)
      requires diff - g.pts[start] != {} && color[start] == Default
      modifies g`pts, this`color, this`blackNodes
      ensures Deepens(g.sys, old(g.G()), g.G()) && ColorsOk()
      ensures Chain(old(color), old(g.G()), g.G(), start, stop, diff, found, path)
      ensures path[0] == start && Now() == After(old(Now()), g.G(), path[1..], found)
      ensures diff <= g.pts[start] && g.pts != old(g.pts)
      decreases MissingFacts(g.G()), 0
    {
      hide Covers, GraphSound, Marked, Listed;
      found, path := false, [start];
      ghost var s := Now();
      var newPTS := diff - g.pts[start];
      var succ := Targets(g.copy, start);
      ghost var g0 := g.G();
      ghost var g1 := AddFacts(g0, start, diff);
      AddFactsDeepens(g.sys, g0, start, diff);
      assert g0.pts[start] + newPTS == g0.pts[start] + diff;
      g.pts := g.pts[start := g.pts[start] + newPTS];
      var v :| v in newPTS;
      assert v in g1.pts[start] && v !in g0.pts[start];
      MissingFactsShrinks(g.sys, g0, g1);
      NothingMarked(s, found);
      assert path[1..] == [];
      if succ != {} {
        var c :| c in succ;
        assert (start, c) in g1.copy;
        found := c == stop;
        if !found {
          OwedAlongCopy(g.sys, g1, start, c, diff);
          var changed;
          ghost var rest;
          found, changed, rest := DeepPropagate(c, stop, newPTS, true);
          DeepensTransitive(g.sys, g0, g1, g.G());
          path := [start] + rest;
          assert path[1..] == rest;
        } else {
          NothingMarked(s, true);
        }
      }
    }

    /** New copy edges for a load, and the facts they bring: those of one node of each super node that
        was not linked to `dst` before. */
    method LinkLoad(src: nat, dst: nat, newEdgePTS: set<nat>) returns (newPTS: set<nat>)
      requires Healthy(g.sys, g.G()) && (src, dst) in g.load && newEdgePTS <= g.pts[src]
      modifies g`copy
      ensures Deepens(g.sys, old(g.G()), g.G())
      ensures forall v :: v in newEdgePTS ==> v < g.sys.n && CopyRel(g.G(), v, dst)
      ensures Owed(g.sys, dst, newPTS)
      ensures g.G() == LinkedAll(old(g.G()), newEdgePTS, dst) && Carried(old(g.G()), newEdgePTS, dst, newPTS)
    {
      hide Covers, GraphSound, LinkedAll, AllBrought, BroughtBySome;
      newPTS := {};
      ghost var g0, done := g.G(), {};
      NothingLinked(g0, dst);
      forall v | v in newEdgePTS ensures Included(g.sys, v, dst) {
        LoadIncludes(g.sys, g0, src, dst, v);
      }
      var todo := newEdgePTS;
      while todo != {}
        invariant todo <= newEdgePTS && done == newEdgePTS - todo
        invariant Deepens(g.sys, g0, g.G()) && Owed(g.sys, dst, newPTS)
        invariant g.G() == LinkedAll(g0, done, dst) && Carried(g0, done, dst, newPTS)
        decreases todo
      {
        var v :| v in todo;
        ghost var before := g.G();
        WithCopyDeepens(g.sys, before, v, dst);
        OneMoreLinked(g0, done, done + {v}, dst, v);
        OneMoreCarried(g0, done, done + {v}, dst, v, newPTS);
        var newCons := g.AddCopy(v, dst);
        DeepensTransitive(g.sys, g0, before, g.G());
        if newCons {
          OwedByInclusion(g.sys, before, v, dst, g.pts[v]);
          newPTS := newPTS + g.pts[v];
        }
        todo, done := todo - {v}, done + {v};
      }
      assert done == newEdgePTS;
      AllLinked(g0, newEdgePTS, dst);
    }

    /** One load edge: linked to what is new in the set of its pointer, and the facts handed on. */
    method VisitLoad(src: nat, dst: nat, changed: bool, ghost g1: Graph, ghost loads: set<Edge>, ghost stores: set<Edge>)
      returns (changed': bool, ghost ev: Event)
      requires Healthy(g.sys, g1) && (src, dst) in g1.load && ColorsOk()
      requires DeepInv(g.sys, g1, g.G(), edgeCachedPTS, changed, loads, stores)
      modifies g, this`edgeCachedPTS, this`color, this`blackNodes
      ensures DeepInv(g.sys, g1, g.G(), edgeCachedPTS, changed', loads + {(src, dst)}, stores) && ColorsOk()
      ensures ev.Loaded? && (ev.src, ev.dst) == (src, dst)
      ensures ev.from == old(g.pts[src] - Cached(edgeCachedPTS, (src, dst, Load)))
      ensures Happens(g.sys, old(Now()), ev, Now()) && blackNodes == []
      ensures old(color)[dst] == Default ==> ev.facts <= g.pts[dst]
    {
      hide Chain, Marked, Listed, Carried, Covers, GraphSound, EdgeCacheOk, LoadsSeen, StoresSeen;
      var key := (src, dst, Load);
      var newEdgePTS := g.pts[src] - Cached(edgeCachedPTS, key);
      ghost var g0, cache0 := g.G(), edgeCachedPTS;
      edgeCachedPTS := edgeCachedPTS[key := Cached(edgeCachedPTS, key) + newEdgePTS];
      assert Cached(cache0, key) + newEdgePTS == Cached(cache0, key) + g0.pts[src];
      var newPTS := LinkLoad(src, dst, newEdgePTS);
      ghost var linked, path := g.G(), [];
      var found;
      found, changed', path := DeepPropagate(dst, dst, newPTS - g.pts[dst], changed);
      UnmarkBlack();
      DeepensTransitive(g.sys, g0, linked, g.G());
      assert linked.pts[dst] <= g.pts[dst];
      EdgeDeepened(g.sys, g1, g0, g.G(), cache0, changed, changed', loads, stores, key);
      ev := Loaded(src, dst, newEdgePTS, newPTS, found, path);
    }

    /** For a store, each new copy edge is followed at once by the facts it brings. */
    method LinkStore(src: nat, dst: nat, newEdgePTS: set<nat>, changed: bool) returns (changed': bool)
      requires Healthy(g.sys, g.G()) && ColorsOk() && (src, dst) in g.store && newEdgePTS <= g.pts[dst]
      modifies g, this`color, this`blackNodes
      ensures Deepens(g.sys, old(g.G()), g.G()) && ColorsOk()
      ensures forall v :: v in newEdgePTS ==> v < g.sys.n && CopyRel(g.G(), src, v)
      ensures changed' <==> changed || g.pts != old(g.pts)
      ensures Leads(g.sys, old(Now()), Now())
    {
      hide Leads, Covers, GraphSound;
      changed' := changed;
      ghost var g0, s0 := g.G(), Now();
      LeadsNowhere(g.sys, s0);
      forall v | v in newEdgePTS ensures Included(g.sys, src, v) {
        StoreIncludes(g.sys, g0, src, dst, v);
      }
      var todo := newEdgePTS;
      while todo != {}
        invariant todo <= newEdgePTS && ColorsOk()
        invariant Deepens(g.sys, g0, g.G())
        invariant forall v :: v in newEdgePTS - todo ==> CopyRel(g.G(), src, v)
        invariant changed' <==> changed || g.pts != g0.pts
        invariant Leads(g.sys, s0, Now())
        decreases todo
      {
        var v :| v in todo;
        ghost var before, s := g.G(), Now();
        changed' := LinkOneStore(src, dst, v, changed');
        DeepensTransitive(g.sys, g0, before, g.G());
        PtsStayDifferent(g0.pts, before.pts, g.pts);
        LeadsTransitive(g.sys, s0, s, Now());
        todo := todo - {v};
      }
    }

    /** One new copy edge for a store, if it is new. */
    method LinkOneStore(src: nat, dst: nat, v: nat, changed: bool) returns (changed': bool)
      requires Healthy(g.sys, g.G()) && ColorsOk()
      requires (src, dst) in g.store && v in g.pts[dst] && Included(g.sys, src, v)
      modifies g, this`color, this`blackNodes
      ensures Deepens(g.sys, old(g.G()), g.G()) && ColorsOk()
      ensures CopyRel(g.G(), src, v)
      ensures changed' <==> changed || g.pts != old(g.pts)
      ensures !old(CopyRel(g.G(), src, v)) && old(color)[v] == Default ==> old(g.pts)[src] <= g.pts[v]
      ensures Leads(g.sys, old(Now()), Now())
    {
      hide Leads, Chain, Marked, Listed, Unmark, Covers, GraphSound;
      changed' := changed;
      ghost var before, s := g.G(), Now();
      LeadsNowhere(g.sys, s);
      WithCopyDeepens(g.sys, before, src, v);
      var newCons := g.AddCopy(src, v);
      if newCons {
        ghost var linked := g.G();
        OwedByInclusion(g.sys, linked, src, v, g.pts[src]);
        ghost var path;
        var found;
        found, changed', path := DeepPropagate(v, src, g.pts[src] - g.pts[v], changed);
        assert old(color)[v] == Default ==> linked.pts[src] - linked.pts[v] <= g.pts[v] && linked.pts[v] <= g.pts[v];
        DeepensTransitive(g.sys, before, linked, g.G());
        LeadsByOne(g.sys, s, s, Stored(src, dst, v, found, path), Now());
      } else {
        assert g.copy == before.copy;
      }
    }

    method VisitStore(src: nat, dst: nat, changed: bool, ghost g1: Graph, ghost loads: set<Edge>, ghost stores: set<Edge>)
      returns (changed': bool)
      requires Healthy(g.sys, g1) && (src, dst) in g1.store && ColorsOk()
      requires DeepInv(g.sys, g1, g.G(), edgeCachedPTS, changed, loads, stores)
      modifies g, this`edgeCachedPTS, this`color, this`blackNodes
      ensures DeepInv(g.sys, g1, g.G(), edgeCachedPTS, changed', loads, stores + {(src, dst)}) && ColorsOk()
      ensures Leads(g.sys, old(Now()), Now()) && blackNodes == []
    {
      var key := (dst, src, Store);
      var newEdgePTS := g.pts[dst] - Cached(edgeCachedPTS, key);
      ghost var g0, cache0 := g.G(), edgeCachedPTS;
      edgeCachedPTS := edgeCachedPTS[key := Cached(edgeCachedPTS, key) + newEdgePTS];
      assert Cached(cache0, key) + newEdgePTS == Cached(cache0, key) + g0.pts[dst];
      changed' := LinkStore(src, dst, newEdgePTS, changed);
      ghost var linked := Now();
      UnmarkBlack();
      LeadsByOne(g.sys, old(Now()), linked, Unmarked, Now());
      EdgeDeepened(g.sys, g1, g0, g.G(), cache0, changed, changed', loads, stores, key);
    }

    method VisitLoads(id: nat, changed: bool, ghost g1: Graph, ghost loads: set<Edge>, ghost stores: set<Edge>)
      returns (changed': bool, ghost seen: set<Edge>)
      requires Healthy(g.sys, g1) && ColorsOk()
      requires DeepInv(g.sys, g1, g.G(), edgeCachedPTS, changed, loads, stores)
      modifies g, this`edgeCachedPTS, this`color, this`blackNodes
      ensures DeepInv(g.sys, g1, g.G(), edgeCachedPTS, changed', seen, stores) && ColorsOk()
      ensures Leads(g.sys, old(Now()), Now()) && (old(blackNodes) == [] ==> blackNodes == [])
      ensures seen == loads + set e | e in g1.load && e.0 == id
    {
      SameDeepConstraints(g.sys, g1, g.G(), edgeCachedPTS, changed, loads, stores);
      hide DeepInv, Healthy, Leads, Happens, ColorsOk, Now, SeenOf;
      changed', seen := changed, loads;
      ghost var s0 := Now();
      LeadsNowhere(g.sys, s0);
      var todo := set e | e in g.load && e.0 == id;
      ghost var here := set e | e in g1.load && e.0 == id;
      NoneSeen(loads, here);
      while todo != {}
        invariant DeepInv(g.sys, g1, g.G(), edgeCachedPTS, changed', seen, stores) && ColorsOk()
        invariant todo <= here && seen == SeenOf(loads, here, todo) && Leads(g.sys, s0, Now())
        invariant old(blackNodes) == [] ==> blackNodes == []
        decreases todo
      {
        var e :| e in todo;
        OneMoreSeen(loads, here, todo, e);
        ghost var s, ev := Now(), Unmarked;
        changed', ev := VisitLoad(e.0, e.1, changed', g1, seen, stores);
        LeadsByOne(g.sys, s0, s, ev, Now());
        todo, seen := todo - {e}, seen + {(e.0, e.1)};
      }
    }

    method VisitStores(id: nat, changed: bool, ghost g1: Graph, ghost loads: set<Edge>, ghost stores: set<Edge>)
      returns (changed': bool, ghost seen: set<Edge>)
      requires Healthy(g.sys, g1) && ColorsOk()
      requires DeepInv(g.sys, g1, g.G(), edgeCachedPTS, changed, loads, stores)
      modifies g, this`edgeCachedPTS, this`color, this`blackNodes
      ensures DeepInv(g.sys, g1, g.G(), edgeCachedPTS, changed', loads, seen) && ColorsOk()
      ensures Leads(g.sys, old(Now()), Now()) && (old(blackNodes) == [] ==> blackNodes == [])
      ensures seen == stores + set e | e in g1.store && e.1 == id
    {
      SameDeepConstraints(g.sys, g1, g.G(), edgeCachedPTS, changed, loads, stores);
      hide DeepInv, Healthy, Leads, Happens, ColorsOk, Now, SeenOf;
      changed', seen := changed, stores;
      ghost var s0 := Now();
      LeadsNowhere(g.sys, s0);
      var todo := set e | e in g.store && e.1 == id;
      ghost var here := set e | e in g1.store && e.1 == id;
      NoneSeen(stores, here);
      while todo != {}
        invariant DeepInv(g.sys, g1, g.G(), edgeCachedPTS, changed', loads, seen) && ColorsOk()
        invariant todo <= here && seen == SeenOf(stores, here, todo) && Leads(g.sys, s0, Now())
        invariant old(blackNodes) == [] ==> blackNodes == []
        decreases todo
      {
        var e :| e in todo;
        OneMoreSeen(stores, here, todo, e);
        ghost var s := Now();
        changed' := VisitStore(e.0, e.1, changed', g1, loads, seen);
        LeadsTransitive(g.sys, s0, s, Now());
        todo, seen := todo - {e}, seen + {(e.0, e.1)};
      }
    }

    /** One round of the deep phase: `changed` says exactly whether a points-to set has grown. */
    method DeepPass() returns (changed: bool)
      requires Valid()
      modifies g, this`edgeCachedPTS, this`color, this`blackNodes
      ensures Valid() && Deepens(g.sys, old(g.G()), g.G())
      ensures changed <==> g.pts != old(g.pts)
      ensures !changed ==> LoadsMet(g.G()) && StoresMet(g.G()) && CachesExact(g.G(), edgeCachedPTS)
      ensures Leads(g.sys, old(Now()), Now()) && (old(blackNodes) == [] ==> blackNodes == [])
    {
      hide Leads, Happens;
      changed := false;
      ghost var g1, s0 := g.G(), Now();
      LeadsNowhere(g.sys, s0);
      ghost var loads: set<Edge>, stores: set<Edge> := {}, {};
      var id, nodeNum := 0, |g.pts|;
      while id < nodeNum
        invariant id <= nodeNum && ColorsOk() && Leads(g.sys, s0, Now())
        invariant old(blackNodes) == [] ==> blackNodes == []
        invariant DeepInv(g.sys, g1, g.G(), edgeCachedPTS, changed, loads, stores)
        invariant forall e :: e in g1.load && e.0 < id ==> e in loads
        invariant forall e :: e in g1.store && e.1 < id ==> e in stores
      {
        ghost var s := Now();
        changed, loads := VisitLoads(id, changed, g1, loads, stores);
        LeadsTransitive(g.sys, s0, s, Now());
        s := Now();
        changed, stores := VisitStores(id, changed, g1, loads, stores);
        LeadsTransitive(g.sys, s0, s, Now());
        id := id + 1;
      }
      assert g1.load <= loads && g1.store <= stores;
      if !changed {
        QuietDeepPass(g.sys, g1, g.G(), edgeCachedPTS, loads, stores);
      }
    }

    /** The whole solver: it terminates, stays below every solution, and stops with all loads and
        stores met; the result is the least solution iff its copy edges are satisfied.  The ghost
        result is the state after the sweep, from which the events of the deep phase lead to the end. */
    method RunSolver() returns (ghost swept: Phase)
      requires Valid()
      modifies g, this
      ensures Valid() && Grows(old(g.G()), g.G())
      ensures LoadsMet(g.G()) && StoresMet(g.G()) && CachesExact(g.G(), edgeCachedPTS)
      ensures IsLeastPts(g.sys, Read(g.G())) <==> CopyClosed(g.pts, g.copy)
      ensures Swept(g.sys, old(g.G()), swept.g) && swept == old(Now()).(g := swept.g)
      ensures Leads(g.sys, swept, Now())
      ensures old(Uncolored(Now())) ==> forall x :: 0 <= x < g.sys.n ==>
        color[x] == Default || (color[x] == Grey && LeadsToCycle(g.copy, x))
      ensures old(Uncolored(Now())) && !HasCycle(g.copy) ==> forall x :: 0 <= x < g.sys.n ==> color[x] == Default
    {
      ghost var g0 := g.G();
      assert Uncolored(Now()) ==> blackNodes == [] by {
        assert blackNodes != [] ==> blackNodes[0] in Now().black;
      }
      cachedPTS := seq(|g.pts|, i => {});
      cachedPTS := g.Sweep(cachedPTS);
      EdgeCacheGrows(g0, g.G(), edgeCachedPTS);
      swept := Now();
      LeadsNowhere(g.sys, swept);
      hide Leads, Happens, Swept;
      var changed := true;
      while changed
        invariant Valid() && Grows(g0, g.G()) && Leads(g.sys, swept, Now())
        invariant old(blackNodes) == [] ==> blackNodes == []
        invariant !changed ==> LoadsMet(g.G()) && StoresMet(g.G()) && CachesExact(g.G(), edgeCachedPTS)
        decreases MissingFacts(g.G()), changed
      {
        ghost var before, s := g.G(), Now();
        changed := DeepPass();
        LeadsTransitive(g.sys, swept, s, Now());
        GrowsTransitive(g0, before, g.G());
        MissingFactsShrinks(g.sys, before, g.G());
      }
      LeastIffCopiesMet(g.sys, g.G());
      if old(Uncolored(Now())) {
        ColorsAtTheEnd(g.sys, swept, Now());
      }
    }
  }
}
