/** Wave propagation (include/aser/PointerAnalysis/Solver/WavePropagation.h): sweeps over the
    copy edges alternate with a pass over loads and stores that adds new copy edges, until a
    pass adds none.  The result is the least solution of the constraints. */
module WaveSolver {
  import opened Constraints
  import opened CopyGraph
  import opened ConsGraph
  import opened Sweeping

  /** The cache of an edge, keyed by the pointer whose points-to set is walked, the other end,
      and the kind of the edge. */
  datatype Kind = Load | Store
  type Key = (nat, nat, Kind)

  ghost predicate Demands(g: Graph, key: Key, v: nat)
    requires key.0 < |g.rep| && key.1 < |g.rep| && v < |g.rep|
  {
    if key.2.Load? then CopyRel(g, v, key.1) else CopyRel(g, key.1, v)
  }

  /** Every cached object is in the points-to set and has its copy edge. */
  ghost predicate EdgeCacheOk(g: Graph, cache: map<Key, set<nat>>)
    requires WfGraph(|g.pts|, g)
  {
    forall key :: key in cache ==>
      && key.0 < |g.pts| && key.1 < |g.pts|
      && forall v :: v in cache[key] ==> v < |g.pts| && v in g.pts[g.rep[key.0]] && Demands(g, key, v)
  }

  lemma EdgeCacheGrows(g: Graph, h: Graph, cache: map<Key, set<nat>>)
    requires WfGraph(|g.pts|, g) && WfGraph(|h.pts|, h) && Grows(g, h) && EdgeCacheOk(g, cache)
    ensures EdgeCacheOk(h, cache)
  {
    forall key | key in cache
      ensures forall v :: v in cache[key] ==> v in h.pts[h.rep[key.0]] && Demands(h, key, v)
    {
      forall v | v in cache[key] ensures v in h.pts[h.rep[key.0]] && Demands(h, key, v) {
        assert v in g.pts[g.rep[key.0]] && Demands(g, key, v);
      }
    }
  }

  function Cached(cache: map<Key, set<nat>>, key: Key): set<nat> {
    if key in cache then cache[key] else {}
  }

  ghost predicate CacheGrows(c: map<Key, set<nat>>, d: map<Key, set<nat>>) {
    forall key :: key in c ==> key in d && c[key] <= d[key]
  }

  /** The loads and stores in `edges` whose caches hold all that was in the points-to set. */
  ghost predicate LoadsSeen(g: Graph, edges: set<Edge>, cache: map<Key, set<nat>>)
    requires WfGraph(|g.pts|, g)
  {
    forall e :: e in edges && e in g.load ==> g.pts[e.0] <= Cached(cache, (e.0, e.1, Load))
  }

  ghost predicate StoresSeen(g: Graph, edges: set<Edge>, cache: map<Key, set<nat>>)
    requires WfGraph(|g.pts|, g)
  {
    forall e :: e in edges && e in g.store ==> g.pts[e.1] <= Cached(cache, (e.1, e.0, Store))
  }

  /** A pass that changed nothing, from a state with satisfied copy edges, certifies a fixpoint. */
  lemma QuietPassIsLeast(sys: System, g: Graph, cache: map<Key, set<nat>>)
    requires Healthy(sys, g) && CopyClosed(g.pts, g.copy) && EdgeCacheOk(g, cache)
    requires LoadsSeen(g, g.load, cache) && StoresSeen(g, g.store, cache)
    ensures IsLeastPts(sys, Read(g))
  {
    forall e, v | e in g.load && v in g.pts[e.0] ensures CopyRel(g, v, e.1) {
      var key := (e.0, e.1, Load);
      assert v in Cached(cache, key) && Demands(g, key, v);
    }
    forall e, v | e in g.store && v in g.pts[e.1] ensures CopyRel(g, e.0, v) {
      var key := (e.1, e.0, Store);
      assert v in Cached(cache, key) && Demands(g, key, v);
    }
    FixpointIsLeast(sys, g);
  }

  // ----- adding one copy edge and handing on along it -----

  /** What `addConstraints` followed, if the edge is new, by `processCopy` does. */
  ghost function Link(g: Graph, a: nat, b: nat): Graph
    requires |g.rep| == |g.pts| && a < |g.pts| && b < |g.pts| && g.rep[a] < |g.pts| && g.rep[b] < |g.pts|
  {
    if CopyRel(g, a, b) then g else Merge(WithCopy(g, a, b), g.rep[a], g.rep[b])
  }

  lemma LinkExtends(sys: System, g: Graph, a: nat, b: nat, cached: seq<set<nat>>)
    requires Healthy(sys, g) && a < sys.n && b < sys.n && Included(sys, a, b) && CacheOk(g, cached, -1)
    ensures Extends(sys, g, Link(g, a, b)) && CopyRel(Link(g, a, b), a, b) && CacheOk(Link(g, a, b), cached, -1)
    ensures !CopyRel(g, a, b) ==> (a, b) in Unrelated(g) && (a, b) !in Unrelated(Link(g, a, b))
  {
    if !CopyRel(g, a, b) {
      WithCopyExtends(sys, g, a, b);
      MergeExtends(sys, WithCopy(g, a, b), g.rep[a], g.rep[b]);
      ExtendsTransitive(sys, g, WithCopy(g, a, b), Link(g, a, b));
    }
  }

  // ----- the pass over loads and stores -----

  /** A pass that began at `g1` and has seen the given loads and stores; `changed` records
      whether it has added an edge, and if it has not, nothing at all has moved. */
  ghost predicate PassInv(sys: System, g1: Graph, g: Graph, cached: seq<set<nat>>, cache: map<Key, set<nat>>,
                          changed: bool, loads: set<Edge>, stores: set<Edge>)
    requires Healthy(sys, g1)
  {
    && Extends(sys, g1, g) && CacheOk(g, cached, -1) && EdgeCacheOk(g, cache)
    && (if changed then Unrelated(g) < Unrelated(g1) else g == g1)
    && LoadsSeen(g1, loads, cache) && StoresSeen(g1, stores, cache)
  }

  /** The edges seen so far when `todo` of those at the present node are left. */
  ghost function SeenOf(before: set<Edge>, here: set<Edge>, todo: set<Edge>): set<Edge> {
    before + (here - todo)
  }

  lemma NoneSeen(before: set<Edge>, here: set<Edge>)
    ensures SeenOf(before, here, here) == before && SeenOf(before, here, {}) == before + here
  {
  }

  lemma OneMoreSeen(before: set<Edge>, here: set<Edge>, todo: set<Edge>, e: Edge)
    requires todo <= here && e in todo
    ensures SeenOf(before, here, todo) + {(e.0, e.1)} == SeenOf(before, here, todo - {e})
  {
  }

  lemma SameConstraints(sys: System, g1: Graph, g: Graph, cached: seq<set<nat>>, cache: map<Key, set<nat>>,
                        changed: bool, loads: set<Edge>, stores: set<Edge>)
    requires Healthy(sys, g1) && PassInv(sys, g1, g, cached, cache, changed, loads, stores)
    ensures g.load == g1.load && g.store == g1.store
  {
  }

  /** One edge visited: the graph went from `g` to `h`, and its cache now holds the whole points-to set. */
  lemma EdgeVisited(sys: System, g1: Graph, g: Graph, h: Graph, cached: seq<set<nat>>, cache: map<Key, set<nat>>,
                    changed: bool, linked: bool, loads: set<Edge>, stores: set<Edge>, key: Key)
    requires Healthy(sys, g1) && PassInv(sys, g1, g, cached, cache, changed, loads, stores)
    requires Extends(sys, g, h) && CacheOk(h, cached, -1)
    requires if linked then Unrelated(h) < Unrelated(g) else h == g
    requires key.0 < sys.n && key.1 < sys.n && g.rep[key.0] == key.0
    requires forall v :: v in g.pts[key.0] - Cached(cache, key) ==> v < sys.n && Demands(h, key, v)
    ensures var cache' := cache[key := Cached(cache, key) + g.pts[key.0]];
      PassInv(sys, g1, h, cached, cache', changed || linked,
        if key.2.Load? then loads + {(key.0, key.1)} else loads,
        if key.2.Store? then stores + {(key.1, key.0)} else stores)
  {
    hide Covers, GraphSound, Unrelated, EdgeCacheOk, Demands, LoadsSeen, StoresSeen, CacheOk;
    ExtendsTransitive(sys, g1, g, h);
    GrowsShrinks(g1, g);
    GrowsShrinks(g, h);
    EdgeCacheGrows(g, h, cache);
    CacheOneMore(h, cache, key, g.pts[key.0]);
    assert g1.pts[g1.rep[key.0]] <= g.pts[g.rep[key.0]];
    SeenOneMore(g1, cache, key, g.pts[key.0], loads, stores);
  }

  /** A cache takes in objects that are in the points-to set and have their copy edges. */
  lemma CacheOneMore(g: Graph, cache: map<Key, set<nat>>, key: Key, more: set<nat>)
    requires WfGraph(|g.pts|, g) && EdgeCacheOk(g, cache) && key.0 < |g.pts| && key.1 < |g.pts|
    requires more <= g.pts[g.rep[key.0]]
    requires forall v :: v in more - Cached(cache, key) ==> v < |g.pts| && Demands(g, key, v)
    ensures EdgeCacheOk(g, cache[key := Cached(cache, key) + more])
  {
    var cache' := cache[key := Cached(cache, key) + more];
    forall v | v in cache'[key] ensures v < |g.pts| && v in g.pts[g.rep[key.0]] && Demands(g, key, v) {
      if v in Cached(cache, key) {
        assert v in cache[key];
      }
    }
  }

  /** One edge more is seen. */
  lemma SeenOneMore(g: Graph, cache: map<Key, set<nat>>, key: Key, more: set<nat>, loads: set<Edge>, stores: set<Edge>)
    requires WfGraph(|g.pts|, g) && key.0 < |g.pts| && LoadsSeen(g, loads, cache) && StoresSeen(g, stores, cache)
    requires g.rep[key.0] == key.0 && g.pts[key.0] <= more
    ensures var cache' := cache[key := Cached(cache, key) + more];
      && LoadsSeen(g, if key.2.Load? then loads + {(key.0, key.1)} else loads, cache')
      && StoresSeen(g, if key.2.Store? then stores + {(key.1, key.0)} else stores, cache')
  {
    SeenGrows(g, cache, cache[key := Cached(cache, key) + more], loads, stores);
  }

  lemma SeenGrows(g: Graph, c: map<Key, set<nat>>, d: map<Key, set<nat>>, loads: set<Edge>, stores: set<Edge>)
    requires WfGraph(|g.pts|, g) && CacheGrows(c, d) && LoadsSeen(g, loads, c) && StoresSeen(g, stores, c)
    ensures LoadsSeen(g, loads, d) && StoresSeen(g, stores, d)
  {
    assert forall key :: Cached(c, key) <= Cached(d, key);
  }

  lemma NothingCached(sys: System, g: Graph, cached: seq<set<nat>>)
    requires Healthy(sys, g) && cached == seq(|g.pts|, i => {})
    ensures CacheOk(g, cached, -1)
  {
  }

  lemma GrowsReflexive(g: Graph)
    requires WfGraph(|g.pts|, g)
    ensures Grows(g, g)
  {
  }

  class WavePropagation {
    const g: ConstraintGraph
    var cachedPTS: seq<set<nat>>
    var edgeCachedPTS: map<Key, set<nat>>

    ghost predicate Valid()
      reads this, g
    {
      Healthy(g.sys, g.G()) && EdgeCacheOk(g.G(), edgeCachedPTS)
    }

    constructor (g: ConstraintGraph)
      requires Healthy(g.sys, g.G())
      ensures Valid() && this.g == g && edgeCachedPTS == map[]
    {
      this.g := g;
      cachedPTS, edgeCachedPTS := [], map[];
    }

    /** One new copy edge: true iff it was not there. */
    method LinkNodes(src: nat, dst: nat) returns (isNew: bool)
      requires Healthy(g.sys, g.G()) && src < g.sys.n && dst < g.sys.n
      modifies g
      ensures g.G() == Link(old(g.G()), src, dst)
      ensures isNew <==> !old(CopyRel(g.G(), src, dst))
    {
      isNew := g.AddCopy(src, dst);
      if isNew {
        var grew := g.ProcessCopy(g.rep[src], g.rep[dst]);
      }
    }

    /** processLoad on the new part of pts(src): each object gets a copy edge to `dst`. */
    method ProcessLoad(src: nat, dst: nat, diff: set<nat>) returns (changed: bool)
      requires Healthy(g.sys, g.G()) && CacheOk(g.G(), cachedPTS, -1)
      requires (src, dst) in g.load && diff <= g.pts[src]
      modifies g
      ensures Extends(g.sys, old(g.G()), g.G()) && CacheOk(g.G(), cachedPTS, -1)
      ensures forall v :: v in diff ==> v < g.sys.n && CopyRel(g.G(), v, dst)
      ensures if changed then Unrelated(g.G()) < Unrelated(old(g.G())) else g.G() == old(g.G())
    {
      hide Covers, GraphSound, Unrelated;
      changed := false;
      ghost var g0 := g.G();
      forall v | v in diff ensures Included(g.sys, v, dst) {
        LoadIncludes(g.sys, g0, src, dst, v);
      }
      var todo := diff;
      while todo != {}
        invariant todo <= diff
        invariant Extends(g.sys, g0, g.G()) && CacheOk(g.G(), cachedPTS, -1)
        invariant forall v :: v in diff - todo ==> CopyRel(g.G(), v, dst)
        invariant if changed then Unrelated(g.G()) < Unrelated(g0) else g.G() == g0
        decreases todo
      {
        var v :| v in todo;
        ghost var before := g.G();
        LinkExtends(g.sys, before, v, dst, cachedPTS);
        var isNew := LinkNodes(v, dst);
        ExtendsTransitive(g.sys, g0, before, g.G());
        GrowsShrinks(before, g.G());
        changed := changed || isNew;
        todo := todo - {v};
      }
    }

    method ProcessStore(src: nat, dst: nat, diff: set<nat>) returns (changed: bool)
      requires Healthy(g.sys, g.G()) && CacheOk(g.G(), cachedPTS, -1)
      requires (src, dst) in g.store && diff <= g.pts[dst]
      modifies g
      ensures Extends(g.sys, old(g.G()), g.G()) && CacheOk(g.G(), cachedPTS, -1)
      ensures forall v :: v in diff ==> v < g.sys.n && CopyRel(g.G(), src, v)
      ensures if changed then Unrelated(g.G()) < Unrelated(old(g.G())) else g.G() == old(g.G())
    {
      hide Covers, GraphSound, Unrelated;
      changed := false;
      ghost var g0 := g.G();
      forall v | v in diff ensures Included(g.sys, src, v) {
        StoreIncludes(g.sys, g0, src, dst, v);
      }
      var todo := diff;
      while todo != {}
        invariant todo <= diff
        invariant Extends(g.sys, g0, g.G()) && CacheOk(g.G(), cachedPTS, -1)
        invariant forall v :: v in diff - todo ==> CopyRel(g.G(), src, v)
        invariant if changed then Unrelated(g.G()) < Unrelated(g0) else g.G() == g0
        decreases todo
      {
        var v :| v in todo;
        ghost var before := g.G();
        LinkExtends(g.sys, before, src, v, cachedPTS);
        var isNew := LinkNodes(src, v);
        ExtendsTransitive(g.sys, g0, before, g.G());
        GrowsShrinks(before, g.G());
        changed := changed || isNew;
        todo := todo - {v};
      }
    }

    method VisitLoad(src: nat, dst: nat, changed: bool, ghost g1: Graph, ghost loads: set<Edge>, ghost stores: set<Edge>)
      returns (changed': bool)
      requires Healthy(g.sys, g1) && (src, dst) in g1.load
      requires PassInv(g.sys, g1, g.G(), cachedPTS, edgeCachedPTS, changed, loads, stores)
      modifies g, this`edgeCachedPTS
      ensures PassInv(g.sys, g1, g.G(), cachedPTS, edgeCachedPTS, changed', loads + {(src, dst)}, stores)
    {
      hide Covers, GraphSound, Unrelated, EdgeCacheOk, CacheOk, LoadsSeen, StoresSeen;
      var key := (src, dst, Load);
      var diff := g.pts[src] - Cached(edgeCachedPTS, key);
      ghost var before := g.G();
      var linked := ProcessLoad(src, dst, diff);
      EdgeVisited(g.sys, g1, before, g.G(), cachedPTS, edgeCachedPTS, changed, linked, loads, stores, key);
      assert Cached(edgeCachedPTS, key) + diff == Cached(edgeCachedPTS, key) + before.pts[src];
      edgeCachedPTS := edgeCachedPTS[key := Cached(edgeCachedPTS, key) + diff];
      changed' := changed || linked;
    }

    method VisitStore(src: nat, dst: nat, changed: bool, ghost g1: Graph, ghost loads: set<Edge>, ghost stores: set<Edge>)
      returns (changed': bool)
      requires Healthy(g.sys, g1) && (src, dst) in g1.store
      requires PassInv(g.sys, g1, g.G(), cachedPTS, edgeCachedPTS, changed, loads, stores)
      modifies g, this`edgeCachedPTS
      ensures PassInv(g.sys, g1, g.G(), cachedPTS, edgeCachedPTS, changed', loads, stores + {(src, dst)})
    {
      hide Covers, GraphSound, Unrelated, EdgeCacheOk, CacheOk, LoadsSeen, StoresSeen;
      var key := (dst, src, Store);
      var diff := g.pts[dst] - Cached(edgeCachedPTS, key);
      ghost var before := g.G();
      var linked := ProcessStore(src, dst, diff);
      EdgeVisited(g.sys, g1, before, g.G(), cachedPTS, edgeCachedPTS, changed, linked, loads, stores, key);
      assert Cached(edgeCachedPTS, key) + diff == Cached(edgeCachedPTS, key) + before.pts[dst];
      edgeCachedPTS := edgeCachedPTS[key := Cached(edgeCachedPTS, key) + diff];
      changed' := changed || linked;
    }

    /** The loads from one node. */
    method VisitLoads(id: nat, changed: bool, ghost g1: Graph, ghost loads: set<Edge>, ghost stores: set<Edge>)
      returns (changed': bool, ghost seen: set<Edge>)
      requires Healthy(g.sys, g1)
      requires PassInv(g.sys, g1, g.G(), cachedPTS, edgeCachedPTS, changed, loads, stores)
      modifies g, this`edgeCachedPTS
      ensures PassInv(g.sys, g1, g.G(), cachedPTS, edgeCachedPTS, changed', seen, stores)
      ensures seen == loads + set e | e in g1.load && e.0 == id
    {
      SameConstraints(g.sys, g1, g.G(), cachedPTS, edgeCachedPTS, changed, loads, stores);
      hide PassInv, Healthy, LoadsSeen, StoresSeen, EdgeCacheOk, CacheOk, SeenOf;
      changed', seen := changed, loads;
      var todo := set e | e in g.load && e.0 == id;
      ghost var here := set e | e in g1.load && e.0 == id;
      NoneSeen(loads, here);
      while todo != {}
        invariant PassInv(g.sys, g1, g.G(), cachedPTS, edgeCachedPTS, changed', seen, stores)
        invariant todo <= here && seen == SeenOf(loads, here, todo)
        decreases todo
      {
        var e :| e in todo;
        OneMoreSeen(loads, here, todo, e);
        changed' := VisitLoad(e.0, e.1, changed', g1, seen, stores);
        todo, seen := todo - {e}, seen + {(e.0, e.1)};
      }
    }

    /** The stores through one node. */
    method VisitStores(id: nat, changed: bool, ghost g1: Graph, ghost loads: set<Edge>, ghost stores: set<Edge>)
      returns (changed': bool, ghost seen: set<Edge>)
      requires Healthy(g.sys, g1)
      requires PassInv(g.sys, g1, g.G(), cachedPTS, edgeCachedPTS, changed, loads, stores)
      modifies g, this`edgeCachedPTS
      ensures PassInv(g.sys, g1, g.G(), cachedPTS, edgeCachedPTS, changed', loads, seen)
      ensures seen == stores + set e | e in g1.store && e.1 == id
    {
      SameConstraints(g.sys, g1, g.G(), cachedPTS, edgeCachedPTS, changed, loads, stores);
      hide PassInv, Healthy, LoadsSeen, StoresSeen, EdgeCacheOk, CacheOk, SeenOf;
      changed', seen := changed, stores;
      var todo := set e | e in g.store && e.1 == id;
      ghost var here := set e | e in g1.store && e.1 == id;
      NoneSeen(stores, here);
      while todo != {}
        invariant PassInv(g.sys, g1, g.G(), cachedPTS, edgeCachedPTS, changed', loads, seen)
        invariant todo <= here && seen == SeenOf(stores, here, todo)
        decreases todo
      {
        var e :| e in todo;
        OneMoreSeen(stores, here, todo, e);
        changed' := VisitStore(e.0, e.1, changed', g1, loads, seen);
        todo, seen := todo - {e}, seen + {(e.0, e.1)};
      }
    }

    /** The whole pass: true iff some load or store added a copy edge. */
    method LoadStorePass() returns (changed: bool)
      requires Valid() && CacheOk(g.G(), cachedPTS, -1)
      modifies g, this`edgeCachedPTS
      ensures Extends(g.sys, old(g.G()), g.G()) && CacheOk(g.G(), cachedPTS, -1)
      ensures EdgeCacheOk(g.G(), edgeCachedPTS)
      ensures if changed then Unrelated(g.G()) < Unrelated(old(g.G())) else g.G() == old(g.G())
      ensures !changed ==> LoadsSeen(g.G(), g.load, edgeCachedPTS) && StoresSeen(g.G(), g.store, edgeCachedPTS)
    {
      changed := false;
      ghost var g1 := g.G();
      ghost var loads: set<Edge>, stores: set<Edge> := {}, {};
      var id, nodeNum := 0, |g.pts|;
      while id < nodeNum
        invariant id <= nodeNum
        invariant PassInv(g.sys, g1, g.G(), cachedPTS, edgeCachedPTS, changed, loads, stores)
        invariant forall e :: e in g1.load && e.0 < id ==> e in loads
        invariant forall e :: e in g1.store && e.1 < id ==> e in stores
      {
        changed, loads := VisitLoads(id, changed, g1, loads, stores);
        changed, stores := VisitStores(id, changed, g1, loads, stores);
        id := id + 1;
      }
      assert forall e :: e in g1.load ==> e in loads;
      assert forall e :: e in g1.store ==> e in stores;
    }

    /** Sweep and pass until a pass changes nothing: the points-to sets that clients read are
        then exactly the least solution of the original constraints. */
    method RunSolver()
      requires Valid()
      modifies g, this
      ensures Valid() && Grows(old(g.G()), g.G())
      ensures IsLeastPts(g.sys, Read(g.G()))
    {
      hide Covers, GraphSound, KeepsSound, Quotient, Arrivals, Unrelated, EdgeCacheOk, LoadsSeen, StoresSeen;
      ghost var g0 := g.G();
      cachedPTS := seq(|g.pts|, i => {});
      NothingCached(g.sys, g.G(), cachedPTS);
      GrowsReflexive(g.G());
      var changed := true;
      while changed
        invariant Healthy(g.sys, g.G()) && EdgeCacheOk(g.G(), edgeCachedPTS)
        invariant CacheOk(g.G(), cachedPTS, -1) && Grows(g0, g.G())
        invariant !changed ==> IsLeastPts(g.sys, Read(g.G()))
        decreases Unrelated(g.G()), changed
      {
        ghost var before := g.G();
        cachedPTS := g.Sweep(cachedPTS);
        ghost var swept := g.G();
        EdgeCacheGrows(before, swept, edgeCachedPTS);
        GrowsShrinks(before, swept);
        GrowsTransitive(g0, before, swept);
        changed := LoadStorePass();
        GrowsTransitive(g0, swept, g.G());
        if !changed {
          QuietPassIsLeast(g.sys, g.G(), edgeCachedPTS);
        }
      }
    }
  }
}
