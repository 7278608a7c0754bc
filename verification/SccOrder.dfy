/** The order in which the solvers visit the strongly connected components of the copy edges
    (include/aser/PointerAnalysis/Graph/ConstraintGraph/SCCIterator.h): sinks first. */
module SccOrder {
  import opened CopyGraph
  import opened Lists
  import opened Reachability

  /** A node of component `k` is live and knows its place, or it is a collapsed node on its own:
      the search begins at node 0 even if that has been collapsed. */
  ghost predicate Placed(g: Graph, order: seq<seq<nat>>, pos: seq<nat>, k: nat, x: nat)
    requires |pos| == |g.rep| && k < |order|
  {
    x < |pos| && if Live(g, x) then pos[x] == k else |order[k]| == 1
  }

  /** `order` lists the components, `pos` says where each live node is.  No copy edge leads to
      a later component, and the nodes of one component reach each other. */
  ghost predicate IsSccOrder(g: Graph, order: seq<seq<nat>>, pos: seq<nat>) {
    && |pos| == |g.rep|
    && (forall k :: 0 <= k < |order| ==> order[k] != [] && Distinct(order[k]))
    && (forall k, j :: 0 <= k < |order| && 0 <= j < |order[k]| ==> Placed(g, order, pos, k, order[k][j]))
    && (forall x: nat :: Live(g, x) ==> pos[x] < |order| && x in order[pos[x]])
    && LiveEdges(g.rep, g.copy)
    && (forall e :: e in g.copy ==> pos[e.1] <= pos[e.0])
    && (forall x: nat, y: nat :: Live(g, x) && Live(g, y) && pos[x] == pos[y] ==> Reaches(g.copy, x, y))
  }

  /** A component that may be delivered next: its nodes reach each other, and its edges lead nowhere
      but into it and to what was delivered before. */
  ghost predicate NextComponent(g: Graph, done: set<nat>, comp: seq<nat>) {
    && comp != [] && Distinct(comp)
    && (forall i :: 0 <= i < |comp| ==> comp[i] < |g.rep| && comp[i] !in done)
    && (forall x, y :: x in comp && y in comp ==> Reaches(g.copy, x, y))
    && forall e :: e in g.copy && e.0 in comp ==> e.1 in comp || e.1 in done
  }

  /** What the components delivered so far satisfy; `done` are their nodes. */
  ghost predicate Emitted(g: Graph, done: set<nat>, order: seq<seq<nat>>, pos: seq<nat>) {
    && |pos| == |g.rep|
    && LiveEdges(g.rep, g.copy)
    && (forall k :: 0 <= k < |order| ==> order[k] != [] && Distinct(order[k]))
    && (forall k, j :: 0 <= k < |order| && 0 <= j < |order[k]| ==>
          order[k][j] in done && Placed(g, order, pos, k, order[k][j]))
    && (forall x: nat :: Live(g, x) && x in done ==> pos[x] < |order| && x in order[pos[x]])
    && (forall e :: e in g.copy && e.0 in done ==> e.1 in done && pos[e.1] <= pos[e.0])
    && (forall x: nat, y: nat :: Live(g, x) && Live(g, y) && x in done && y in done && pos[x] == pos[y] ==>
          Reaches(g.copy, x, y))
  }

  /** A collapsed node has no edges, so it is a component of its own. */
  lemma DeadIsAlone(g: Graph, done: set<nat>, comp: seq<nat>, x: nat)
    requires LiveEdges(g.rep, g.copy) && NextComponent(g, done, comp) && x in comp && !Live(g, x)
    ensures |comp| == 1
  {
    ReachIsLeast(g.copy, {x}, {x});
    forall i | 0 <= i < |comp| ensures comp[i] == x {
      assert comp[i] in comp && Reaches(g.copy, x, comp[i]);
    }
    assert comp[0] == comp[|comp| - 1];
  }

  lemma EmitOne(g: Graph, done: set<nat>, order: seq<seq<nat>>, pos: seq<nat>, comp: seq<nat>, pos': seq<nat>, done': set<nat>)
    requires Emitted(g, done, order, pos) && NextComponent(g, done, comp)
    requires done' == done + set x | x in comp
    requires |pos'| == |pos| && forall y :: 0 <= y < |pos| ==> pos'[y] == if y in comp then |order| else pos[y]
    ensures Emitted(g, done', order + [comp], pos')
  {
    var order' := order + [comp];
    forall k, j | 0 <= k < |order'| && 0 <= j < |order'[k]|
      ensures order'[k][j] in done' && Placed(g, order', pos', k, order'[k][j])
    {
      if k < |order| {
        assert order[k][j] in done && Placed(g, order, pos, k, order[k][j]);
        assert order[k][j] !in comp;
      } else if !Live(g, comp[j]) {
        DeadIsAlone(g, done, comp, comp[j]);
      }
    }
  }

  lemma EmittedNothing(g: Graph, pos: seq<nat>)
    requires |pos| == |g.rep| && LiveEdges(g.rep, g.copy)
    ensures Emitted(g, {}, [], pos)
  {
  }

  lemma EmittedAll(g: Graph, done: set<nat>, order: seq<seq<nat>>, pos: seq<nat>)
    requires Emitted(g, done, order, pos) && forall x: nat :: Live(g, x) ==> x in done
    ensures IsSccOrder(g, order, pos)
  {
  }
}
