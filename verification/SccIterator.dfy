/** The iterator over the strongly connected components of the copy edges
    (include/aser/PointerAnalysis/Graph/ConstraintGraph/SCCIterator.h): Tarjan's search, suspended
    whenever a component is complete and begun again at the next node that is left. */
module SccIteration {
  import opened Constraints
  import opened CopyGraph
  import opened Lists
  import opened SccOrder
  import opened SccSearch

  function DeliveredNodes(s: Search): set<nat> {
    set x | x in s.num && s.num[x].Finished?
  }

  /** The nodes still to be visited. */
  ghost function Unseen(n: nat, seen: set<nat>): set<nat> {
    set x: nat | x < n && x !in seen
  }

  lemma UnseenShrinks(n: nat, seen: set<nat>, more: set<nat>, x: nat)
    requires seen <= more && x < n && x in more && x !in seen
    ensures Unseen(n, more) < Unseen(n, seen)
  {
    assert x in Unseen(n, seen) && x !in Unseen(n, more);
  }

  function Reversed(q: seq<nat>): seq<nat> {
    if q == [] then [] else Reversed(q[1..]) + [q[0]]
  }

  lemma EmptySlice(q: seq<nat>)
    ensures q[|q|..] == [] && q[..|q|] == q && Reversed(q[|q|..]) == []
  {
  }

  lemma IsDelivered(s: Search, k: nat, t: Search)
    requires k <= |s.stack| && t == s.(stack := s.stack[..k], num := t.num) && t.num.Keys == s.num.Keys
    requires forall x :: x in s.num ==> t.num[x] == if x in s.stack[k..] then Finished else s.num[x]
    ensures t == Deliver(s, k)
  {
    assert t.num == Deliver(s, k).num;
  }

  lemma ReversedOneMore(q: seq<nat>, i: nat)
    requires i < |q|
    ensures Reversed(q[i..]) == Reversed(q[i + 1..]) + [q[i]]
    ensures forall x :: x in q[i..] <==> x == q[i] || x in q[i + 1..]
  {
    assert q[i..] == [q[i]] + q[i + 1..];
  }

  lemma {:induction false} ReversedElements(q: seq<nat>)
    ensures |Reversed(q)| == |q| && forall i :: 0 <= i < |q| ==> Reversed(q)[i] == q[|q| - 1 - i]
  {
    if q != [] {
      ReversedElements(q[1..]);
    }
  }

  lemma ReversedLists(q: seq<nat>, s: set<nat>)
    requires SameElements(q, s) && Distinct(q)
    ensures SameElements(Reversed(q), s) && Distinct(Reversed(q))
  {
    ReversedElements(q);
    forall x | x in s ensures x in Reversed(q) {
      var i :| 0 <= i < |q| && q[i] == x;
      assert Reversed(q)[|q| - 1 - i] == x;
    }
  }

  lemma ListedComponent(g: Graph, s: Search, nodes: set<nat>, comp: seq<nat>)
    requires IsComponent(g, s, nodes) && SameElements(comp, nodes) && Distinct(comp)
    requires forall x :: x in s.num ==> x < |g.rep|
    ensures NextComponent(g, DeliveredNodes(s), comp)
  {
    assert forall x :: x in comp <==> x in nodes;
    forall i | 0 <= i < |comp| ensures comp[i] < |g.rep| && comp[i] !in DeliveredNodes(s) {
      assert OnStack(s, comp[i]);
    }
  }

  lemma ElementsOf(q: seq<nat>, s: set<nat>)
    requires SameElements(q, s)
    ensures (set x | x in q) == s
  {
  }

  /** What is delivered may be delivered next. */
  lemma DeliveredNext(g: Graph, s: Search, k: nat)
    requires Valid(g, s) && AtRoot(s) && k < |s.stack| && s.stack[k] == Top(s).node
    ensures NextComponent(g, DeliveredNodes(s), Reversed(s.stack[k..]))
    ensures DeliveredNodes(Delivered(s, k)) == DeliveredNodes(s) + set x | x in Reversed(s.stack[k..])
  {
    hide Valid, Delivered, Reversed, IsComponent, NextComponent, DeliveredNodes, SameElements, Distinct, PathOk, Since;
    TopHasNumber(g, s);
    DeliverKeepsValid(g, s, k);
    ReversedLists(s.stack[k..], Since(s));
    NumbersAreNodes(g, s);
    ListedComponent(g, s, Since(s), Reversed(s.stack[k..]));
    DeliveredSet(g, s, k);
    ElementsOf(Reversed(s.stack[k..]), Since(s));
  }

  lemma DeliveredSet(g: Graph, s: Search, k: nat)
    requires Valid(g, s) && AtRoot(s) && k < |s.stack| && s.stack[k] == Top(s).node
    ensures DeliveredNodes(Delivered(s, k)) == DeliveredNodes(s) + Since(s)
  {
    DeliverNumbers(g, s, k);
    var t := Delivered(s, k);
    hide Valid, Delivered, StackOk, PathOk;
    forall x | x in DeliveredNodes(t) ensures x in DeliveredNodes(s) + Since(s) {
      assert !OnStack(t, x);
    }
  }

  lemma NumbersAreNodes(g: Graph, s: Search)
    requires Valid(g, s)
    ensures forall x :: x in s.num ==> x < |g.rep|
  {
  }

  lemma PositionOf(g: Graph, s: Search) returns (k: nat)
    requires Valid(g, s) && s.path != []
    ensures k < |s.stack| && s.stack[k] == Top(s).node && Distinct(s.stack)
    ensures forall i :: 0 <= i < |s.stack| ==> s.stack[i] in s.num
  {
    assert OnStack(s, Top(s).node);
    k :| 0 <= k < |s.stack| && s.stack[k] == Top(s).node;
    forall i, j | 0 <= i < j < |s.stack| ensures s.stack[i] != s.stack[j] {
      assert s.num[s.stack[i]].n < s.num[s.stack[j]].n;
    }
  }

  lemma TopHasNumber(g: Graph, s: Search)
    requires Valid(g, s) && s.path != []
    ensures PathOk(s) && OnStack(s, Top(s).node) && NumberOf(s, |s.path| - 1) == s.num[Top(s).node].n
  {
  }

  lemma EmptyIsValid(g: Graph)
    requires WfGraph(|g.rep|, g)
    ensures Valid(g, Search(0, map[], [], [])) && DeliveredNodes(Search(0, map[], [], [])) == {}
  {
  }

  lemma MeetDelivers(g: Graph, s: Search, x: nat)
    requires x !in s.num
    ensures DeliveredNodes(Meet(g.copy, s, x)) == DeliveredNodes(s)
  {
  }

  lemma LeaveParts(s: Search)
    requires s.path != []
    ensures Leave(s).num == s.num && Leave(s).stack == s.stack && |Leave(s).path| == |s.path| - 1
    ensures DeliveredNodes(Leave(s)) == DeliveredNodes(s)
  {
  }

  /** When the path is empty, all that was met has been delivered. */
  lemma NothingIsLeft(g: Graph, s: Search)
    requires Valid(g, s) && s.path == []
    ensures DeliveredNodes(s) == s.num.Keys
  {
    forall x | x in s.num ensures s.num[x].Finished? {
      assert !OnStack(s, x);
    }
  }

  /** The iterator stands at `currentSCC`, or at the end if that is empty. */
  class SccIterator {
    const g: Graph
    var visitNum: nat
    var nodeVisitNumbers: map<nat, Number>
    var sccNodeStack: seq<nat>
    var visitStack: seq<Frame>
    var currentSCC: seq<nat>
    var visitedNode: set<nat>
    var lastRoot: int

    function S(): Search
      reads this
    {
      Search(visitNum, nodeVisitNumbers, sccNodeStack, visitStack)
    }

    ghost function Done(): set<nat>
      reads this
    {
      DeliveredNodes(S())
    }

    /** The nodes up to `lastRoot` have been visited or are collapsed. */
    ghost predicate RootsDone(root: int)
      reads this
    {
      forall x: nat :: x <= root && Live(g, x) ==> x in visitedNode
    }

    ghost predicate Ok()
      reads this
    {
      Valid(g, S()) && visitedNode == nodeVisitNumbers.Keys
    }

    /** The state of the iterator between two calls, if `done` had been delivered before `currentSCC`. */
    ghost predicate StandsAt(done: set<nat>)
      reads this
    {
      && Ok()
      && (currentSCC != [] ==> NextComponent(g, done, currentSCC) && Done() == done + (set x | x in currentSCC))
      && (currentSCC != [] ==> lastRoot >= 0 && RootsDone(lastRoot))
      && (currentSCC == [] ==> Done() == done && forall x: nat :: Live(g, x) ==> x in done)
    }

    constructor (g: Graph)
      requires WfGraph(|g.rep|, g) && |g.rep| > 0
      ensures this.g == g && StandsAt({})
    {
      this.g := g;
      visitNum, nodeVisitNumbers, sccNodeStack, visitStack := 0, map[], [], [];
      currentSCC, visitedNode, lastRoot := [], {}, 0;
      new;
      hide Valid, NextComponent, WfGraph, Unseen, DeliveredNodes;
      ghost var s := S();
      EmptyIsValid(g);
      BeginKeepsValid(g, s, 0);
      MeetDelivers(g, s, 0);
      DFSVisitOne(0);
      GetNextSCC();
    }

    /** The first visit of a node, by an edge or as the root of a search. */
    method DFSVisitOne(x: nat)
      modifies this`visitNum, this`nodeVisitNumbers, this`sccNodeStack, this`visitStack, this`visitedNode
      ensures S() == Meet(g.copy, old(S()), x) && visitedNode == old(visitedNode) + {x}
    {
      visitNum := visitNum + 1;
      nodeVisitNumbers := nodeVisitNumbers[x := At(visitNum)];
      sccNodeStack := sccNodeStack + [x];
      visitStack := visitStack + [Frame(x, Targets(g.copy, x), visitNum)];
      visitedNode := visitedNode + {x};
    }

    /** Looks at one child of the top of the path. */
    method LookAtChild(child: nat)
      requires Ok() && visitStack != [] && child in Top(S()).next
      modifies this`visitNum, this`nodeVisitNumbers, this`sccNodeStack, this`visitStack, this`visitedNode
      ensures Ok() && visitStack != [] && Done() == old(Done())
      ensures if child in old(visitedNode) then
          visitedNode == old(visitedNode) && |visitStack| == |old(visitStack)| && Top(S()).next == Top(old(S())).next - {child}
        else visitedNode == old(visitedNode) + {child} && child < |g.rep|
    {
      ghost var s := S();
      var last := |visitStack| - 1;
      var f := visitStack[last];
      visitStack := visitStack[..last] + [f.(next := f.next - {child})];
      if child !in nodeVisitNumbers {
        EnterKeepsValid(g, s, child);
        DFSVisitOne(child);
        assert S() == Enter(g.copy, s, child);
        assert DeliveredNodes(S()) == DeliveredNodes(s);
      } else {
        LookKeepsValid(g, s, child);
        match nodeVisitNumbers[child]
        case At(childNum) =>
          if visitStack[last].min > childNum {
            visitStack := visitStack[..last] + [visitStack[last].(min := childNum)];
          }
        case Finished =>
        assert S() == Look(s, child);
      }
    }

    /** Goes on until the top of the path has no child left to look at. */
    method DFSVisitChildren()
      requires Ok() && visitStack != []
      modifies this`visitNum, this`nodeVisitNumbers, this`sccNodeStack, this`visitStack, this`visitedNode
      ensures Ok() && visitStack != [] && Top(S()).next == {} && Done() == old(Done())
      ensures old(visitedNode) <= visitedNode && (visitedNode == old(visitedNode) ==> |visitStack| == |old(visitStack)|)
      ensures visitedNode != old(visitedNode) ==> Unseen(|g.rep|, visitedNode) < Unseen(|g.rep|, old(visitedNode))
    {
      hide Valid, Unseen;
      while visitStack[|visitStack| - 1].next != {}
        invariant Ok() && visitStack != [] && Done() == old(Done())
        invariant old(visitedNode) <= visitedNode && (visitedNode == old(visitedNode) ==> |visitStack| == |old(visitStack)|)
        invariant visitedNode != old(visitedNode) ==> Unseen(|g.rep|, visitedNode) < Unseen(|g.rep|, old(visitedNode))
        decreases Unseen(|g.rep|, visitedNode), visitStack[|visitStack| - 1].next
      {
        var child :| child in visitStack[|visitStack| - 1].next;
        ghost var seen := visitedNode;
        LookAtChild(child);
        if child !in seen {
          UnseenShrinks(|g.rep|, seen, visitedNode, child);
        }
      }
    }

    /** The top of the path leaves it, and its least number counts for the one before. */
    method PopLeaf() returns (visitingN: nat, minVisitNum: nat)
      requires visitStack != []
      modifies this`visitStack
      ensures S() == Leave(old(S())) && visitingN == Top(old(S())).node && minVisitNum == Top(old(S())).min
    {
      var last := |visitStack| - 1;
      visitingN, minVisitNum := visitStack[last].node, visitStack[last].min;
      visitStack := visitStack[..last];
      if visitStack != [] && visitStack[last - 1].min > minVisitNum {
        visitStack := visitStack[..last - 1] + [visitStack[last - 1].(min := minVisitNum)];
      }
    }

    /** Takes the nodes down to `root` off the stack, as the component that is delivered. */
    method CollectSCC(root: nat, ghost k: nat)
      requires currentSCC == [] && k < |sccNodeStack| && sccNodeStack[k] == root && Distinct(sccNodeStack)
      requires forall i :: 0 <= i < |sccNodeStack| ==> sccNodeStack[i] in nodeVisitNumbers
      modifies this`currentSCC, this`sccNodeStack, this`nodeVisitNumbers
      ensures S() == Deliver(old(S()), k) && currentSCC == Reversed(old(sccNodeStack[k..]))
    {
      hide Reversed, Deliver;
      ghost var s := S();
      EmptySlice(s.stack);
      var found := false;
      while !found
        invariant k <= |sccNodeStack| <= |s.stack| && sccNodeStack == s.stack[..|sccNodeStack|]
        invariant found <==> |sccNodeStack| == k
        invariant currentSCC == Reversed(s.stack[|sccNodeStack|..])
        invariant nodeVisitNumbers.Keys == s.num.Keys
        invariant forall x :: x in s.num ==>
          nodeVisitNumbers[x] == if x in s.stack[|sccNodeStack|..] then Finished else s.num[x]
        decreases |sccNodeStack|
      {
        var last := |sccNodeStack| - 1;
        var x := sccNodeStack[last];
        ReversedOneMore(s.stack, last);
        currentSCC := currentSCC + [x];
        sccNodeStack := sccNodeStack[..last];
        nodeVisitNumbers := nodeVisitNumbers[x := Finished];
        found := x == root;
        assert x == s.stack[last] && (last > k ==> s.stack[k] != s.stack[last]);
      }
      IsDelivered(s, k, S());
    }

    /** The root of a component has left the path: the component is delivered. */
    method DeliverSCC(visitingN: nat, ghost s: Search)
      requires Valid(g, s) && AtRoot(s) && S() == Leave(s) && visitedNode == nodeVisitNumbers.Keys
      requires currentSCC == [] && visitingN == Top(s).node
      modifies this`currentSCC, this`sccNodeStack, this`nodeVisitNumbers
      ensures Ok() && NextComponent(g, DeliveredNodes(s), currentSCC)
      ensures Done() == DeliveredNodes(s) + set x | x in currentSCC
    {
      hide StackOk, PathOk, FrameOk, FinishedClosed, LiveEdges, Leave, Deliver, NextComponent, DeliveredNodes, Reversed;
      ghost var k := PositionOf(g, s);
      LeaveParts(s);
      DeliverKeepsValid(g, s, k);
      DeliverNumbers(g, s, k);
      CollectSCC(visitingN, k);
      assert S() == Delivered(s, k);
      DeliveredNext(g, s, k);
    }

    /** Searches on until a component is complete or the path is empty. */
    method GetNextSCC()
      requires Ok()
      modifies this`visitNum, this`nodeVisitNumbers, this`sccNodeStack, this`visitStack, this`visitedNode, this`currentSCC
      ensures Ok() && old(visitedNode) <= visitedNode
      ensures currentSCC == [] ==> visitStack == [] && Done() == old(Done()) && old(visitStack) == []
      ensures currentSCC != [] ==> NextComponent(g, old(Done()), currentSCC) && Done() == old(Done()) + set x | x in currentSCC
    {
      hide Valid, Leave, DeliveredNodes, Unseen;
      currentSCC := [];
      while visitStack != []
        invariant Ok() && currentSCC == [] && Done() == old(Done()) && old(visitedNode) <= visitedNode
        invariant old(visitStack) != [] ==> visitStack != []
        decreases Unseen(|g.rep|, visitedNode), |visitStack|
      {
        DFSVisitChildren();
        ghost var s := S();
        TopHasNumber(g, s);
        LeaveParts(s);
        var visitingN, minVisitNum := PopLeaf();
        if minVisitNum == nodeVisitNumbers[visitingN].n {
          DeliverSCC(visitingN, s);
          return;
        }
        LeaveKeepsValid(g, s);
      }
    }

    /** The next node after `x` that has not been visited, or -1. */
    method FindNextUnset(x: int) returns (r: int)
      requires x >= 0
      ensures r == -1 || (x < r < |g.rep| && r !in visitedNode)
      ensures forall y: nat :: x < y < (if r == -1 then |g.rep| else r) ==> y in visitedNode
    {
      r := x + 1;
      while r < |g.rep|
        invariant x < r && forall y: nat :: x < y < r ==> y in visitedNode
      {
        if r !in visitedNode {
          return;
        }
        r := r + 1;
      }
      r := -1;
    }

    /** The search goes on from the next node that is neither visited nor collapsed. */
    method NextSubGraph()
      requires Ok() && visitStack == [] && currentSCC == [] && lastRoot >= 0 && RootsDone(lastRoot)
      modifies this
      ensures StandsAt(old(Done()))
    {
      hide Valid, NextComponent;
      lastRoot := FindNextUnset(lastRoot);
      while lastRoot > 0
        invariant Ok() && visitStack == [] && currentSCC == [] && Done() == old(Done())
        invariant lastRoot == -1 || (0 < lastRoot < |g.rep| && lastRoot !in visitedNode)
        invariant RootsDone(if lastRoot == -1 then |g.rep| else lastRoot - 1)
        decreases if lastRoot == -1 then 0 else |g.rep| - lastRoot
      {
        if g.rep[lastRoot] == lastRoot {
          ghost var s := S();
          BeginKeepsValid(g, s, lastRoot);
          DFSVisitOne(lastRoot);
          MeetDelivers(g, s, lastRoot);
          GetNextSCC();
          return;
        }
        lastRoot := FindNextUnset(lastRoot);
      }
      NothingIsLeft(g, S());
    }

    /** operator++. */
    method Next(ghost done: set<nat>)
      requires StandsAt(done) && currentSCC != []
      modifies this
      ensures StandsAt(done + set x | x in old(currentSCC))
    {
      GetNextSCC();
      if currentSCC == [] {
        NextSubGraph();
      }
    }
  }

  lemma FirstIsNew(g: Graph, done: set<nat>, comp: seq<nat>)
    requires NextComponent(g, done, comp)
    ensures comp != [] && comp[0] < |g.rep| && comp[0] !in done && comp[0] in comp
  {
  }

  /** All components, in the order in which the iterator delivers them. */
  method FindSccs(n: nat, g: Graph) returns (order: seq<seq<nat>>, ghost pos: seq<nat>)
    requires WfGraph(n, g)
    ensures IsSccOrder(g, order, pos)
  {
    order, pos := [], seq(n, i => 0);
    hide Emitted, NextComponent, IsSccOrder, Valid;
    EmittedNothing(g, pos);
    ghost var done: set<nat> := {};
    if n > 0 {
      var it := new SccIterator(g);
      while it.currentSCC != []
        invariant it.g == g && it.StandsAt(done) && Emitted(g, done, order, pos) && fresh(it)
        decreases Unseen(n, done)
      {
        var scc := it.currentSCC;
        FirstIsNew(g, done, scc);
        UnseenShrinks(n, done, done + (set x | x in scc), scc[0]);
        ghost var pos' := seq(n, y requires 0 <= y < |pos| => if y in scc then |order| else pos[y]);
        EmitOne(g, done, order, pos, scc, pos', done + set x | x in scc);
        it.Next(done);
        order, pos, done := order + [scc], pos', done + set x | x in scc;
      }
    }
    EmittedAll(g, done, order, pos);
  }
}
