/** The search inside the iterator over the strongly connected components of the copy edges
    (include/aser/PointerAnalysis/Graph/ConstraintGraph/SCCIterator.h): Tarjan's algorithm with explicit
    stacks.  `Search` is its state and `Valid` its invariant; the lemmas say what each move does to it. */
module SccSearch {
  import opened Constraints
  import opened CopyGraph
  import opened Lists
  import opened Reachability

  /** When a node was met, or that its component has been delivered. */
  datatype Number = At(n: nat) | Finished

  /** A node of the search path: the children still to look at, and the least number seen below. */
  datatype Frame = Frame(node: nat, next: set<nat>, min: nat)

  datatype Search = Search(count: nat, num: map<nat, Number>, stack: seq<nat>, path: seq<Frame>)

  // ----- the invariant -----

  predicate OnStack(s: Search, x: nat) {
    x in s.num && s.num[x].At?
  }

  /** The stack lists the nodes with a number, in the order of their numbers. */
  ghost predicate StackOk(n: nat, s: Search) {
    && (forall x :: x in s.num ==> x < n)
    && (forall i :: 0 <= i < |s.stack| ==> OnStack(s, s.stack[i]))
    && (forall i, j :: 0 <= i < j < |s.stack| ==> s.num[s.stack[i]].n < s.num[s.stack[j]].n)
    && (forall x :: OnStack(s, x) ==> x in s.stack && s.num[x].n <= s.count)
  }

  function NumberOf(s: Search, i: nat): nat
    requires i < |s.path| && OnStack(s, s.path[i].node)
  {
    s.num[s.path[i].node].n
  }

  /** The path's nodes are on the stack, in order, and the first is at its bottom. */
  ghost predicate PathOk(s: Search) {
    && (forall i :: 0 <= i < |s.path| ==> OnStack(s, s.path[i].node))
    && (forall i, j :: 0 <= i < j < |s.path| ==> NumberOf(s, i) < NumberOf(s, j))
    && (forall x :: OnStack(s, x) ==> s.path != [] && NumberOf(s, 0) <= s.num[x].n)
  }

  /** `x` was met after the path's node `i` and before the next one. */
  ghost predicate Below(s: Search, i: nat, x: nat)
    requires PathOk(s) && i < |s.path|
  {
    && OnStack(s, x) && NumberOf(s, i) <= s.num[x].n
    && (i + 1 < |s.path| ==> s.num[x].n < NumberOf(s, i + 1))
  }

  /** A frame's least number is that of a node on the stack that its node reaches. */
  ghost predicate MinOk(edges: set<Edge>, s: Search, i: nat)
    requires PathOk(s) && i < |s.path|
  {
    && s.path[i].min <= NumberOf(s, i)
    && exists w :: OnStack(s, w) && s.num[w].n == s.path[i].min && Reaches(edges, s.path[i].node, w)
  }

  /** A node of the path reaches everything met after it. */
  ghost predicate ReachesUp(edges: set<Edge>, s: Search, i: nat)
    requires PathOk(s) && i < |s.path|
  {
    forall x :: OnStack(s, x) && NumberOf(s, i) <= s.num[x].n ==> Reaches(edges, s.path[i].node, x)
  }

  /** What lies between two nodes of the path reaches the first of them. */
  ghost predicate ReachesDown(edges: set<Edge>, s: Search, i: nat)
    requires PathOk(s) && i < |s.path|
  {
    forall x :: Below(s, i, x) ==> Reaches(edges, x, s.path[i].node)
  }

  /** Every edge that has been looked at leads to a delivered node or to one whose number counted. */
  ghost predicate Looked(edges: set<Edge>, s: Search, i: nat)
    requires PathOk(s) && i < |s.path|
  {
    forall e :: e in edges && Below(s, i, e.0) && !(e.0 == s.path[i].node && e.1 in s.path[i].next) ==>
      e.1 in s.num && (s.num[e.1].At? ==> s.path[i].min <= s.num[e.1].n)
  }

  ghost predicate FrameOk(edges: set<Edge>, s: Search, i: nat)
    requires PathOk(s) && i < |s.path|
  {
    && MinOk(edges, s, i) && ReachesUp(edges, s, i) && ReachesDown(edges, s, i) && Looked(edges, s, i)
    && forall y :: y in s.path[i].next ==> (s.path[i].node, y) in edges
  }

  /** From a delivered node there are only edges to delivered nodes. */
  ghost predicate FinishedClosed(edges: set<Edge>, s: Search) {
    forall e :: e in edges && e.0 in s.num && s.num[e.0].Finished? ==> e.1 in s.num && s.num[e.1].Finished?
  }

  ghost predicate Valid(g: Graph, s: Search) {
    && LiveEdges(g.rep, g.copy)
    && StackOk(|g.rep|, s) && PathOk(s) && FinishedClosed(g.copy, s)
    && forall i :: 0 <= i < |s.path| ==> FrameOk(g.copy, s, i)
  }

  // ----- the moves -----

  /** DFSVisitOne. */
  function Meet(edges: set<Edge>, s: Search, x: nat): Search {
    Search(s.count + 1, s.num[x := At(s.count + 1)], s.stack + [x],
           s.path + [Frame(x, Targets(edges, x), s.count + 1)])
  }

  function Top(s: Search): Frame
    requires s.path != []
  {
    s.path[|s.path| - 1]
  }

  function WithTop(s: Search, f: Frame): Search
    requires s.path != []
  {
    s.(path := s.path[..|s.path| - 1] + [f])
  }

  /** The next child is taken from the top frame; if it has been met, its number counts. */
  function Look(s: Search, y: nat): Search
    requires s.path != []
  {
    var f := Top(s);
    var min := if OnStack(s, y) && s.num[y].n < f.min then s.num[y].n else f.min;
    WithTop(s, f.(next := f.next - {y}, min := min))
  }

  /** The top frame leaves the path, and its least number counts for the one before. */
  function Leave(s: Search): Search
    requires s.path != []
  {
    var rest := s.(path := s.path[..|s.path| - 1]);
    if rest.path == [] then rest
    else WithTop(rest, Top(rest).(min := if Top(s).min < Top(rest).min then Top(s).min else Top(rest).min))
  }

  /** The stack above position `k` is delivered. */
  function Deliver(s: Search, k: nat): Search
    requires k <= |s.stack|
  {
    s.(stack := s.stack[..k],
       num := map x | x in s.num :: if x in s.stack[k..] then Finished else s.num[x])
  }

  /** A frame that a move leaves alone stays as it was, if the stack is the same up to its node. */
  lemma FrameStays(edges: set<Edge>, s: Search, t: Search, i: nat)
    requires PathOk(s) && PathOk(t) && i < |s.path| && i < |t.path| && t.path[i] == s.path[i] && FrameOk(edges, s, i)
    requires NumberOf(t, i) == NumberOf(s, i) && forall x :: Below(t, i, x) ==> Below(s, i, x)
    requires forall x :: OnStack(t, x) ==> OnStack(s, x) && t.num[x] == s.num[x]
    requires forall x :: x in s.num ==> x in t.num
    requires forall x :: OnStack(s, x) && s.num[x].n <= NumberOf(s, i) ==> OnStack(t, x)
    ensures FrameOk(edges, t, i)
  {
    hide PathOk, Below, NumberOf;
    var w :| OnStack(s, w) && s.num[w].n == s.path[i].min && Reaches(edges, s.path[i].node, w);
    assert OnStack(t, w);
  }

  // ----- looking at a child -----

  lemma SameNumbersBelow(s: Search, t: Search, i: nat)
    requires PathOk(s) && t.num == s.num && |t.path| == |s.path| && i < |s.path|
    requires forall j :: 0 <= j < |s.path| ==> t.path[j].node == s.path[j].node
    ensures PathOk(t) && NumberOf(t, i) == NumberOf(s, i)
    ensures forall x :: Below(t, i, x) <==> Below(s, i, x)
  {
    assert forall x :: OnStack(t, x) <==> OnStack(s, x);
    assert forall j :: 0 <= j < |s.path| ==> OnStack(t, t.path[j].node) && NumberOf(t, j) == NumberOf(s, j);
  }

  lemma LookKeepsTop(edges: set<Edge>, s: Search, y: nat)
    requires PathOk(s) && s.path != [] && y in s.num && (Top(s).node, y) in edges
    requires FrameOk(edges, s, |s.path| - 1)
    ensures PathOk(Look(s, y)) && FrameOk(edges, Look(s, y), |s.path| - 1)
  {
    var t, i := Look(s, y), |s.path| - 1;
    SameNumbersBelow(s, t, i);
    ReachesEdge(edges, (Top(s).node, y));
    assert MinOk(edges, t, i) by {
      var w :| OnStack(s, w) && s.num[w].n == s.path[i].min && Reaches(edges, s.path[i].node, w);
      assert OnStack(t, w);
      assert OnStack(s, y) ==> OnStack(t, y);
    }
  }

  lemma LookKeepsFrame(edges: set<Edge>, s: Search, y: nat, i: nat)
    requires PathOk(s) && s.path != [] && i < |s.path| - 1 && FrameOk(edges, s, i)
    ensures PathOk(Look(s, y)) && FrameOk(edges, Look(s, y), i)
  {
    var t := Look(s, y);
    SameNumbersBelow(s, t, i);
    FrameStays(edges, s, t, i);
  }

  lemma LookKeepsValid(g: Graph, s: Search, y: nat)
    requires Valid(g, s) && s.path != [] && y in Top(s).next && y in s.num
    ensures Valid(g, Look(s, y))
  {
    var t := Look(s, y);
    SameNumbersBelow(s, t, 0);
    assert FrameOk(g.copy, s, |s.path| - 1);
    LookKeepsTop(g.copy, s, y);
    forall i | 0 <= i < |t.path| ensures FrameOk(g.copy, t, i) {
      if i < |s.path| - 1 {
        LookKeepsFrame(g.copy, s, y, i);
      }
    }
  }

  // ----- meeting a node -----

  /** The next child has not been met: it is taken from the top frame and met. */
  function Enter(edges: set<Edge>, s: Search, y: nat): Search
    requires s.path != []
  {
    Meet(edges, WithTop(s, Top(s).(next := Top(s).next - {y})), y)
  }

  lemma EnterPath(edges: set<Edge>, s: Search, y: nat)
    requires s.path != []
    ensures var t := Enter(edges, s, y);
      && |t.path| == |s.path| + 1 && t.num == s.num[y := At(s.count + 1)]
      && (forall i :: 0 <= i < |s.path| ==> t.path[i].node == s.path[i].node && t.path[i].min == s.path[i].min)
      && (forall i :: 0 <= i < |s.path| - 1 ==> t.path[i] == s.path[i])
      && t.path[|s.path| - 1].next == Top(s).next - {y}
      && t.path[|s.path|] == Frame(y, Targets(edges, y), s.count + 1)
  {
  }

  lemma EnterStack(edges: set<Edge>, n: nat, s: Search, y: nat)
    requires StackOk(n, s) && s.path != [] && y !in s.num && y < n
    ensures StackOk(n, Enter(edges, s, y))
    ensures forall x :: OnStack(Enter(edges, s, y), x) <==> OnStack(s, x) || x == y
  {
    var t := Enter(edges, s, y);
    assert forall i :: 0 <= i < |s.stack| ==> t.stack[i] == s.stack[i] != y;
    assert forall x :: x in t.stack <==> x in s.stack || x == y;
  }

  lemma EnterKeepsPath(edges: set<Edge>, n: nat, s: Search, y: nat)
    requires StackOk(n, s) && PathOk(s) && s.path != [] && y !in s.num && y < n
    ensures var t := Enter(edges, s, y);
      && PathOk(t) && (forall i :: 0 <= i < |s.path| ==> i < |t.path| && NumberOf(t, i) == NumberOf(s, i))
      && |t.path| == |s.path| + 1 && NumberOf(t, |s.path|) == s.count + 1
  {
    EnterPath(edges, s, y);
    EnterStack(edges, n, s, y);
    var t := Enter(edges, s, y);
    hide Enter;
    assert forall x :: OnStack(s, x) ==> t.num[x] == s.num[x] && s.num[x].n <= s.count;
    hide StackOk;
    assert forall j :: 0 <= j < |s.path| ==> OnStack(t, t.path[j].node) && NumberOf(t, j) == NumberOf(s, j);
    assert OnStack(t, t.path[|s.path|].node) && NumberOf(t, |s.path|) == s.count + 1;
  }

  /** What lies below the frames of the path stays, and below the new frame lies its node alone. */
  lemma EnterBelow(edges: set<Edge>, n: nat, s: Search, y: nat, i: nat, x: nat)
    requires StackOk(n, s) && PathOk(s) && s.path != [] && y !in s.num && y < n && i <= |s.path|
    ensures PathOk(Enter(edges, s, y)) && |Enter(edges, s, y).path| == |s.path| + 1
    ensures Below(Enter(edges, s, y), i, x) <==> if i == |s.path| then x == y else x != y && Below(s, i, x)
  {
    EnterKeepsPath(edges, n, s, y);
    EnterPath(edges, s, y);
    EnterStack(edges, n, s, y);
    assert OnStack(s, x) ==> s.num[x].n <= s.count;
    if i < |s.path| {
      assert OnStack(s, s.path[i].node) && NumberOf(s, i) <= s.count;
      assert i + 1 < |s.path| ==> OnStack(s, s.path[i + 1].node) && NumberOf(s, i + 1) <= s.count;
    }
    hide Enter, StackOk, PathOk, NumberOf;
  }

  lemma EnterNumbers(edges: set<Edge>, n: nat, s: Search, y: nat)
    requires StackOk(n, s) && PathOk(s) && s.path != [] && y !in s.num && y < n
    ensures var t := Enter(edges, s, y);
      && StackOk(n, t) && PathOk(t) && |t.path| == |s.path| + 1
      && (forall i :: 0 <= i < |s.path| ==> NumberOf(t, i) == NumberOf(s, i))
      && NumberOf(t, |s.path|) == s.count + 1
      && (forall i, x :: 0 <= i < |s.path| && x != y ==> (Below(t, i, x) <==> Below(s, i, x)))
      && (forall i :: 0 <= i < |s.path| ==> !Below(t, i, y))
      && (forall x :: Below(t, |s.path|, x) <==> x == y)
  {
    hide Enter, PathOk, NumberOf, StackOk, Below;
    EnterStack(edges, n, s, y);
    EnterKeepsPath(edges, n, s, y);
    forall i, x | 0 <= i <= |s.path|
      ensures Below(Enter(edges, s, y), i, x) <==> if i == |s.path| then x == y else x != y && Below(s, i, x)
    {
      EnterBelow(edges, n, s, y, i, x);
    }
  }

  lemma EnterKeepsMin(edges: set<Edge>, n: nat, s: Search, y: nat, i: nat)
    requires StackOk(n, s) && PathOk(s) && s.path != [] && y !in s.num && y < n && i < |s.path| && MinOk(edges, s, i)
    ensures PathOk(Enter(edges, s, y)) && MinOk(edges, Enter(edges, s, y), i)
  {
    var t := Enter(edges, s, y);
    EnterPath(edges, s, y);
    EnterNumbers(edges, n, s, y);
    hide Enter, StackOk, PathOk;
    var w :| OnStack(s, w) && s.num[w].n == s.path[i].min && Reaches(edges, s.path[i].node, w);
    assert OnStack(t, w);
  }

  lemma EnterKeepsUp(edges: set<Edge>, n: nat, s: Search, y: nat, i: nat)
    requires StackOk(n, s) && PathOk(s) && s.path != [] && y !in s.num && y < n && (Top(s).node, y) in edges
    requires i < |s.path| && ReachesUp(edges, s, i)
    ensures PathOk(Enter(edges, s, y)) && ReachesUp(edges, Enter(edges, s, y), i)
  {
    EnterPath(edges, s, y);
    EnterStack(edges, n, s, y);
    EnterNumbers(edges, n, s, y);
    var last := |s.path| - 1;
    assert i < last ==> NumberOf(s, i) < NumberOf(s, last);
    assert OnStack(s, s.path[last].node) && NumberOf(s, i) <= s.num[s.path[last].node].n;
    hide Enter, StackOk, PathOk;
    assert Reaches(edges, s.path[i].node, Top(s).node);
    ReachesEdge(edges, (Top(s).node, y));
    ReachesTransitive(edges, s.path[i].node, Top(s).node, y);
  }

  lemma EnterKeepsLooked(edges: set<Edge>, n: nat, s: Search, y: nat, i: nat)
    requires StackOk(n, s) && PathOk(s) && s.path != [] && y !in s.num && y < n
    requires i < |s.path| && MinOk(edges, s, i) && Looked(edges, s, i)
    ensures PathOk(Enter(edges, s, y)) && Looked(edges, Enter(edges, s, y), i)
  {
    var t := Enter(edges, s, y);
    EnterPath(edges, s, y);
    EnterNumbers(edges, n, s, y);
    assert s.path[i].min <= NumberOf(s, i) <= s.count by {
      assert OnStack(s, s.path[i].node);
    }
    hide Enter, StackOk, PathOk, MinOk;
    forall e | e in edges && Below(t, i, e.0) && !(e.0 == t.path[i].node && e.1 in t.path[i].next)
      ensures e.1 in t.num && (t.num[e.1].At? ==> t.path[i].min <= t.num[e.1].n)
    {
      assert Below(s, i, e.0);
    }
  }

  lemma EnterKeepsFrame(edges: set<Edge>, n: nat, s: Search, y: nat, i: nat)
    requires StackOk(n, s) && PathOk(s) && s.path != [] && y !in s.num && y < n && y in Top(s).next
    requires i < |s.path| && FrameOk(edges, s, i) && FrameOk(edges, s, |s.path| - 1)
    ensures PathOk(Enter(edges, s, y)) && FrameOk(edges, Enter(edges, s, y), i)
  {
    assert (Top(s).node, y) in edges;
    EnterKeepsMin(edges, n, s, y, i);
    EnterKeepsUp(edges, n, s, y, i);
    EnterKeepsLooked(edges, n, s, y, i);
    EnterPath(edges, s, y);
    EnterNumbers(edges, n, s, y);
    hide Enter, StackOk, PathOk, MinOk, ReachesUp, Looked;
  }

  lemma NewFrameOk(edges: set<Edge>, n: nat, s: Search, y: nat)
    requires StackOk(n, s) && PathOk(s) && s.path != [] && y !in s.num && y < n
    ensures PathOk(Enter(edges, s, y)) && FrameOk(edges, Enter(edges, s, y), |s.path|)
  {
    EnterNumbers(edges, n, s, y);
    var t := Enter(edges, s, y);
    assert OnStack(t, y) && Reaches(edges, y, y);
    forall x | OnStack(t, x) && NumberOf(t, |s.path|) <= t.num[x].n ensures x == y {
    }
    forall e | e in edges && Below(t, |s.path|, e.0) ensures e.1 in t.path[|s.path|].next {
      assert e.0 == y;
    }
  }

  lemma EnterKeepsValid(g: Graph, s: Search, y: nat)
    requires Valid(g, s) && s.path != [] && y in Top(s).next && y !in s.num
    ensures Valid(g, Enter(g.copy, s, y))
  {
    var t := Enter(g.copy, s, y);
    assert FrameOk(g.copy, s, |s.path| - 1) && (Top(s).node, y) in g.copy && (Top(s).node, y).1 < |g.rep|;
    EnterNumbers(g.copy, |g.rep|, s, y);
    forall i | 0 <= i < |t.path| ensures FrameOk(g.copy, t, i) {
      if i < |s.path| {
        EnterKeepsFrame(g.copy, |g.rep|, s, y, i);
      } else {
        NewFrameOk(g.copy, |g.rep|, s, y);
      }
    }
  }

  /** A search that has nothing on its path begins at `x`. */
  lemma BeginKeepsValid(g: Graph, s: Search, x: nat)
    requires Valid(g, s) && s.path == [] && x < |g.rep| && x !in s.num
    ensures Valid(g, Meet(g.copy, s, x))
  {
    var t := Meet(g.copy, s, x);
    assert forall y :: OnStack(t, y) <==> y == x;
    assert OnStack(t, x) && Reaches(g.copy, x, x);
    forall e | e in g.copy && Below(t, 0, e.0) ensures e.1 in t.path[0].next {
      assert e.0 == x;
    }
  }

  // ----- leaving the path -----

  lemma LeaveNumbers(s: Search)
    requires PathOk(s) && |s.path| > 1
    ensures var t, last := Leave(s), |s.path| - 1;
      && PathOk(t) && |t.path| == last && t.num == s.num && t.stack == s.stack
      && forall i :: 0 <= i < last ==> NumberOf(t, i) == NumberOf(s, i) && t.path[i].node == s.path[i].node
  {
    var t := Leave(s);
    assert forall i :: 0 <= i < |s.path| - 1 ==> t.path[i].node == s.path[i].node;
    assert forall x :: OnStack(t, x) <==> OnStack(s, x);
    assert forall j :: 0 <= j < |t.path| ==> OnStack(t, t.path[j].node) && NumberOf(t, j) == NumberOf(s, j);
  }

  /** What was met since the top frame now lies below the one before. */
  lemma LeaveBelow(s: Search, i: nat, x: nat)
    requires PathOk(s) && i + 1 < |s.path|
    ensures PathOk(Leave(s)) && |Leave(s).path| == |s.path| - 1
    ensures Below(Leave(s), i, x) <==> Below(s, i, x) || (i + 2 == |s.path| && Below(s, i + 1, x))
  {
    LeaveNumbers(s);
    hide Leave, PathOk;
    assert NumberOf(s, i) < NumberOf(s, i + 1) by {
      OneMoreOnPath(s, i);
    }
  }

  lemma OneMoreOnPath(s: Search, i: nat)
    requires PathOk(s) && i + 1 < |s.path|
    ensures NumberOf(s, i) < NumberOf(s, i + 1)
  {
  }

  lemma LeaveKeepsFrame(edges: set<Edge>, s: Search, i: nat)
    requires PathOk(s) && |s.path| > 1 && i < |s.path| - 2 && FrameOk(edges, s, i)
    ensures PathOk(Leave(s)) && FrameOk(edges, Leave(s), i)
  {
    LeaveNumbers(s);
    forall x ensures Below(Leave(s), i, x) <==> Below(s, i, x) {
      LeaveBelow(s, i, x);
    }
    FrameStays(edges, s, Leave(s), i);
  }

  /** The frame that a node on the stack lies below. */
  lemma {:induction false} FindFrame(s: Search, x: nat, k: nat) returns (i: nat)
    requires PathOk(s) && OnStack(s, x) && k < |s.path| && s.num[x].n < NumberOf(s, k)
    ensures i < k && Below(s, i, x)
  {
    i := k - 1;
    if s.num[x].n < NumberOf(s, i) {
      i := FindFrame(s, x, i);
    }
  }

  /** A node that did not reach its own number reaches the node before it on the path. */
  lemma TopReachesParent(edges: set<Edge>, s: Search)
    requires PathOk(s) && |s.path| > 1 && Top(s).min != NumberOf(s, |s.path| - 1)
    requires forall i :: 0 <= i < |s.path| ==> FrameOk(edges, s, i)
    ensures Reaches(edges, Top(s).node, s.path[|s.path| - 2].node)
  {
    var last := |s.path| - 1;
    var parent := s.path[last - 1].node;
    assert FrameOk(edges, s, last);
    var w :| OnStack(s, w) && s.num[w].n == s.path[last].min && Reaches(edges, s.path[last].node, w);
    var i := FindFrame(s, w, last);
    assert FrameOk(edges, s, i);
    assert ReachesDown(edges, s, i) && ReachesUp(edges, s, i);
    ReachesTransitive(edges, Top(s).node, w, s.path[i].node);
    assert i < last - 1 ==> NumberOf(s, i) < NumberOf(s, last - 1);
    assert OnStack(s, parent) && NumberOf(s, i) <= s.num[parent].n;
    ReachesTransitive(edges, Top(s).node, s.path[i].node, parent);
  }

  lemma ParentMin(edges: set<Edge>, s: Search)
    requires PathOk(s) && |s.path| > 1 && FrameOk(edges, s, |s.path| - 1) && FrameOk(edges, s, |s.path| - 2)
    ensures PathOk(Leave(s)) && MinOk(edges, Leave(s), |s.path| - 2)
  {
    LeaveNumbers(s);
    var t, last := Leave(s), |s.path| - 1;
    var w :| OnStack(s, w) && s.num[w].n == s.path[last].min && Reaches(edges, s.path[last].node, w);
    var v :| OnStack(s, v) && s.num[v].n == s.path[last - 1].min && Reaches(edges, s.path[last - 1].node, v);
    assert OnStack(s, Top(s).node) && NumberOf(s, last - 1) <= s.num[Top(s).node].n;
    ReachesTransitive(edges, s.path[last - 1].node, Top(s).node, w);
    assert OnStack(t, w) && OnStack(t, v);
  }

  lemma ParentReachesDown(edges: set<Edge>, s: Search)
    requires PathOk(s) && |s.path| > 1 && ReachesDown(edges, s, |s.path| - 1) && ReachesDown(edges, s, |s.path| - 2)
    requires Reaches(edges, Top(s).node, s.path[|s.path| - 2].node)
    ensures PathOk(Leave(s)) && ReachesDown(edges, Leave(s), |s.path| - 2)
  {
    LeaveNumbers(s);
    var t, last, p := Leave(s), |s.path| - 1, |s.path| - 2;
    hide PathOk, Leave;
    forall x | Below(t, p, x) ensures Reaches(edges, x, t.path[p].node) {
      LeaveBelow(s, p, x);
      if Below(s, last, x) {
        ReachesTransitive(edges, x, Top(s).node, s.path[p].node);
      }
    }
  }

  lemma ParentLooked(edges: set<Edge>, s: Search)
    requires PathOk(s) && |s.path| > 1 && Top(s).next == {}
    requires Looked(edges, s, |s.path| - 1) && Looked(edges, s, |s.path| - 2)
    ensures PathOk(Leave(s)) && Looked(edges, Leave(s), |s.path| - 2)
  {
    LeaveNumbers(s);
    var t, last, p := Leave(s), |s.path| - 1, |s.path| - 2;
    assert t.path[p].min <= s.path[last].min && t.path[p].min <= s.path[p].min && t.path[p].next == s.path[p].next;
    hide PathOk, Leave, Below;
    forall e | e in edges && Below(t, p, e.0) && !(e.0 == t.path[p].node && e.1 in t.path[p].next)
      ensures e.1 in t.num && (t.num[e.1].At? ==> t.path[p].min <= t.num[e.1].n)
    {
      LeaveBelow(s, p, e.0);
      if Below(s, last, e.0) {
        assert e.1 in s.num && (s.num[e.1].At? ==> s.path[last].min <= s.num[e.1].n);
      } else {
        assert Below(s, p, e.0);
      }
    }
  }

  lemma ParentFrameOk(edges: set<Edge>, s: Search)
    requires PathOk(s) && |s.path| > 1 && Top(s).next == {} && Top(s).min != NumberOf(s, |s.path| - 1)
    requires forall i :: 0 <= i < |s.path| ==> FrameOk(edges, s, i)
    ensures PathOk(Leave(s)) && FrameOk(edges, Leave(s), |s.path| - 2)
  {
    var last, p := |s.path| - 1, |s.path| - 2;
    assert FrameOk(edges, s, last) && FrameOk(edges, s, p);
    LeaveNumbers(s);
    assert Leave(s).path[p].next == s.path[p].next;
    TopReachesParent(edges, s);
    hide PathOk, Leave, MinOk, ReachesDown, Looked, Below;
    ParentMin(edges, s);
    ParentReachesDown(edges, s);
    ParentLooked(edges, s);
  }

  /** The first node of the path cannot reach below itself. */
  lemma LoneTopIsRoot(edges: set<Edge>, s: Search)
    requires PathOk(s) && |s.path| == 1 && FrameOk(edges, s, 0)
    ensures Top(s).min == NumberOf(s, 0)
  {
  }

  lemma LeaveKeepsValid(g: Graph, s: Search)
    requires Valid(g, s) && s.path != [] && Top(s).next == {} && Top(s).min != NumberOf(s, |s.path| - 1)
    ensures Valid(g, Leave(s)) && Leave(s).path != []
  {
    assert FrameOk(g.copy, s, |s.path| - 1);
    if |s.path| == 1 {
      LoneTopIsRoot(g.copy, s);
    } else {
      var t := Leave(s);
      LeaveNumbers(s);
      forall i | 0 <= i < |t.path| ensures FrameOk(g.copy, t, i) {
        if i < |t.path| - 1 {
          LeaveKeepsFrame(g.copy, s, i);
        } else {
          ParentFrameOk(g.copy, s);
        }
      }
    }
  }

  // ----- delivering a component -----

  /** What is delivered: the stack from `root` on.  Its nodes reach each other, and its edges lead
      nowhere but into it and to what was delivered before. */
  ghost predicate IsComponent(g: Graph, s: Search, comp: set<nat>) {
    && comp != {} && (forall x :: x in comp ==> OnStack(s, x))
    && (forall x, y :: x in comp && y in comp ==> Reaches(g.copy, x, y))
    && forall e :: e in g.copy && e.0 in comp ==> e.1 in comp || (e.1 in s.num && s.num[e.1].Finished?)
  }

  ghost predicate AtRoot(s: Search) {
    PathOk(s) && s.path != [] && Top(s).next == {} && Top(s).min == NumberOf(s, |s.path| - 1)
  }

  /** Everything met since the root of a finished search. */
  function Since(s: Search): set<nat>
    requires s.path != [] && OnStack(s, Top(s).node)
  {
    set x | x in s.num && s.num[x].At? && s.num[Top(s).node].n <= s.num[x].n
  }

  lemma RootIsComponent(g: Graph, s: Search)
    requires Valid(g, s) && AtRoot(s)
    ensures IsComponent(g, s, Since(s))
  {
    var last, comp := |s.path| - 1, Since(s);
    assert FrameOk(g.copy, s, last);
    assert forall x :: x in comp <==> Below(s, last, x);
    assert Top(s).node in comp;
    forall x, y | x in comp && y in comp ensures Reaches(g.copy, x, y) {
      ReachesTransitive(g.copy, x, Top(s).node, y);
    }
    forall e | e in g.copy && e.0 in comp ensures e.1 in comp || (e.1 in s.num && s.num[e.1].Finished?) {
      assert Below(s, last, e.0);
    }
  }

  lemma SinceIsTopOfStack(n: nat, s: Search, k: nat)
    requires StackOk(n, s) && s.path != [] && k < |s.stack| && s.stack[k] == Top(s).node
    ensures forall x :: x in s.stack[k..] <==> x in Since(s)
    ensures forall x :: x in s.stack[..k] <==> OnStack(s, x) && x !in Since(s)
  {
    forall x | OnStack(s, x) ensures x in s.stack[k..] <==> x in Since(s) {
      var i :| 0 <= i < |s.stack| && s.stack[i] == x;
      if i >= k {
        assert s.stack[k..][i - k] == x;
      }
    }
    forall x | OnStack(s, x) && x !in Since(s) ensures x in s.stack[..k] {
      var i :| 0 <= i < |s.stack| && s.stack[i] == x;
      assert i < k;
      assert s.stack[..k][i] == x;
    }
  }

  /** The state after the component above position `k` is delivered. */
  function Delivered(s: Search, k: nat): Search
    requires s.path != [] && k <= |s.stack|
  {
    Deliver(Leave(s), k)
  }

  lemma DeliverStack(n: nat, s: Search, k: nat)
    requires StackOk(n, s) && PathOk(s) && s.path != [] && k < |s.stack| && s.stack[k] == Top(s).node
    ensures var t := Deliver(s, k);
      && StackOk(n, t) && t.num.Keys == s.num.Keys
      && (forall x :: OnStack(t, x) <==> OnStack(s, x) && x !in Since(s))
      && (forall x :: OnStack(t, x) ==> t.num[x] == s.num[x])
      && (forall x :: x in Since(s) ==> t.num[x].Finished?)
      && (forall x :: x in s.num && s.num[x].Finished? ==> t.num[x].Finished?)
  {
    SinceIsTopOfStack(n, s, k);
    var t := Deliver(s, k);
    forall i | 0 <= i < |t.stack| ensures OnStack(t, t.stack[i]) && t.stack[i] == s.stack[i] {
      assert t.stack[i] in s.stack[..k];
    }
  }

  lemma DeliverPath(s: Search, t: Search)
    requires PathOk(s) && s.path != [] && t.path == s.path[..|s.path| - 1]
    requires forall x :: OnStack(t, x) <==> OnStack(s, x) && x !in Since(s)
    requires forall x :: OnStack(t, x) ==> t.num[x] == s.num[x]
    ensures PathOk(t) && forall i :: 0 <= i < |t.path| ==> NumberOf(t, i) == NumberOf(s, i)
  {
    var last := |s.path| - 1;
    forall i | 0 <= i < last ensures OnStack(t, t.path[i].node) && NumberOf(t, i) == NumberOf(s, i) {
      assert NumberOf(s, i) < NumberOf(s, last);
    }
    assert last == 0 ==> forall x :: OnStack(s, x) ==> x in Since(s);
  }

  lemma DeliverNumbers(g: Graph, s: Search, k: nat)
    requires Valid(g, s) && AtRoot(s) && k < |s.stack| && s.stack[k] == Top(s).node
    ensures var t := Delivered(s, k);
      && StackOk(|g.rep|, t) && PathOk(t) && t.path == s.path[..|s.path| - 1]
      && (forall x :: OnStack(t, x) <==> OnStack(s, x) && x !in Since(s))
      && (forall x :: OnStack(t, x) ==> t.num[x] == s.num[x])
      && t.num.Keys == s.num.Keys && (forall x :: x in Since(s) ==> t.num[x].Finished?)
      && (forall x :: x in s.num && s.num[x].Finished? ==> t.num[x].Finished?)
      && (forall i :: 0 <= i < |t.path| ==> NumberOf(t, i) == NumberOf(s, i))
  {
    hide FrameOk, FinishedClosed, LiveEdges, StackOk;
    var t, last := Delivered(s, k), |s.path| - 1;
    RootKeepsParent(g, s);
    DeliverStack(|g.rep|, s, k);
    assert t == Deliver(s, k).(path := s.path[..last]);
    hide Deliver, Leave, Delivered, PathOk, Since;
    assert forall x :: OnStack(t, x) <==> OnStack(Deliver(s, k), x);
    StackOfPath(|g.rep|, Deliver(s, k), t);
    DeliverPath(s, t);
  }

  lemma StackOfPath(n: nat, s: Search, t: Search)
    requires StackOk(n, s) && t == s.(path := t.path)
    ensures StackOk(n, t)
  {
  }

  /** The root's number is above the least number of the frame before. */
  lemma RootKeepsParent(g: Graph, s: Search)
    requires Valid(g, s) && AtRoot(s)
    ensures Leave(s) == s.(path := s.path[..|s.path| - 1])
  {
    if |s.path| > 1 {
      assert FrameOk(g.copy, s, |s.path| - 2);
      OneMoreOnPath(s, |s.path| - 2);
    }
  }

  lemma SinceIff(s: Search, x: nat)
    requires PathOk(s) && s.path != []
    ensures x in Since(s) <==> OnStack(s, x) && NumberOf(s, |s.path| - 1) <= s.num[x].n
  {
  }

  lemma DeliverBelow(g: Graph, s: Search, k: nat, i: nat, x: nat)
    requires Valid(g, s) && AtRoot(s) && k < |s.stack| && s.stack[k] == Top(s).node && i < |s.path| - 1
    ensures PathOk(Delivered(s, k)) && i < |Delivered(s, k).path|
    ensures Below(Delivered(s, k), i, x) <==> Below(s, i, x)
  {
    DeliverNumbers(g, s, k);
    SinceIff(s, x);
    OneMoreOnPath(s, i);
    if i + 2 < |s.path| {
      assert NumberOf(s, i + 1) < NumberOf(s, |s.path| - 1);
    }
    hide Delivered, StackOk, PathOk, NumberOf, Since;
  }

  lemma DeliverKeepsFrame(g: Graph, s: Search, k: nat, i: nat)
    requires Valid(g, s) && AtRoot(s) && k < |s.stack| && s.stack[k] == Top(s).node && i < |s.path| - 1
    ensures PathOk(Delivered(s, k)) && i < |Delivered(s, k).path| && FrameOk(g.copy, Delivered(s, k), i)
  {
    var t, last := Delivered(s, k), |s.path| - 1;
    DeliverNumbers(g, s, k);
    assert FrameOk(g.copy, s, i) && NumberOf(s, i) < NumberOf(s, last);
    forall x ensures Below(t, i, x) <==> Below(s, i, x) {
      DeliverBelow(g, s, k, i, x);
    }
    forall x | OnStack(s, x) && s.num[x].n <= NumberOf(s, i) ensures OnStack(t, x) {
      SinceIff(s, x);
    }
    hide Delivered, FrameOk, PathOk, Since, StackOk, Below;
    FrameStays(g.copy, s, t, i);
  }

  lemma DeliverList(n: nat, s: Search, k: nat)
    requires StackOk(n, s) && s.path != [] && k < |s.stack| && s.stack[k] == Top(s).node
    ensures OnStack(s, Top(s).node) && SameElements(s.stack[k..], Since(s)) && Distinct(s.stack[k..])
  {
    SinceIsTopOfStack(n, s, k);
    forall i, j | 0 <= i < j < |s.stack[k..]| ensures s.stack[k..][i] != s.stack[k..][j] {
      assert s.num[s.stack[k + i]].n < s.num[s.stack[k + j]].n;
    }
    hide Since;
    forall i | 0 <= i < |s.stack[k..]| ensures s.stack[k..][i] in Since(s) {
      assert s.stack[k..][i] in s.stack[k..];
    }
  }

  lemma DeliverClosed(g: Graph, s: Search, k: nat)
    requires Valid(g, s) && AtRoot(s) && k < |s.stack| && s.stack[k] == Top(s).node && IsComponent(g, s, Since(s))
    ensures FinishedClosed(g.copy, Delivered(s, k))
  {
    DeliverNumbers(g, s, k);
    var t := Delivered(s, k);
    hide StackOk, PathOk, FrameOk, Delivered, Since, AtRoot, LiveEdges;
    forall e | e in g.copy && e.0 in t.num && t.num[e.0].Finished? ensures e.1 in t.num && t.num[e.1].Finished? {
      assert !OnStack(t, e.0);
      if e.0 !in Since(s) {
        assert s.num[e.0].Finished?;
      }
    }
  }

  /** Delivering keeps the invariant, and what is delivered is a component. */
  lemma DeliverKeepsValid(g: Graph, s: Search, k: nat)
    requires Valid(g, s) && AtRoot(s) && k < |s.stack| && s.stack[k] == Top(s).node
    ensures Valid(g, Delivered(s, k)) && IsComponent(g, s, Since(s))
    ensures SameElements(s.stack[k..], Since(s)) && Distinct(s.stack[k..])
  {
    var t := Delivered(s, k);
    RootIsComponent(g, s);
    DeliverNumbers(g, s, k);
    DeliverList(|g.rep|, s, k);
    DeliverClosed(g, s, k);
    hide StackOk, PathOk, FrameOk, FinishedClosed, Delivered, Since, IsComponent;
    forall i | 0 <= i < |t.path| ensures FrameOk(g.copy, t, i) {
      DeliverKeepsFrame(g, s, k, i);
    }
  }
}
