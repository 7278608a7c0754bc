/** The context-sensitive call graph built on the fly
    (include/aser/PointerAnalysis/Program/CtxModule.h): a breadth-first expansion from the entry
    function, re-entered whenever an indirect call is resolved.

    A function is the list of its call sites; the language model is a function that says, per
    call, whether to ignore it, where to redirect it and whether to expand the target. */
module CallGraphs {
  import opened CallStrings
  import opened Lists
  import opened Options
  import opened Reachability

  datatype Callee = Direct(target: nat) | Indirect
  datatype Call = Call(inst: nat, callee: Callee)
  datatype Choice = ExpandBody | OnlyCallSite | Ignore
  datatype Redirect = ToFunction(fun: nat) | ToPointer
  datatype Intercept = Intercept(redirect: Redirect, choice: Choice)
  datatype Program = Program(k: nat, entry: nat, body: map<nat, seq<Call>>, external: set<nat>,
                             intercept: (nat, nat) -> Intercept)

  ghost predicate WfProgram(p: Program) {
    && p.k > 0
    && (forall f, j :: f in p.body && 0 <= j < |p.body[f]| && p.body[f][j].callee.Direct? ==>
          p.body[f][j].callee.target in p.body)
    && (forall f, inst :: p.intercept(f, inst).redirect.ToFunction? ==> p.intercept(f, inst).redirect.fun in p.body)
    && OwnInstructions(p)
  }

  /** An instruction stands at one place in one function. */
  ghost predicate OwnInstructions(p: Program) {
    forall f, i, g, j ::
      (f in p.body && g in p.body && 0 <= i < |p.body[f]| && 0 <= j < |p.body[g]|
        && p.body[f][i].inst == p.body[g][j].inst)
      ==> f == g && i == j
  }

  function Instructions(p: Program): set<nat> {
    set f, i | f in p.body && 0 <= i < |p.body[f]| :: p.body[f][i].inst
  }

  // ----- the graph -----

  datatype CallNode = DirectNode(ctx: Context, fun: nat) | IndirectNode(ctx: Context, inst: nat)

  /** Caller, call instruction, callee. */
  type CallEdge = (nat, nat, nat)
  type Key = (Context, nat)

  /** The two maps, the nodes and edges of the call graph, the nodes marked external, the
      resolved targets of indirect nodes, and which nodes have been visited. */
  datatype CG = CG(nodes: seq<CallNode>, edges: set<CallEdge>, funMap: map<Key, nat>, ptrMap: map<Key, nat>,
                   ext: set<nat>, resolved: set<(nat, nat)>, ghost visited: set<nat>)

  function KeyOf(n: CallNode): Key {
    if n.DirectNode? then (n.ctx, n.fun) else (n.ctx, n.inst)
  }

  predicate Known(s: CG, n: CallNode) {
    if n.DirectNode? then KeyOf(n) in s.funMap else KeyOf(n) in s.ptrMap
  }

  function IdOf(s: CG, n: CallNode): nat
    requires Known(s, n)
  {
    if n.DirectNode? then s.funMap[KeyOf(n)] else s.ptrMap[KeyOf(n)]
  }

  ghost predicate MapsOk(s: CG) {
    && (forall id :: 0 <= id < |s.nodes| ==> Known(s, s.nodes[id]) && IdOf(s, s.nodes[id]) == id)
    && (forall n :: Known(s, n) ==> IdOf(s, n) < |s.nodes| && s.nodes[IdOf(s, n)] == n)
  }

  ghost predicate NodeOk(p: Program, n: CallNode) {
    && n.ctx in AllContexts(p.k, Instructions(p)) && |n.ctx| == p.k
    && (n.DirectNode? ==> n.fun in p.body)
  }

  /** The node a call site of a visited node must lead to, if the call is not ignored. */
  function Target(p: Program, n: CallNode, call: Call): Option<CallNode>
    requires n.ctx != []
  {
    if call.callee.Indirect? then Some(IndirectNode(n.ctx, call.inst))
    else
      var r := p.intercept(call.callee.target, call.inst);
      if r.choice.Ignore? then None
      else if r.redirect.ToFunction? then Some(DirectNode(Evolve(n.ctx, call.inst), r.redirect.fun))
      else Some(IndirectNode(n.ctx, call.inst))
  }

  /** The first `j` call sites of a node have their edges. */
  ghost predicate Complete(p: Program, s: CG, id: nat, j: nat)
    requires id < |s.nodes| && s.nodes[id].DirectNode? && s.nodes[id].fun in p.body && s.nodes[id].ctx != []
    requires j <= |p.body[s.nodes[id].fun]|
  {
    forall i :: 0 <= i < j ==>
      var call := p.body[s.nodes[id].fun][i];
      var t := Target(p, s.nodes[id], call);
      t.Some? ==> Known(s, t.value) && (id, call.inst, IdOf(s, t.value)) in s.edges
  }

  ghost predicate AllComplete(p: Program, s: CG, but: int)
    requires p.k > 0
  {
    forall id: nat :: id in s.visited && id != but ==>
      && id < |s.nodes| && s.nodes[id].DirectNode? && NodeOk(p, s.nodes[id])
      && Complete(p, s, id, |p.body[s.nodes[id].fun]|)
  }

  /** The edge belongs to a call site of its caller. */
  ghost predicate FromCallSite(p: Program, s: CG, e: CallEdge)
    requires e.0 < |s.nodes| && e.2 < |s.nodes| && NodeOk(p, s.nodes[e.0]) && p.k > 0
  {
    s.nodes[e.0].DirectNode? && exists i ::
      && 0 <= i < |p.body[s.nodes[e.0].fun]|
      && p.body[s.nodes[e.0].fun][i].inst == e.1
      && Target(p, s.nodes[e.0], p.body[s.nodes[e.0].fun][i]) == Some(s.nodes[e.2])
  }

  /** The edge belongs to an indirect call of its caller that has been resolved. */
  ghost predicate FromResolution(p: Program, s: CG, e: CallEdge)
    requires e.0 < |s.nodes| && e.2 < |s.nodes| && s.nodes[e.0].ctx != []
  {
    && s.nodes[e.2].DirectNode? && s.nodes[e.2].ctx == Evolve(s.nodes[e.0].ctx, e.1)
    && exists ind :: (ind, e.2) in s.resolved && (e.0, e.1, ind) in s.edges
  }

  ghost predicate EdgeOk(p: Program, s: CG, e: CallEdge)
    requires p.k > 0
  {
    && e.0 in s.visited && e.0 < |s.nodes| && e.2 < |s.nodes| && NodeOk(p, s.nodes[e.0])
    && (FromCallSite(p, s, e) || FromResolution(p, s, e))
  }

  ghost predicate EdgesOk(p: Program, s: CG)
    requires p.k > 0
  {
    forall e :: e in s.edges ==> EdgeOk(p, s, e)
  }

  ghost predicate ResolvedOk(s: CG) {
    forall r :: r in s.resolved ==>
      && r.0 < |s.nodes| && s.nodes[r.0].IndirectNode? && r.1 < |s.nodes| && s.nodes[r.1].DirectNode?
      && forall e :: e in s.edges && e.2 == r.0 ==> (e.0, e.1, r.1) in s.edges
  }

  /** Every indirect node hangs from some call site. */
  ghost predicate IndirectHasCaller(s: CG) {
    forall id :: 0 <= id < |s.nodes| && s.nodes[id].IndirectNode? ==>
      exists e :: e in s.edges && e.2 == id && e.1 == s.nodes[id].inst
  }

  ghost predicate ClosedUnderCalls(s: CG, t: set<nat>) {
    0 in t && forall e :: e in s.edges && e.0 in t ==> e.2 in t
  }

  /** Every node is reachable from the entry node along call edges. */
  ghost predicate AllReachable(s: CG) {
    forall t: set<nat> :: ClosedUnderCalls(s, t) ==> forall id :: 0 <= id < |s.nodes| ==> id in t
  }

  /** Nodes to be expanded are visited or queued, and each of them only once. */
  ghost predicate QueueOk(s: CG, queue: seq<nat>) {
    && Distinct(queue)
    && (forall i :: 0 <= i < |queue| ==>
          queue[i] < |s.nodes| && s.nodes[queue[i]].DirectNode? && queue[i] !in s.visited && queue[i] !in s.ext)
    && (forall id: nat :: id < |s.nodes| && s.nodes[id].DirectNode? ==> id in s.ext || id in s.visited || id in queue)
    && (forall id :: id in s.visited ==> id < |s.nodes| && s.nodes[id].DirectNode? && id !in s.ext)
  }

  /** The language model redirects some call at the instruction to the function, with this choice. */
  ghost predicate Chosen(p: Program, inst: nat, fun: nat, choice: Choice) {
    exists f :: f in p.body && p.intercept(f, inst) == Intercept(ToFunction(fun), choice)
  }

  ghost predicate HasChosenEdge(p: Program, s: CG, id: nat, fun: nat, choice: Choice) {
    exists e :: e in s.edges && e.2 == id && Chosen(p, e.1, fun, choice)
  }

  /** A node is not expanded only if its function is external, or a call it is the target of is taken
      for a call site only; any other node but the entry is the target of a call to be expanded, and its
      function is not external. */
  ghost predicate NodeExtOk(p: Program, s: CG, id: nat)
    requires id < |s.nodes|
  {
    s.nodes[id].DirectNode? ==>
      var fun := s.nodes[id].fun;
      if id in s.ext then fun in p.external || HasChosenEdge(p, s, id, fun, OnlyCallSite)
      else id == 0 || (fun !in p.external && HasChosenEdge(p, s, id, fun, ExpandBody))
  }

  ghost predicate ExtOk(p: Program, s: CG) {
    && (forall id :: id in s.ext ==> id < |s.nodes| && s.nodes[id].DirectNode?)
    && forall id: nat :: id < |s.nodes| ==> NodeExtOk(p, s, id)
  }

  /** What always holds of the graph itself. */
  ghost predicate GraphInv(p: Program, s: CG) {
    && WfProgram(p)
    && MapsOk(s)
    && (forall id :: 0 <= id < |s.nodes| ==> NodeOk(p, s.nodes[id]))
    && s.nodes != [] && s.nodes[0] == DirectNode(Nulls(p.k), p.entry)
    && EdgesOk(p, s) && ResolvedOk(s)
    && IndirectHasCaller(s)
    && AllReachable(s)
    && ExtOk(p, s)
  }

  /** The invariant of every run; `cur` is a visited node only its first `j` call sites of which are done. */
  ghost predicate Inv(p: Program, s: CG, queue: seq<nat>, cur: int, j: nat) {
    && GraphInv(p, s)
    && QueueOk(s, queue)
    && AllComplete(p, s, cur)
    && (cur in s.visited ==> j <= |p.body[s.nodes[cur].fun]| && Complete(p, s, cur, j))
  }

  // ----- steps -----

  function WithNode(s: CG, n: CallNode, isExt: bool): CG {
    var id := |s.nodes|;
    if n.DirectNode? then
      s.(nodes := s.nodes + [n], funMap := s.funMap[KeyOf(n) := id], ext := if isExt then s.ext + {id} else s.ext)
    else
      s.(nodes := s.nodes + [n], ptrMap := s.ptrMap[KeyOf(n) := id])
  }

  function WithEdge(s: CG, e: CallEdge): CG {
    s.(edges := s.edges + {e})
  }

  /** The node is found or made, and an edge to it is inserted. */
  function Linked(s: CG, n: CallNode, isExt: bool, src: nat, inst: nat): CG {
    if Known(s, n) then WithEdge(s, (src, inst, IdOf(s, n)))
    else WithEdge(WithNode(s, n, isExt), (src, inst, |s.nodes|))
  }

  function Queued(s: CG, queue: seq<nat>, n: CallNode, isExt: bool): seq<nat> {
    if !Known(s, n) && n.DirectNode? && !isExt then queue + [|s.nodes|] else queue
  }

  lemma WithNodeMaps(s: CG, n: CallNode, isExt: bool)
    requires MapsOk(s) && !Known(s, n)
    ensures MapsOk(WithNode(s, n, isExt))
    ensures forall m :: Known(s, m) ==> Known(WithNode(s, n, isExt), m) && IdOf(WithNode(s, n, isExt), m) == IdOf(s, m)
  {
    var t := WithNode(s, n, isExt);
    forall id | 0 <= id < |t.nodes| ensures Known(t, t.nodes[id]) && IdOf(t, t.nodes[id]) == id {
      if id < |s.nodes| {
        assert t.nodes[id] == s.nodes[id];
      }
    }
    forall m | Known(t, m) ensures IdOf(t, m) < |t.nodes| && t.nodes[IdOf(t, m)] == m {
      if m != n {
        assert Known(s, m);
      }
    }
  }

  /** Nodes keep their ids, nothing is lost, nobody is newly visited. */
  ghost predicate Grown(s: CG, t: CG) {
    && s.nodes <= t.nodes && s.edges <= t.edges && s.resolved <= t.resolved && s.visited == t.visited
    && forall m :: Known(s, m) ==> Known(t, m) && IdOf(t, m) == IdOf(s, m)
  }

  lemma CompleteGrows(p: Program, s: CG, t: CG, but: int)
    requires p.k > 0 && Grown(s, t) && AllComplete(p, s, but)
    ensures AllComplete(p, t, but)
  {
    forall id: nat | id in t.visited && id != but
      ensures id < |t.nodes| && t.nodes[id] == s.nodes[id] && Complete(p, t, id, |p.body[t.nodes[id].fun]|)
    {
      assert Complete(p, s, id, |p.body[s.nodes[id].fun]|);
    }
  }

  lemma EdgeGrows(p: Program, s: CG, t: CG, e: CallEdge)
    requires p.k > 0 && Grown(s, t) && EdgeOk(p, s, e)
    ensures EdgeOk(p, t, e)
  {
    assert t.nodes[e.0] == s.nodes[e.0] && t.nodes[e.2] == s.nodes[e.2];
    if FromResolution(p, s, e) {
      assert FromResolution(p, t, e);
    }
  }

  lemma LinkedGrows(s: CG, n: CallNode, isExt: bool, src: nat, inst: nat)
    requires MapsOk(s)
    ensures var t := Linked(s, n, isExt, src, inst);
      Grown(s, t) && MapsOk(t) && Known(t, n) && (src, inst, IdOf(t, n)) in t.edges
  {
    if !Known(s, n) {
      WithNodeMaps(s, n, isExt);
      var t := WithNode(s, n, isExt);
      assert forall m :: Known(Linked(s, n, isExt, src, inst), m) <==> Known(t, m);
    }
  }

  lemma LinkedQueue(s: CG, queue: seq<nat>, n: CallNode, isExt: bool, src: nat, inst: nat)
    requires MapsOk(s) && QueueOk(s, queue) && forall id :: id in s.ext ==> id < |s.nodes|
    ensures QueueOk(Linked(s, n, isExt, src, inst), Queued(s, queue, n, isExt))
  {
    var t, q := Linked(s, n, isExt, src, inst), Queued(s, queue, n, isExt);
    forall id: nat | id < |t.nodes| && t.nodes[id].DirectNode? ensures id in t.ext || id in t.visited || id in q {
      if id < |s.nodes| {
        assert s.nodes[id].DirectNode?;
      }
    }
  }

  /** Whether a node is kept out of the expansion is for a reason. */
  ghost predicate Decided(p: Program, n: CallNode, inst: nat, isExt: bool) {
    n.DirectNode? ==>
      if isExt then n.fun in p.external || Chosen(p, inst, n.fun, OnlyCallSite)
      else n.fun !in p.external && Chosen(p, inst, n.fun, ExpandBody)
  }

  lemma ChosenGrows(p: Program, s: CG, t: CG, id: nat, fun: nat, choice: Choice)
    requires s.edges <= t.edges && HasChosenEdge(p, s, id, fun, choice)
    ensures HasChosenEdge(p, t, id, fun, choice)
  {
  }

  lemma NodeExtGrows(p: Program, s: CG, t: CG, id: nat)
    requires id < |s.nodes| && s.nodes <= t.nodes && s.edges <= t.edges && NodeExtOk(p, s, id)
    requires id in s.ext <==> id in t.ext
    ensures NodeExtOk(p, t, id)
  {
    hide HasChosenEdge;
    assert t.nodes[id] == s.nodes[id];
    if s.nodes[id].DirectNode? {
      forall choice | HasChosenEdge(p, s, id, s.nodes[id].fun, choice)
        ensures HasChosenEdge(p, t, id, s.nodes[id].fun, choice)
      {
        ChosenGrows(p, s, t, id, s.nodes[id].fun, choice);
      }
    }
  }

  lemma NewNodeExt(p: Program, s: CG, n: CallNode, isExt: bool, src: nat, inst: nat)
    requires !Known(s, n) && Decided(p, n, inst, isExt) && |s.nodes| !in s.ext
    ensures NodeExtOk(p, Linked(s, n, isExt, src, inst), |s.nodes|)
  {
    hide Chosen;
    var t := Linked(s, n, isExt, src, inst);
    assert (src, inst, |s.nodes|) in t.edges && t.nodes[|s.nodes|] == n;
    assert n.DirectNode? ==> forall choice :: Chosen(p, inst, n.fun, choice) ==>
      HasChosenEdge(p, t, |s.nodes|, n.fun, choice);
  }

  lemma LinkedExt(p: Program, s: CG, n: CallNode, isExt: bool, src: nat, inst: nat)
    requires ExtOk(p, s) && Decided(p, n, inst, isExt)
    ensures ExtOk(p, Linked(s, n, isExt, src, inst))
  {
    var t := Linked(s, n, isExt, src, inst);
    hide NodeExtOk, Decided, Known;
    forall id: nat | id < |t.nodes| ensures NodeExtOk(p, t, id) {
      if id < |s.nodes| {
        NodeExtGrows(p, s, t, id);
      } else {
        NewNodeExt(p, s, n, isExt, src, inst);
      }
    }
  }

  /** Who has been visited or resolved does not matter for what is external. */
  lemma SameExt(p: Program, s: CG, t: CG)
    requires ExtOk(p, s) && t.nodes == s.nodes && t.edges == s.edges && t.ext == s.ext
    ensures ExtOk(p, t)
  {
    hide NodeExtOk;
    forall id: nat | id < |t.nodes| ensures NodeExtOk(p, t, id) {
      NodeExtGrows(p, s, t, id);
    }
  }

  lemma LinkedReachable(s: CG, n: CallNode, isExt: bool, src: nat, inst: nat)
    requires MapsOk(s) && AllReachable(s) && src < |s.nodes|
    ensures AllReachable(Linked(s, n, isExt, src, inst))
  {
    var t := Linked(s, n, isExt, src, inst);
    forall r: set<nat> | ClosedUnderCalls(t, r) ensures forall id :: 0 <= id < |t.nodes| ==> id in r {
      assert ClosedUnderCalls(s, r);
      assert src in r;
      assert !Known(s, n) ==> (src, inst, |s.nodes|) in t.edges;
    }
  }

  lemma LinkedCallers(s: CG, n: CallNode, isExt: bool, src: nat, inst: nat)
    requires MapsOk(s) && IndirectHasCaller(s) && (n.IndirectNode? ==> n.inst == inst)
    ensures IndirectHasCaller(Linked(s, n, isExt, src, inst))
  {
    var t := Linked(s, n, isExt, src, inst);
    forall id | 0 <= id < |t.nodes| && t.nodes[id].IndirectNode?
      ensures exists e :: e in t.edges && e.2 == id && e.1 == t.nodes[id].inst
    {
      if id < |s.nodes| {
        var e :| e in s.edges && e.2 == id && e.1 == s.nodes[id].inst;
        assert e in t.edges;
      } else {
        assert (src, inst, id) in t.edges;
      }
    }
  }

  /** An instruction in two functions under one context is in one node. */
  lemma SameCaller(p: Program, s: CG, a: nat, b: nat, i: nat, j: nat)
    requires WfProgram(p) && MapsOk(s) && a < |s.nodes| && b < |s.nodes|
    requires s.nodes[a].DirectNode? && s.nodes[b].DirectNode? && NodeOk(p, s.nodes[a]) && NodeOk(p, s.nodes[b])
    requires s.nodes[a].ctx == s.nodes[b].ctx
    requires i < |p.body[s.nodes[a].fun]| && j < |p.body[s.nodes[b].fun]|
    requires p.body[s.nodes[a].fun][i].inst == p.body[s.nodes[b].fun][j].inst
    ensures a == b
  {
    assert s.nodes[a] == s.nodes[b];
    assert IdOf(s, s.nodes[a]) == a && IdOf(s, s.nodes[b]) == b;
  }

  /** An indirect node has at most one caller: the function that holds its instruction, under its context. */
  lemma CallerOfIndirect(p: Program, s: CG, e: CallEdge, f: CallEdge)
    requires WfProgram(p) && MapsOk(s) && EdgeOk(p, s, e) && EdgeOk(p, s, f)
    requires e.2 == f.2 && s.nodes[e.2].IndirectNode?
    ensures e == f && e.1 == s.nodes[e.2].inst && s.nodes[e.0].ctx == s.nodes[e.2].ctx
  {
    assert FromCallSite(p, s, e) && FromCallSite(p, s, f);
    var i :| 0 <= i < |p.body[s.nodes[e.0].fun]| && p.body[s.nodes[e.0].fun][i].inst == e.1
      && Target(p, s.nodes[e.0], p.body[s.nodes[e.0].fun][i]) == Some(s.nodes[e.2]);
    var j :| 0 <= j < |p.body[s.nodes[f.0].fun]| && p.body[s.nodes[f.0].fun][j].inst == f.1
      && Target(p, s.nodes[f.0], p.body[s.nodes[f.0].fun][j]) == Some(s.nodes[f.2]);
    SameCaller(p, s, e.0, f.0, i, j);
  }

  lemma LinkedEdges(p: Program, s: CG, n: CallNode, isExt: bool, src: nat, inst: nat)
    requires WfProgram(p) && MapsOk(s) && EdgesOk(p, s) && ResolvedOk(s) && IndirectHasCaller(s)
    requires var t := Linked(s, n, isExt, src, inst); MapsOk(t) && Known(t, n) && EdgeOk(p, t, (src, inst, IdOf(t, n)))
    ensures EdgesOk(p, Linked(s, n, isExt, src, inst)) && ResolvedOk(Linked(s, n, isExt, src, inst))
  {
    var t := Linked(s, n, isExt, src, inst);
    LinkedGrows(s, n, isExt, src, inst);
    forall e | e in t.edges ensures EdgeOk(p, t, e) {
      if e in s.edges {
        EdgeGrows(p, s, t, e);
      }
    }
    forall r | r in t.resolved
      ensures r.0 < |t.nodes| && t.nodes[r.0].IndirectNode? && r.1 < |t.nodes| && t.nodes[r.1].DirectNode?
      ensures forall e :: e in t.edges && e.2 == r.0 ==> (e.0, e.1, r.1) in t.edges
    {
      assert t.nodes[r.0] == s.nodes[r.0] && t.nodes[r.1] == s.nodes[r.1];
      forall e | e in t.edges && e.2 == r.0 ensures (e.0, e.1, r.1) in t.edges {
        var f :| f in s.edges && f.2 == r.0 && f.1 == s.nodes[r.0].inst;
        CallerOfIndirect(p, t, e, f);
      }
    }
  }

  /** The ids a call site's context evolves to stay among the K-limited contexts. */
  lemma TargetIsOk(p: Program, n: CallNode, j: nat)
    requires WfProgram(p) && NodeOk(p, n) && n.DirectNode? && j < |p.body[n.fun]|
    ensures var t := Target(p, n, p.body[n.fun][j]); t.Some? ==> NodeOk(p, t.value)
  {
    assert p.body[n.fun][j].inst in Instructions(p);
    EvolveStaysInside(p.k, Instructions(p), n.ctx, p.body[n.fun][j].inst);
  }

  lemma LinkedNodesOk(p: Program, s: CG, n: CallNode, isExt: bool, src: nat, inst: nat)
    requires (forall id :: 0 <= id < |s.nodes| ==> NodeOk(p, s.nodes[id])) && NodeOk(p, n)
    ensures forall id :: 0 <= id < |Linked(s, n, isExt, src, inst).nodes| ==>
      NodeOk(p, Linked(s, n, isExt, src, inst).nodes[id])
  {
  }

  lemma LinkedGraph(p: Program, s: CG, n: CallNode, isExt: bool, src: nat, inst: nat)
    requires GraphInv(p, s) && src < |s.nodes| && NodeOk(p, n) && Decided(p, n, inst, isExt)
    requires n.IndirectNode? ==> n.inst == inst
    requires var t := Linked(s, n, isExt, src, inst); MapsOk(t) && Known(t, n) && EdgeOk(p, t, (src, inst, IdOf(t, n)))
    ensures GraphInv(p, Linked(s, n, isExt, src, inst))
  {
    hide AllReachable, MapsOk, ResolvedOk, IndirectHasCaller, EdgesOk, ExtOk, Decided;
    LinkedExt(p, s, n, isExt, src, inst);
    LinkedNodesOk(p, s, n, isExt, src, inst);
    LinkedReachable(s, n, isExt, src, inst);
    LinkedCallers(s, n, isExt, src, inst);
    LinkedEdges(p, s, n, isExt, src, inst);
  }

  /** Call site `j` of the node being visited is done once its target is linked. */
  lemma VisitStep(p: Program, s: CG, queue: seq<nat>, cur: nat, j: nat, isExt: bool)
    requires Inv(p, s, queue, cur, j) && cur in s.visited && j < |p.body[s.nodes[cur].fun]|
    requires var call := p.body[s.nodes[cur].fun][j]; var t := Target(p, s.nodes[cur], call);
      t.Some? ==> Decided(p, t.value, call.inst, isExt)
    ensures var call := p.body[s.nodes[cur].fun][j]; var t := Target(p, s.nodes[cur], call);
      Inv(p, if t.None? then s else Linked(s, t.value, isExt, cur, call.inst),
          if t.None? then queue else Queued(s, queue, t.value, isExt), cur, j + 1)
  {
    var call := p.body[s.nodes[cur].fun][j];
    var target := Target(p, s.nodes[cur], call);
    if target.Some? {
      hide AllReachable, MapsOk, ResolvedOk, IndirectHasCaller, QueueOk, AllComplete, EdgesOk, NodeExtOk, Decided;
      var n := target.value;
      var t := Linked(s, n, isExt, cur, call.inst);
      TargetIsOk(p, s.nodes[cur], j);
      LinkedGrows(s, n, isExt, cur, call.inst);
      LinkedQueue(s, queue, n, isExt, cur, call.inst);
      CompleteGrows(p, s, t, cur);
      assert t.nodes[cur] == s.nodes[cur];
      assert EdgeOk(p, t, (cur, call.inst, IdOf(t, n))) by {
        assert FromCallSite(p, t, (cur, call.inst, IdOf(t, n)));
      }
      LinkedGraph(p, s, n, isExt, cur, call.inst);
      assert Complete(p, t, cur, j + 1) by {
        assert Complete(p, s, cur, j);
      }
    }
  }

  lemma SameGraph(t: CG, u: CG)
    requires u.nodes == t.nodes && u.edges == t.edges && u.funMap == t.funMap && u.ptrMap == t.ptrMap
    ensures MapsOk(t) ==> MapsOk(u)
    ensures AllReachable(t) ==> AllReachable(u)
    ensures IndirectHasCaller(t) ==> IndirectHasCaller(u)
  {
    if AllReachable(t) {
      forall r: set<nat> | ClosedUnderCalls(u, r) ensures forall id :: 0 <= id < |u.nodes| ==> id in r {
        assert ClosedUnderCalls(t, r);
      }
    }
    if MapsOk(t) {
      assert forall m :: Known(u, m) <==> Known(t, m);
    }
  }

  function IdFor(s: CG, n: CallNode): nat {
    if Known(s, n) then IdOf(s, n) else |s.nodes|
  }

  /** An indirect call with edge `e` resolved to `n`: its caller is linked to `n`. */
  function Resolved(s: CG, e: CallEdge, n: CallNode, isExt: bool): CG {
    Linked(s, n, isExt, e.0, e.1).(resolved := s.resolved + {(e.2, IdFor(s, n))})
  }

  lemma ResolvedGrows(s: CG, e: CallEdge, n: CallNode, isExt: bool)
    requires MapsOk(s) && e.0 < |s.nodes| && AllReachable(s) && IndirectHasCaller(s) && n.DirectNode?
    ensures var u := Resolved(s, e, n, isExt);
      && Grown(s, u) && MapsOk(u) && AllReachable(u) && IndirectHasCaller(u)
      && Known(u, n) && IdOf(u, n) == IdFor(s, n) < |u.nodes| && u.nodes[IdFor(s, n)] == n
      && u.edges == s.edges + {(e.0, e.1, IdFor(s, n))}
      && u.resolved == s.resolved + {(e.2, IdFor(s, n))}
  {
    LinkedGrows(s, n, isExt, e.0, e.1);
    LinkedReachable(s, n, isExt, e.0, e.1);
    LinkedCallers(s, n, isExt, e.0, e.1);
    SameGraph(Linked(s, n, isExt, e.0, e.1), Resolved(s, e, n, isExt));
  }

  lemma ResolvedEdges(p: Program, s: CG, u: CG, e: CallEdge, id: nat)
    requires WfProgram(p) && Grown(s, u) && EdgesOk(p, s) && e in s.edges && e.2 < |s.nodes|
    requires id < |u.nodes| && u.nodes[id].DirectNode? && NodeOk(p, s.nodes[e.0])
    requires u.nodes[id].ctx == Evolve(s.nodes[e.0].ctx, e.1)
    requires u.edges == s.edges + {(e.0, e.1, id)} && (e.2, id) in u.resolved
    ensures EdgesOk(p, u)
  {
    forall f | f in u.edges ensures EdgeOk(p, u, f) {
      if f in s.edges {
        EdgeGrows(p, s, u, f);
      } else {
        assert EdgeOk(p, s, e);
        assert FromResolution(p, u, f);
      }
    }
  }

  lemma ResolvedResolutions(p: Program, s: CG, u: CG, e: CallEdge, id: nat)
    requires WfProgram(p) && MapsOk(s) && Grown(s, u) && EdgesOk(p, s) && ResolvedOk(s)
    requires e in s.edges && e.2 < |s.nodes| && s.nodes[e.2].IndirectNode?
    requires id < |u.nodes| && u.nodes[id].DirectNode?
    requires u.edges == s.edges + {(e.0, e.1, id)} && u.resolved == s.resolved + {(e.2, id)}
    ensures ResolvedOk(u)
  {
    forall r | r in u.resolved
      ensures r.0 < |u.nodes| && u.nodes[r.0].IndirectNode? && r.1 < |u.nodes| && u.nodes[r.1].DirectNode?
      ensures forall f :: f in u.edges && f.2 == r.0 ==> (f.0, f.1, r.1) in u.edges
    {
      assert r != (e.2, id) ==> r in s.resolved;
      forall f | f in u.edges && f.2 == r.0 ensures (f.0, f.1, r.1) in u.edges {
        assert f in s.edges;
        if r == (e.2, id) {
          CallerOfIndirect(p, s, e, f);
        }
      }
    }
  }

  lemma ResolveStep(p: Program, s: CG, e: CallEdge, n: CallNode, isExt: bool)
    requires Inv(p, s, [], -1, 0) && e in s.edges && e.2 < |s.nodes| && s.nodes[e.2].IndirectNode?
    requires n.DirectNode? && NodeOk(p, n) && e.0 < |s.nodes| && n.ctx == Evolve(s.nodes[e.0].ctx, e.1)
    requires Decided(p, n, e.1, isExt)
    ensures Inv(p, Resolved(s, e, n, isExt), Queued(s, [], n, isExt), -1, 0)
  {
    hide NodeExtOk, Decided, AllReachable, MapsOk, IndirectHasCaller, AllComplete;
    assert EdgeOk(p, s, e);
    var u := Resolved(s, e, n, isExt);
    ResolvedGraph(p, s, e, n, isExt);
    ResolvedGrows(s, e, n, isExt);
    LinkedQueue(s, [], n, isExt, e.0, e.1);
    CompleteGrows(p, s, u, -1);
    ResolvedQueue(Linked(s, n, isExt, e.0, e.1), u, Queued(s, [], n, isExt));
    hide EdgesOk, ResolvedOk, QueueOk, GraphInv;
  }

  lemma ResolvedQueue(t: CG, u: CG, queue: seq<nat>)
    requires QueueOk(t, queue) && u == t.(resolved := u.resolved)
    ensures QueueOk(u, queue)
  {
  }

  lemma ResolvedGraph(p: Program, s: CG, e: CallEdge, n: CallNode, isExt: bool)
    requires GraphInv(p, s) && e in s.edges && EdgeOk(p, s, e) && s.nodes[e.2].IndirectNode?
    requires n.DirectNode? && NodeOk(p, n) && n.ctx == Evolve(s.nodes[e.0].ctx, e.1)
    requires Decided(p, n, e.1, isExt)
    ensures GraphInv(p, Resolved(s, e, n, isExt))
  {
    hide NodeExtOk, Decided, AllReachable, MapsOk, IndirectHasCaller, EdgesOk, ResolvedOk, ExtOk;
    ResolvedGrows(s, e, n, isExt);
    var u := Resolved(s, e, n, isExt);
    LinkedExt(p, s, n, isExt, e.0, e.1);
    SameExt(p, Linked(s, n, isExt, e.0, e.1), u);
    LinkedNodesOk(p, s, n, isExt, e.0, e.1);
    ResolvedEdges(p, s, u, e, IdFor(s, n));
    ResolvedResolutions(p, s, u, e, IdFor(s, n));
  }

  /** The head of the queue becomes the node being visited; it has not been visited before. */
  lemma StartQueue(s: CG, t: CG, queue: seq<nat>)
    requires queue != [] && QueueOk(s, queue) && t == s.(visited := s.visited + {queue[0]})
    ensures queue[0] !in s.visited && queue[0] < |s.nodes| && s.nodes[queue[0]].DirectNode?
    ensures QueueOk(t, queue[1..])
  {
    assert queue == [queue[0]] + queue[1..];
    assert forall i :: 0 <= i < |queue[1..]| ==> queue[1..][i] == queue[i + 1];
  }

  lemma StartEdges(p: Program, s: CG, t: CG)
    requires p.k > 0 && EdgesOk(p, s) && s.visited <= t.visited && t == s.(visited := t.visited)
    ensures EdgesOk(p, t)
  {
    forall e | e in t.edges ensures EdgeOk(p, t, e) {
      assert EdgeOk(p, s, e);
      if FromResolution(p, s, e) {
        assert FromResolution(p, t, e);
      }
    }
  }

  lemma StartGraph(p: Program, s: CG, t: CG)
    requires GraphInv(p, s) && s.visited <= t.visited && t == s.(visited := t.visited)
    ensures GraphInv(p, t)
  {
    hide AllReachable, MapsOk, EdgesOk, IndirectHasCaller, ExtOk;
    SameGraph(s, t);
    SameExt(p, s, t);
    StartEdges(p, s, t);
  }

  lemma StartVisit(p: Program, s: CG, queue: seq<nat>)
    requires queue != [] && Inv(p, s, queue, -1, 0)
    ensures queue[0] !in s.visited && queue[0] < |s.nodes| && s.nodes[queue[0]].DirectNode?
    ensures Inv(p, s.(visited := s.visited + {queue[0]}), queue[1..], queue[0], 0)
  {
    hide AllReachable, MapsOk, EdgesOk, ResolvedOk, IndirectHasCaller, ExtOk, Evolve;
    var cur := queue[0];
    var t := s.(visited := s.visited + {cur});
    StartGraph(p, s, t);
    StartQueue(s, t, queue);
    hide QueueOk, GraphInv;
    forall id: nat | id in t.visited && id != cur ensures Complete(p, t, id, |p.body[t.nodes[id].fun]|) {
      assert Complete(p, s, id, |p.body[s.nodes[id].fun]|);
    }
  }

  // ----- what the invariant says of a finished graph -----

  ghost function PredEdges(s: CG, id: nat): set<CallEdge> {
    set e | e in s.edges && e.2 == id
  }

  /** Every indirect node has exactly one incoming edge, so the assertion in resolveCallTo holds. */
  lemma IndirectHasOneCaller(p: Program, s: CG, queue: seq<nat>, id: nat)
    requires Inv(p, s, queue, -1, 0) && id < |s.nodes| && s.nodes[id].IndirectNode?
    ensures |PredEdges(s, id)| == 1
    ensures exists e :: e in s.edges && PredEdges(s, id) == {e} && e.1 == s.nodes[id].inst
                     && e.0 < |s.nodes| && s.nodes[e.0].ctx == s.nodes[id].ctx
  {
    var e :| e in s.edges && e.2 == id && e.1 == s.nodes[id].inst;
    forall f | f in PredEdges(s, id) ensures f == e {
      CallerOfIndirect(p, s, e, f);
    }
    CallerOfIndirect(p, s, e, e);
    assert PredEdges(s, id) == {e};
  }

  /** Soundness and completeness: the edges are exactly those that a call site of a visited node,
      or a resolution of one of its indirect calls, asks for. */
  lemma EdgesAreExact(p: Program, s: CG, e: CallEdge)
    requires Inv(p, s, [], -1, 0)
    ensures e in s.edges <==> EdgeOk(p, s, e)
  {
    if EdgeOk(p, s, e) {
      if FromCallSite(p, s, e) {
        var body := p.body[s.nodes[e.0].fun];
        var i :| 0 <= i < |body| && body[i].inst == e.1 && Target(p, s.nodes[e.0], body[i]) == Some(s.nodes[e.2]);
        assert Complete(p, s, e.0, |body|);
        assert Known(s, s.nodes[e.2]) && IdOf(s, s.nodes[e.2]) == e.2;
      } else {
        var ind :| (ind, e.2) in s.resolved && (e.0, e.1, ind) in s.edges;
        assert (e.0, e.1, (ind, e.2).1) in s.edges;
      }
    }
  }

  /** When the queue is empty every call site of every node that is not external has its edge. */
  lemma EveryCallSiteIsLinked(p: Program, s: CG, id: nat, j: nat)
    requires Inv(p, s, [], -1, 0) && id < |s.nodes| && s.nodes[id].DirectNode? && id !in s.ext
    requires j < |p.body[s.nodes[id].fun]|
    ensures var call := p.body[s.nodes[id].fun][j]; var t := Target(p, s.nodes[id], call);
      t.Some? ==> Known(s, t.value) && (id, call.inst, IdOf(s, t.value)) in s.edges
  {
    assert id in s.visited;
    assert Complete(p, s, id, |p.body[s.nodes[id].fun]|);
  }

  /** No function is external, and no call is taken for a call site only. */
  ghost predicate ExpandsAll(p: Program) {
    p.external == {} && forall f, inst :: !p.intercept(f, inst).choice.OnlyCallSite?
  }

  /** Then every node is expanded. */
  lemma NothingIsExternal(p: Program, s: CG, queue: seq<nat>)
    requires Inv(p, s, queue, -1, 0) && ExpandsAll(p)
    ensures s.ext == {}
  {
    assert forall id :: id in s.ext ==> NodeExtOk(p, s, id);
  }

  /** Whatever was kept out of the expansion is an external function, or the target of a call that is
      taken for a call site only. */
  lemma ExternalForAReason(p: Program, s: CG, queue: seq<nat>, cur: int, j: nat, id: nat)
    requires Inv(p, s, queue, cur, j) && id in s.ext
    ensures id < |s.nodes| && s.nodes[id].DirectNode?
    ensures s.nodes[id].fun in p.external || exists e, f ::
      && e in s.edges && e.2 == id && f in p.body
      && p.intercept(f, e.1) == Intercept(ToFunction(s.nodes[id].fun), OnlyCallSite)
  {
    hide MapsOk, QueueOk, AllComplete, EdgesOk, ResolvedOk, IndirectHasCaller, AllReachable;
    assert NodeExtOk(p, s, id);
  }

  /** The entry apart, no external function is ever visited. */
  lemma ExternalIsNotVisited(p: Program, s: CG, queue: seq<nat>, id: nat)
    requires Inv(p, s, queue, -1, 0) && id in s.visited && id != 0
    ensures id < |s.nodes| && s.nodes[id].DirectNode? && s.nodes[id].fun !in p.external
    ensures HasChosenEdge(p, s, id, s.nodes[id].fun, ExpandBody)
  {
    assert NodeExtOk(p, s, id);
  }

  /** A direct call leads to the context that has its instruction last, an indirect one stays in its own. */
  lemma ContextsFollowEdges(p: Program, s: CG, queue: seq<nat>, cur: int, j: nat, e: CallEdge)
    requires Inv(p, s, queue, cur, j) && e in s.edges
    ensures e.0 < |s.nodes| && e.2 < |s.nodes| && s.nodes[e.0].DirectNode? && s.nodes[e.0].ctx != []
    ensures s.nodes[e.2].ctx
         == if s.nodes[e.2].DirectNode? then s.nodes[e.0].ctx[1..] + [Some(e.1)] else s.nodes[e.0].ctx
  {
    hide MapsOk, AllComplete, ResolvedOk, IndirectHasCaller, AllReachable, ExtOk;
    assert EdgeOk(p, s, e);
  }

  ghost predicate LinkedTo(s: CG, id: nat, inst: nat, n: CallNode) {
    exists to: nat :: to < |s.nodes| && s.nodes[to] == n && (id, inst, to) in s.edges
  }

  /** The call is ignored, or has its edge: to the function it is redirected to, under the context
      that the call leads to, or to a pointer, under the caller's own. */
  ghost predicate CallIsLinked(p: Program, s: CG, id: nat, call: Call)
    requires id < |s.nodes| && s.nodes[id].ctx != []
  {
    match call.callee
    case Indirect => LinkedTo(s, id, call.inst, IndirectNode(s.nodes[id].ctx, call.inst))
    case Direct(f) =>
      match p.intercept(f, call.inst)
      case Intercept(_, Ignore) => true
      case Intercept(ToFunction(g), _) =>
        LinkedTo(s, id, call.inst, DirectNode(s.nodes[id].ctx[1..] + [Some(call.inst)], g))
      case Intercept(ToPointer, _) => LinkedTo(s, id, call.inst, IndirectNode(s.nodes[id].ctx, call.inst))
  }

  ghost predicate NodeIsLinked(p: Program, s: CG, id: nat)
    requires id < |s.nodes|
  {
    s.nodes[id].DirectNode? ==>
      && s.nodes[id].fun in p.body && s.nodes[id].ctx != []
      && forall j :: 0 <= j < |p.body[s.nodes[id].fun]| ==> CallIsLinked(p, s, id, p.body[s.nodes[id].fun][j])
  }

  /** Where everything is to be expanded, every call of every node is linked. */
  lemma WholeProgramIsLinked(p: Program, s: CG)
    requires Inv(p, s, [], -1, 0)
    ensures ExpandsAll(p) ==> s.ext == {} && forall id: nat :: id < |s.nodes| ==> NodeIsLinked(p, s, id)
  {
    hide Inv, ExpandsAll, NodeIsLinked;
    if ExpandsAll(p) {
      NothingIsExternal(p, s, []);
      forall id: nat | id < |s.nodes| ensures NodeIsLinked(p, s, id) {
        NodeWithoutExt(p, s, id);
      }
    }
  }

  lemma NodeWithoutExt(p: Program, s: CG, id: nat)
    requires Inv(p, s, [], -1, 0) && s.ext == {} && id < |s.nodes|
    ensures NodeIsLinked(p, s, id)
  {
    hide CallIsLinked, AllReachable, EdgesOk, ResolvedOk, IndirectHasCaller, AllComplete, ExtOk, Target;
    if s.nodes[id].DirectNode? {
      assert NodeOk(p, s.nodes[id]);
      forall j | 0 <= j < |p.body[s.nodes[id].fun]| ensures CallIsLinked(p, s, id, p.body[s.nodes[id].fun][j]) {
        EveryCallSiteIsLinked(p, s, id, j);
        LinkedIsThere(p, s, id, p.body[s.nodes[id].fun][j]);
      }
    }
  }

  lemma LinkedIsThere(p: Program, s: CG, id: nat, call: Call)
    requires MapsOk(s) && id < |s.nodes| && s.nodes[id].DirectNode? && s.nodes[id].ctx != []
    requires var t := Target(p, s.nodes[id], call);
      t.Some? ==> Known(s, t.value) && (id, call.inst, IdOf(s, t.value)) in s.edges
    ensures CallIsLinked(p, s, id, call)
  {
    var t := Target(p, s.nodes[id], call);
    assert t.Some? ==> LinkedTo(s, id, call.inst, t.value);
    hide LinkedTo;
  }

  ghost function Arrows(s: CG): set<(nat, nat)> {
    set e | e in s.edges :: (e.0, e.2)
  }

  /** No node is there without a path of call edges from the entry. */
  lemma EveryNodeHasAPath(p: Program, s: CG, queue: seq<nat>, id: nat)
    requires Inv(p, s, queue, -1, 0) && id < |s.nodes|
    ensures exists path :: IsPath(Arrows(s), path, 0, id)
  {
    var arrows := Arrows(s);
    ReachIsClosed(arrows, {0});
    var t := ReachFrom(arrows, {0});
    forall e | e in s.edges && e.0 in t ensures e.2 in t {
      assert (e.0, e.2) in arrows;
    }
    assert ClosedUnderCalls(s, t);
    ReachesIffPath(arrows, 0, id);
  }

  // ----- the builder -----

  ghost function AllKeys(p: Program): set<Key> {
    set c, f | c in AllContexts(p.k, Instructions(p)) && f in p.body.Keys :: (c, f)
  }

  lemma KeysBounded(p: Program, s: CG, queue: seq<nat>, cur: int, j: nat)
    requires Inv(p, s, queue, cur, j)
    ensures s.funMap.Keys <= AllKeys(p)
  {
    forall key | key in s.funMap ensures key in AllKeys(p) {
      assert Known(s, DirectNode(key.0, key.1));
      assert NodeOk(p, s.nodes[IdOf(s, DirectNode(key.0, key.1))]);
    }
  }

  lemma LinkedKeys(s: CG, queue: seq<nat>, n: CallNode, isExt: bool, src: nat, inst: nat)
    requires src < |s.nodes|
    ensures var t := Linked(s, n, isExt, src, inst);
      && s.funMap.Keys <= t.funMap.Keys && t.visited == s.visited && t.resolved == s.resolved
      && s.nodes <= t.nodes
      && (Queued(s, queue, n, isExt) == queue || s.funMap.Keys < t.funMap.Keys)
  {
    var t := Linked(s, n, isExt, src, inst);
    if !Known(s, n) && n.DirectNode? {
      assert KeyOf(n) in t.funMap.Keys && KeyOf(n) !in s.funMap.Keys;
    }
  }

  /** Each visit either shortens the queue or brings in a key from a finite set. */
  lemma VisitDecreases(p: Program, before: set<Key>, after: set<Key>)
    requires before < after <= AllKeys(p)
    ensures AllKeys(p) - after < AllKeys(p) - before
  {
    var k :| k in after && k !in before;
    assert k in AllKeys(p) - before && k !in AllKeys(p) - after;
  }

  lemma FinishVisit(p: Program, s: CG, queue: seq<nat>, cur: nat, j: nat, before: set<Key>)
    requires Inv(p, s, queue, cur, j) && cur in s.visited && j == |p.body[s.nodes[cur].fun]|
    requires before <= s.funMap.Keys
    ensures Inv(p, s, queue, -1, 0)
    ensures AllKeys(p) - s.funMap.Keys <= AllKeys(p) - before
    ensures before != s.funMap.Keys ==> AllKeys(p) - s.funMap.Keys < AllKeys(p) - before
  {
    KeysBounded(p, s, queue, cur, j);
    assert AllComplete(p, s, -1);
    if before != s.funMap.Keys {
      assert before < s.funMap.Keys;
      VisitDecreases(p, before, s.funMap.Keys);
    }
  }

  /** Is the target of a direct call kept out of the expansion? */
  function IsExternal(p: Program, f: nat, inst: nat): bool {
    var r := p.intercept(f, inst);
    !r.choice.ExpandBody? || (r.redirect.ToFunction? && r.redirect.fun in p.external)
  }

  function ExtFor(p: Program, call: Call): bool {
    call.callee.Direct? && IsExternal(p, call.callee.target, call.inst)
  }

  /** What is external, or to be a call site only, is kept out of the expansion, and nothing else. */
  lemma ExtIsDecided(p: Program, n: CallNode, call: Call)
    requires n.ctx != [] && (call.callee.Direct? ==> call.callee.target in p.body)
    ensures var t := Target(p, n, call);
      t.Some? ==> Decided(p, t.value, call.inst, ExtFor(p, call))
  {
    if call.callee.Direct? {
      var r := p.intercept(call.callee.target, call.inst);
      if r.redirect.ToFunction? {
        assert r == Intercept(ToFunction(r.redirect.fun), r.choice);
        assert Chosen(p, call.inst, r.redirect.fun, r.choice);
      }
    }
  }

  /** The node an indirect call leads to once it is resolved to `target`. */
  ghost function CalleeOf(p: Program, ind: CallNode, target: nat): Option<CallNode> {
    if ind.DirectNode? || ind.ctx == [] then None
    else Target(p, DirectNode(ind.ctx, target), Call(ind.inst, Direct(target)))
  }

  datatype Outcome = Resolution(node: nat) | Ignored | AssertionFailed

  class CtxModule {
    const p: Program
    var nodes: seq<CallNode>
    var edges: set<CallEdge>
    var ctxFunMap: map<Key, nat>
    var ctxFunPtrMap: map<Key, nat>
    var ext: set<nat>
    var resolvedNode: set<(nat, nat)>
    ghost var visited: set<nat>

    ghost function S(): CG
      reads this
    {
      CG(nodes, edges, ctxFunMap, ctxFunPtrMap, ext, resolvedNode, visited)
    }

    constructor (p: Program)
      ensures this.p == p && S() == CG([], {}, map[], map[], {}, {}, {})
    {
      this.p := p;
      nodes, edges, ctxFunMap, ctxFunPtrMap, ext, resolvedNode := [], {}, map[], map[], {}, {};
      visited := {};
    }

    method GetOrCreateInDirectCallNode(ctx: Context, inst: nat) returns (id: nat, isNew: bool)
      modifies this
      ensures var n := IndirectNode(ctx, inst);
        id == IdFor(old(S()), n) && isNew == !Known(old(S()), n)
        && S() == if Known(old(S()), n) then old(S()) else WithNode(old(S()), n, false)
    {
      var key := (ctx, inst);
      if key in ctxFunPtrMap {
        return ctxFunPtrMap[key], false;
      }
      id, isNew := |nodes|, true;
      nodes := nodes + [IndirectNode(ctx, inst)];
      ctxFunPtrMap := ctxFunPtrMap[key := id];
    }

    /** The node for a direct call after the language model has had its say; none if it is ignored. */
    method GetOrCreateCallNode(curCtx: Context, preCtx: Context, f: nat, inst: nat)
      returns (node: Option<nat>, needToExpand: bool)
      requires preCtx != [] && curCtx == Evolve(preCtx, inst)
      modifies this
      ensures var t := Target(p, DirectNode(preCtx, f), Call(inst, Direct(f)));
        if t.None? then node == None && !needToExpand && S() == old(S())
        else
          && node == Some(IdFor(old(S()), t.value))
          && S() == (if Known(old(S()), t.value) then old(S()) else WithNode(old(S()), t.value, IsExternal(p, f, inst)))
          && (needToExpand <==> !Known(old(S()), t.value) && t.value.DirectNode? && !IsExternal(p, f, inst))
    {
      var r := p.intercept(f, inst);
      if r.choice.Ignore? {
        return None, false;
      }
      match r.redirect
      case ToFunction(g) =>
        var key := (curCtx, g);
        if key in ctxFunMap {
          return Some(ctxFunMap[key]), false;
        }
        var id := |nodes|;
        nodes := nodes + [DirectNode(curCtx, g)];
        ctxFunMap := ctxFunMap[key := id];
        needToExpand := r.choice.ExpandBody? && g !in p.external;
        if !needToExpand {
          ext := ext + {id};
        }
        node := Some(id);
      case ToPointer =>
        var id, isNew := GetOrCreateInDirectCallNode(preCtx, inst);
        return Some(id), false;
    }

    method CreateEdge(src: nat, dst: Option<nat>, inst: nat)
      modifies this`edges
      ensures edges == if dst.None? then old(edges) else old(edges) + {(src, inst, dst.value)}
    {
      if dst.Some? {
        edges := edges + {(src, inst, dst.value)};
      }
    }

    /** One call site of the node being visited: its target is found or made, and linked. */
    method LinkCallSite(node: nat, call: Call, queue: seq<nat>) returns (queue': seq<nat>)
      requires node < |nodes| && nodes[node].DirectNode? && nodes[node].ctx != []
      modifies this
      ensures var t := Target(p, old(nodes[node]), call); var s := old(S());
        && S() == (if t.None? then s else Linked(s, t.value, ExtFor(p, call), node, call.inst))
        && queue' == (if t.None? then queue else Queued(s, queue, t.value, ExtFor(p, call)))
    {
      var context := nodes[node].ctx;
      queue' := queue;
      match call.callee
      case Indirect =>
        var target, isNew := GetOrCreateInDirectCallNode(context, call.inst);
        CreateEdge(node, Some(target), call.inst);
      case Direct(fun) =>
        var calledCtx := Evolve(context, call.inst);
        var target, needToHandle := GetOrCreateCallNode(calledCtx, context, fun, call.inst);
        if needToHandle {
          queue' := queue + [target.value];
        }
        CreateEdge(node, target, call.inst);
    }

    method VisitCallSite(node: nat, j: nat, queue: seq<nat>) returns (queue': seq<nat>)
      requires Inv(p, S(), queue, node, j) && node in visited && j < |p.body[nodes[node].fun]|
      modifies this
      ensures Inv(p, S(), queue', node, j + 1) && visited == old(visited) && resolvedNode == old(resolvedNode)
      ensures old(ctxFunMap.Keys) <= ctxFunMap.Keys
      ensures queue' == queue || old(ctxFunMap.Keys) < ctxFunMap.Keys
      ensures old(nodes) <= nodes
    {
      var call := p.body[nodes[node].fun][j];
      ghost var s := S();
      ExtIsDecided(p, nodes[node], call);
      VisitStep(p, s, queue, node, j, ExtFor(p, call));
      queue' := LinkCallSite(node, call, queue);
      ghost var t := Target(p, s.nodes[node], call);
      if t.Some? {
        LinkedKeys(s, queue, t.value, ExtFor(p, call), node, call.inst);
      }
    }

    /** The assumption that a node is never visited twice is the invariant's: a queued node has not been visited. */
    method VisitCallNode(node: nat, queue: seq<nat>) returns (queue': seq<nat>)
      requires Inv(p, S(), [node] + queue, -1, 0)
      modifies this
      ensures node !in old(visited) && visited == old(visited) + {node}
      ensures resolvedNode == old(resolvedNode) && old(nodes) <= nodes
      ensures Inv(p, S(), queue', -1, 0)
      ensures queue' == queue || AllKeys(p) - ctxFunMap.Keys < AllKeys(p) - old(ctxFunMap.Keys)
      ensures AllKeys(p) - ctxFunMap.Keys <= AllKeys(p) - old(ctxFunMap.Keys)
    {
      hide AllReachable, MapsOk, EdgesOk, ResolvedOk, IndirectHasCaller, QueueOk, AllComplete, Complete;
      StartVisit(p, S(), [node] + queue);
      assert ([node] + queue)[1..] == queue;
      visited := visited + {node};
      queue' := queue;
      var body := p.body[nodes[node].fun];
      var j := 0;
      while j < |body|
        invariant j <= |body| && visited == old(visited) + {node}
        invariant resolvedNode == old(resolvedNode) && old(nodes) <= nodes
        invariant Inv(p, S(), queue', node, j) && p.body[nodes[node].fun] == body
        invariant old(ctxFunMap.Keys) <= ctxFunMap.Keys
        invariant queue' == queue || old(ctxFunMap.Keys) < ctxFunMap.Keys
      {
        queue' := VisitCallSite(node, j, queue');
        j := j + 1;
      }
      FinishVisit(p, S(), queue', node, j, old(ctxFunMap.Keys));
    }

    /** Breadth-first expansion; it ends because there are finitely many K-limited contexts. */
    method ExpandFromNode(root: nat)
      requires Inv(p, S(), [root], -1, 0)
      modifies this
      ensures Inv(p, S(), [], -1, 0) && old(visited) + {root} <= visited
      ensures resolvedNode == old(resolvedNode) && old(nodes) <= nodes
    {
      hide AllReachable, MapsOk, EdgesOk, ResolvedOk, IndirectHasCaller, QueueOk, AllComplete, AllKeys;
      var queue := [root];
      while queue != []
        invariant Inv(p, S(), queue, -1, 0) && old(visited) <= visited
        invariant resolvedNode == old(resolvedNode) && old(nodes) <= nodes
        invariant queue == [root] || root in visited
        decreases AllKeys(p) - ctxFunMap.Keys, |queue|
      {
        var curNode := queue[0];
        assert queue == [curNode] + queue[1..];
        queue := VisitCallNode(curNode, queue[1..]);
      }
    }

    /** The initial call graph.  False, and nothing done, if the entry function has no body. */
    method BuildInitCallGraph() returns (ok: bool)
      requires WfProgram(p) && S() == CG([], {}, map[], map[], {}, {}, {})
      modifies this
      ensures ok <==> p.entry in p.body && p.entry !in p.external
      ensures !ok ==> S() == old(S())
      ensures ok ==> Inv(p, S(), [], -1, 0) && 0 in visited && resolvedNode == {}
      ensures ok && ExpandsAll(p) ==> ext == {} && forall id: nat :: id < |nodes| ==> NodeIsLinked(p, S(), id)
    {
      if p.entry !in p.body || p.entry in p.external {
        return false;
      }
      var initialCtx := Nulls(p.k);
      var entryNode := |nodes|;
      nodes := [DirectNode(initialCtx, p.entry)];
      ctxFunMap := map[(initialCtx, p.entry) := entryNode];
      EntryOnly(p, S());
      ExpandFromNode(entryNode);
      ok := true;
      WholeProgramIsLinked(p, S());
    }

    /** The part of resolveCallTo before the expansion.  `AssertionFailed` stands for the two
        assertions the source makes here: the language model redirects to a pointer, or the
        node was resolved to the same target before. */
    method LinkResolution(e: CallEdge, target: nat) returns (outcome: Outcome, needToExpand: bool)
      requires MapsOk(S()) && forall r :: r in resolvedNode ==> r.1 < |nodes|
      requires e.0 < |nodes| && e.2 < |nodes| && nodes[e.0].ctx != []
      requires nodes[e.2] == IndirectNode(nodes[e.0].ctx, e.1)
      modifies this
      ensures var s := old(S()); var t := Target(p, DirectNode(old(nodes[e.0].ctx), target), Call(e.1, Direct(target)));
        if t.None? then outcome == Ignored && S() == s && !needToExpand
        else if t.value.IndirectNode? || (e.2, IdFor(s, t.value)) in s.resolved then
          outcome == AssertionFailed && S() == s && !needToExpand
        else
          && outcome == Resolution(IdFor(s, t.value))
          && S() == Resolved(s, e, t.value, IsExternal(p, target, e.1))
          && needToExpand == (!Known(s, t.value) && !IsExternal(p, target, e.1))
    {
      assert Known(S(), nodes[e.2]);
      var callerCtx := nodes[e.0].ctx;
      var calleeCtx := Evolve(callerCtx, e.1);
      var node;
      node, needToExpand := GetOrCreateCallNode(calleeCtx, callerCtx, target, e.1);
      if node == None {
        return Ignored, false;
      }
      if nodes[node.value].IndirectNode? || (e.2, node.value) in resolvedNode {
        return AssertionFailed, false;
      }
      resolvedNode := resolvedNode + {(e.2, node.value)};
      CreateEdge(e.0, node, e.1);
      outcome := Resolution(node.value);
    }

    /** An indirect call turns out to reach `target`.  The node's single incoming edge names the
        caller, which is linked to the (redirected) target; a new target is expanded. */
    method ResolveCallTo(resolved: nat, target: nat) returns (outcome: Outcome)
      requires Inv(p, S(), [], -1, 0) && target in p.body
      requires resolved < |nodes| && nodes[resolved].IndirectNode?
      modifies this
      ensures Inv(p, S(), [], -1, 0)
      ensures ExpandsAll(p) ==> ext == {} && forall id: nat :: id < |nodes| ==> NodeIsLinked(p, S(), id)
      ensures outcome == Ignored <==> p.intercept(target, old(nodes[resolved].inst)).choice.Ignore?
      ensures if outcome.Resolution?
        then (resolved, outcome.node) !in old(resolvedNode)
             && resolvedNode == old(resolvedNode) + {(resolved, outcome.node)}
             && outcome.node < |nodes|
             && CalleeOf(p, old(nodes[resolved]), target) == Some(nodes[outcome.node])
        else S() == old(S())
    {
      hide Inv, MapsOk, NodeIsLinked, ExpandsAll, IsExternal, Evolve, Linked;
      ghost var s := S();
      IndirectHasOneCaller(p, s, [], resolved);
      var preds := set e | e in edges && e.2 == resolved;
      assert preds == PredEdges(s, resolved) && |preds| == 1;
      var e :| e in preds;
      CanResolve(p, s, e, target);
      var needToExpand;
      outcome, needToExpand := LinkResolution(e, target);
      ghost var n := Target(p, DirectNode(s.nodes[e.0].ctx, target), Call(e.1, Direct(target)));
      assert outcome.Resolution? ==> nodes[outcome.node] == n.value by {
        if n.Some? {
          IdForNode(s, e, n.value, IsExternal(p, target, e.1));
        }
      }
      if needToExpand {
        ExpandFromNode(outcome.node);
      }
      WholeProgramIsLinked(p, S());
    }
  }

  /** What resolving a call needs and keeps. */
  lemma CanResolve(p: Program, s: CG, e: CallEdge, target: nat)
    requires Inv(p, s, [], -1, 0) && target in p.body && e in s.edges && e.2 < |s.nodes| && s.nodes[e.2].IndirectNode?
    ensures MapsOk(s) && forall r :: r in s.resolved ==> r.1 < |s.nodes|
    ensures e.0 < |s.nodes| && s.nodes[e.0].ctx != [] && s.nodes[e.2] == IndirectNode(s.nodes[e.0].ctx, e.1)
    ensures var t := Target(p, DirectNode(s.nodes[e.0].ctx, target), Call(e.1, Direct(target)));
      t.Some? && t.value.DirectNode? ==>
        var isExt := IsExternal(p, target, e.1);
        var u := Resolved(s, e, t.value, isExt);
        if !Known(s, t.value) && !isExt then Inv(p, u, [IdFor(s, t.value)], -1, 0) else Inv(p, u, [], -1, 0)
  {
    CallerIsOk(p, s, e, target);
    var t := Target(p, DirectNode(s.nodes[e.0].ctx, target), Call(e.1, Direct(target)));
    if t.Some? {
      if t.value.DirectNode? {
        ExtIsDecided(p, DirectNode(s.nodes[e.0].ctx, target), Call(e.1, Direct(target)));
        ResolveStep(p, s, e, t.value, IsExternal(p, target, e.1));
        assert [] + [|s.nodes|] == [|s.nodes|];
      }
    }
    ResolvedIds(s);
  }

  lemma IdForNode(s: CG, e: CallEdge, n: CallNode, isExt: bool)
    requires MapsOk(s)
    ensures IdFor(s, n) < |Resolved(s, e, n, isExt).nodes| && Resolved(s, e, n, isExt).nodes[IdFor(s, n)] == n
  {
  }

  lemma ResolvedIds(s: CG)
    requires ResolvedOk(s)
    ensures forall r :: r in s.resolved ==> r.1 < |s.nodes|
  {
  }

  /** The edge into an indirect node gives a caller whose context can evolve, and an instruction of the program. */
  lemma CallerIsOk(p: Program, s: CG, e: CallEdge, target: nat)
    requires Inv(p, s, [], -1, 0) && target in p.body && e in s.edges && e.2 < |s.nodes| && s.nodes[e.2].IndirectNode?
    ensures e.0 < |s.nodes| && s.nodes[e.0].ctx != [] && s.nodes[e.0].ctx == s.nodes[e.2].ctx && e.1 == s.nodes[e.2].inst
    ensures var t := Target(p, DirectNode(s.nodes[e.0].ctx, target), Call(e.1, Direct(target)));
      t.Some? ==> if t.value.IndirectNode? then t.value == s.nodes[e.2] && Known(s, t.value) else NodeOk(p, t.value)
  {
    CallerOfIndirect(p, s, e, e);
    assert FromCallSite(p, s, e);
    EvolveStaysInside(p.k, Instructions(p), s.nodes[e.0].ctx, e.1);
    assert Known(s, s.nodes[e.2]);
  }

  lemma EntryOnly(p: Program, s: CG)
    requires WfProgram(p) && p.entry in p.body
    requires s == CG([DirectNode(Nulls(p.k), p.entry)], {}, map[(Nulls(p.k), p.entry) := 0], map[], {}, {}, {})
    ensures Inv(p, s, [0], -1, 0)
  {
    AllContextsAreAll(p.k, Instructions(p), Nulls(p.k));
    forall n | Known(s, n) ensures IdOf(s, n) < |s.nodes| && s.nodes[IdOf(s, n)] == n {
      assert KeyOf(n) == (Nulls(p.k), p.entry);
    }
    assert forall t: set<nat> :: ClosedUnderCalls(s, t) ==> 0 in t;
  }
}
