/** How the constraint graph is built from a program
    (include/aser/PointerAnalysis/Graph/ConstraintGraph/ConstraintGraph.h:67-90, 167-184).

    Every object gets an anonymous node, numbered one above it, that alone points to it before
    solving; an addr_of constraint becomes a copy edge from that node. */
module GraphBuilding {
  import opened Constraints

  /** The constraints of a program: `addrOf` holds the pairs (object, pointer). */
  datatype Program = Program(n: nat, objects: set<nat>, addrOf: set<Edge>, copy: set<Edge>, load: set<Edge>, store: set<Edge>)

  ghost predicate IsAnonymous(p: Program, x: nat) {
    x > 0 && x - 1 in p.objects
  }

  ghost predicate NamedEdges(p: Program, edges: set<Edge>) {
    forall e :: e in edges ==> e.0 < p.n && e.1 < p.n && !IsAnonymous(p, e.0) && !IsAnonymous(p, e.1)
  }

  ghost predicate WfProgram(p: Program) {
    && (forall o :: o in p.objects ==> o + 1 < p.n && !IsAnonymous(p, o))
    && NamedEdges(p, p.addrOf) && NamedEdges(p, p.copy) && NamedEdges(p, p.load) && NamedEdges(p, p.store)
    && (forall e :: e in p.addrOf ==> e.0 in p.objects)
    && NoSelf(p.copy)
  }

  /** The graph that is built. */
  function Build(p: Program): System {
    System(
      p.n,
      set o | o in p.objects :: (o, o + 1),
      p.copy + set e | e in p.addrOf :: (e.0 + 1, e.1),
      p.load, p.store)
  }

  /** The program's own constraints, with addr_of as an inclusion. */
  function Direct(p: Program): System {
    System(p.n, p.addrOf, p.copy, p.load, p.store)
  }

  lemma BuildIsWf(p: Program)
    requires WfProgram(p)
    ensures WfSystem(Build(p)) && WfSystem(Direct(p))
  {
  }

  lemma BuiltSolvesDirect(p: Program, t: seq<set<nat>>)
    requires WfProgram(p) && WfSystem(Build(p)) && WfSystem(Direct(p)) && Solves(Build(p), t)
    ensures Solves(Direct(p), t)
  {
    forall e | e in p.addrOf ensures e.0 in t[e.1] {
      var c := (e.0 + 1, e.1);
      assert (e.0, e.0 + 1) in Build(p).addr && c in Build(p).copy;
      assert t[c.0] <= t[c.1];
    }
  }

  /** A solution of the program's constraints, with every object's anonymous node added. */
  ghost function WithAnonymous(p: Program, t: seq<set<nat>>): seq<set<nat>> {
    seq(|t|, x requires 0 <= x < |t| => if IsAnonymous(p, x) then {x - 1} else t[x])
  }

  lemma AnonymousCopies(p: Program, t: seq<set<nat>>)
    requires WfProgram(p) && WfSystem(Build(p)) && WfSystem(Direct(p)) && Solves(Direct(p), t)
    ensures CopyClosed(WithAnonymous(p, t), Build(p).copy) && AddrClosed(Build(p), WithAnonymous(p, t))
  {
    var s := WithAnonymous(p, t);
    forall e | e in Build(p).copy ensures s[e.0] <= s[e.1] {
      if e in p.copy {
        assert s[e.0] == t[e.0] && s[e.1] == t[e.1];
      } else {
        var c :| c in p.addrOf && e == (c.0 + 1, c.1);
        assert s[e.0] == {c.0} && c.0 in t[c.1];
      }
    }
  }

  lemma DirectSolvesBuilt(p: Program, t: seq<set<nat>>)
    requires WfProgram(p) && WfSystem(Build(p)) && WfSystem(Direct(p)) && Solves(Direct(p), t)
    requires forall x :: 0 <= x < p.n ==> t[x] <= p.objects
    ensures Solves(Build(p), WithAnonymous(p, t))
  {
    var s := WithAnonymous(p, t);
    AnonymousCopies(p, t);
    hide AddrClosed, CopyClosed, WfSystem;
    forall e, v | e in p.load && v in s[e.0] ensures s[v] <= s[e.1] {
      assert v in t[e.0] && !IsAnonymous(p, v);
    }
    forall e, v | e in p.store && v in s[e.1] ensures s[e.0] <= s[v] {
      assert v in t[e.1] && !IsAnonymous(p, v);
    }
  }

  /** Building keeps the meaning: every node of the program has the same least points-to set, and an
      anonymous node points to its object. */
  lemma BuildKeepsMeaning(p: Program)
    requires WfProgram(p)
    ensures WfSystem(Build(p)) && WfSystem(Direct(p))
    ensures LeastPts(Build(p)) == WithAnonymous(p, LeastPts(Direct(p)))
  {
    BuildIsWf(p);
    var built, direct := LeastPts(Build(p)), LeastPts(Direct(p));
    LeastPtsIsLeast(Build(p));
    LeastPtsIsLeast(Direct(p));
    forall x | 0 <= x < p.n ensures direct[x] <= p.objects {
      assert Objects(Direct(p)) <= p.objects;
    }
    DirectSolvesBuilt(p, direct);
    BuiltSolvesDirect(p, built);
    forall x | 0 <= x < p.n ensures built[x] == WithAnonymous(p, direct)[x] {
      if IsAnonymous(p, x) {
        assert (x - 1, (x - 1) + 1) in Build(p).addr;
      }
    }
  }
}
