/** Reachability along a finite set of edges, computed as a least fixpoint. */
module Reachability {
  import opened Constraints

  function Heads(edges: set<Edge>): set<nat> {
    set e | e in edges :: e.1
  }

  function Grow(edges: set<Edge>, from: set<nat>): set<nat> {
    from + set e | e in edges && e.0 in from :: e.1
  }

  function ReachFrom(edges: set<Edge>, from: set<nat>): (r: set<nat>)
    ensures from <= r
    decreases Heads(edges) - from
  {
    if Grow(edges, from) == from then from
    else
      assert Heads(edges) - Grow(edges, from) < Heads(edges) - from by {
        var x :| x in Grow(edges, from) && x !in from;
        assert x in Heads(edges);
      }
      ReachFrom(edges, Grow(edges, from))
  }

  predicate Reaches(edges: set<Edge>, a: nat, b: nat) {
    b in ReachFrom(edges, {a})
  }

  ghost predicate ClosedUnder(edges: set<Edge>, s: set<nat>) {
    forall e :: e in edges && e.0 in s ==> e.1 in s
  }

  lemma {:induction false} ReachIsClosed(edges: set<Edge>, from: set<nat>)
    ensures ClosedUnder(edges, ReachFrom(edges, from))
    decreases Heads(edges) - from
  {
    if Grow(edges, from) == from {
      assert forall e :: e in edges && e.0 in from ==> e.1 in Grow(edges, from);
    } else {
      var x :| x in Grow(edges, from) && x !in from;
      assert x in Heads(edges);
      ReachIsClosed(edges, Grow(edges, from));
    }
  }

  lemma {:induction false} ReachIsLeast(edges: set<Edge>, from: set<nat>, s: set<nat>)
    requires from <= s && ClosedUnder(edges, s)
    ensures ReachFrom(edges, from) <= s
    decreases Heads(edges) - from
  {
    if Grow(edges, from) != from {
      var x :| x in Grow(edges, from) && x !in from;
      assert x in Heads(edges);
      ReachIsLeast(edges, Grow(edges, from), s);
    }
  }

  lemma ReachesTransitive(edges: set<Edge>, a: nat, b: nat, c: nat)
    requires Reaches(edges, a, b) && Reaches(edges, b, c)
    ensures Reaches(edges, a, c)
  {
    ReachIsClosed(edges, {a});
    ReachIsLeast(edges, {b}, ReachFrom(edges, {a}));
  }

  lemma ReachesEdge(edges: set<Edge>, e: Edge)
    requires e in edges
    ensures Reaches(edges, e.0, e.1)
  {
    ReachIsClosed(edges, {e.0});
  }

  // ----- paths -----

  ghost predicate IsPath(edges: set<Edge>, path: seq<nat>, a: nat, b: nat) {
    && path != [] && path[0] == a && path[|path| - 1] == b
    && forall i :: 0 <= i < |path| - 1 ==> (path[i], path[i + 1]) in edges
  }

  /** Being reached is being at the end of a path. */
  lemma ReachesIffPath(edges: set<Edge>, a: nat, b: nat)
    ensures Reaches(edges, a, b) <==> exists path :: IsPath(edges, path, a, b)
  {
    var ends := set x | x in ReachFrom(edges, {a}) && exists path :: IsPath(edges, path, a, x);
    assert a in ends by {
      assert IsPath(edges, [a], a, a);
    }
    ReachIsClosed(edges, {a});
    forall e | e in edges && e.0 in ends ensures e.1 in ends {
      var path :| IsPath(edges, path, a, e.0);
      assert IsPath(edges, path + [e.1], a, e.1);
    }
    ReachIsLeast(edges, {a}, ends);
    if path :| IsPath(edges, path, a, b) {
      PathStaysInside(edges, path, a, b, ReachFrom(edges, {a}));
    }
  }

  lemma {:induction false} PathStaysInside(edges: set<Edge>, path: seq<nat>, a: nat, b: nat, s: set<nat>)
    requires IsPath(edges, path, a, b) && a in s && ClosedUnder(edges, s)
    ensures b in s
  {
    if |path| > 1 {
      assert (path[0], path[1]) in edges;
      var rest := path[1..];
      forall i | 0 <= i < |rest| - 1 ensures (rest[i], rest[i + 1]) in edges {
        assert (path[i + 1], path[i + 2]) in edges;
      }
      PathStaysInside(edges, rest, path[1], b, s);
    }
  }

  // ----- inclusion along reachability -----

  /** If every edge is an inclusion, so is every path. */
  lemma InclusionAlongReach(edges: set<Edge>, t: seq<set<nat>>, a: nat, b: nat)
    requires EdgesIn(|t|, edges) && CopyClosed(t, edges) && a < |t| && Reaches(edges, a, b)
    ensures b < |t| && t[a] <= t[b]
  {
    var above := set x | 0 <= x < |t| && t[a] <= t[x];
    ReachIsLeast(edges, {a}, above);
  }
}
