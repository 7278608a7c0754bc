/** Sequences that list a set. */
module Lists {

  ghost predicate SameElements<T>(q: seq<T>, s: set<T>) {
    && (forall i :: 0 <= i < |q| ==> q[i] in s)
    && (forall x :: x in s ==> x in q)
  }

  ghost predicate Distinct<T>(q: seq<T>) {
    forall i, j :: 0 <= i < j < |q| ==> q[i] != q[j]
  }

  /** The elements of a set, each once, in some order. */
  method SetToSeq<T(==)>(s: set<T>) returns (q: seq<T>)
    ensures SameElements(q, s) && Distinct(q)
  {
    q := [];
    var todo := s;
    while todo != {}
      invariant todo <= s && SameElements(q, s - todo) && Distinct(q)
      decreases todo
    {
      var x :| x in todo;
      assert x !in q;
      todo := todo - {x};
      assert s - todo == s - (todo + {x}) + {x};
      q := q + [x];
    }
    assert s - todo == s;
  }
}
