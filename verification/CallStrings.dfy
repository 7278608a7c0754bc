/** K-limited call strings: the ring buffer of include/aser/PointerAnalysis/Context/PtrRingBuffer.h
    and the interned contexts of KCallSite.h. */
module CallStrings {
  import opened Lists
  import opened Options
  import opened Rings

  /** The contents of a context, oldest call first; `None` is the null of an unused slot. */
  type Context = seq<Option<nat>>

  function Nulls(k: nat): (c: Context)
    ensures |c| == k && forall i :: 0 <= i < k ==> c[i] == None
  {
    seq(k, i => None)
  }

  /** One more call: the oldest entry falls out. */
  function Evolve(c: Context, inst: nat): (r: Context)
    requires c != []
    ensures |r| == |c|
  {
    c[1..] + [Some(inst)]
  }

  function EvolveAll(c: Context, insts: seq<nat>): (r: Context)
    requires c != []
    ensures |r| == |c|
    decreases |insts|
  {
    if insts == [] then c else EvolveAll(Evolve(c, insts[0]), insts[1..])
  }

  function Entries(insts: seq<nat>): (c: Context)
    ensures |c| == |insts|
  {
    seq(|insts|, i requires 0 <= i < |insts| => Some(insts[i]))
  }

  function LastOf(c: Context, k: nat): Context
    requires k <= |c|
  {
    c[|c| - k..]
  }

  /** After any pushes a context holds the last K entries of what was in it followed by the pushes. */
  lemma {:induction false} EvolveKeepsSuffix(c: Context, insts: seq<nat>)
    requires c != []
    ensures EvolveAll(c, insts) == LastOf(c + Entries(insts), |c|)
    decreases |insts|
  {
    if insts == [] {
      assert c + Entries(insts) == c;
    } else {
      var c', rest := Evolve(c, insts[0]), insts[1..];
      EvolveKeepsSuffix(c', rest);
      assert c + Entries(insts) == [c[0]] + (c' + Entries(rest));
    }
  }

  /** Two call strings share a context iff their null-padded K-suffixes agree. */
  lemma SameContextIffSameSuffix(k: nat, a: seq<nat>, b: seq<nat>)
    requires k > 0
    ensures EvolveAll(Nulls(k), a) == EvolveAll(Nulls(k), b)
       <==> LastOf(Nulls(k) + Entries(a), k) == LastOf(Nulls(k) + Entries(b), k)
  {
    EvolveKeepsSuffix(Nulls(k), a);
    EvolveKeepsSuffix(Nulls(k), b);
  }

  /** Calls further back than K are forgotten, so recursion cannot make contexts endless. */
  lemma OldCallsAreForgotten(k: nat, a: seq<nat>, b: seq<nat>, common: seq<nat>)
    requires 0 < k <= |common|
    ensures EvolveAll(Nulls(k), a + common) == EvolveAll(Nulls(k), b + common)
  {
    EvolveKeepsSuffix(Nulls(k), a + common);
    EvolveKeepsSuffix(Nulls(k), b + common);
    assert LastOf(Nulls(k) + Entries(a + common), k) == Entries(common[|common| - k..]);
    assert LastOf(Nulls(k) + Entries(b + common), k) == Entries(common[|common| - k..]);
  }

  // ----- finitely many contexts -----

  /** All contexts of length `k` over the given instructions. */
  ghost function AllContexts(k: nat, insts: set<nat>): set<Context> {
    if k == 0 then {[]}
    else
      var shorter := AllContexts(k - 1, insts);
      (set c | c in shorter :: [None] + c) + set i, c | i in insts && c in shorter :: [Some(i)] + c
  }

  ghost predicate Over(insts: set<nat>, c: Context) {
    forall i :: 0 <= i < |c| && c[i].Some? ==> c[i].value in insts
  }

  lemma {:induction false} AllContextsAreAll(k: nat, insts: set<nat>, c: Context)
    ensures c in AllContexts(k, insts) <==> |c| == k && Over(insts, c)
  {
    if k > 0 {
      var shorter := AllContexts(k - 1, insts);
      if c != [] {
        AllContextsAreAll(k - 1, insts, c[1..]);
        assert c == [c[0]] + c[1..];
      }
      if c in (set d | d in shorter :: [None] + d) {
        var d :| d in shorter && c == [None] + d;
        assert d == c[1..];
      } else if c in (set i, d | i in insts && d in shorter :: [Some(i)] + d) {
        var i, d :| i in insts && d in shorter && c == [Some(i)] + d;
        assert d == c[1..];
      }
      if |c| == k && Over(insts, c) {
        assert Over(insts, c[1..]) && c[1..] in shorter;
        assert c[0] == None || c[0] == Some(c[0].value);
      }
    }
  }

  lemma EvolveStaysInside(k: nat, insts: set<nat>, c: Context, inst: nat)
    requires k > 0 && c in AllContexts(k, insts) && inst in insts
    ensures |c| == k && Evolve(c, inst) in AllContexts(k, insts)
  {
    AllContextsAreAll(k, insts, c);
    AllContextsAreAll(k, insts, Evolve(c, inst));
  }

  // ----- the ring buffer -----

  /** A buffer of fixed size N that overwrites its oldest entry. */
  class PtrRingBuffer {
    const buffer: array<Option<nat>>
    var last: nat

    ghost predicate Valid()
      reads this
    {
      buffer.Length > 0 && last < buffer.Length
    }

    /** Oldest first: from the slot to be overwritten next, around the end. */
    ghost function Contents(): (c: Context)
      requires Valid()
      reads this, buffer
      ensures |c| == buffer.Length
    {
      buffer[last..] + buffer[..last]
    }

    constructor (n: nat)
      requires n > 0
      ensures Valid() && fresh(buffer) && Contents() == Nulls(n)
    {
      buffer := new Option<nat>[n](i => None);
      last := 0;
    }

    constructor Copy(r: PtrRingBuffer)
      requires r.Valid()
      ensures Valid() && fresh(buffer) && Contents() == r.Contents()
    {
      var a := new Option<nat>[r.buffer.Length];
      forall i | 0 <= i < a.Length {
        a[i] := r.buffer[i];
      }
      buffer, last := a, r.last;
      new;
      assert buffer[..] == r.buffer[..];
      assert buffer[last..] == r.buffer[last..] && buffer[..last] == r.buffer[..last];
    }

    method Push(value: nat)
      requires Valid()
      modifies this, buffer
      ensures Valid() && Contents() == Evolve(old(Contents()), value)
    {
      ghost var before := buffer[..];
      Wrap(last + 1, buffer.Length);
      buffer[last] := Some(value);
      assert buffer[last + 1..] == before[last + 1..] && buffer[..last] == before[..last];
      if last + 1 == buffer.Length {
        last := (last + 1) % buffer.Length;
        assert buffer[..] == before[..buffer.Length - 1] + [Some(value)];
      } else {
        last := (last + 1) % buffer.Length;
        assert buffer[..last] == before[..last - 1] + [Some(value)];
      }
    }

    function Begin(): nat
      reads this
    {
      last
    }

    function End(): nat {
      buffer.Length
    }

    /** operator++ of the iterator: past the newest entry comes the end. */
    function Next(index: nat): nat
      requires Valid()
      reads this
    {
      if (index + 1) % buffer.Length == last then buffer.Length else (index + 1) % buffer.Length
    }

    /** Iterating from begin to end visits each of the N entries once, oldest first. */
    method ToSeq() returns (c: Context, ghost steps: nat)
      requires Valid()
      ensures c == Contents() && steps == buffer.Length
    {
      c, steps := [], 0;
      var it := Begin();
      while it != End()
        invariant steps <= buffer.Length && |c| == steps
        invariant c == Contents()[..steps]
        invariant it == if steps == buffer.Length then End() else (last + steps) % buffer.Length
        decreases buffer.Length - steps
      {
        SlotAt(last, steps, buffer.Length);
        assert buffer[it] == Contents()[steps];
        c := c + [buffer[it]];
        it := Next(it);
        steps := steps + 1;
      }
    }
  }

  /** Where the entry of age `i` sits, and what follows it. */
  lemma SlotAt(last: nat, i: nat, n: nat)
    requires last < n && i < n
    ensures (last + i) % n == if last + i < n then last + i else last + i - n
    ensures ((last + i) % n + 1) % n == (last + i + 1) % n
    ensures (last + i + 1) % n == last <==> i + 1 == n
  {
    Wrap(last + i, n);
    Wrap(last + i + 1, n);
    Wrap((last + i) % n + 1, n);
  }

  // ----- interned contexts -----

  /** A pointer to a context: the initial one, or the place of an entry in the table. */
  datatype CtxPtr = Initial | InSet(index: nat)

  /** The contexts made so far, each stored once (CtxTrait::ctxSet). */
  class ContextTable {
    const k: nat
    var ctxSet: seq<Context>

    ghost predicate Valid()
      reads this
    {
      && k > 0 && Distinct(ctxSet)
      && forall i :: 0 <= i < |ctxSet| ==> |ctxSet[i]| == k && ctxSet[i][k - 1] != None
    }

    ghost predicate Known(p: CtxPtr)
      reads this
    {
      p.InSet? ==> p.index < |ctxSet|
    }

    function Contents(p: CtxPtr): (c: Context)
      requires Valid() && Known(p)
      reads this
      ensures |c| == k
    {
      if p.Initial? then Nulls(k) else ctxSet[p.index]
    }

    constructor (k: nat)
      requires k > 0
      ensures Valid() && this.k == k && ctxSet == []
    {
      this.k, ctxSet := k, [];
    }

    /** The context after one more call: found in the table, or put there. */
    method ContextEvolve(prevCtx: CtxPtr, inst: nat) returns (p: CtxPtr)
      requires Valid() && Known(prevCtx)
      modifies this
      ensures Valid() && Known(p) && old(ctxSet) <= ctxSet
      ensures p.InSet? && Contents(p) == Evolve(old(Contents(prevCtx)), inst)
    {
      var next := Evolve(Contents(prevCtx), inst);
      var i := 0;
      while i < |ctxSet|
        invariant i <= |ctxSet| && next !in ctxSet[..i]
      {
        if ctxSet[i] == next {
          return InSet(i);
        }
        i := i + 1;
      }
      p := InSet(|ctxSet|);
      ctxSet := ctxSet + [next];
    }

    /** Pointer equality is equality of contents, so contexts may be compared as pointers. */
    lemma PointersAreContents(p: CtxPtr, q: CtxPtr)
      requires Valid() && Known(p) && Known(q)
      ensures p == q <==> Contents(p) == Contents(q)
    {
      assert Nulls(k)[k - 1] == None;
    }
  }
}
