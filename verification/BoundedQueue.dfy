/** The message queue of the asynchronous logger: the ring of
    include/spdlog/details/circular_q.h inside the blocking queue of mpmc_blocking_q.h.
    A critical section is one method call; waiting is a call that reports it could not proceed. */
module BoundedQueue {
  import opened Rings

  /** Appending to a queue of capacity `cap`: the oldest item falls out if there is no room. */
  function Append<T>(cap: nat, q: seq<T>, x: T): (r: seq<T>)
    ensures |q| <= cap ==> |r| <= cap
  {
    if |q| < cap then q + [x] else (q + [x])[1..]
  }

  /** The items of a ring: from the head up to the tail, around the end if need be. */
  function Ring<T>(s: seq<T>, head: nat, tail: nat): (r: seq<T>)
    requires head < |s| && tail < |s|
    ensures |r| == if head <= tail then tail - head else |s| - head + tail
  {
    if head <= tail then s[head..tail] else s[head..] + s[..tail]
  }

  function Next(i: nat, n: nat): nat {
    if i + 1 < n then i + 1 else 0
  }

  /** The items one by one, without a case for the wrapped ring. */
  lemma RingItem<T>(s: seq<T>, head: nat, tail: nat, i: nat)
    requires head < |s| && tail < |s| && i < |Ring(s, head, tail)|
    ensures Ring(s, head, tail)[i] == if head + i < |s| then s[head + i] else s[head + i - |s|]
  {
  }

  lemma RingAppendItem<T>(s: seq<T>, head: nat, tail: nat, x: T, i: nat)
    requires head < |s| && tail < |s| && i <= |Ring(s, head, tail)|
    ensures (if head + i < |s| then s[tail := x][head + i] else s[tail := x][head + i - |s|])
         == (Ring(s, head, tail) + [x])[i]
  {
    if i < |Ring(s, head, tail)| {
      RingItem(s, head, tail, i);
    }
  }

  lemma RingAppend<T>(s: seq<T>, head: nat, tail: nat, x: T)
    requires head < |s| && tail < |s|
    ensures var t := Next(tail, |s|);
      if t != head then Ring(s[tail := x], head, t) == Ring(s, head, tail) + [x]
      else |Ring(s, head, tail)| == |s| - 1
           && Ring(s[tail := x], Next(head, |s|), t) == (Ring(s, head, tail) + [x])[1..]
  {
    var t := Next(tail, |s|);
    var d := if t == head then 1 else 0;
    var r, r' := Ring(s, head, tail) + [x], Ring(s[tail := x], if t == head then Next(head, |s|) else head, t);
    assert |r'| == |r| - d;
    forall i: nat | i < |r'| ensures r'[i] == r[i + d] {
      RingItem(s[tail := x], if t == head then Next(head, |s|) else head, t, i);
      hide Ring;
      RingAppendItem(s, head, tail, x, i + d);
    }
    hide Ring, Next;
    assert r' == r[d..];
  }

  lemma RingDrop<T>(s: seq<T>, head: nat, tail: nat)
    requires head < |s| && tail < |s| && head != tail
    ensures Ring(s, Next(head, |s|), tail) == Ring(s, head, tail)[1..]
  {
  }

  /** A ring over an array with one slot kept free; `maxItems` 0 is the disabled queue. */
  class CircularQueue<T(0)> {
    var maxItems: nat
    var head: nat
    var tail: nat
    var overrunCounter: nat
    var v: array<T>

    ghost predicate Valid()
      reads this
    {
      if maxItems == 0 then head == tail == 0
      else v.Length == maxItems && head < maxItems && tail < maxItems
    }

    ghost function Contents(): seq<T>
      requires Valid()
      reads this, v
    {
      if maxItems == 0 then [] else Ring(v[..], head, tail)
    }

    ghost function Capacity(): nat
      reads this
    {
      if maxItems == 0 then 0 else maxItems - 1
    }

    constructor Disabled()
      ensures Valid() && maxItems == 0 && Contents() == [] && overrunCounter == 0
    {
      maxItems, head, tail, overrunCounter := 0, 0, 0, 0;
      v := new T[0];
    }

    constructor (maxItems: nat)
      ensures Valid() && fresh(v) && this.maxItems == maxItems + 1 && Capacity() == maxItems
      ensures Contents() == [] && overrunCounter == 0
    {
      this.maxItems, head, tail, overrunCounter := maxItems + 1, 0, 0, 0;
      v := new T[maxItems + 1];
    }

    /** Takes over the state of `other`, which becomes disabled. */
    constructor MoveFrom(other: CircularQueue<T>)
      requires other.Valid()
      modifies other
      ensures Valid() && v == old(other.v) && maxItems == old(other.maxItems)
      ensures Contents() == old(other.Contents()) && overrunCounter == old(other.overrunCounter)
      ensures other.Valid() && other.maxItems == 0 && other.Contents() == [] && other.overrunCounter == 0
    {
      maxItems, head, tail, overrunCounter, v := other.maxItems, other.head, other.tail, other.overrunCounter, other.v;
      new;
      other.maxItems, other.head, other.tail, other.overrunCounter := 0, 0, 0, 0;
      other.v := new T[0];
    }

    method PushBack(item: T)
      requires Valid()
      modifies this`head, this`tail, this`overrunCounter, v
      ensures Valid()
      ensures maxItems == 0 ==> Contents() == [] && overrunCounter == old(overrunCounter)
      ensures maxItems > 0 ==>
        && Contents() == Append(Capacity(), old(Contents()), item)
        && overrunCounter == old(overrunCounter) + if |old(Contents())| < Capacity() then 0 else 1
    {
      if maxItems > 0 {
        RingAppend(v[..], head, tail, item);
        Wrap(tail + 1, maxItems);
        Wrap(head + 1, maxItems);
        v[tail] := item;
        assert v[..] == old(v[..])[tail := item];
        tail := (tail + 1) % maxItems;
        if tail == head {
          head := (head + 1) % maxItems;
          overrunCounter := overrunCounter + 1;
        }
      }
    }

    method Front() returns (x: T)
      requires Valid() && Contents() != []
      ensures x == Contents()[0]
    {
      x := v[head];
    }

    method Size() returns (n: nat)
      requires Valid()
      ensures n == |Contents()|
    {
      if tail >= head {
        n := tail - head;
      } else {
        n := maxItems - (head - tail);
      }
    }

    method At(i: nat) returns (x: T)
      requires Valid() && i < |Contents()|
      ensures x == Contents()[i]
    {
      Wrap(head + i, maxItems);
      x := v[(head + i) % maxItems];
    }

    method PopFront()
      requires Valid() && Contents() != []
      modifies this`head
      ensures Valid() && Contents() == old(Contents())[1..]
    {
      Wrap(head + 1, maxItems);
      RingDrop(v[..], head, tail);
      head := (head + 1) % maxItems;
    }

    method Empty() returns (b: bool)
      requires Valid()
      ensures b <==> Contents() == []
    {
      b := tail == head;
    }

    method Full() returns (b: bool)
      requires Valid()
      ensures b <==> maxItems > 0 && |Contents()| == Capacity()
    {
      if maxItems > 0 {
        Wrap(tail + 1, maxItems);
        return (tail + 1) % maxItems == head;
      }
      b := false;
    }
  }

  // ----- the history of a queue -----

  /** The items that were not lost, in order. */
  ghost function Kept<T>(s: seq<T>, lost: seq<bool>): seq<T>
    requires |s| == |lost|
  {
    if s == [] then []
    else Kept(s[..|s| - 1], lost[..|s| - 1]) + if lost[|s| - 1] then [] else [s[|s| - 1]]
  }

  ghost function CountLost(lost: seq<bool>): nat {
    if lost == [] then 0 else CountLost(lost[..|lost| - 1]) + if lost[|lost| - 1] then 1 else 0
  }

  /** What went in is, oldest first, what came out or was overrun, followed by what is still there. */
  ghost predicate History<T>(pushes: seq<T>, lost: seq<bool>, taken: seq<T>, items: seq<T>) {
    && |lost| <= |pushes|
    && items == pushes[|lost|..]
    && taken == Kept(pushes[..|lost|], lost)
  }

  lemma {:induction false} KeptLength<T>(s: seq<T>, lost: seq<bool>)
    requires |s| == |lost|
    ensures |s| == |Kept(s, lost)| + CountLost(lost)
  {
    if s != [] {
      KeptLength(s[..|s| - 1], lost[..|s| - 1]);
    }
  }

  /** Conservation: every push is popped, still there, or overrun. */
  lemma Conservation<T>(pushes: seq<T>, lost: seq<bool>, taken: seq<T>, items: seq<T>)
    requires History(pushes, lost, taken, items)
    ensures |pushes| == |taken| + |items| + CountLost(lost)
  {
    KeptLength(pushes[..|lost|], lost);
  }

  lemma HistoryOfPush<T>(pushes: seq<T>, lost: seq<bool>, taken: seq<T>, items: seq<T>, x: T)
    requires History(pushes, lost, taken, items)
    ensures History(pushes + [x], lost, taken, items + [x])
  {
    assert (pushes + [x])[..|lost|] == pushes[..|lost|];
  }

  /** The oldest item leaves, popped or overrun. */
  lemma HistoryOfLeave<T>(pushes: seq<T>, lost: seq<bool>, taken: seq<T>, items: seq<T>, overrun: bool)
    requires History(pushes, lost, taken, items) && items != []
    ensures History(pushes, lost + [overrun], if overrun then taken else taken + [items[0]], items[1..])
    ensures CountLost(lost + [overrun]) == CountLost(lost) + if overrun then 1 else 0
  {
    var s := pushes[..|lost| + 1];
    assert s[..|lost|] == pushes[..|lost|];
    assert (lost + [overrun])[..|lost|] == lost;
  }

  lemma HistoryOfPop<T>(pushes: seq<T>, lost: seq<bool>, taken: seq<T>, items: seq<T>)
    requires History(pushes, lost, taken, items) && items != []
    ensures History(pushes, lost + [false], taken + [items[0]], items[1..])
    ensures CountLost(lost + [false]) == CountLost(lost)
  {
    HistoryOfLeave(pushes, lost, taken, items, false);
  }

  // ----- the blocking queue -----

  class MpmcBlockingQueue<T(0)> {
    const q: CircularQueue<T>
    ghost var pushes: seq<T>
    ghost var lost: seq<bool>
    ghost var taken: seq<T>

    ghost predicate Valid()
      reads this, q, q.v
    {
      && q.Valid() && q.maxItems > 0 && |q.Contents()| <= q.Capacity()
      && History(pushes, lost, taken, q.Contents())
      && CountLost(lost) == q.overrunCounter
    }

    constructor (maxItems: nat)
      ensures Valid() && fresh(q) && fresh(q.v) && q.Capacity() == maxItems && pushes == taken == []
    {
      q := new CircularQueue<T>(maxItems);
      pushes, lost, taken := [], [], [];
    }

    /** enqueue: waits while the queue is full, so it never overruns. */
    method Enqueue(item: T) returns (done: bool)
      requires Valid()
      modifies this, q, q.v
      ensures Valid() && q.v == old(q.v) && q.maxItems == old(q.maxItems)
      ensures done <==> |old(q.Contents())| < q.Capacity()
      ensures q.Contents() == old(q.Contents()) + (if done then [item] else [])
      ensures pushes == old(pushes) + (if done then [item] else []) && lost == old(lost) && taken == old(taken)
      ensures q.overrunCounter == old(q.overrunCounter)
    {
      var full := q.Full();
      if full {
        return false;
      }
      HistoryOfPush(pushes, lost, taken, q.Contents(), item);
      q.PushBack(item);
      pushes := pushes + [item];
      done := true;
    }

    /** enqueue_nowait: never waits; the oldest item makes room if it must. */
    method EnqueueNowait(item: T)
      requires Valid()
      modifies this, q, q.v
      ensures Valid() && q.v == old(q.v) && q.maxItems == old(q.maxItems)
      ensures q.Contents() == Append(q.Capacity(), old(q.Contents()), item)
      ensures pushes == old(pushes) + [item] && taken == old(taken)
      ensures lost == old(lost) + if |old(q.Contents())| < q.Capacity() then [] else [true]
    {
      hide History, CountLost;
      HistoryOfPush(pushes, lost, taken, q.Contents(), item);
      if |q.Contents()| >= q.Capacity() {
        HistoryOfLeave(pushes + [item], lost, taken, q.Contents() + [item], true);
        lost := lost + [true];
      }
      q.PushBack(item);
      pushes := pushes + [item];
    }

    /** dequeue_for: false after waiting in vain, otherwise the oldest item. */
    method DequeueFor(fallback: T) returns (done: bool, item: T)
      requires Valid()
      modifies this, q
      ensures Valid() && q.v == old(q.v) && q.maxItems == old(q.maxItems)
      ensures done <==> old(q.Contents()) != []
      ensures if done
        then item == old(q.Contents())[0] && q.Contents() == old(q.Contents())[1..]
             && taken == old(taken) + [item] && lost == old(lost) + [false]
        else q.Contents() == [] && taken == old(taken) && lost == old(lost)
      ensures pushes == old(pushes) && q.overrunCounter == old(q.overrunCounter)
    {
      var empty := q.Empty();
      done, item := !empty, fallback;
      if done {
        ghost var items := q.Contents();
        item := q.Front();
        q.PopFront();
        HistoryOfPop(pushes, lost, taken, items);
        taken, lost := taken + [item], lost + [false];
      }
    }
  }
}
