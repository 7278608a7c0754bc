/** The logging thread pool (include/spdlog/details/thread_pool-inl.h) as an interleaving of
    atomic steps of producers, workers and the destructor over the bounded queue. */
module ThreadPool {
  import opened BoundedQueue

  datatype Kind = Log | Flush | Terminate
  datatype Msg = Msg(id: nat, kind: Kind)

  /** A worker waits at the queue, handles a message, or has left its loop. */
  datatype Worker = Waiting | Handling(msg: Msg) | Exited

  /** `cap` and `queue` are the message queue; `unposted` counts the terminate messages the
      destructor has still to post once `closing`.  The rest is history: everything posted, which
      of it was overrun, what was taken from the queue, what was handled to the end, and by whom. */
  datatype Pool = Pool(cap: nat, queue: seq<Msg>, workers: seq<Worker>, closing: bool, unposted: nat,
                       posted: seq<Msg>, lost: seq<bool>, taken: seq<Msg>, finished: seq<Msg>, handlers: seq<nat>)

  datatype Overflow = Block | OverrunOldest

  datatype Step =
    | Post(msg: Msg, policy: Overflow)
    | Close
    | PostTerminate(id: nat)
    | Take(worker: nat)
    | Finish(worker: nat)
    | Timeout(worker: nat)

  /** The constructor: 1 to 1000 threads, all waiting. */
  datatype Construction = Built(pool: Pool) | InvalidThreadCount

  function New(qMaxItems: nat, threadsN: nat): Construction {
    if threadsN == 0 || threadsN > 1000 then InvalidThreadCount
    else Built(Pool(qMaxItems, [], seq(threadsN, i => Waiting), false, 0, [], [], [], [], []))
  }

  /** A step can be taken: blocking posts wait for room, takes for a message; nothing is
      posted by producers once the destructor runs. */
  predicate Enabled(s: Pool, step: Step) {
    match step
    case Post(m, policy) => !s.closing && !m.kind.Terminate? && (policy.Block? ==> |s.queue| < s.cap)
    case Close => !s.closing
    case PostTerminate(_) => s.closing && s.unposted > 0 && |s.queue| < s.cap
    case Take(w) => w < |s.workers| && s.workers[w].Waiting? && s.queue != []
    case Finish(w) => w < |s.workers| && s.workers[w].Handling?
    case Timeout(w) => w < |s.workers| && s.workers[w].Waiting? && s.queue == []
  }

  function Push(s: Pool, m: Msg): Pool {
    s.(queue := Append(s.cap, s.queue, m),
       posted := s.posted + [m],
       lost := if |s.queue| < s.cap then s.lost else s.lost + [true])
  }

  function Do(s: Pool, step: Step): Pool
    requires Enabled(s, step)
  {
    match step
    case Post(m, _) => Push(s, m)
    case Close => s.(closing := true, unposted := |s.workers|)
    case PostTerminate(id) => Push(s, Msg(id, Terminate)).(unposted := s.unposted - 1)
    case Take(w) =>
      s.(queue := s.queue[1..], workers := s.workers[w := Handling(s.queue[0])],
         taken := s.taken + [s.queue[0]], lost := s.lost + [false])
    case Finish(w) =>
      s.(workers := s.workers[w := if s.workers[w].msg.kind.Terminate? then Exited else Waiting],
         finished := s.finished + [s.workers[w].msg], handlers := s.handlers + [w])
    case Timeout(_) => s
  }

  ghost predicate IsRun(s: Pool, steps: seq<Step>)
    decreases |steps|
  {
    steps == [] || (Enabled(s, steps[0]) && IsRun(Do(s, steps[0]), steps[1..]))
  }

  ghost function After(s: Pool, steps: seq<Step>): Pool
    requires IsRun(s, steps)
    decreases |steps|
  {
    if steps == [] then s else After(Do(s, steps[0]), steps[1..])
  }

  // ----- counting -----

  /** Will the worker take another message? */
  predicate Alive(w: Worker) {
    w.Waiting? || (w.Handling? && !w.msg.kind.Terminate?)
  }

  function LiveWorkers(ws: seq<Worker>): nat {
    if ws == [] then 0 else (if Alive(ws[0]) then 1 else 0) + LiveWorkers(ws[1..])
  }

  function Terminates(q: seq<Msg>): nat {
    if q == [] then 0 else (if q[0].kind.Terminate? then 1 else 0) + Terminates(q[1..])
  }

  function Busy(ws: seq<Worker>): nat {
    if ws == [] then 0 else (if ws[0].Handling? then 1 else 0) + Busy(ws[1..])
  }

  function Gone(ws: seq<Worker>): nat {
    if ws == [] then 0 else (if ws[0].Exited? then 1 else 0) + Gone(ws[1..])
  }

  /** The messages in the workers' hands. */
  function Held(ws: seq<Worker>): multiset<Msg> {
    if ws == [] then multiset{} else HeldBy(ws[0]) + Held(ws[1..])
  }

  function HeldBy(w: Worker): multiset<Msg> {
    if w.Handling? then multiset{w.msg} else multiset{}
  }

  /** What one worker has handled, in order. */
  function HandledBy(finished: seq<Msg>, handlers: seq<nat>, w: nat): seq<Msg>
    requires |handlers| == |finished|
    decreases |handlers|
  {
    if handlers == [] then []
    else
      HandledBy(finished[..|handlers| - 1], handlers[..|handlers| - 1], w) + if handlers[|handlers| - 1] == w then [finished[|handlers| - 1]] else []
  }

  lemma {:induction false} UpdateCounts(ws: seq<Worker>, i: nat, w: Worker)
    requires i < |ws|
    ensures LiveWorkers(ws[i := w]) == LiveWorkers(ws) - (if Alive(ws[i]) then 1 else 0) + (if Alive(w) then 1 else 0)
    ensures Busy(ws[i := w]) == Busy(ws) - (if ws[i].Handling? then 1 else 0) + (if w.Handling? then 1 else 0)
    ensures Gone(ws[i := w]) == Gone(ws) - (if ws[i].Exited? then 1 else 0) + (if w.Exited? then 1 else 0)
  {
    if i == 0 {
      assert ws[i := w][1..] == ws[1..];
    } else {
      assert ws[i := w][1..] == ws[1..][i - 1 := w];
      UpdateCounts(ws[1..], i - 1, w);
    }
  }

  lemma {:induction false} UpdateHeld(ws: seq<Worker>, i: nat, w: Worker)
    requires i < |ws|
    ensures Held(ws[i := w]) + HeldBy(ws[i]) == Held(ws) + HeldBy(w)
  {
    hide HeldBy;
    var us := ws[i := w];
    if i == 0 {
      assert us[1..] == ws[1..];
    } else {
      UpdateHeld(ws[1..], i - 1, w);
      assert us[1..] == ws[1..][i - 1 := w] && us[0] == ws[0];
      var first, rest, rest' := HeldBy(ws[0]), Held(ws[1..]), Held(us[1..]);
      assert Held(us) == first + rest' && Held(ws) == first + rest;
      assert (first + rest') + HeldBy(ws[i]) == first + (rest' + HeldBy(ws[i]));
      assert (first + rest) + HeldBy(w) == first + (rest + HeldBy(w));
    }
  }

  lemma {:induction false} TerminatesAppend(q: seq<Msg>, m: Msg)
    ensures Terminates(q + [m]) == Terminates(q) + (if m.kind.Terminate? then 1 else 0)
  {
    if q != [] {
      assert (q + [m])[1..] == q[1..] + [m];
      TerminatesAppend(q[1..], m);
    }
  }

  lemma {:induction false} CountsOfWorkers(ws: seq<Worker>)
    ensures LiveWorkers(ws) == 0 <==> forall i :: 0 <= i < |ws| ==> !Alive(ws[i])
    ensures Busy(ws) == 0 <==> forall i :: 0 <= i < |ws| ==> !ws[i].Handling?
    ensures Busy(ws) == 0 ==> Held(ws) == multiset{}
    ensures (forall i :: 0 <= i < |ws| ==> ws[i] == Waiting) ==> LiveWorkers(ws) == |ws| && Gone(ws) == 0
    ensures (forall i :: 0 <= i < |ws| ==> ws[i].Exited?) ==> Gone(ws) == |ws|
  {
    if ws != [] {
      CountsOfWorkers(ws[1..]);
      assert forall i :: 0 < i < |ws| ==> ws[i] == ws[1..][i - 1];
    }
  }

  lemma {:induction false} AllTerminates(q: seq<Msg>)
    requires forall i :: 0 <= i < |q| ==> q[i].kind.Terminate?
    ensures Terminates(q) == |q|
  {
    if q != [] {
      assert forall i :: 0 <= i < |q[1..]| ==> q[1..][i] == q[i + 1];
      AllTerminates(q[1..]);
    }
  }

  lemma {:induction false} NoTerminates(q: seq<Msg>)
    ensures Terminates(q) == 0 <==> forall i :: 0 <= i < |q| ==> !q[i].kind.Terminate?
  {
    if q != [] {
      NoTerminates(q[1..]);
      assert forall i :: 0 < i < |q| ==> q[i] == q[1..][i - 1];
    }
  }

  // ----- the invariant -----

  /** No log or flush follows a terminate. */
  ghost predicate TerminatesLast(q: seq<Msg>) {
    forall i, j :: 0 <= i < j < |q| && q[i].kind.Terminate? ==> q[j].kind.Terminate?
  }

  /** Every message posted is in the queue, in a worker's hands, finished or overrun. */
  ghost predicate FlowInv(s: Pool) {
    && History(s.posted, s.lost, s.taken, s.queue)
    && multiset(s.taken) == multiset(s.finished) + Held(s.workers)
    && (forall i :: 0 <= i < |s.lost| && s.lost[i] ==> !s.posted[i].kind.Terminate?)
  }

  /** There is one terminate, queued or still to come, for every live worker of a closing pool,
      and once a worker has taken its terminate no log or flush is left in the queue. */
  ghost predicate CountInv(s: Pool) {
    && s.workers != [] && |s.queue| <= s.cap
    && LiveWorkers(s.workers) == (if s.closing then Terminates(s.queue) + s.unposted else |s.workers|)
    && (!s.closing ==> Terminates(s.queue) == 0)
    && Terminates(s.finished) == Gone(s.workers)
    && TerminatesLast(s.queue)
    && (LiveWorkers(s.workers) < |s.workers| ==> forall i :: 0 <= i < |s.queue| ==> s.queue[i].kind.Terminate?)
  }

  /** A worker has handled a terminate iff it has left its loop, and then it was the last it handled. */
  ghost predicate LeavesByTerminate(w: Worker, handled: seq<Msg>) {
    if w.Exited? then
      handled != [] && handled[|handled| - 1].kind.Terminate? && Terminates(handled[..|handled| - 1]) == 0
    else
      Terminates(handled) == 0
  }

  ghost predicate OwnInv(s: Pool) {
    && |s.handlers| == |s.finished|
    && forall w :: 0 <= w < |s.workers| ==> LeavesByTerminate(s.workers[w], HandledBy(s.finished, s.handlers, w))
  }

  ghost predicate Inv(s: Pool) {
    FlowInv(s) && CountInv(s) && OwnInv(s)
  }

  lemma NewIsFine(qMaxItems: nat, threadsN: nat)
    ensures New(qMaxItems, threadsN).Built? <==> 1 <= threadsN <= 1000
    ensures New(qMaxItems, threadsN).Built? ==>
      var s := New(qMaxItems, threadsN).pool;
      Inv(s) && s.cap == qMaxItems && |s.workers| == threadsN && s.queue == s.posted == [] && s.lost == []
  {
    if 1 <= threadsN <= 1000 {
      CountsOfWorkers(New(qMaxItems, threadsN).pool.workers);
    }
  }

  /** A new message at the end of the queue, whose oldest is dropped if there is no room. */
  lemma PushKeepsFlow(s: Pool, m: Msg)
    requires FlowInv(s) && (|s.queue| >= s.cap ==> forall i :: 0 <= i < |s.queue| ==> !s.queue[i].kind.Terminate?)
    requires |s.queue| >= s.cap ==> !m.kind.Terminate?
    ensures FlowInv(Push(s, m))
  {
    hide Held, Kept;
    var all := s.queue + [m];
    HistoryOfPush(s.posted, s.lost, s.taken, s.queue, m);
    if |s.queue| >= s.cap {
      HistoryOfLeave(s.posted + [m], s.lost, s.taken, all, true);
      assert all[0] == (s.posted + [m])[|s.lost|];
    }
  }

  lemma PostKeepsCounts(s: Pool, m: Msg)
    requires CountInv(s) && !s.closing && !m.kind.Terminate?
    ensures CountInv(Push(s, m))
  {
    hide Held, Gone;
    TerminatesAppend(s.queue, m);
    NoTerminates(s.queue);
    NoTerminates(s.queue + [m]);
    NoTerminates((s.queue + [m])[1..]);
  }

  lemma PostKeepsInv(s: Pool, step: Step)
    requires Inv(s) && Enabled(s, step) && step.Post?
    ensures Inv(Do(s, step))
  {
    NoTerminates(s.queue);
    hide FlowInv, OwnInv;
    PushKeepsFlow(s, step.msg);
    PostKeepsCounts(s, step.msg);
    OwnUnchanged(s, Do(s, step));
  }

  lemma OwnUnchanged(s: Pool, t: Pool)
    requires OwnInv(s) && t.workers == s.workers && t.finished == s.finished && t.handlers == s.handlers
    ensures OwnInv(t)
  {
  }

  lemma PostTerminateKeepsCounts(s: Pool, m: Msg)
    requires CountInv(s) && s.closing && s.unposted > 0 && |s.queue| < s.cap && m.kind.Terminate?
    ensures CountInv(Push(s, m).(unposted := s.unposted - 1))
  {
    hide Held, Gone, LiveWorkers, Terminates;
    TerminatesAppend(s.queue, m);
    var q := s.queue + [m];
    assert Append(s.cap, s.queue, m) == q;
    assert forall i :: 0 <= i < |s.queue| ==> q[i] == s.queue[i];
  }

  lemma PostTerminateKeepsInv(s: Pool, step: Step)
    requires Inv(s) && Enabled(s, step) && step.PostTerminate?
    ensures Inv(Do(s, step))
  {
    hide FlowInv, OwnInv, CountInv;
    var m := Msg(step.id, Terminate);
    PushKeepsFlow(s, m);
    FlowUnchanged(Push(s, m), Do(s, step));
    PostTerminateKeepsCounts(s, m);
    OwnUnchanged(s, Do(s, step));
  }

  lemma FlowUnchanged(s: Pool, t: Pool)
    requires FlowInv(s) && t == s.(closing := t.closing, unposted := t.unposted)
    ensures FlowInv(t)
  {
  }

  lemma TakeKeepsFlow(s: Pool, step: Step)
    requires FlowInv(s) && Enabled(s, step) && step.Take?
    ensures FlowInv(Do(s, step))
  {
    hide Kept, Held;
    var m := s.queue[0];
    HistoryOfPop(s.posted, s.lost, s.taken, s.queue);
    UpdateHeld(s.workers, step.worker, Handling(m));
    TakenIsHeld(s.taken, s.finished, m, Held(s.workers), Held(s.workers[step.worker := Handling(m)]));
  }

  lemma TakenIsHeld(taken: seq<Msg>, finished: seq<Msg>, m: Msg, held: multiset<Msg>, held': multiset<Msg>)
    requires multiset(taken) == multiset(finished) + held && held' + multiset{} == held + multiset{m}
    ensures multiset(taken + [m]) == multiset(finished) + held'
  {
    assert held' == held + multiset{m};
    assert multiset(taken + [m]) == multiset(taken) + multiset{m};
  }

  lemma TakeKeepsCounts(s: Pool, step: Step)
    requires CountInv(s) && Enabled(s, step) && step.Take?
    ensures CountInv(Do(s, step))
  {
    UpdateCounts(s.workers, step.worker, Handling(s.queue[0]));
    var t := Do(s, step);
    forall i, j | 0 <= i < j < |t.queue| && t.queue[i].kind.Terminate? ensures t.queue[j].kind.Terminate? {
      assert s.queue[i + 1].kind.Terminate?;
    }
    forall i | LiveWorkers(t.workers) < |t.workers| && 0 <= i < |t.queue| ensures t.queue[i].kind.Terminate? {
      assert t.queue[i] == s.queue[i + 1];
    }
  }

  lemma TakeKeepsOwn(s: Pool, step: Step)
    requires OwnInv(s) && Enabled(s, step) && step.Take?
    ensures OwnInv(Do(s, step))
  {
    hide Terminates, HandledBy;
  }

  lemma FinishKeepsFlow(s: Pool, step: Step)
    requires FlowInv(s) && Enabled(s, step) && step.Finish?
    ensures FlowInv(Do(s, step))
  {
    hide Held, History;
    var w := s.workers[step.worker];
    var w' := if w.msg.kind.Terminate? then Exited else Waiting;
    UpdateHeld(s.workers, step.worker, w');
    HeldIsFinished(s.finished, w.msg, Held(s.workers), Held(s.workers[step.worker := w']));
  }

  lemma HeldIsFinished(finished: seq<Msg>, m: Msg, held: multiset<Msg>, held': multiset<Msg>)
    requires held' + multiset{m} == held + multiset{}
    ensures multiset(finished + [m]) + held' == multiset(finished) + held
  {
    assert held == held' + multiset{m};
    assert multiset(finished + [m]) == multiset(finished) + multiset{m};
  }

  lemma FinishKeepsCounts(s: Pool, step: Step)
    requires CountInv(s) && Enabled(s, step) && step.Finish?
    ensures CountInv(Do(s, step))
  {
    var w := s.workers[step.worker];
    TerminatesAppend(s.finished, w.msg);
    UpdateCounts(s.workers, step.worker, if w.msg.kind.Terminate? then Exited else Waiting);
  }

  lemma FinishKeepsOwn(s: Pool, step: Step)
    requires OwnInv(s) && Enabled(s, step) && step.Finish?
    ensures OwnInv(Do(s, step))
  {
    hide Terminates, HandledBy;
    var i, m := step.worker, s.workers[step.worker].msg;
    var t := Do(s, step);
    forall w | 0 <= w < |s.workers| ensures LeavesByTerminate(t.workers[w], HandledBy(t.finished, t.handlers, w)) {
      HandledOneMore(s.finished, s.handlers, m, i, w);
      if w == i {
        LeavesNow(HandledBy(s.finished, s.handlers, w), m);
      }
    }
  }

  lemma HandledOneMore(finished: seq<Msg>, handlers: seq<nat>, m: Msg, i: nat, w: nat)
    requires |handlers| == |finished|
    ensures HandledBy(finished + [m], handlers + [i], w)
         == if w == i then HandledBy(finished, handlers, w) + [m] else HandledBy(finished, handlers, w)
  {
    assert (finished + [m])[..|finished|] == finished && (handlers + [i])[..|handlers|] == handlers;
    assert HandledBy(finished, handlers, w) + [] == HandledBy(finished, handlers, w);
  }

  lemma LeavesNow(handled: seq<Msg>, m: Msg)
    requires Terminates(handled) == 0
    ensures LeavesByTerminate(if m.kind.Terminate? then Exited else Waiting, handled + [m])
  {
    TerminatesAppend(handled, m);
    assert (handled + [m])[..|handled|] == handled;
  }

  lemma StepKeepsInv(s: Pool, step: Step)
    requires Inv(s) && Enabled(s, step)
    ensures Inv(Do(s, step))
  {
    match step
    case Post(_, _) => PostKeepsInv(s, step);
    case Close => FlowUnchanged(s, Do(s, step)); OwnUnchanged(s, Do(s, step));
    case PostTerminate(_) => PostTerminateKeepsInv(s, step);
    case Take(_) => TakeKeepsFlow(s, step); TakeKeepsCounts(s, step); TakeKeepsOwn(s, step);
    case Finish(_) => FinishKeepsFlow(s, step); FinishKeepsCounts(s, step); FinishKeepsOwn(s, step);
    case Timeout(_) =>
  }

  lemma {:induction false} RunKeepsInv(s: Pool, steps: seq<Step>)
    requires Inv(s) && IsRun(s, steps)
    ensures Inv(After(s, steps))
    decreases |steps|
  {
    if steps != [] {
      StepKeepsInv(s, steps[0]);
      RunKeepsInv(Do(s, steps[0]), steps[1..]);
    }
  }

  // ----- the overflow policies -----

  /** A log or flush that may overrun the oldest never waits; one that may not waits for room. */
  lemma PostWaitsIff(s: Pool, m: Msg)
    requires !s.closing && !m.kind.Terminate?
    ensures Enabled(s, Post(m, OverrunOldest))
    ensures Enabled(s, Post(m, Block)) <==> |s.queue| < s.cap
  {
  }

  /** How many steps of the run post into a full queue where the oldest message may be overrun. */
  ghost function Overruns(s: Pool, steps: seq<Step>): nat
    requires IsRun(s, steps)
    decreases |steps|
  {
    if steps == [] then 0
    else
      (if steps[0].Post? && steps[0].policy.OverrunOldest? && |s.queue| >= s.cap then 1 else 0)
      + Overruns(Do(s, steps[0]), steps[1..])
  }

  lemma StepLoses(s: Pool, step: Step)
    requires Enabled(s, step)
    ensures var overruns := step.Post? && step.policy.OverrunOldest? && |s.queue| >= s.cap;
      CountLost(Do(s, step).lost) == CountLost(s.lost) + if overruns then 1 else 0
  {
    assert forall last :: (s.lost + [last])[..|s.lost|] == s.lost;
  }

  /** Messages are lost by overruns alone, one by each. */
  lemma {:induction false} RunLoses(s: Pool, steps: seq<Step>)
    requires IsRun(s, steps)
    ensures CountLost(After(s, steps).lost) == CountLost(s.lost) + Overruns(s, steps)
    decreases |steps|
  {
    if steps != [] {
      StepLoses(s, steps[0]);
      RunLoses(Do(s, steps[0]), steps[1..]);
    }
  }

  lemma {:induction false} CountLostIsZero(lost: seq<bool>)
    ensures CountLost(lost) == 0 <==> forall i :: 0 <= i < |lost| ==> !lost[i]
  {
    if lost != [] {
      CountLostIsZero(lost[..|lost| - 1]);
    }
  }

  lemma {:induction false} BlockingNeverOverruns(s: Pool, steps: seq<Step>)
    requires IsRun(s, steps) && forall i :: 0 <= i < |steps| && steps[i].Post? ==> steps[i].policy.Block?
    ensures Overruns(s, steps) == 0
    decreases |steps|
  {
    if steps != [] {
      BlockingNeverOverruns(Do(s, steps[0]), steps[1..]);
    }
  }

  /** In every run of a new pool the messages lost are as many as the posts that may overrun the oldest
      and met a full queue.  If all posts block none is lost: the messages taken, in order, and the
      queue behind them are all that was posted. */
  lemma LostByOverrunsOnly(qMaxItems: nat, threadsN: nat, steps: seq<Step>)
    requires New(qMaxItems, threadsN).Built? && IsRun(New(qMaxItems, threadsN).pool, steps)
    ensures var s := After(New(qMaxItems, threadsN).pool, steps);
      && CountLost(s.lost) == Overruns(New(qMaxItems, threadsN).pool, steps)
      && ((forall i :: 0 <= i < |steps| && steps[i].Post? ==> steps[i].policy.Block?) ==>
            (forall i :: 0 <= i < |s.lost| ==> !s.lost[i]) && s.taken + s.queue == s.posted)
  {
    hide IsRun, After, Overruns, Inv;
    var first := New(qMaxItems, threadsN).pool;
    NewIsFine(qMaxItems, threadsN);
    RunLoses(first, steps);
    if forall i :: 0 <= i < |steps| && steps[i].Post? ==> steps[i].policy.Block? {
      BlockingNeverOverruns(first, steps);
      RunKeepsInv(first, steps);
      NothingLost(After(first, steps));
    }
  }

  lemma NothingLost(s: Pool)
    requires Inv(s) && CountLost(s.lost) == 0
    ensures (forall i :: 0 <= i < |s.lost| ==> !s.lost[i]) && s.taken + s.queue == s.posted
  {
    hide CountInv, OwnInv, Held, History;
    NothingLostOf(s.posted, s.lost, s.taken, s.queue);
  }

  lemma NothingLostOf(pushes: seq<Msg>, lost: seq<bool>, taken: seq<Msg>, items: seq<Msg>)
    requires History(pushes, lost, taken, items) && CountLost(lost) == 0
    ensures (forall i :: 0 <= i < |lost| ==> !lost[i]) && taken + items == pushes
  {
    hide Kept;
    CountLostIsZero(lost);
    KeptIsAll(pushes[..|lost|], lost);
    assert pushes[..|lost|] + pushes[|lost|..] == pushes;
  }

  lemma {:induction false} KeptIsAll(pushes: seq<Msg>, lost: seq<bool>)
    requires |pushes| == |lost| && forall i :: 0 <= i < |lost| ==> !lost[i]
    ensures Kept(pushes, lost) == pushes
  {
    if pushes != [] {
      KeptIsAll(pushes[..|pushes| - 1], lost[..|lost| - 1]);
    }
  }

  // ----- producers and workers at the queue -----

  /** The queue object holds what the pool says, and has the same history. */
  ghost predicate Holds(q: MpmcBlockingQueue<Msg>, s: Pool)
    reads q, q.q, q.q.v
  {
    && q.Valid() && q.q.Capacity() == s.cap && q.q.Contents() == s.queue
    && q.pushes == s.posted && q.lost == s.lost && q.taken == s.taken
  }

  /** post_async_msg_: `done` is false while a blocking post has to wait.  It is the pool's step, and the
      queue's overrun counter grows iff the post overran the oldest message. */
  method PostAsyncMsg(q: MpmcBlockingQueue<Msg>, m: Msg, policy: Overflow, ghost s: Pool) returns (done: bool)
    requires Holds(q, s) && !s.closing && !m.kind.Terminate?
    modifies q, q.q, q.q.v
    ensures done <==> policy.OverrunOldest? || |s.queue| < s.cap
    ensures done <==> Enabled(s, Post(m, policy))
    ensures Holds(q, if done then Do(s, Post(m, policy)) else s)
    ensures q.q.overrunCounter
         == old(q.q.overrunCounter) + if policy.OverrunOldest? && |s.queue| >= s.cap then 1 else 0
  {
    hide History;
    if policy.Block? {
      done := q.Enqueue(m);
    } else {
      q.EnqueueNowait(m);
      done := true;
    }
    if done {
      StepLoses(s, Post(m, policy));
    }
  }

  /** A worker's steps from waiting at the queue until it waits again or leaves. */
  ghost function Round(s: Pool, w: nat): seq<Step> {
    if s.queue == [] then [Timeout(w)] else [Take(w), Finish(w)]
  }

  lemma AfterTimeout(s: Pool, w: nat)
    requires w < |s.workers| && s.workers[w].Waiting? && s.queue == []
    ensures IsRun(s, Round(s, w)) && After(s, Round(s, w)) == s
  {
    assert Round(s, w)[1..] == [];
  }

  lemma AfterRound(s: Pool, w: nat)
    requires w < |s.workers| && s.workers[w].Waiting? && s.queue != []
    ensures IsRun(s, Round(s, w))
    ensures var t := After(s, Round(s, w));
      && t.queue == s.queue[1..] && t.taken == s.taken + [s.queue[0]] && t.lost == s.lost + [false]
      && t.posted == s.posted && t.cap == s.cap && |t.workers| == |s.workers|
      && t.workers[w] == if s.queue[0].kind.Terminate? then Exited else Waiting
  {
    hide IsRun, After;
    AfterTwo(s, Take(w), Finish(w));
  }

  lemma AfterTwo(s: Pool, first: Step, second: Step)
    requires Enabled(s, first) && Enabled(Do(s, first), second)
    ensures IsRun(s, [first, second]) && After(s, [first, second]) == Do(Do(s, first), second)
  {
    hide Enabled, Do;
    assert [second][1..] == [] && [first, second][1..] == [second];
    assert IsRun(Do(s, first), [second]) && After(Do(s, first), [second]) == Do(Do(s, first), second);
  }

  /** process_next_msg_: the pool's steps of worker `w` from taking a message, or waiting in vain, until
      it waits again or leaves; `active` is false iff it leaves. */
  method ProcessNextMsg(q: MpmcBlockingQueue<Msg>, ghost s: Pool, ghost w: nat) returns (active: bool)
    requires Holds(q, s) && w < |s.workers| && s.workers[w].Waiting?
    modifies q, q.q
    ensures IsRun(s, Round(s, w)) && Holds(q, After(s, Round(s, w)))
    ensures |After(s, Round(s, w)).workers| == |s.workers|
    ensures After(s, Round(s, w)).workers[w] == if active then Waiting else Exited
    ensures active <==> s.queue == [] || !s.queue[0].kind.Terminate?
  {
    hide History, IsRun, After, Round;
    var dequeued, m := q.DequeueFor(Msg(0, Log));
    if !dequeued {
      AfterTimeout(s, w);
      return true;
    }
    AfterRound(s, w);
    match m.kind
    case Log => active := true;
    case Flush => active := true;
    case Terminate => active := false;
  }

  // ----- safety -----

  ghost predicate AllExited(s: Pool) {
    forall i :: 0 <= i < |s.workers| ==> s.workers[i].Exited?
  }

  lemma {:induction false} RunKeepsWorkers(s: Pool, steps: seq<Step>)
    requires IsRun(s, steps)
    ensures |After(s, steps).workers| == |s.workers|
    decreases |steps|
  {
    if steps != [] {
      RunKeepsWorkers(Do(s, steps[0]), steps[1..]);
    }
  }

  /** In every reachable state where all workers have exited, the queue is empty, all terminates
      have been posted, each worker has handled exactly one, as its last message, and every message ever
      posted was handled to the end or is one of the overruns. */
  lemma ShutdownIsClean(qMaxItems: nat, threadsN: nat, steps: seq<Step>)
    requires New(qMaxItems, threadsN).Built? && IsRun(New(qMaxItems, threadsN).pool, steps)
    requires AllExited(After(New(qMaxItems, threadsN).pool, steps))
    ensures var s := After(New(qMaxItems, threadsN).pool, steps);
      && s.closing && s.unposted == 0 && s.queue == [] && Terminates(s.finished) == threadsN
      && |s.handlers| == |s.finished|
      && (forall w :: 0 <= w < threadsN ==> LeavesByTerminate(Exited, HandledBy(s.finished, s.handlers, w)))
      && |s.lost| == |s.posted|
      && multiset(s.finished) == multiset(Kept(s.posted, s.lost))
      && |s.posted| == |s.finished| + CountLost(s.lost)
      && forall i :: 0 <= i < |s.lost| && s.lost[i] ==> !s.posted[i].kind.Terminate?
  {
    hide IsRun, After, Inv, AllExited;
    NewIsFine(qMaxItems, threadsN);
    RunKeepsInv(New(qMaxItems, threadsN).pool, steps);
    RunKeepsWorkers(New(qMaxItems, threadsN).pool, steps);
    ExitedIsClean(After(New(qMaxItems, threadsN).pool, steps));
  }

  lemma ExitedIsClean(s: Pool)
    requires Inv(s) && AllExited(s)
    ensures s.closing && s.unposted == 0 && s.queue == [] && Terminates(s.finished) == |s.workers|
    ensures |s.handlers| == |s.finished|
    ensures forall w :: 0 <= w < |s.workers| ==> LeavesByTerminate(Exited, HandledBy(s.finished, s.handlers, w))
    ensures |s.lost| == |s.posted| && multiset(s.finished) == multiset(Kept(s.posted, s.lost))
    ensures |s.posted| == |s.finished| + CountLost(s.lost)
    ensures forall i :: 0 <= i < |s.lost| && s.lost[i] ==> !s.posted[i].kind.Terminate?
  {
    CountsOfWorkers(s.workers);
    AllTerminates(s.queue);
    assert s.posted[..|s.lost|] == s.posted;
    Conservation(s.posted, s.lost, s.taken, s.queue);
    SameMultisetSameLength(s.taken, s.finished);
  }

  lemma SameMultisetSameLength(a: seq<Msg>, b: seq<Msg>)
    requires multiset(a) == multiset(b)
    ensures |a| == |b|
  {
    assert |multiset(a)| == |a| && |multiset(b)| == |b|;
  }

  // ----- progress -----

  predicate IsProgress(step: Step) {
    step.PostTerminate? || step.Take? || step.Finish?
  }

  function Remaining(s: Pool): nat {
    3 * s.unposted + 2 * |s.queue| + Busy(s.workers)
  }

  /** While closing, every step but a timeout brings the end nearer. */
  lemma ProgressDecreases(s: Pool, step: Step)
    requires Inv(s) && s.closing && Enabled(s, step)
    ensures step.Timeout? || IsProgress(step)
    ensures IsProgress(step) ==> Remaining(Do(s, step)) < Remaining(s)
    ensures step.Timeout? ==> Do(s, step) == s
    ensures Do(s, step).closing
  {
    match step
    case PostTerminate(_) =>
    case Take(w) => UpdateCounts(s.workers, w, Handling(s.queue[0]));
    case Finish(w) => UpdateCounts(s.workers, w, if s.workers[w].msg.kind.Terminate? then Exited else Waiting);
    case Timeout(_) =>
  }

  /** With room for one message at least, a closing pool that is not done can always make progress. */
  lemma ProgressIsPossible(s: Pool)
    requires Inv(s) && s.closing && s.cap > 0 && !AllExited(s)
    ensures exists step :: IsProgress(step) && Enabled(s, step)
  {
    var i :| 0 <= i < |s.workers| && !s.workers[i].Exited?;
    CountsOfWorkers(s.workers);
    NoTerminates(s.queue);
    if s.workers[i].Handling? {
      assert Enabled(s, Finish(i));
    } else if s.queue != [] {
      assert Enabled(s, Take(i));
    } else {
      assert Alive(s.workers[i]);
      assert Enabled(s, PostTerminate(0));
    }
  }

  /** So the destructor's joins return: no run of a closing pool has more progress steps than `Remaining`. */
  lemma {:induction false} ShutdownIsBounded(s: Pool, steps: seq<Step>)
    requires Inv(s) && s.closing && IsRun(s, steps)
    requires forall i :: 0 <= i < |steps| ==> !steps[i].Timeout?
    ensures |steps| <= Remaining(s)
    decreases |steps|
  {
    hide Inv, Remaining, Do, Enabled;
    if steps != [] {
      ProgressDecreases(s, steps[0]);
      StepKeepsInv(s, steps[0]);
      ShutdownIsBounded(Do(s, steps[0]), steps[1..]);
    }
  }

  /** Without room for a message the destructor waits forever: in no run does it post anything, or do
      all workers exit. */
  lemma {:induction false} NoCapacityNoShutdown(s: Pool, steps: seq<Step>)
    requires Inv(s) && s.closing && s.cap == 0 && s.unposted > 0 && IsRun(s, steps)
    ensures After(s, steps).unposted == s.unposted && !AllExited(After(s, steps))
    decreases |steps|
  {
    if steps == [] {
      CountsOfWorkers(s.workers);
    } else {
      StepKeepsInv(s, steps[0]);
      NoCapacityNoShutdown(Do(s, steps[0]), steps[1..]);
    }
  }
}
