/** The logging thread pool: producers, N workers and a shutdown, as atomic steps under the
    queue's mutex. */
module ThreadPool {
  import opened CircularQueue

  datatype Msg = Log(id: nat) | Flush(id: nat) | Terminate

  datatype Policy = Block | OverrunOldest

  /** How an item left the queue. */
  datatype Removal = Popped(msg: Msg, worker: nat) | Overrun(msg: Msg)

  /** `exited[w]` tells whether worker `w` has left its loop; `pushed` and `removed` record all
      traffic through the queue, in order; `posted` counts the terminate messages posted. */
  datatype Pool = Pool(cap: nat, queue: seq<Msg>, exited: seq<bool>, stopping: bool, posted: nat,
                       pushed: seq<Msg>, removed: seq<Removal>, overruns: nat)

  datatype Created = Ready(pool: Pool) | InvalidThreads

  /** The constructor. */
  function Create(cap: nat, threads: nat): Created {
    if threads == 0 || threads > 1000 then InvalidThreads
    else Ready(Pool(cap, [], seq(threads, _ => false), false, 0, [], [], 0))
  }

  /** A push under the lock, with the overrun it may cause. */
  function Push(p: Pool, m: Msg): Pool
    requires |p.queue| <= p.cap
  {
    var q := p.(queue := Pushed(p.queue, p.cap, m), pushed := p.pushed + [m]);
    if |p.queue| < p.cap then q
    else q.(removed := p.removed + [Overrun((p.queue + [m])[0])], overruns := p.overruns + 1)
  }

  /** A pop by worker `w`, which leaves its loop on a terminate message. */
  function Pop(p: Pool, w: nat): Pool
    requires p.queue != [] && w < |p.exited|
  {
    var m := p.queue[0];
    p.(queue := p.queue[1..], removed := p.removed + [Popped(m, w)],
       exited := if m.Terminate? then p.exited[w := true] else p.exited)
  }

  datatype Event = Post(m: Msg, policy: Policy) | Stop | PostTerminate | Next(worker: nat) | TimeOut(worker: nat)

  /** Whether a step can be taken: a blocking post waits for room, a worker for an item, and
      nobody posts once the pool is being destroyed. */
  ghost predicate Enabled(p: Pool, e: Event) {
    && |p.queue| <= p.cap
    && match e
       case Post(m, policy) => !p.stopping && !m.Terminate? && (policy == Block ==> |p.queue| < p.cap)
       case Stop => !p.stopping
       case PostTerminate => p.stopping && p.posted < |p.exited| && |p.queue| < p.cap
       case Next(w) => w < |p.exited| && !p.exited[w] && p.queue != []
       case TimeOut(w) => w < |p.exited| && !p.exited[w] && p.queue == []
  }

  ghost function Step(p: Pool, e: Event): Pool
    requires Enabled(p, e)
  {
    match e
    case Post(m, _) => Push(p, m)
    case Stop => p.(stopping := true)
    case PostTerminate => Push(p, Terminate).(posted := p.posted + 1)
    case Next(w) => Pop(p, w)
    case TimeOut(_) => p
  }

  ghost predicate Runs(p: Pool, es: seq<Event>, p': Pool)
    decreases es
  {
    if es == [] then p == p' else Enabled(p, es[0]) && Runs(Step(p, es[0]), es[1..], p')
  }

  // ----- the invariant -----

  function Messages(rs: seq<Removal>): (ms: seq<Msg>)
    ensures |ms| == |rs|
  {
    if rs == [] then [] else [rs[0].msg] + Messages(rs[1..])
  }

  function Overruns(rs: seq<Removal>): nat {
    if rs == [] then 0 else (if rs[0].Overrun? then 1 else 0) + Overruns(rs[1..])
  }

  /** How many terminate messages worker `w` took. */
  function Taken(rs: seq<Removal>, w: nat): nat {
    if rs == [] then 0 else (if rs[0] == Popped(Terminate, w) then 1 else 0) + Taken(rs[1..], w)
  }

  function Terminates(ms: seq<Msg>): nat {
    if ms == [] then 0 else (if ms[0].Terminate? then 1 else 0) + Terminates(ms[1..])
  }

  function Gone(exited: seq<bool>): nat {
    if exited == [] then 0 else (if exited[0] then 1 else 0) + Gone(exited[1..])
  }

  /** Nothing is lost, doubled or reordered: what was pushed is what was popped or overrun,
      then what is queued. */
  ghost predicate Conserved(p: Pool) {
    p.pushed == Messages(p.removed) + p.queue && p.overruns == Overruns(p.removed) && |p.queue| <= p.cap
  }

  /** The terminate messages come last, and none is overrun. */
  ghost predicate TerminatesLast(p: Pool) {
    && p.posted <= |p.pushed| && p.posted <= |p.exited| && (!p.stopping ==> p.posted == 0)
    && (forall i :: 0 <= i < |p.pushed| ==> (p.pushed[i].Terminate? <==> |p.pushed| - p.posted <= i))
  }

  /** Each worker that has left its loop took exactly one terminate message. */
  ghost predicate OneEach(p: Pool) {
    && (forall w :: 0 <= w < |p.exited| ==> Taken(p.removed, w) == if p.exited[w] then 1 else 0)
    && Gone(p.exited) == Terminates(Messages(p.removed))
  }

  ghost predicate Inv(p: Pool) { Conserved(p) && TerminatesLast(p) && OneEach(p) && |p.exited| > 0 }

  lemma {:induction false} RemovedMore(rs: seq<Removal>, r: Removal)
    ensures Messages(rs + [r]) == Messages(rs) + [r.msg]
    ensures Overruns(rs + [r]) == Overruns(rs) + if r.Overrun? then 1 else 0
  {
    if rs != [] {
      RemovedMore(rs[1..], r);
      assert (rs + [r])[1..] == rs[1..] + [r];
    }
  }

  lemma {:induction false} TakenMore(rs: seq<Removal>, r: Removal, w: nat)
    ensures Taken(rs + [r], w) == Taken(rs, w) + if r == Popped(Terminate, w) then 1 else 0
  {
    if rs != [] {
      TakenMore(rs[1..], r, w);
      assert (rs + [r])[1..] == rs[1..] + [r];
    }
  }

  lemma {:induction false} TerminatesConcat(a: seq<Msg>, b: seq<Msg>)
    ensures Terminates(a + b) == Terminates(a) + Terminates(b)
  {
    if a == [] {
      assert a + b == b;
    } else {
      TerminatesConcat(a[1..], b);
      assert (a + b)[1..] == a[1..] + b;
    }
  }

  lemma {:induction false} GoneMore(exited: seq<bool>, w: nat)
    requires w < |exited| && !exited[w]
    ensures Gone(exited[w := true]) == Gone(exited) + 1
  {
    if w > 0 {
      GoneMore(exited[1..], w - 1);
      assert exited[w := true][1..] == exited[1..][w - 1 := true];
    }
  }

  lemma PushKeeps(p: Pool, m: Msg)
    requires Conserved(p) && OneEach(p) && (|p.queue| < p.cap || (!m.Terminate? && Terminates(p.pushed) == 0))
    ensures Conserved(Push(p, m)) && OneEach(Push(p, m))
  {
    if |p.queue| == p.cap {
      var q := p.queue + [m];
      RemovedMore(p.removed, Overrun(q[0]));
      TerminatesConcat(Messages(p.removed), p.queue);
      TerminatesConcat(p.queue, [m]);
      assert q == [q[0]] + q[1..];
      TerminatesConcat([q[0]], q[1..]);
      TerminatesConcat(Messages(p.removed), [q[0]]);
      assert Push(p, m).pushed == Messages(p.removed) + ([q[0]] + q[1..]);
      forall w | 0 <= w < |p.exited|
        ensures Taken(Push(p, m).removed, w) == Taken(p.removed, w)
      {
        TakenMore(p.removed, Overrun(q[0]), w);
      }
    }
  }

  lemma PopKeeps(p: Pool, w: nat)
    requires Conserved(p) && OneEach(p) && w < |p.exited| && !p.exited[w] && p.queue != []
    ensures Conserved(Pop(p, w)) && OneEach(Pop(p, w))
  {
    var m, p' := p.queue[0], Pop(p, w);
    RemovedMore(p.removed, Popped(m, w));
    TerminatesConcat(Messages(p.removed), [m]);
    assert p.queue == [m] + p.queue[1..];
    forall u | 0 <= u < |p.exited|
      ensures Taken(p'.removed, u) == if p'.exited[u] then 1 else 0
    {
      TakenMore(p.removed, Popped(m, w), u);
    }
    if m.Terminate? {
      GoneMore(p.exited, w);
    }
  }

  lemma {:induction false} NoTerminates(ms: seq<Msg>)
    requires forall i :: 0 <= i < |ms| ==> !ms[i].Terminate?
    ensures Terminates(ms) == 0
  {
    if ms != [] {
      NoTerminates(ms[1..]);
    }
  }

  lemma StepKeeps(p: Pool, e: Event)
    requires Inv(p) && Enabled(p, e)
    ensures Inv(Step(p, e))
  {
    match e
    case Post(m, _) =>
      NoTerminates(p.pushed);
      PushKeeps(p, m);
    case PostTerminate =>
      PushKeeps(p, Terminate);
    case Next(w) =>
      PopKeeps(p, w);
    case _ =>
  }

  lemma {:induction false} RunKeeps(p: Pool, es: seq<Event>, p': Pool)
    requires Inv(p) && Runs(p, es, p')
    ensures Inv(p') && |p'.exited| == |p.exited|
    decreases es
  {
    if es != [] {
      StepKeeps(p, es[0]);
      RunKeeps(Step(p, es[0]), es[1..], p');
    }
  }

  lemma {:induction false} NoneGone(exited: seq<bool>)
    requires forall i :: 0 <= i < |exited| ==> !exited[i]
    ensures Gone(exited) == 0
  {
    if exited != [] {
      NoneGone(exited[1..]);
    }
  }

  /** In every interleaving of producers, workers and the shutdown: pushed = popped or overrun,
      in order, then queued; and a worker leaves only with a terminate message of its own. */
  lemma EveryRun(cap: nat, threads: nat, es: seq<Event>, p: Pool)
    requires Create(cap, threads).Ready? && Runs(Create(cap, threads).pool, es, p)
    ensures Conserved(p) && OneEach(p) && TerminatesLast(p) && |p.exited| == threads > 0
  {
    var start := Create(cap, threads).pool;
    NoneGone(start.exited);
    RunKeeps(start, es, p);
  }

  /** The constructor accepts one to a thousand threads, all running, over an empty queue. */
  lemma ReadyExactly(cap: nat, threads: nat)
    ensures Create(cap, threads).Ready? <==> 1 <= threads <= 1000
    ensures Create(cap, threads).Ready? ==>
              var p := Create(cap, threads).pool;
              p.cap == cap && p.queue == [] && |p.exited| == threads && forall w :: 0 <= w < threads ==> !p.exited[w]
  {
  }

  // ----- the two policies -----

  /** A blocking post waits exactly while the queue is full; the other policy never waits. */
  lemma WhoWaits(p: Pool, m: Msg)
    requires Inv(p) && !p.stopping && !m.Terminate?
    ensures Enabled(p, Post(m, Block)) <==> |p.queue| < p.cap
    ensures Enabled(p, Post(m, OverrunOldest))
  {
  }

  lemma {:induction false} BlockedPostsKeep(p: Pool, es: seq<Event>, p': Pool)
    requires Runs(p, es, p') && forall i :: 0 <= i < |es| && es[i].Post? ==> es[i].policy == Block
    ensures p'.overruns == p.overruns
    decreases es
  {
    if es != [] {
      BlockedPostsKeep(Step(p, es[0]), es[1..], p');
    }
  }

  lemma {:induction false} NoOverruns(rs: seq<Removal>)
    requires Overruns(rs) == 0
    ensures forall i :: 0 <= i < |rs| ==> rs[i].Popped?
  {
    if rs != [] {
      NoOverruns(rs[1..]);
    }
  }

  /** If all posts block, nothing is ever thrown away: every message pushed was taken by a worker
      or is still queued, in order. */
  lemma BlockingLosesNothing(cap: nat, threads: nat, es: seq<Event>, p: Pool)
    requires Create(cap, threads).Ready? && Runs(Create(cap, threads).pool, es, p)
    requires forall i :: 0 <= i < |es| && es[i].Post? ==> es[i].policy == Block
    ensures p.overruns == 0 && (forall i :: 0 <= i < |p.removed| ==> p.removed[i].Popped?)
    ensures p.pushed == Messages(p.removed) + p.queue
  {
    EveryRun(cap, threads, es, p);
    BlockedPostsKeep(Create(cap, threads).pool, es, p);
    NoOverruns(p.removed);
  }

  /** In every reachable state that is not stopping a post that may overrun goes through at once:
      it throws the oldest message away exactly if the queue is full. */
  lemma OverrunningNeverWaits(cap: nat, threads: nat, es: seq<Event>, p: Pool, m: Msg)
    requires Create(cap, threads).Ready? && Runs(Create(cap, threads).pool, es, p) && !p.stopping && !m.Terminate?
    ensures Enabled(p, Post(m, OverrunOldest))
    ensures var p' := Step(p, Post(m, OverrunOldest));
            if |p.queue| < p.cap then p'.queue == p.queue + [m] && p'.removed == p.removed
            else p'.overruns == p.overruns + 1 && [p'.removed[|p.removed|].msg] + p'.queue == p.queue + [m]
  {
    EveryRun(cap, threads, es, p);
  }

  // ----- shutdown -----

  lemma {:induction false} AllGone(exited: seq<bool>)
    ensures Gone(exited) <= |exited|
    ensures Gone(exited) == |exited| <==> forall w :: 0 <= w < |exited| ==> exited[w]
  {
    if exited != [] {
      AllGone(exited[1..]);
      assert exited[0] && (forall w :: 0 <= w < |exited[1..]| ==> exited[1..][w]) ==> forall w :: 0 <= w < |exited| ==> exited[w] by {
        forall w | 0 <= w < |exited| && exited[0] && forall u :: 0 <= u < |exited[1..]| ==> exited[1..][u]
          ensures exited[w]
        {
          if w > 0 {
            assert exited[w] == exited[1..][w - 1];
          }
        }
      }
    }
  }

  lemma {:induction false} AllTerminates(ms: seq<Msg>)
    requires forall i :: 0 <= i < |ms| ==> ms[i].Terminate?
    ensures Terminates(ms) == |ms|
  {
    if ms != [] {
      AllTerminates(ms[1..]);
    }
  }

  /** Terminate messages posted are those that made a worker leave or that are queued. */
  lemma PostedCount(p: Pool)
    requires Inv(p)
    ensures p.posted == Gone(p.exited) + Terminates(p.queue)
  {
    TerminatesConcat(Messages(p.removed), p.queue);
    var k := |p.pushed| - p.posted;
    assert p.pushed == p.pushed[..k] + p.pushed[k..];
    TerminatesConcat(p.pushed[..k], p.pushed[k..]);
    NoTerminates(p.pushed[..k]);
    AllTerminates(p.pushed[k..]);
  }

  /** In every run, once all workers have left: the queue is empty, each took exactly one of exactly
      as many terminate messages, and everything ever pushed was dequeued or counted as overrun. */
  lemma AllWorkersGone(cap: nat, threads: nat, es: seq<Event>, p: Pool)
    requires Create(cap, threads).Ready? && Runs(Create(cap, threads).pool, es, p) && Finished(p)
    ensures p.stopping && p.posted == threads && p.queue == [] && p.pushed == Messages(p.removed)
    ensures |p.exited| == threads && p.overruns == Overruns(p.removed)
    ensures forall w :: 0 <= w < threads ==> Taken(p.removed, w) == 1
  {
    EveryRun(cap, threads, es, p);
    GoneLeavesNothing(p);
  }

  lemma GoneLeavesNothing(p: Pool)
    requires Inv(p) && Finished(p)
    ensures p.stopping && p.posted == |p.exited| && p.queue == [] && p.pushed == Messages(p.removed)
    ensures forall w :: 0 <= w < |p.exited| ==> Taken(p.removed, w) == 1
  {
    AllGone(p.exited);
    PostedCount(p);
    if p.queue != [] {
      var last := p.queue[|p.queue| - 1];
      assert last == p.pushed[|p.pushed| - 1];
      assert p.queue == p.queue[..|p.queue| - 1] + [last];
      TerminatesConcat(p.queue[..|p.queue| - 1], [last]);
    }
  }

  ghost predicate Finished(p: Pool) { forall w :: 0 <= w < |p.exited| ==> p.exited[w] }

  /** Work left in a shutdown: terminate messages to post and items to take. */
  function Left(p: Pool): int { 2 * (|p.exited| - p.posted) + |p.queue| }

  /** Every step of a shutdown but a timeout brings it nearer to its end. */
  lemma ShutdownFalls(p: Pool, e: Event)
    requires Inv(p) && p.stopping && Enabled(p, e) && !e.TimeOut?
    ensures Left(Step(p, e)) == Left(p) - 1 && Step(p, e).stopping
  {
  }

  /** A shutdown that is not over can always take such a step, if the queue has any room. */
  lemma {:induction false} ShutdownGoesOn(p: Pool) returns (e: Event)
    requires Inv(p) && p.stopping && p.cap >= 1 && !Finished(p)
    ensures Enabled(p, e) && !e.TimeOut?
  {
    AllGone(p.exited);
    PostedCount(p);
    var w :| 0 <= w < |p.exited| && !p.exited[w];
    e := if p.queue != [] then Next(w) else PostTerminate;
  }

  /** Whatever the schedule has done so far, the shutdown can be brought to its end. */
  lemma {:induction false} ShutdownEnds(p: Pool) returns (es: seq<Event>, p': Pool)
    requires Inv(p) && p.stopping && p.cap >= 1
    ensures Runs(p, es, p') && Inv(p') && Finished(p') && |es| <= Left(p)
    decreases Left(p)
  {
    if Finished(p) {
      es, p' := [], p;
    } else {
      var e := ShutdownGoesOn(p);
      ShutdownFalls(p, e);
      StepKeeps(p, e);
      var rest;
      rest, p' := ShutdownEnds(Step(p, e));
      es := [e] + rest;
    }
  }

  /** With room for no item at all no shutdown ever finishes. */
  lemma {:induction false} ZeroCapacityHangs(p: Pool, es: seq<Event>, p': Pool)
    requires Inv(p) && p.cap == 0 && p.posted == 0 && Runs(p, es, p')
    ensures !Finished(p') && p'.posted == 0
    decreases es
  {
    if es == [] {
      AllGone(p.exited);
      PostedCount(p);
    } else {
      StepKeeps(p, es[0]);
      ZeroCapacityHangs(Step(p, es[0]), es[1..], p');
    }
  }

  /** Some run from here lets all workers leave. */
  ghost predicate CanFinish(p: Pool) { exists es, p' :: Runs(p, es, p') && Finished(p') }

  /** A pool can be shut down exactly when its queue has room for an item. */
  lemma ShutdownPossibleIff(cap: nat, threads: nat)
    requires Create(cap, threads).Ready?
    ensures CanFinish(Create(cap, threads).pool) <==> cap >= 1
  {
    var start := Create(cap, threads).pool;
    NoneGone(start.exited);
    assert Inv(start);
    if cap == 0 {
      forall es, p | Runs(start, es, p)
        ensures !Finished(p)
      {
        ZeroCapacityHangs(start, es, p);
      }
    } else {
      StepKeeps(start, Stop);
      var es, p := ShutdownEnds(Step(start, Stop));
      RunCons(start, Stop, es, p);
    }
  }

  lemma RunCons(p: Pool, e: Event, es: seq<Event>, p': Pool)
    requires Enabled(p, e) && Runs(Step(p, e), es, p')
    ensures Runs(p, [e] + es, p')
  {
    assert ([e] + es)[1..] == es;
  }

  // ----- the pool on its queue -----

  /** `thread_pool` with its `mpmc_blocking_queue`; each method is one critical section. */
  class Shared {
    const q: CircularQ<Msg>
    ghost var now: Pool

    ghost predicate Valid()
      reads this, q, q.v
    {
      q.Valid() && now.queue == q.Items() && now.cap == q.Capacity() && now.overruns == q.overruns && Inv(now)
    }

    constructor (cap: nat, threads: nat)
      requires Create(cap, threads).Ready?
      ensures Valid() && now == Create(cap, threads).pool && fresh(q) && fresh(q.v)
    {
      q := new CircularQ<Msg>(cap);
      now := Create(cap, threads).pool;
      new;
      NoneGone(now.exited);
    }

    /** `post_async_msg_`: `false` means the caller has to wait. */
    method PostAsync(m: Msg, policy: Policy) returns (done: bool)
      requires Valid() && !now.stopping && !m.Terminate?
      modifies this`now, q`head, q`tail, q`overruns, q.v
      ensures Valid() && (done <==> old(Enabled(now, Post(m, policy))))
      ensures now == if done then Push(old(now), m) else old(now)
    {
      if policy == Block {
        var full := q.Full();
        if full {
          return false;
        }
      }
      StepKeeps(now, Post(m, policy));
      now := Step(now, Post(m, policy));
      q.PushBack(m);
      return true;
    }

    /** One `terminate` of the destructor: `false` means it has to wait. */
    method PostTerminateMsg() returns (done: bool)
      requires Valid() && now.stopping && now.posted < |now.exited|
      modifies this`now, q`head, q`tail, q`overruns, q.v
      ensures Valid() && (done <==> old(Enabled(now, PostTerminate)))
      ensures now == if done then Push(old(now), Terminate).(posted := old(now.posted) + 1) else old(now)
    {
      var full := q.Full();
      if full {
        return false;
      }
      StepKeeps(now, PostTerminate);
      now := Step(now, PostTerminate);
      q.PushBack(Terminate);
      return true;
    }

    /** `process_next_msg_` of worker `w`: whether its loop goes on. */
    method ProcessNext(w: nat) returns (again: bool)
      requires Valid() && w < |now.exited| && !now.exited[w]
      modifies this`now, q`head
      ensures Valid() && now == if old(now.queue) == [] then old(now) else Pop(old(now), w)
      ensures |now.exited| == old(|now.exited|) && again == !now.exited[w]
    {
      var none := q.Empty();
      if none {
        return true;
      }
      StepKeeps(now, Next(w));
      now := Step(now, Next(w));
      var m := q.PopFront();
      again := !m.Terminate?;
    }
  }
}
