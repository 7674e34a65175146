/** What holds of every interleaving of the thread pool's steps. */
module ThreadPoolRuns {
  import opened Basics
  import opened ThreadPool

  /** The pool after the steps, if each of them can be taken. */
  ghost function After(s: Pool, steps: seq<Step>): Option<Pool> {
    if steps == [] then Some(s)
    else match After(s, steps[..|steps| - 1])
      case None => None
      case Some(p) => if Enabled(p, steps[|steps| - 1]) then Some(Next(p, steps[|steps| - 1])) else None
  }

  ghost predicate Reaches(s: Pool, d: Pool) {
    exists steps: seq<Step> :: After(s, steps) == Some(d)
  }

  lemma ReachesSelf(s: Pool)
    ensures Reaches(s, s)
  {
    assert After(s, []) == Some(s);
  }

  lemma ReachesNext(s: Pool, d: Pool, a: Step)
    requires Reaches(s, d) && Enabled(d, a)
    ensures Reaches(s, Next(d, a))
  {
    var steps: seq<Step> :| After(s, steps) == Some(d);
    assert (steps + [a])[..|steps|] == steps;
    assert After(s, steps + [a]) == Some(Next(d, a));
  }

  lemma {:induction false} RunInv(s: Pool, steps: seq<Step>)
    requires Inv(s) && After(s, steps).Some?
    ensures Inv(After(s, steps).value) && Stays(s, After(s, steps).value)
    decreases |steps|
  {
    if steps != [] {
      var before := steps[..|steps| - 1];
      RunInv(s, before);
      InvNext(After(s, before).value, steps[|steps| - 1]);
      StaysNext(After(s, before).value, steps[|steps| - 1]);
    }
  }

  lemma ReachesInv(s: Pool, d: Pool)
    requires Inv(s) && Reaches(s, d)
    ensures Inv(d) && Stays(s, d)
  {
    var steps: seq<Step> :| After(s, steps) == Some(d);
    RunInv(s, steps);
  }

  lemma ReachableInv(n: nat, s: Pool)
    requires Reaches(Start(n), s)
    ensures Inv(s)
  {
    InvStart(n);
    ReachesInv(Start(n), s);
  }

  /** Conservation over every interleaving, with or without a stop: each task ever pushed is in exactly one of the
      queue, the hands of one worker, the finished tasks and the discarded ones. */
  lemma TasksConserved(n: nat, s: Pool, t: Task)
    requires Reaches(Start(n), s)
    ensures Places(s, t) == if t in s.pushers then 1 else 0
  {
    ReachableInv(n, s);
  }

  /** No lost wakeup over every interleaving, with or without a stop: while a worker sleeps, there is for every
      queued task an idle worker about to look at the queue or a pusher about to notify. */
  lemma NoWakeupLost(n: nat, s: Pool)
    requires Reaches(Start(n), s)
    ensures WorkConserving(s)
  {
    ReachableInv(n, s);
  }

  // ----- what stop(true) runs

  /** After stop(true) has joined the workers, a task that was sure to be run when it began has run exactly once, if
      and only if the pool has a worker at all; then it is neither queued nor discarded. */
  lemma DrainComplete(n: nat, s: Pool, t: Task)
    requires Reaches(Start(n), s) && !s.isStop && s.stopper in {Draining, Stopped} && t in s.early
    ensures multiset(s.ran)[t] == 1 <==> s.workers != []
    ensures s.workers != [] ==> t !in s.queue && t !in s.discarded
  {
    ReachableInv(n, s);
    Drained(s, t);
  }

  lemma Drained(s: Pool, t: Task)
    requires Inv(s) && !s.isStop && s.stopper in {Draining, Stopped} && t in s.early
    ensures multiset(s.ran)[t] == 1 <==> s.workers != []
    ensures s.workers != [] ==> t !in s.queue && t !in s.discarded
  {
    SumBound(s.workers, Holder(t), 0);
    assert Places(s, t) == 1;
    if s.workers != [] { assert AllParting(s.workers); }
  }

  /** Every way in which a stop(true) that begins now can end has run the task exactly once. */
  ghost predicate AlwaysRuns(s: Pool, t: Task)
    requires Enabled(s, BeginStopWait)
  {
    forall d | Reaches(Next(s, BeginStopWait), d) && d.stopper == Stopped :: multiset(d.ran)[t] == 1
  }

  /** Exactly when stop(true) keeps the promise to run a task that is in the queue when it is called: there is a
      worker, and if the only worker has just found the queue empty, the push of the task has gone on to notify. So two
      workers are enough, and so is one if the push has returned. */
  lemma StopRunsQueued(n: nat, s: Pool, t: Task)
    requires Reaches(Start(n), s) && Enabled(s, BeginStopWait) && t in s.queue
    ensures t in s.pushers
    ensures AlwaysRuns(s, t) <==> s.workers != [] && (s.workers == [SawEmpty] ==> s.pushers[t] != Enqueued)
  {
    ReachableInv(n, s);
    assert Places(s, t) >= 1;
    var s' := Next(s, BeginStopWait);
    InvNext(s, BeginStopWait);
    if s.workers != [] && (s.workers == [SawEmpty] ==> s.pushers[t] != Enqueued) {
      forall d | Reaches(s', d) && d.stopper == Stopped ensures multiset(d.ran)[t] == 1 {
        ReachesInv(s', d);
        Drained(d, t);
      }
    } else {
      ReachesSelf(s');
      var d;
      if s.workers == [] { d := StopWithoutWorkers(s', s'); } else { d := StopBehindWorker(s', s'); }
      assert multiset(s.ran)[t] == 0;
    }
  }

  /** With two workers, stop(true) always runs whatever is in the queue when it is called. */
  lemma TwoWorkersSuffice(n: nat, s: Pool, t: Task)
    requires Reaches(Start(n), s) && Enabled(s, BeginStopWait) && t in s.queue && |s.workers| >= 2
    ensures AlwaysRuns(s, t)
  {
    StopRunsQueued(n, s, t);
  }

  // ----- a pool at work comes to rest

  /** The steps of those already at work. */
  ghost function Progressing(steps: seq<Step>): nat {
    if steps == [] then 0 else Progressing(steps[..|steps| - 1]) + if Progress(steps[|steps| - 1]) then 1 else 0
  }

  /** 14 for each new task, 5 for each spurious wakeup and 7 for each new worker. */
  ghost function Costs(steps: seq<Step>): nat {
    if steps == [] then 0 else Costs(steps[..|steps| - 1]) + Cost(steps[|steps| - 1])
  }

  lemma {:induction false} EffortRun(s: Pool, steps: seq<Step>)
    requires After(s, steps).Some? && After(s, steps).value.stopper == Outside
    ensures s.stopper == Outside
    ensures Progressing(steps) + Effort(After(s, steps).value) <= Effort(s) + Costs(steps)
    decreases |steps|
  {
    if steps != [] {
      var before := steps[..|steps| - 1];
      StaysNext(After(s, before).value, steps[|steps| - 1]);
      EffortRun(s, before);
      EffortNext(After(s, before).value, steps[|steps| - 1]);
    }
  }

  /** In every interleaving before a stop begins, workers and pushers together take boundedly many steps for what there
      is to do: a pool to which nothing is added comes to rest. */
  lemma PoolComesToRest(n: nat, s: Pool, steps: seq<Step>)
    requires Reaches(Start(n), s) && After(s, steps).Some? && After(s, steps).value.stopper == Outside
    ensures Progressing(steps) <= 6 * |s.queue| + 10 * |s.workers| + 8 * |Unreturned(s)| + 3 + Costs(steps)
  {
    EffortRun(s, steps);
    EffortBound(s);
  }

  lemma EffortBound(s: Pool)
    ensures Effort(s) <= 6 * |s.queue| + 10 * |s.workers| + 8 * |Unreturned(s)| + 3
  {
    SumBound(s.workers, Rank, 10);
    SubsetSize(Pending(s), Unreturned(s));
    SubsetSize(JustEnqueued(s), Unreturned(s));
  }

  lemma SubsetSize(a: set<Task>, b: set<Task>)
    requires a <= b
    ensures |a| <= |b|
  {
    if a != {} {
      var t :| t in a;
      SubsetSize(a - {t}, b - {t});
    }
  }

  /** When a pool with a worker has come to rest, every task ever pushed has run exactly once. */
  lemma RestMeansDone(n: nat, s: Pool, t: Task)
    requires Reaches(Start(n), s) && s.stopper == Outside && s.workers != [] && t in s.pushers
    requires forall a | Progress(a) :: !Enabled(s, a)
    ensures s.pushers[t] == Returned && multiset(s.ran)[t] == 1
  {
    ReachableInv(n, s);
    AtRest(s);
  }

  // ----- a stop ends

  ghost function Own(steps: seq<Step>): nat {
    if steps == [] then 0 else Own(steps[..|steps| - 1]) + if PusherStep(steps[|steps| - 1]) then 0 else 1
  }

  ghost function Pushes(steps: seq<Step>): nat {
    if steps == [] then 0 else Pushes(steps[..|steps| - 1]) + if steps[|steps| - 1].Enqueue? then 1 else 0
  }

  lemma {:induction false} WorkRun(s: Pool, steps: seq<Step>)
    requires Inv(s) && Roused(s) && After(s, steps).Some?
    ensures var d := After(s, steps).value; Roused(d) && Own(steps) + Work(d) <= Work(s) + 6 * Pushes(steps)
    decreases |steps|
  {
    if steps != [] {
      var before := steps[..|steps| - 1];
      WorkRun(s, before);
      RunInv(s, before);
      WorkNext(After(s, before).value, steps[|steps| - 1]);
    }
  }

  /** From the moment a stop has woken the workers, in every interleaving the workers and the stopper together take a
      bounded number of steps: with `StopNeverHangs`, stop returns unless tasks are pushed for ever. */
  lemma StopTakesBoundedSteps(n: nat, s: Pool, steps: seq<Step>)
    requires Reaches(Start(n), s) && Roused(s) && After(s, steps).Some?
    ensures Own(steps) <= 6 * (|s.queue| + Pushes(steps)) + 10 * |s.workers| + 3
  {
    ReachableInv(n, s);
    WorkRun(s, steps);
    SumBound(s.workers, Rank, 10);
  }

  // ----- how a stop(true) can end with tasks in the queue

  /** What a stop does when no worker is left: it discards the queue. */
  ghost predicate Discards(s: Pool, d: Pool) {
    && d.stopper == Stopped && d.queue == [] && d.discarded == s.discarded + s.queue
    && d.ran == s.ran && d.early == s.early && d.isStop == s.isStop
  }

  lemma DiscardsOne(s: Pool, d: Pool)
    requires s.queue != [] && Discards(s.(queue := s.queue[1..], discarded := s.discarded + [s.queue[0]]), d)
    ensures Discards(s, d)
  {
    assert s.discarded + s.queue == s.discarded + [s.queue[0]] + s.queue[1..];
  }

  lemma DrainAll(s0: Pool, s: Pool) returns (d: Pool)
    requires Reaches(s0, s) && s.stopper == Draining
    ensures Reaches(s0, d) && Discards(s, d)
    decreases |s.queue|
  {
    ReachesNext(s0, s, Drain);
    if s.queue == [] {
      d := Next(s, Drain);
    } else {
      d := DrainAll(s0, Next(s, Drain));
      DiscardsOne(s, d);
    }
  }

  lemma StopWithWorkersGone(s0: Pool, s: Pool) returns (d: Pool)
    requires Reaches(s0, s) && s.stopper == WantLock && s.mutex == None
    requires forall i: nat | i < |s.workers| :: s.workers[i] == Exited
    ensures Reaches(s0, d) && Discards(s, d)
  {
    ReachesNext(s0, s, StopLock);
    var s1 := Next(s, StopLock);
    ReachesNext(s0, s1, NotifyAll);
    d := StopNotified(s0, Next(s1, NotifyAll));
  }

  lemma StopNotified(s0: Pool, s: Pool) returns (d: Pool)
    requires Reaches(s0, s) && s.stopper == Notified
    requires forall i: nat | i < |s.workers| :: s.workers[i] == Exited
    ensures Reaches(s0, d) && Discards(s, d)
  {
    ReachesNext(s0, s, StopUnlock);
    var s1 := Next(s, StopUnlock);
    ReachesNext(s0, s1, Join);
    d := DrainAll(s0, Next(s1, Join));
  }

  /** Without workers, whoever is pushing lets go of the mutex, and the stop discards the queue. */
  lemma StopWithoutWorkers(s0: Pool, s: Pool) returns (d: Pool)
    requires Reaches(s0, s) && MutexInv(s) && s.stopper == WantLock && s.workers == []
    ensures Reaches(s0, d) && Discards(s, d)
  {
    var r := s;
    if s.mutex != None {
      var t := s.mutex.value.t;
      if s.pushers[t] == Locked {
        ReachesNext(s0, s, NotifyOne(t, None));
        r := Next(s, NotifyOne(t, None));
      }
      ReachesNext(s0, r, PushReturn(t));
      r := Next(r, PushReturn(t));
    }
    d := StopWithWorkersGone(s0, r);
  }

  /** The only worker has found the queue empty just before the stop began: it leaves without looking again. */
  lemma StopBehindWorker(s0: Pool, s: Pool) returns (d: Pool)
    requires Reaches(s0, s) && MutexInv(s) && s.stopper == WantLock && s.isDone && s.workers == [SawEmpty]
    ensures Reaches(s0, d) && Discards(s, d)
  {
    var gone := LastWorkerLeaves(s0, s);
    d := StopWithWorkersGone(s0, gone);
  }

  lemma LastWorkerLeaves(s0: Pool, s: Pool) returns (d: Pool)
    requires Reaches(s0, s) && MutexInv(s) && s.isDone && s.workers == [SawEmpty]
    ensures Reaches(s0, d) && d == s.(workers := [Exited], mutex := None)
  {
    ReachesNext(s0, s, ReadDone(0));
    var s1 := Next(s, ReadDone(0));
    assert s1.workers == [Leaving];
    ReachesNext(s0, s1, Unlock(0));
    d := Next(s1, Unlock(0));
    assert d.workers == [Exited];
  }

  // ----- the conditions are needed

  /** The only worker starts and finds the queue empty. */
  lemma FindsEmpty() returns (s: Pool)
    ensures Reaches(Start(1), s) && s == Start(1).(workers := [SawEmpty], mutex := Some(AWorker(0)))
  {
    ReachesSelf(Start(1));
    ReachesNext(Start(1), Start(1), Pop(0));
    var s1 := Next(Start(1), Pop(0));
    assert s1.workers == [WantMutex];
    s := ChecksEmpty(s1);
  }

  lemma ChecksEmpty(s1: Pool) returns (s: Pool)
    requires Reaches(Start(1), s1) && s1 == Start(1).(workers := [WantMutex])
    ensures Reaches(Start(1), s) && s == Start(1).(workers := [SawEmpty], mutex := Some(AWorker(0)))
  {
    ReachesNext(Start(1), s1, Lock(0));
    var s2 := Next(s1, Lock(0));
    ReachesNext(Start(1), s2, Check(0));
    s := Next(s2, Check(0));
    assert s.workers == [SawEmpty];
  }

  /** A task that is in the queue when stop(true) is called may be discarded although a worker is there. */
  lemma QueuedTaskDiscarded(t: Task)
    ensures exists s ::
      && Reaches(Start(1), s) && Enabled(s, BeginStopWait)
      && s.queue == [t] && s.pushers == map[t := Enqueued] && !AlwaysRuns(s, t)
  {
    var s := FindsEmpty();
    ReachesNext(Start(1), s, Enqueue(t));
    StopRunsQueued(1, Next(s, Enqueue(t)), t);
  }

  /** Without workers, stop(true) discards even a task whose push had returned. */
  lemma EmptyPoolDiscards(t: Task)
    ensures exists s ::
      && Reaches(Start(0), s) && Enabled(s, BeginStopWait)
      && s.queue == [t] && s.pushers == map[t := Returned] && !AlwaysRuns(s, t)
  {
    var s0 := Start(0);
    ReachesSelf(s0);
    ReachesNext(s0, s0, Enqueue(t));
    var s1 := Next(s0, Enqueue(t));
    ReachesNext(s0, s1, LockToNotify(t));
    var s2 := Next(s1, LockToNotify(t));
    ReachesNext(s0, s2, NotifyOne(t, None));
    var s3 := Next(s2, NotifyOne(t, None));
    ReachesNext(s0, s3, PushReturn(t));
    var s := Next(s3, PushReturn(t));
    assert s.pushers == map[t := Returned];
    StopRunsQueued(0, s, t);
  }

  /** A task pushed while stop(true) is under way may be discarded although a worker was there. */
  lemma LateTaskDiscarded(t: Task)
    ensures exists d :: Reaches(Start(1), d) && !d.isStop && d.stopper == Stopped && t !in d.early && t in d.discarded
  {
    var s0 := Start(1);
    var s := FindsEmpty();
    ReachesNext(s0, s, BeginStopWait);
    var s1 := LastWorkerLeaves(s0, Next(s, BeginStopWait));
    ReachesNext(s0, s1, Enqueue(t));
    var d := StopWithWorkersGone(s0, Next(s1, Enqueue(t)));
    assert t in d.discarded;
  }
}
