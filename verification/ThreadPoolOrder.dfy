/** In which order the thread pool takes and runs its tasks, and how few it still runs once it is told to stop. */
module ThreadPoolOrder {
  import opened Basics
  import opened ThreadPool
  import opened ThreadPoolRuns

  ghost function PushedBy(a: Step): seq<Task> {
    if a.Enqueue? then [a.t] else []
  }

  /** The tasks pushed, in the order of their pushes. */
  ghost function Pushed(steps: seq<Step>): seq<Task> {
    if steps == [] then [] else Pushed(steps[..|steps| - 1]) + PushedBy(steps[|steps| - 1])
  }

  /** The queue is the end of what was pushed. */
  ghost predicate QueuedLast(s: Pool, pushed: seq<Task>) {
    |s.queue| <= |pushed| && s.queue == pushed[|pushed| - |s.queue|..]
  }

  /** The tasks that have left the queue, if it is the end of what was pushed. */
  ghost function Taken(s: Pool, pushed: seq<Task>): seq<Task>
    requires |s.queue| <= |pushed|
  {
    pushed[..|pushed| - |s.queue|]
  }

  lemma QueuedLastPush(s: Pool, a: Step, pushed: seq<Task>)
    requires QueuedLast(s, pushed) && PusherStep(a) && PusherEnabled(s, a)
    ensures QueuedLast(PusherNext(s, a), pushed + PushedBy(a))
  {
    if !a.Enqueue? { assert pushed + PushedBy(a) == pushed; }
  }

  lemma QueuedLastWorker(s: Pool, a: Step, pushed: seq<Task>)
    requires QueuedLast(s, pushed) && WorkerStep(a) && WorkerEnabled(s, a)
    ensures QueuedLast(WorkerNext(s, a), pushed)
  {}

  lemma QueuedLastStopper(s: Pool, a: Step, pushed: seq<Task>)
    requires QueuedLast(s, pushed) && !PusherStep(a) && !WorkerStep(a) && StopperEnabled(s, a)
    ensures QueuedLast(StopperNext(s, a), pushed)
  {}

  lemma QueuedLastNext(s: Pool, a: Step, pushed: seq<Task>)
    requires QueuedLast(s, pushed) && Enabled(s, a)
    ensures QueuedLast(Next(s, a), pushed + PushedBy(a))
  {
    if PusherStep(a) {
      QueuedLastPush(s, a, pushed);
    } else {
      assert pushed + PushedBy(a) == pushed;
      if WorkerStep(a) { QueuedLastWorker(s, a, pushed); } else { QueuedLastStopper(s, a, pushed); }
    }
  }

  /** Each task is pushed once, and the pushers are those of the pushed tasks. */
  ghost predicate PushedOnce(s: Pool, pushed: seq<Task>) {
    forall t :: multiset(pushed)[t] == if t in s.pushers then 1 else 0
  }

  lemma PushedOnceNext(s: Pool, a: Step, pushed: seq<Task>)
    requires PushedOnce(s, pushed) && Enabled(s, a)
    ensures PushedOnce(Next(s, a), pushed + PushedBy(a))
  {
    if PusherStep(a) {
      assert Next(s, a).pushers.Keys == s.pushers.Keys + if a.Enqueue? then {a.t} else {};
    } else if WorkerStep(a) {
      WorkerFrame(s, a);
    } else {
      StopperPushers(s, a);
    }
  }

  lemma {:induction false} RunOrdered(n: nat, steps: seq<Step>)
    requires After(Start(n), steps).Some?
    ensures var s := After(Start(n), steps).value; QueuedLast(s, Pushed(steps)) && PushedOnce(s, Pushed(steps))
    decreases |steps|
  {
    if steps != [] {
      var before := steps[..|steps| - 1];
      RunOrdered(n, before);
      QueuedLastNext(After(Start(n), before).value, steps[|steps| - 1], Pushed(before));
      PushedOnceNext(After(Start(n), before).value, steps[|steps| - 1], Pushed(before));
    }
  }

  /** Over every interleaving, with any workers and any stop, tasks leave the queue in the order in which they were
      pushed: those queued are the last ones pushed, in order, and those in the hands of workers, run or discarded are
      all the earlier ones. */
  lemma FirstInFirstTaken(n: nat, steps: seq<Step>, t: Task)
    requires After(Start(n), steps).Some?
    ensures var s, pushed := After(Start(n), steps).value, Pushed(steps);
            && |s.queue| <= |pushed| && pushed == pushed[..|pushed| - |s.queue|] + s.queue
            && Held(s.workers, t) + multiset(s.ran)[t] + multiset(s.discarded)[t] ==
                 multiset(pushed[..|pushed| - |s.queue|])[t]
  {
    var s, pushed := After(Start(n), steps).value, Pushed(steps);
    RunOrdered(n, steps);
    InvStart(n);
    RunInv(Start(n), steps);
    assert pushed == Taken(s, pushed) + s.queue;
    assert multiset(Pushed(steps))[t] == Places(s, t);
  }

  // ----- a pool with one worker

  /** The task in the hands of the only worker. */
  function Hand(ws: seq<Worker>): seq<Task> {
    if |ws| == 1 && (ws[0].Running? || ws[0].Got?) then [ws[0].task] else []
  }

  /** What has run, is in hand, was discarded and is queued is all that was pushed, in order. */
  ghost predicate InTurn(s: Pool, pushed: seq<Task>) {
    s.ran + Hand(s.workers) + s.discarded + s.queue == pushed
  }

  lemma InTurnPush(s: Pool, a: Step, pushed: seq<Task>)
    requires InTurn(s, pushed) && |s.workers| <= 1 && PusherStep(a) && PusherEnabled(s, a)
    ensures InTurn(PusherNext(s, a), pushed + PushedBy(a))
  {
    var s' := PusherNext(s, a);
    assert Hand(s'.workers) == Hand(s.workers);
    if a.Enqueue? {
      assert s.ran + Hand(s.workers) + s.discarded + (s.queue + [a.t]) == pushed + [a.t];
    } else {
      assert pushed + PushedBy(a) == pushed;
    }
  }

  lemma InTurnTakes(s: Pool, a: Step, pushed: seq<Task>)
    requires InTurn(s, pushed) && |s.workers| <= 1 && WorkerStep(a) && WorkerEnabled(s, a) && (a.Pop? || a.Check?)
    requires s.discarded == []
    ensures InTurn(WorkerNext(s, a), pushed)
  {
    if s.queue != [] {
      assert s.ran + [] + [] + s.queue == s.ran + [s.queue[0]] + [] + s.queue[1..];
    }
  }

  lemma InTurnWorker(s: Pool, a: Step, pushed: seq<Task>)
    requires InTurn(s, pushed) && |s.workers| <= 1 && WorkerStep(a) && WorkerEnabled(s, a) && !a.Pop? && !a.Check?
    ensures InTurn(WorkerNext(s, a), pushed)
  {
    if a.Run? {
      var t := s.workers[0].task;
      assert s.ran + [t] == s.ran + [t] + [];
    }
  }

  lemma InTurnStopper(s: Pool, a: Step, pushed: seq<Task>)
    requires InTurn(s, pushed) && !PusherStep(a) && !WorkerStep(a) && StopperEnabled(s, a)
    requires |StopperNext(s, a).workers| <= 1 && !s.stopper.Clearing?
    ensures InTurn(StopperNext(s, a), pushed)
  {
    var s' := StopperNext(s, a);
    assert Hand(s'.workers) == Hand(s.workers);
    if a.Drain? && s.queue != [] {
      assert s.ran + Hand(s.workers) + s.discarded + s.queue ==
             s.ran + Hand(s.workers) + (s.discarded + [s.queue[0]]) + s.queue[1..];
    }
  }

  lemma InTurnNext(s: Pool, a: Step, pushed: seq<Task>)
    requires Inv(s) && InTurn(s, pushed) && Enabled(s, a) && |Next(s, a).workers| <= 1 && !Next(s, a).isStop
    ensures InTurn(Next(s, a), pushed + PushedBy(a))
  {
    StaysNext(s, a);
    if PusherStep(a) {
      InTurnPush(s, a, pushed);
    } else {
      assert pushed + PushedBy(a) == pushed;
      if !WorkerStep(a) { InTurnStopper(s, a, pushed); }
      else if a.Pop? || a.Check? { InTurnTakes(s, a, pushed); }
      else { InTurnWorker(s, a, pushed); }
    }
  }

  /** In a pool that has at most one worker and is not told to stop at once, tasks run in the order of their pushes,
      none is passed over, and the one in hand is the next: what has run is a prefix of what was pushed. */
  lemma {:induction false} OneWorkerInTurn(n: nat, steps: seq<Step>)
    requires After(Start(n), steps).Some?
    requires |After(Start(n), steps).value.workers| <= 1 && !After(Start(n), steps).value.isStop
    ensures var s := After(Start(n), steps).value;
            s.ran <= Pushed(steps) && s.ran + Hand(s.workers) + s.discarded + s.queue == Pushed(steps)
    decreases |steps|
  {
    var s := After(Start(n), steps).value;
    if steps != [] {
      var before, a := steps[..|steps| - 1], steps[|steps| - 1];
      var p := After(Start(n), before).value;
      InvStart(n);
      RunInv(Start(n), before);
      StaysNext(p, a);
      OneWorkerInTurn(n, before);
      InTurnNext(p, a, Pushed(before));
    }
  }

  /** What has run and is in hand are tasks pushed at the places `ps`, which go up and come before the queue. */
  ghost predicate Ascends(s: Pool, pushed: seq<Task>, ps: seq<nat>) {
    var done := s.ran + Hand(s.workers);
    && |s.queue| <= |pushed| && |ps| == |done|
    && (forall k: nat | k < |ps| :: ps[k] < |pushed| - |s.queue| && done[k] == pushed[ps[k]])
    && (forall j: nat, k: nat | j < k < |ps| :: ps[j] < ps[k])
  }

  lemma AscendsSame(s: Pool, s': Pool, pushed: seq<Task>, pushed': seq<Task>, ps: seq<nat>)
    requires Ascends(s, pushed, ps) && pushed <= pushed' && |s'.queue| <= |pushed'|
    requires s'.ran + Hand(s'.workers) == s.ran + Hand(s.workers)
    requires |pushed| - |s.queue| <= |pushed'| - |s'.queue|
    ensures Ascends(s', pushed', ps)
  {}

  lemma AscendsTakes(s: Pool, a: Step, pushed: seq<Task>, ps: seq<nat>) returns (ps': seq<nat>)
    requires Ascends(s, pushed, ps) && QueuedLast(s, pushed) && |s.workers| == 1 && s.queue != []
    requires (a.Pop? || a.Check?) && WorkerEnabled(s, a)
    ensures Ascends(WorkerNext(s, a), pushed, ps')
  {
    ps' := ps + [|pushed| - |s.queue|];
    assert s.queue[0] == pushed[|pushed| - |s.queue|];
    assert s.ran + Hand(s.workers) == s.ran;
  }

  lemma AscendsWorker(s: Pool, a: Step)
    requires |s.workers| == 1 && WorkerStep(a) && WorkerEnabled(s, a) && !((a.Pop? || a.Check?) && s.queue != [])
    ensures var s' := WorkerNext(s, a); s'.ran + Hand(s'.workers) == s.ran + Hand(s.workers) && s'.queue == s.queue
  {
    if a.Run? {
      var t := s.workers[0].task;
      assert s.ran + [t] == s.ran + [t] + [];
    }
  }

  lemma AscendsStopper(s: Pool, a: Step)
    requires !PusherStep(a) && !WorkerStep(a) && StopperEnabled(s, a) && |StopperNext(s, a).workers| <= 1
    ensures var s' := StopperNext(s, a); s'.ran + Hand(s'.workers) == s.ran + Hand(s.workers) && |s'.queue| <= |s.queue|
  {
    assert Hand(StopperNext(s, a).workers) == Hand(s.workers);
  }

  lemma AscendsNext(s: Pool, a: Step, pushed: seq<Task>, ps: seq<nat>) returns (ps': seq<nat>)
    requires Ascends(s, pushed, ps) && QueuedLast(s, pushed) && Enabled(s, a) && |Next(s, a).workers| <= 1
    ensures Ascends(Next(s, a), pushed + PushedBy(a), ps')
  {
    ps' := ps;
    StaysNext(s, a);
    if PusherStep(a) {
      assert Hand(Next(s, a).workers) == Hand(s.workers);
    } else if !WorkerStep(a) {
      AscendsStopper(s, a);
    } else if (a.Pop? || a.Check?) && s.queue != [] {
      ps' := AscendsTakes(s, a, pushed, ps);
      assert pushed + PushedBy(a) == pushed;
      return;
    } else {
      AscendsWorker(s, a);
    }
    AscendsSame(s, Next(s, a), pushed, pushed + PushedBy(a), ps);
  }

  /** With one worker and any stop, also one that discards tasks in between, what has run and is in hand was pushed in
      that order: `ps` are the places of these tasks among all that were pushed. */
  lemma {:induction false} OneWorkerInOrder(n: nat, steps: seq<Step>) returns (ps: seq<nat>)
    requires After(Start(n), steps).Some? && |After(Start(n), steps).value.workers| <= 1
    ensures var done := After(Start(n), steps).value.ran + Hand(After(Start(n), steps).value.workers);
            && |ps| == |done|
            && (forall k: nat | k < |ps| :: ps[k] < |Pushed(steps)| && done[k] == Pushed(steps)[ps[k]])
            && (forall j: nat, k: nat | j < k < |ps| :: ps[j] < ps[k])
  {
    ps := OneWorkerAscends(n, steps);
  }

  lemma {:induction false} OneWorkerAscends(n: nat, steps: seq<Step>) returns (ps: seq<nat>)
    requires After(Start(n), steps).Some? && |After(Start(n), steps).value.workers| <= 1
    ensures Ascends(After(Start(n), steps).value, Pushed(steps), ps)
    decreases |steps|
  {
    ps := [];
    if steps != [] {
      var before, a := steps[..|steps| - 1], steps[|steps| - 1];
      var p := After(Start(n), before).value;
      StaysNext(p, a);
      ps := OneWorkerAscends(n, before);
      RunOrdered(n, before);
      ps := AscendsNext(p, a, Pushed(before), ps);
    }
  }

  // ----- a pool told to stop at once

  /** Whether a worker whose flag is set may still run a task. */
  function MayRun(w: Worker): nat {
    if w.AfterRun? || w.SawEmpty? || w.SawNotDone? || w.Leaving? || w.Exited? then 0 else 1
  }

  /** stop(false) has set all flags. */
  ghost predicate Flagged(s: Pool) {
    s.isStop && s.stopper != Outside && !s.stopper.Flagging?
  }

  lemma MayRunWorker(s: Pool, a: Step)
    requires StopInv(s) && Flagged(s) && WorkerStep(a) && WorkerEnabled(s, a)
    ensures var s' := WorkerNext(s, a); |s'.ran| + Sum(s'.workers, MayRun) <= |s.ran| + Sum(s.workers, MayRun)
  {
    SumUpdate(s.workers, a.i, WorkerNext(s, a).workers[a.i], MayRun);
  }

  lemma MayRunNext(s: Pool, a: Step)
    requires StopInv(s) && Flagged(s) && Enabled(s, a)
    ensures Flagged(Next(s, a))
    ensures |Next(s, a).ran| + Sum(Next(s, a).workers, MayRun) <= |s.ran| + Sum(s.workers, MayRun)
  {
    if PusherStep(a) {
      if a.NotifyOne? && a.woken.Some? { SumUpdate(s.workers, a.woken.value, Woken, MayRun); }
    } else if WorkerStep(a) {
      WorkerFrame(s, a);
      MayRunWorker(s, a);
    } else if a.NotifyAll? {
      SumAwakened(s.workers, MayRun);
    }
  }

  lemma {:induction false} MayRunRun(s: Pool, steps: seq<Step>)
    requires Inv(s) && Flagged(s) && After(s, steps).Some?
    ensures var d := After(s, steps).value;
            Flagged(d) && |d.ran| + Sum(d.workers, MayRun) <= |s.ran| + Sum(s.workers, MayRun)
    decreases |steps|
  {
    if steps != [] {
      var before := steps[..|steps| - 1];
      MayRunRun(s, before);
      RunInv(s, before);
      MayRunNext(After(s, before).value, steps[|steps| - 1]);
    }
  }

  /** Once stop(false) has set the flags, in every interleaving each worker runs at most one more task, whatever is
      queued or still pushed. */
  lemma StopNowRunsFew(n: nat, s: Pool, steps: seq<Step>)
    requires Reaches(Start(n), s) && After(s, steps).Some?
    requires s.isStop && !s.stopper.Flagging?
    ensures |After(s, steps).value.ran| <= |s.ran| + |s.workers|
  {
    ReachableInv(n, s);
    MayRunRun(s, steps);
    SumBound(s.workers, MayRun, 1);
  }

  // ----- what a stop leaves

  /** Every task of the set has been pushed, and none is queued once stop(false) has cleared the queue, nor when any
      stop has ended. */
  ghost predicate Cleared(s: Pool, earlier: set<Task>) {
    && earlier <= s.pushers.Keys
    && ((s.isStop && !s.stopper.Flagging? && !s.stopper.Clearing?) || s.stopper == Stopped ==>
          forall t | t in earlier :: t !in s.queue)
  }

  lemma ClearedPusher(s: Pool, a: Step, earlier: set<Task>)
    requires Cleared(s, earlier) && PusherStep(a) && PusherEnabled(s, a)
    ensures Cleared(PusherNext(s, a), earlier)
  {}

  lemma ClearedWorker(s: Pool, a: Step, earlier: set<Task>)
    requires Cleared(s, earlier) && WorkerStep(a) && WorkerEnabled(s, a)
    ensures Cleared(WorkerNext(s, a), earlier)
  {
    WorkerFrame(s, a);
  }

  lemma ClearedStopper(s: Pool, a: Step, earlier: set<Task>)
    requires Cleared(s, earlier) && !PusherStep(a) && !WorkerStep(a) && StopperEnabled(s, a)
    ensures Cleared(StopperNext(s, a), earlier)
  {}

  lemma {:induction false} ClearedRun(s: Pool, steps: seq<Step>, earlier: set<Task>)
    requires Cleared(s, earlier) && After(s, steps).Some?
    ensures Cleared(After(s, steps).value, earlier)
    decreases |steps|
  {
    if steps != [] {
      var p, a := After(s, steps[..|steps| - 1]).value, steps[|steps| - 1];
      ClearedRun(s, steps[..|steps| - 1], earlier);
      if PusherStep(a) { ClearedPusher(p, a, earlier); }
      else if WorkerStep(a) { ClearedWorker(p, a, earlier); }
      else { ClearedStopper(p, a, earlier); }
    }
  }

  /** Over every interleaving of a stop of either kind: when it has ended, every task that had been pushed when it began
      has run exactly once or been discarded exactly once, and not both. A stop(false) has taken all of them out of the
      queue before it even wakes the workers. */
  lemma StopAccounts(n: nat, s: Pool, a: Step, steps: seq<Step>, t: Task)
    requires Reaches(Start(n), s) && (a.BeginStopWait? || a.BeginStopNow?) && Enabled(s, a) && t in s.pushers
    requires After(Next(s, a), steps).Some?
    ensures var d := After(Next(s, a), steps).value;
            && (d.stopper == Stopped ==> multiset(d.ran)[t] + multiset(d.discarded)[t] == 1)
            && (a.BeginStopNow? && !d.stopper.Flagging? && !d.stopper.Clearing? ==> t !in d.queue)
  {
    var d := After(Next(s, a), steps).value;
    ReachableInv(n, s);
    InvNext(s, a);
    RunInv(Next(s, a), steps);
    ClearedRun(Next(s, a), steps, s.pushers.Keys);
    NoneHeld(d, t);
    assert Places(d, t) == 1;
  }

  lemma NoneHeld(s: Pool, t: Task)
    requires Inv(s)
    ensures s.stopper == Stopped ==> Held(s.workers, t) == 0
  {
    if s.stopper == Stopped { SumBound(s.workers, Holder(t), 0); }
  }
}
