/** The thread pool as a state machine over the atomic steps of its pushers, its workers and the thread that stops
    it. The queue has its own lock, so each queue operation is one step; `mutex` is the pool's second lock, the one
    the condition variable sleeps on. */
module ThreadPool {
  import opened Basics

  type Task = nat

  /** Where a worker is in the function that `set_thread` starts. From `Checking` to `Leaving` it holds the mutex. */
  datatype Worker =
    | Popping             // about to pop, outside the mutex
    | Running(task: Task)
    | AfterRun            // about to read its flag
    | WantMutex           // found the queue empty, about to lock
    | Checking            // about to evaluate the wait predicate, which pops first
    | SawEmpty            // the predicate's pop failed, about to read isDone
    | SawNotDone          // about to read its flag
    | GoingToSleep        // the predicate is false
    | Got(task: Task)     // the predicate's pop succeeded, about to unlock
    | Leaving             // the predicate is true without a task, about to unlock and return
    | Asleep
    | Woken               // notified, or spuriously awake: must lock again
    | Exited

  datatype Pusher = Enqueued | Locked | Signalled | Returned

  datatype Stopper =
    | Outside
    | Flagging(next: nat) | Clearing   // stop(false) only
    | WantLock | HasLock | Notified
    | Joining | Draining | Stopped

  datatype Agent = AWorker(i: nat) | APusher(t: Task) | AStopper

  datatype Pool = Pool(
    queue: seq<Task>,
    mutex: Option<Agent>,
    isDone: bool,
    isStop: bool,
    workers: seq<Worker>,
    flags: seq<bool>,
    pushers: map<Task, Pusher>,
    stopper: Stopper,
    ran: seq<Task>,          // tasks run, in order of completion
    discarded: seq<Task>,
    early: set<Task>         // tasks that were sure to be run when stop(true) began
  )

  datatype Step =
    | Enqueue(t: Task) | LockToNotify(t: Task) | NotifyOne(t: Task, woken: Option<nat>) | PushReturn(t: Task)
    | Pop(i: nat) | Run(i: nat) | ReadFlag(i: nat) | Lock(i: nat) | Check(i: nat) | ReadDone(i: nat)
    | ReadFlagAsleep(i: nat) | Sleep(i: nat) | Unlock(i: nat) | SpuriousWake(i: nat)
    | Grow | BeginStopWait | BeginStopNow | SetFlag | Clear | StopLock | NotifyAll | StopUnlock | Join | Drain

  function Start(n: nat): Pool {
    Pool([], None, false, false, seq(n, _ => Popping), seq(n, _ => false), map[], Outside, [], [], {})
  }

  predicate At(s: Pool, i: nat, w: Worker) {
    i < |s.workers| && s.workers[i] == w
  }

  predicate Pushing(s: Pool, t: Task, p: Pusher) {
    t in s.pushers && s.pushers[t] == p
  }

  function WithWorker(s: Pool, i: nat, w: Worker): Pool
    requires i < |s.workers|
  {
    s.(workers := s.workers[i := w])
  }

  predicate PusherStep(a: Step) {
    a.Enqueue? || a.LockToNotify? || a.NotifyOne? || a.PushReturn?
  }

  predicate WorkerStep(a: Step) {
    a.Pop? || a.Run? || a.ReadFlag? || a.Lock? || a.Check? || a.ReadDone? || a.ReadFlagAsleep? || a.Sleep? ||
    a.Unlock? || a.SpuriousWake?
  }

  predicate Enabled(s: Pool, a: Step) {
    if PusherStep(a) then PusherEnabled(s, a) else if WorkerStep(a) then WorkerEnabled(s, a) else StopperEnabled(s, a)
  }

  predicate PusherEnabled(s: Pool, a: Step)
    requires PusherStep(a)
  {
    match a
    case Enqueue(t) => t !in s.pushers
    case LockToNotify(t) => Pushing(s, t, Enqueued) && s.mutex == None
    case NotifyOne(t, woken) =>
      Pushing(s, t, Locked) &&
      (if woken.Some? then At(s, woken.value, Asleep) else forall i: nat | i < |s.workers| :: s.workers[i] != Asleep)
    case PushReturn(t) => Pushing(s, t, Signalled)
  }

  predicate WorkerEnabled(s: Pool, a: Step)
    requires WorkerStep(a)
  {
    a.i < |s.workers| &&
    match a
    case Pop(i) => s.workers[i] == Popping
    case Run(i) => s.workers[i].Running?
    case ReadFlag(i) => s.workers[i] == AfterRun && i < |s.flags|
    case Lock(i) => s.workers[i] in {WantMutex, Woken} && s.mutex == None
    case Check(i) => s.workers[i] == Checking
    case ReadDone(i) => s.workers[i] == SawEmpty
    case ReadFlagAsleep(i) => s.workers[i] == SawNotDone && i < |s.flags|
    case Sleep(i) => s.workers[i] == GoingToSleep
    case Unlock(i) => s.workers[i].Got? || s.workers[i].Leaving?
    case SpuriousWake(i) => s.workers[i] == Asleep
  }

  predicate StopperEnabled(s: Pool, a: Step)
    requires !PusherStep(a) && !WorkerStep(a)
  {
    match a
    case Grow => s.stopper == Outside && !s.isDone && !s.isStop
    case BeginStopWait => s.stopper == Outside && !s.isDone && !s.isStop
    case BeginStopNow => s.stopper == Outside && !s.isStop
    case SetFlag => s.stopper.Flagging?
    case Clear => s.stopper == Clearing
    case StopLock => s.stopper == WantLock && s.mutex == None
    case NotifyAll => s.stopper == HasLock
    case StopUnlock => s.stopper == Notified
    case Join => s.stopper == Joining && forall i: nat | i < |s.workers| :: s.workers[i] == Exited
    case Drain => s.stopper == Draining
  }

  function Awakened(ws: seq<Worker>): (r: seq<Worker>)
    ensures |r| == |ws| && forall i: nat | i < |r| :: r[i] == if ws[i] == Asleep then Woken else ws[i]
  {
    seq(|ws|, i requires 0 <= i < |ws| => if ws[i] == Asleep then Woken else ws[i])
  }

  /** The tasks that a stop(true) beginning now will see run, if there is a worker: all that have been pushed, except
      for those queued but not yet notified of when the only worker has just found the queue empty. */
  function Sure(s: Pool): set<Task> {
    set t | t in s.pushers && (s.workers == [SawEmpty] && t in s.queue ==> s.pushers[t] != Enqueued)
  }

  /** Takes the head of the queue away, unless the queue is empty, and moves the stopper on then. */
  function DiscardOr(s: Pool, next: Stopper): Pool {
    if s.queue != [] then s.(queue := s.queue[1..], discarded := s.discarded + [s.queue[0]])
    else s.(stopper := next)
  }

  function Next(s: Pool, a: Step): Pool
    requires Enabled(s, a)
  {
    if PusherStep(a) then PusherNext(s, a) else if WorkerStep(a) then WorkerNext(s, a) else StopperNext(s, a)
  }

  function PusherNext(s: Pool, a: Step): Pool
    requires PusherStep(a) && PusherEnabled(s, a)
  {
    match a
    case Enqueue(t) => s.(queue := s.queue + [t], pushers := s.pushers[t := Enqueued])
    case LockToNotify(t) => s.(mutex := Some(APusher(t)), pushers := s.pushers[t := Locked])
    case NotifyOne(t, woken) =>
      var s' := s.(pushers := s.pushers[t := Signalled]);
      if woken.Some? then WithWorker(s', woken.value, Woken) else s'
    case PushReturn(t) => s.(mutex := None, pushers := s.pushers[t := Returned])
  }

  function WorkerNext(s: Pool, a: Step): Pool
    requires WorkerStep(a) && WorkerEnabled(s, a)
  {
    match a
    case Pop(i) =>
      if s.queue != [] then WithWorker(s, i, Running(s.queue[0])).(queue := s.queue[1..])
      else WithWorker(s, i, WantMutex)
    case Run(i) => WithWorker(s, i, AfterRun).(ran := s.ran + [s.workers[i].task])
    case ReadFlag(i) => WithWorker(s, i, if s.flags[i] then Exited else Popping)
    case Lock(i) => WithWorker(s, i, Checking).(mutex := Some(AWorker(i)))
    case Check(i) =>
      if s.queue != [] then WithWorker(s, i, Got(s.queue[0])).(queue := s.queue[1..])
      else WithWorker(s, i, SawEmpty)
    case ReadDone(i) => WithWorker(s, i, if s.isDone then Leaving else SawNotDone)
    case ReadFlagAsleep(i) => WithWorker(s, i, if s.flags[i] then Leaving else GoingToSleep)
    case Sleep(i) => WithWorker(s, i, Asleep).(mutex := None)
    case Unlock(i) =>
      WithWorker(s, i, if s.workers[i].Got? then Running(s.workers[i].task) else Exited).(mutex := None)
    case SpuriousWake(i) => WithWorker(s, i, Woken)
  }

  function StopperNext(s: Pool, a: Step): Pool
    requires !PusherStep(a) && !WorkerStep(a) && StopperEnabled(s, a)
  {
    match a
    case Grow => s.(workers := s.workers + [Popping], flags := s.flags + [false])
    case BeginStopWait =>
      s.(isDone := true, stopper := WantLock, early := Sure(s))
    case BeginStopNow => s.(isStop := true, stopper := Flagging(0))
    case SetFlag =>
      if s.stopper.next < |s.flags| then
        s.(flags := s.flags[s.stopper.next := true], stopper := Flagging(s.stopper.next + 1))
      else s.(stopper := Clearing)
    case Clear => DiscardOr(s, WantLock)
    case StopLock => s.(mutex := Some(AStopper), stopper := HasLock)
    case NotifyAll => s.(workers := Awakened(s.workers), stopper := Notified)
    case StopUnlock => s.(mutex := None, stopper := Joining)
    case Join => s.(stopper := Draining)
    case Drain => DiscardOr(s, Stopped)
  }

  // ----- invariants

  predicate HoldsMutex(w: Worker) {
    w.Checking? || w.SawEmpty? || w.SawNotDone? || w.GoingToSleep? || w.Got? || w.Leaving?
  }

  /** The mutex has at most one holder, and it is the agent that `mutex` names. */
  ghost predicate MutexInv(s: Pool) {
    && |s.flags| == |s.workers|
    && (forall i: nat | i < |s.workers| :: HoldsMutex(s.workers[i]) <==> s.mutex == Some(AWorker(i)))
    && (forall t | t in s.pushers :: s.pushers[t] in {Locked, Signalled} <==> s.mutex == Some(APusher(t)))
    && (s.stopper in {HasLock, Notified} <==> s.mutex == Some(AStopper))
    && (s.mutex.Some? && s.mutex.value.AWorker? ==> s.mutex.value.i < |s.workers|)
    && (s.mutex.Some? && s.mutex.value.APusher? ==> s.mutex.value.t in s.pushers)
  }

  function Holds(w: Worker, t: Task): nat {
    if (w.Running? || w.Got?) && w.task == t then 1 else 0
  }

  function Holder(t: Task): (f: Worker -> nat)
    ensures forall w :: f(w) == Holds(w, t)
  {
    w => Holds(w, t)
  }

  ghost function Sum(ws: seq<Worker>, f: Worker -> nat): nat {
    if ws == [] then 0 else Sum(ws[..|ws| - 1], f) + f(ws[|ws| - 1])
  }

  /** How many workers have the task in their hands. */
  ghost function Held(ws: seq<Worker>, t: Task): nat {
    Sum(ws, Holder(t))
  }

  /** In how many places the task is: queued, held by a worker, run or discarded. */
  ghost function Places(s: Pool, t: Task): nat {
    multiset(s.queue)[t] + Held(s.workers, t) + multiset(s.ran)[t] + multiset(s.discarded)[t]
  }

  /** Every pushed task is in exactly one place, and no other task is anywhere. */
  ghost predicate Conserved(s: Pool) {
    forall t :: Places(s, t) == if t in s.pushers then 1 else 0
  }

  /** The worker will look at the queue before it does anything else. */
  function Idle(w: Worker): nat {
    if w.Popping? || w.WantMutex? || w.Checking? || w.Woken? then 1 else 0
  }

  /** The worker sleeps, or is on the way to sleep unless it is told to leave. */
  predicate Dozing(w: Worker) {
    w.SawEmpty? || w.SawNotDone? || w.GoingToSleep? || w.Asleep?
  }

  /** The tasks that are pushed but not yet notified of. */
  ghost function Pending(s: Pool): set<Task> {
    set t | t in s.pushers && s.pushers[t] in {Enqueued, Locked}
  }

  /** While a worker sleeps, there is for every queued task an idle worker about to look or a pusher about to notify:
      no task waits behind a busy worker. */
  ghost predicate WorkConserving(s: Pool) {
    (exists i: nat :: i < |s.workers| && Dozing(s.workers[i])) ==>
      |s.queue| <= Sum(s.workers, Idle) + |Pending(s)|
  }

  /** A worker that holds the mutex and has found the queue empty. */
  predicate SeenEmpty(w: Worker) {
    w.SawEmpty? || w.SawNotDone? || w.GoingToSleep? || w.Leaving?
  }

  ghost predicate DrainInv(s: Pool) {
    && (!s.isStop ==> forall i: nat | i < |s.flags| :: !s.flags[i])
    // what is queued behind the back of a worker that has seen the queue empty is not yet notified
    && (!s.isStop && (exists i: nat :: i < |s.workers| && SeenEmpty(s.workers[i])) ==>
          forall t | t in s.queue :: Pushing(s, t, Enqueued))
    && (!s.isStop && (exists i: nat :: i < |s.workers| && (s.workers[i].Leaving? || s.workers[i].Exited?)) ==> s.isDone)
    && (!s.isStop ==> !s.stopper.Flagging? && !s.stopper.Clearing? && (s.isDone <==> s.stopper != Outside))
    && (s.stopper in {Draining, Stopped} ==> forall i: nat | i < |s.workers| :: s.workers[i] == Exited)
  }

  /** During a stop(true), the worker will not look at the queue again. */
  predicate Parting(w: Worker) {
    w.SawEmpty? || w.Leaving? || w.Exited?
  }

  ghost predicate AllParting(ws: seq<Worker>) {
    ws != [] && forall i: nat | i < |ws| :: Parting(ws[i])
  }

  /** During a stop(true), no sure task is queued once no worker will look at the queue again, and none is discarded. */
  ghost predicate SureInv(s: Pool) {
    && s.early <= s.pushers.Keys
    && (s.workers == [] ==> s.ran == [])
    && (!s.isStop ==>
          && (s.isDone && AllParting(s.workers) ==> forall t | t in s.queue :: t !in s.early)
          && (s.stopper !in {Draining, Stopped} ==> s.discarded == [])
          && (s.workers != [] ==> forall t | t in s.discarded :: t !in s.early))
  }

  /** The stopper has woken all workers. */
  predicate Roused(s: Pool) {
    s.stopper in {Notified, Joining, Draining, Stopped}
  }

  /** Once the stopper has woken all workers, none of them goes back to sleep. */
  ghost predicate StopInv(s: Pool) {
    && (s.stopper != Outside ==> s.isDone || s.isStop)
    && (s.stopper.Flagging? ==> s.isStop && forall i: nat | i < s.stopper.next && i < |s.flags| :: s.flags[i])
    && (s.isStop && s.stopper != Outside && !s.stopper.Flagging? ==> forall i: nat | i < |s.flags| :: s.flags[i])
    && (s.isStop ==> s.stopper != Outside)
    && (Roused(s) ==> forall i: nat | i < |s.workers| ::
          s.workers[i] !in {GoingToSleep, Asleep} && (s.isDone ==> s.workers[i] != SawNotDone))
  }

  lemma MutexPusher(s: Pool, a: Step)
    requires MutexInv(s) && PusherStep(a) && PusherEnabled(s, a)
    ensures MutexInv(PusherNext(s, a))
  {}

  lemma MutexMoves(s: Pool, a: Step)
    requires MutexInv(s) && WorkerStep(a) && WorkerEnabled(s, a) && (a.Lock? || a.Sleep? || a.Unlock?)
    ensures MutexInv(WorkerNext(s, a))
  {}

  /** A worker step changes nothing but the worker, the queue, the mutex and the finished tasks. */
  lemma WorkerFrame(s: Pool, a: Step)
    requires WorkerStep(a) && WorkerEnabled(s, a)
    ensures var s' := WorkerNext(s, a);
            && s'.workers == s.workers[a.i := s'.workers[a.i]] && s'.pushers == s.pushers
            && s'.flags == s.flags && s'.isDone == s.isDone && s'.isStop == s.isStop
            && s'.stopper == s.stopper && s'.early == s.early && s'.discarded == s.discarded
  {}

  lemma MutexStays(s: Pool, a: Step)
    requires MutexInv(s) && WorkerStep(a) && WorkerEnabled(s, a) && !a.Lock? && !a.Sleep? && !a.Unlock?
    ensures MutexInv(WorkerNext(s, a))
  {
    WorkerFrame(s, a);
    assert WorkerNext(s, a).mutex == s.mutex;
    assert HoldsMutex(WorkerNext(s, a).workers[a.i]) == HoldsMutex(s.workers[a.i]);
  }

  lemma MutexJoined(s: Pool, a: Step)
    requires MutexInv(s) && (a.NotifyAll? || a.Grow?) && StopperEnabled(s, a)
    ensures MutexInv(StopperNext(s, a))
  {}

  lemma MutexStopLock(s: Pool, a: Step)
    requires MutexInv(s) && (a.StopLock? || a.StopUnlock?) && StopperEnabled(s, a)
    ensures MutexInv(StopperNext(s, a))
  {}

  lemma MutexStopper(s: Pool, a: Step)
    requires MutexInv(s) && !PusherStep(a) && !WorkerStep(a) && StopperEnabled(s, a)
    ensures MutexInv(StopperNext(s, a))
  {
    if a.NotifyAll? || a.Grow? { MutexJoined(s, a); }
    else if a.StopLock? || a.StopUnlock? { MutexStopLock(s, a); }
  }

  lemma SumUpdate(ws: seq<Worker>, i: nat, w: Worker, f: Worker -> nat)
    requires i < |ws|
    ensures Sum(ws[i := w], f) == Sum(ws, f) - f(ws[i]) + f(w)
  {
    var prefix := ws[..|ws| - 1];
    if i == |ws| - 1 {
      assert ws[i := w][..|ws| - 1] == prefix;
    } else {
      SumUpdate(prefix, i, w, f);
      assert ws[i := w][..|ws| - 1] == prefix[i := w];
    }
  }

  lemma SumSnoc(ws: seq<Worker>, w: Worker, f: Worker -> nat)
    ensures Sum(ws + [w], f) == Sum(ws, f) + f(w)
  {
    assert (ws + [w])[..|ws|] == ws;
  }

  lemma SumAwakened(ws: seq<Worker>, f: Worker -> nat)
    requires f(Asleep) <= f(Woken)
    ensures Sum(ws, f) <= Sum(Awakened(ws), f)
    ensures f(Asleep) == f(Woken) ==> Sum(Awakened(ws), f) == Sum(ws, f)
  {
    if ws != [] {
      SumAwakened(ws[..|ws| - 1], f);
      assert Awakened(ws)[..|ws| - 1] == Awakened(ws[..|ws| - 1]);
    }
  }

  lemma SumBound(ws: seq<Worker>, f: Worker -> nat, max: nat)
    requires forall i: nat | i < |ws| :: f(ws[i]) <= max
    ensures Sum(ws, f) <= |ws| * max
  {
    if ws != [] {
      SumBound(ws[..|ws| - 1], f, max);
      OneMore(|ws|, max);
    }
  }

  lemma OneMore(n: nat, max: nat)
    ensures n * max == (n - 1) * max + max
  {}

  lemma HeadTail(q: seq<Task>, t: Task)
    requires q != []
    ensures multiset(q)[t] == (if q[0] == t then 1 else 0) + multiset(q[1..])[t]
  {
    assert q == [q[0]] + q[1..];
  }

  lemma PlacesPusher(s: Pool, a: Step, t: Task)
    requires PusherStep(a) && PusherEnabled(s, a)
    ensures Places(PusherNext(s, a), t) == Places(s, t) + (if a == Enqueue(t) then 1 else 0)
  {
    if a.NotifyOne? && a.woken.Some? { SumUpdate(s.workers, a.woken.value, Woken, Holder(t)); }
  }

  lemma PlacesTaken(s: Pool, a: Step, t: Task)
    requires WorkerStep(a) && WorkerEnabled(s, a) && (a.Pop? || a.Check?)
    ensures Places(WorkerNext(s, a), t) == Places(s, t)
  {
    SumUpdate(s.workers, a.i, WorkerNext(s, a).workers[a.i], Holder(t));
    if s.queue != [] { HeadTail(s.queue, t); }
  }

  lemma PlacesRun(s: Pool, i: nat, t: Task)
    requires WorkerEnabled(s, Run(i))
    ensures Places(WorkerNext(s, Run(i)), t) == Places(s, t)
  {
    SumUpdate(s.workers, i, AfterRun, Holder(t));
  }

  lemma PlacesWorker(s: Pool, a: Step, t: Task)
    requires WorkerStep(a) && WorkerEnabled(s, a) && !a.Pop? && !a.Check? && !a.Run?
    ensures Places(WorkerNext(s, a), t) == Places(s, t)
  {
    var s' := WorkerNext(s, a);
    assert s'.queue == s.queue && s'.ran == s.ran && s'.discarded == s.discarded;
    assert s'.workers == s.workers[a.i := s'.workers[a.i]];
    assert Holds(s'.workers[a.i], t) == Holds(s.workers[a.i], t);
    SumUpdate(s.workers, a.i, s'.workers[a.i], Holder(t));
  }

  lemma PlacesDiscard(s: Pool, next: Stopper, t: Task)
    ensures Places(DiscardOr(s, next), t) == Places(s, t)
  {
    if s.queue != [] { HeadTail(s.queue, t); }
  }

  lemma PlacesJoined(s: Pool, a: Step, t: Task)
    requires (a.NotifyAll? || a.Grow?) && StopperEnabled(s, a)
    ensures Places(StopperNext(s, a), t) == Places(s, t)
  {
    SumAwakened(s.workers, Holder(t));
    SumSnoc(s.workers, Popping, Holder(t));
  }

  lemma PlacesStopper(s: Pool, a: Step, t: Task)
    requires !PusherStep(a) && !WorkerStep(a) && StopperEnabled(s, a)
    ensures Places(StopperNext(s, a), t) == Places(s, t)
  {
    if a.NotifyAll? || a.Grow? { PlacesJoined(s, a, t); }
    else if a.Clear? { PlacesDiscard(s, WantLock, t); }
    else if a.Drain? { PlacesDiscard(s, Stopped, t); }
  }

  lemma ConservedPusher(s: Pool, a: Step)
    requires Conserved(s) && PusherStep(a) && PusherEnabled(s, a)
    ensures Conserved(PusherNext(s, a))
  {
    forall t ensures Places(PusherNext(s, a), t) == if t in PusherNext(s, a).pushers then 1 else 0 {
      PlacesPusher(s, a, t);
    }
  }

  lemma ConservedSame(s: Pool, s': Pool)
    requires Conserved(s) && s'.pushers == s.pushers && forall t :: Places(s', t) == Places(s, t)
    ensures Conserved(s')
  {}

  lemma PlacesWorkerStep(s: Pool, a: Step, t: Task)
    requires WorkerStep(a) && WorkerEnabled(s, a)
    ensures Places(WorkerNext(s, a), t) == Places(s, t)
  {
    if a.Pop? || a.Check? { PlacesTaken(s, a, t); }
    else if a.Run? { PlacesRun(s, a.i, t); }
    else { PlacesWorker(s, a, t); }
  }

  lemma ConservedWorker(s: Pool, a: Step)
    requires Conserved(s) && WorkerStep(a) && WorkerEnabled(s, a)
    ensures Conserved(WorkerNext(s, a))
  {
    forall t ensures Places(WorkerNext(s, a), t) == Places(s, t) { PlacesWorkerStep(s, a, t); }
    WorkerFrame(s, a);
    ConservedSame(s, WorkerNext(s, a));
  }

  lemma ConservedStopper(s: Pool, a: Step)
    requires Conserved(s) && !PusherStep(a) && !WorkerStep(a) && StopperEnabled(s, a)
    ensures Conserved(StopperNext(s, a))
  {
    forall t ensures Places(StopperNext(s, a), t) == Places(s, t) { PlacesStopper(s, a, t); }
    StopperPushers(s, a);
    ConservedSame(s, StopperNext(s, a));
  }

  lemma StopperPushers(s: Pool, a: Step)
    requires !PusherStep(a) && !WorkerStep(a) && StopperEnabled(s, a)
    ensures StopperNext(s, a).pushers == s.pushers
  {}

  lemma ConservingPusher(s: Pool, a: Step)
    requires MutexInv(s) && WorkConserving(s) && PusherStep(a) && PusherEnabled(s, a)
    ensures WorkConserving(PusherNext(s, a))
  {
    match a
    case Enqueue(t) => assert Pending(PusherNext(s, a)) == Pending(s) + {t};
    case LockToNotify(t) => assert Pending(PusherNext(s, a)) == Pending(s);
    case NotifyOne(t, woken) => ConservingNotify(s, t, woken);
    case PushReturn(t) => assert Pending(PusherNext(s, a)) == Pending(s);
  }

  lemma ConservingNotify(s: Pool, t: Task, woken: Option<nat>)
    requires MutexInv(s) && WorkConserving(s) && PusherEnabled(s, NotifyOne(t, woken))
    ensures WorkConserving(PusherNext(s, NotifyOne(t, woken)))
  {
    assert Pending(PusherNext(s, NotifyOne(t, woken))) == Pending(s) - {t};
    if woken.Some? { SumUpdate(s.workers, woken.value, Woken, Idle); }
  }

  /** A worker dozes off only when it finds the queue empty. */
  lemma DozesOff(s: Pool, a: Step)
    requires WorkerStep(a) && WorkerEnabled(s, a)
    ensures WorkerNext(s, a).queue != [] && Dozing(WorkerNext(s, a).workers[a.i]) ==> Dozing(s.workers[a.i])
  {}

  lemma ConservingWorker(s: Pool, a: Step)
    requires WorkConserving(s) && WorkerStep(a) && WorkerEnabled(s, a)
    ensures WorkConserving(WorkerNext(s, a))
  {
    IdleWorkerStep(s, a);
    WorkerFrame(s, a);
    DozesOff(s, a);
    ConservingMoved(s, WorkerNext(s, a), a.i);
  }

  lemma ConservingMoved(s: Pool, s': Pool, i: nat)
    requires WorkConserving(s) && i < |s.workers| && |s'.workers| == |s.workers| && s'.pushers == s.pushers
    requires s'.workers == s.workers[i := s'.workers[i]]
    requires s'.queue != [] ==> |s'.queue| - Sum(s'.workers, Idle) <= |s.queue| - Sum(s.workers, Idle)
    requires s'.queue != [] && Dozing(s'.workers[i]) ==> Dozing(s.workers[i])
    ensures WorkConserving(s')
  {
    assert Pending(s') == Pending(s);
    if j: nat :| j < |s'.workers| && Dozing(s'.workers[j]) && s'.queue != [] {
      assert Dozing(s.workers[j]);
    }
  }

  /** A worker step takes at most as many idle workers away as tasks from the queue, unless the queue is empty. */
  lemma IdleWorkerStep(s: Pool, a: Step)
    requires WorkerStep(a) && WorkerEnabled(s, a)
    ensures var s' := WorkerNext(s, a);
            s'.queue != [] ==> |s'.queue| - Sum(s'.workers, Idle) <= |s.queue| - Sum(s.workers, Idle)
  {
    SumUpdate(s.workers, a.i, WorkerNext(s, a).workers[a.i], Idle);
  }

  lemma ConservingGrow(s: Pool)
    requires WorkConserving(s) && StopperEnabled(s, Grow)
    ensures WorkConserving(StopperNext(s, Grow))
  {
    var s' := StopperNext(s, Grow);
    assert Pending(s') == Pending(s);
    SumSnoc(s.workers, Popping, Idle);
    if i: nat :| i < |s'.workers| && Dozing(s'.workers[i]) {
      assert Dozing(s.workers[i]);
    }
  }

  lemma ConservingNotifyAll(s: Pool)
    requires WorkConserving(s) && StopperEnabled(s, NotifyAll)
    ensures WorkConserving(StopperNext(s, NotifyAll))
  {
    var s' := StopperNext(s, NotifyAll);
    assert Pending(s') == Pending(s);
    SumAwakened(s.workers, Idle);
    if i: nat :| i < |s'.workers| && Dozing(s'.workers[i]) {
      assert Dozing(s.workers[i]);
    }
  }

  lemma ConservingStopper(s: Pool, a: Step)
    requires WorkConserving(s) && !PusherStep(a) && !WorkerStep(a) && StopperEnabled(s, a)
    ensures WorkConserving(StopperNext(s, a))
  {
    if a.NotifyAll? {
      ConservingNotifyAll(s);
    } else if a.Grow? {
      ConservingGrow(s);
    } else {
      assert Pending(StopperNext(s, a)) == Pending(s);
    }
  }

  lemma StopPusher(s: Pool, a: Step)
    requires StopInv(s) && PusherStep(a) && PusherEnabled(s, a)
    ensures StopInv(PusherNext(s, a))
  {}

  lemma StopMoved(s: Pool, a: Step)
    requires StopInv(s) && Roused(s) && WorkerStep(a) && WorkerEnabled(s, a)
    ensures var w := WorkerNext(s, a).workers[a.i]; w !in {GoingToSleep, Asleep} && (s.isDone ==> w != SawNotDone)
  {}

  lemma StopWorker(s: Pool, a: Step)
    requires StopInv(s) && WorkerStep(a) && WorkerEnabled(s, a)
    ensures StopInv(WorkerNext(s, a))
  {
    WorkerFrame(s, a);
    if Roused(s) { StopMoved(s, a); }
  }

  lemma StopStopper(s: Pool, a: Step)
    requires MutexInv(s) && StopInv(s) && !PusherStep(a) && !WorkerStep(a) && StopperEnabled(s, a)
    ensures StopInv(StopperNext(s, a))
  {}

  lemma DrainPusher(s: Pool, a: Step)
    requires MutexInv(s) && DrainInv(s) && PusherStep(a) && PusherEnabled(s, a)
    ensures DrainInv(PusherNext(s, a))
  {}

  /** Worker steps that take the head of the queue. */
  lemma DrainTakes(s: Pool, a: Step)
    requires MutexInv(s) && DrainInv(s) && WorkerStep(a) && WorkerEnabled(s, a) && (a.Pop? || a.Check?) && s.queue != []
    ensures DrainInv(WorkerNext(s, a))
  {
    var s' := WorkerNext(s, a);
    assert forall t | t in s'.queue :: t in s.queue;
    assert forall j: nat | j < |s.workers| && j != a.i :: s'.workers[j] == s.workers[j];
  }

  /** Worker steps that find the queue empty. */
  lemma DrainFindsEmpty(s: Pool, a: Step)
    requires MutexInv(s) && DrainInv(s) && WorkerStep(a) && WorkerEnabled(s, a) && (a.Pop? || a.Check?) && s.queue == []
    ensures DrainInv(WorkerNext(s, a))
  {
    assert forall j: nat | j < |s.workers| && j != a.i :: WorkerNext(s, a).workers[j] == s.workers[j];
  }

  /** Worker steps that leave the queue alone. */
  lemma DrainMoved(s: Pool, a: Step)
    requires WorkerStep(a) && WorkerEnabled(s, a) && !a.Pop? && !a.Check?
    ensures var s' := WorkerNext(s, a);
            && s'.queue == s.queue
            && (SeenEmpty(s'.workers[a.i]) ==> SeenEmpty(s.workers[a.i]))
            && (s'.workers[a.i].Leaving? || s'.workers[a.i].Exited? ==>
                  s.isDone || s.workers[a.i].Leaving? || (a.i < |s.flags| && s.flags[a.i]))
  {}

  lemma DrainWorker(s: Pool, a: Step)
    requires MutexInv(s) && DrainInv(s) && WorkerStep(a) && WorkerEnabled(s, a) && !a.Pop? && !a.Check?
    ensures DrainInv(WorkerNext(s, a))
  {
    WorkerFrame(s, a);
    DrainMoved(s, a);
  }

  lemma DrainStopper(s: Pool, a: Step)
    requires MutexInv(s) && DrainInv(s) && !PusherStep(a) && !WorkerStep(a) && StopperEnabled(s, a)
    ensures DrainInv(StopperNext(s, a))
  {
    if a.Drain? && s.queue != [] {
      assert forall t | t in s.queue[1..] :: t in s.queue;
    }
  }

  lemma SurePusher(s: Pool, a: Step)
    requires SureInv(s) && PusherStep(a) && PusherEnabled(s, a)
    ensures SureInv(PusherNext(s, a))
  {
    if a.NotifyOne? && a.woken.Some? { assert !Parting(PusherNext(s, a).workers[a.woken.value]); }
  }

  lemma SureTakes(s: Pool, a: Step)
    requires SureInv(s) && (a.Pop? || a.Check?) && WorkerEnabled(s, a)
    ensures SureInv(WorkerNext(s, a))
  {
    var s' := WorkerNext(s, a);
    assert forall t | t in s'.queue :: t in s.queue;
    if s.queue != [] { assert !Parting(s'.workers[a.i]); }
  }

  lemma SureWorker(s: Pool, a: Step)
    requires SureInv(s) && DrainInv(s) && WorkerStep(a) && WorkerEnabled(s, a)
    ensures SureInv(WorkerNext(s, a))
  {
    if a.Pop? || a.Check? {
      SureTakes(s, a);
    } else if !s.isStop && s.isDone && AllParting(WorkerNext(s, a).workers) {
      var s' := WorkerNext(s, a);
      assert Parting(s'.workers[a.i]) && Parting(s.workers[a.i]);
      assert forall j: nat | j < |s.workers| && j != a.i :: s'.workers[j] == s.workers[j];
    }
  }

  lemma SureStopper(s: Pool, a: Step)
    requires MutexInv(s) && SureInv(s) && DrainInv(s) && !PusherStep(a) && !WorkerStep(a) && StopperEnabled(s, a)
    ensures SureInv(StopperNext(s, a))
  {
    match a
    case BeginStopWait => if AllParting(s.workers) { SureBegin(s); }
    case NotifyAll => if AllParting(Awakened(s.workers)) { SureAwakened(s.workers); }
    case Drain => SureDrain(s);
    case Grow => assert !Parting(StopperNext(s, a).workers[|s.workers|]);
    case _ =>
  }

  lemma OneHolder(s: Pool, i: nat, j: nat)
    requires MutexInv(s) && i < |s.workers| && j < |s.workers|
    requires HoldsMutex(s.workers[i]) && HoldsMutex(s.workers[j])
    ensures i == j
  {}

  /** Two workers cannot both have just found the queue empty, since that happens under the mutex. */
  lemma SureBegin(s: Pool)
    requires MutexInv(s) && DrainInv(s) && StopperEnabled(s, BeginStopWait) && AllParting(s.workers)
    ensures s.workers == [SawEmpty] && forall t | t in s.queue :: t !in Sure(s)
  {
    assert s.workers[0] == SawEmpty && SeenEmpty(s.workers[0]);
    OneHolder(s, 0, |s.workers| - 1);
  }

  lemma SureAwakened(ws: seq<Worker>)
    requires AllParting(Awakened(ws))
    ensures AllParting(ws)
  {
    forall i: nat | i < |ws| ensures Parting(ws[i]) {
      assert Parting(Awakened(ws)[i]);
    }
  }

  lemma SureDrain(s: Pool)
    requires SureInv(s) && DrainInv(s) && StopperEnabled(s, Drain)
    ensures SureInv(StopperNext(s, Drain))
  {
    if s.queue != [] {
      assert s.queue[0] in s.queue;
      assert forall t | t in s.queue[1..] :: t in s.queue;
      if !s.isStop && s.workers != [] { assert AllParting(s.workers); }
    }
  }

  // ----- one step

  ghost predicate Inv(s: Pool) {
    MutexInv(s) && Conserved(s) && WorkConserving(s) && DrainInv(s) && SureInv(s) && StopInv(s)
  }

  lemma InvStart(n: nat)
    ensures Inv(Start(n))
  {
    var s := Start(n);
    forall t ensures Places(s, t) == 0 { SumBound(s.workers, Holder(t), 0); }
  }

  lemma InvPusher(s: Pool, a: Step)
    requires Inv(s) && Enabled(s, a) && PusherStep(a)
    ensures Inv(Next(s, a))
  {
    ConservedPusher(s, a);
    MutexPusher(s, a);
    ConservingPusher(s, a);
    DrainPusher(s, a);
    SurePusher(s, a);
    StopPusher(s, a);
  }

  lemma InvWorker(s: Pool, a: Step)
    requires Inv(s) && Enabled(s, a) && WorkerStep(a)
    ensures Inv(Next(s, a))
  {
    ConservedWorker(s, a);
    if a.Lock? || a.Sleep? || a.Unlock? { MutexMoves(s, a); } else { MutexStays(s, a); }
    ConservingWorker(s, a);
    SureWorker(s, a);
    StopWorker(s, a);
    if !a.Pop? && !a.Check? { DrainWorker(s, a); }
    else if s.queue != [] { DrainTakes(s, a); }
    else { DrainFindsEmpty(s, a); }
  }

  lemma InvStopper(s: Pool, a: Step)
    requires Inv(s) && Enabled(s, a) && !PusherStep(a) && !WorkerStep(a)
    ensures Inv(Next(s, a))
  {
    ConservedStopper(s, a);
    MutexStopper(s, a);
    ConservingStopper(s, a);
    DrainStopper(s, a);
    SureStopper(s, a);
    StopStopper(s, a);
  }

  lemma InvNext(s: Pool, a: Step)
    requires Inv(s) && Enabled(s, a)
    ensures Inv(Next(s, a))
  {
    if PusherStep(a) { InvPusher(s, a); } else if WorkerStep(a) { InvWorker(s, a); } else { InvStopper(s, a); }
  }

  // ----- progress

  /** A step of those already at work: not a spurious wakeup, and no new push, worker or stop. */
  predicate Progress(a: Step) {
    !a.SpuriousWake? && !a.Enqueue? && !a.Grow? && !a.BeginStopWait? && !a.BeginStopNow?
  }

  /** While tasks are queued and a worker is left, some worker, pusher or stopper can take a step: the pool does not
      sleep on work. */
  lemma NoStall(s: Pool) returns (a: Step)
    requires Inv(s) && s.queue != [] && exists i: nat :: i < |s.workers| && s.workers[i] != Exited
    ensures Enabled(s, a) && Progress(a)
  {
    var i: nat :| i < |s.workers| && s.workers[i] != Exited;
    if s.mutex.Some? {
      a := HolderStep(s);
    } else if s.workers[i] != Asleep {
      a := LookerStep(s, i);
    } else if Pending(s) != {} {
      var t :| t in Pending(s);
      a := LockToNotify(t);
    } else {
      var j := IdleWorker(s.workers);
      a := LookerStep(s, j);
    }
  }

  lemma IdleWorker(ws: seq<Worker>) returns (i: nat)
    requires Sum(ws, Idle) > 0
    ensures i < |ws| && Idle(ws[i]) == 1
  {
    i := |ws| - 1;
    if Idle(ws[i]) == 0 { i := IdleWorker(ws[..i]); }
  }

  lemma HolderStep(s: Pool) returns (a: Step)
    requires MutexInv(s) && s.mutex.Some?
    ensures Enabled(s, a) && Progress(a)
  {
    match s.mutex.value
    case AWorker(i) =>
      match s.workers[i] {
        case Checking => a := Check(i);
        case SawEmpty => a := ReadDone(i);
        case SawNotDone => a := ReadFlagAsleep(i);
        case GoingToSleep => a := Sleep(i);
        case _ => a := Unlock(i);
      }
    case APusher(t) =>
      if s.pushers[t] == Signalled {
        a := PushReturn(t);
      } else if i: nat :| i < |s.workers| && s.workers[i] == Asleep {
        a := NotifyOne(t, Some(i));
      } else {
        a := NotifyOne(t, None);
      }
    case AStopper => a := if s.stopper == HasLock then NotifyAll else StopUnlock;
  }

  lemma LookerStep(s: Pool, i: nat) returns (a: Step)
    requires MutexInv(s) && s.mutex == None && i < |s.workers| && s.workers[i] !in {Asleep, Exited}
    ensures Enabled(s, a) && Progress(a)
  {
    match s.workers[i]
    case Popping => a := Pop(i);
    case Running(_) => a := Run(i);
    case AfterRun => a := ReadFlag(i);
    case _ => a := Lock(i);
  }

  // ----- a stop ends

  /** A stop under way never hangs: something can take a step until it has finished. */
  lemma StopNeverHangs(s: Pool) returns (a: Step)
    requires Inv(s) && s.stopper !in {Outside, Stopped}
    ensures Enabled(s, a) && Progress(a)
  {
    if s.mutex.Some? {
      a := HolderStep(s);
    } else if s.stopper == Joining && exists i: nat :: i < |s.workers| && s.workers[i] != Exited {
      var i: nat :| i < |s.workers| && s.workers[i] != Exited;
      a := LookerStep(s, i);
    } else {
      match s.stopper
      case Flagging(_) => a := SetFlag;
      case Clearing => a := Clear;
      case WantLock => a := StopLock;
      case Joining => a := Join;
      case Draining => a := Drain;
    }
  }

  /** How many steps a worker can take before it sleeps or leaves, if it finds no more tasks and nobody wakes it. */
  function Rank(w: Worker): nat {
    match w
    case Got(_) => 10
    case Running(_) => 9
    case AfterRun => 8
    case Popping => 7
    case WantMutex => 6
    case Woken => 6
    case Checking => 5
    case SawEmpty => 4
    case SawNotDone => 3
    case GoingToSleep => 2
    case Leaving => 1
    case Asleep => 1
    case Exited => 0
  }

  function StopRank(p: Stopper): nat {
    match p
    case Stopped => 0
    case Draining => 1
    case Joining => 2
    case _ => 3
  }

  /** A bound on the steps that workers and stopper still have to take. */
  ghost function Work(s: Pool): nat {
    6 * |s.queue| + Sum(s.workers, Rank) + StopRank(s.stopper)
  }

  lemma WorkTakes(s: Pool, a: Step)
    requires (a.Pop? || a.Check?) && WorkerEnabled(s, a)
    ensures Work(WorkerNext(s, a)) < Work(s)
  {
    SumUpdate(s.workers, a.i, WorkerNext(s, a).workers[a.i], Rank);
  }

  lemma WorkWorker(s: Pool, a: Step)
    requires WorkerStep(a) && WorkerEnabled(s, a) && !a.SpuriousWake?
    ensures Work(WorkerNext(s, a)) < Work(s)
  {
    if a.Pop? || a.Check? {
      WorkTakes(s, a);
    } else {
      assert Rank(WorkerNext(s, a).workers[a.i]) < Rank(s.workers[a.i]);
      SumUpdate(s.workers, a.i, WorkerNext(s, a).workers[a.i], Rank);
    }
  }

  lemma WorkPusher(s: Pool, a: Step)
    requires MutexInv(s) && StopInv(s) && Roused(s) && PusherStep(a) && PusherEnabled(s, a)
    ensures Roused(PusherNext(s, a)) && Work(PusherNext(s, a)) == Work(s) + (if a.Enqueue? then 6 else 0)
  {}

  lemma WorkStopper(s: Pool, a: Step)
    requires Roused(s) && !PusherStep(a) && !WorkerStep(a) && StopperEnabled(s, a)
    ensures Roused(StopperNext(s, a)) && Work(StopperNext(s, a)) < Work(s)
  {}

  /** Once a stop has woken the workers, every step of a worker or of the stopper uses up work, and only a new push
      adds any. */
  lemma WorkNext(s: Pool, a: Step)
    requires Inv(s) && Roused(s) && Enabled(s, a)
    ensures Roused(Next(s, a))
    ensures Work(Next(s, a)) + (if PusherStep(a) then 0 else 1) <= Work(s) + (if a.Enqueue? then 6 else 0)
  {
    if PusherStep(a) { WorkPusher(s, a); } else if WorkerStep(a) { WorkWorker(s, a); } else { WorkStopper(s, a); }
  }

  // ----- a pool at work comes to rest

  /** The tasks whose push has not returned. */
  ghost function Unreturned(s: Pool): set<Task> {
    set t | t in s.pushers && s.pushers[t] != Returned
  }

  ghost function JustEnqueued(s: Pool): set<Task> {
    set t | t in s.pushers && s.pushers[t] == Enqueued
  }

  /** A bound on the steps that workers and pushers still have to take: a pusher has up to three, and its notification
      may wake a worker. */
  ghost function Effort(s: Pool): nat {
    Work(s) + 6 * |Pending(s)| + |Unreturned(s)| + |JustEnqueued(s)|
  }

  /** What the environment adds to that: new tasks, spurious wakeups and new workers. */
  function Cost(a: Step): nat {
    if a.Enqueue? then 14 else if a.SpuriousWake? then 5 else if a.Grow? then 7 else 0
  }

  lemma EffortEnqueue(s: Pool, t: Task)
    requires PusherEnabled(s, Enqueue(t))
    ensures Effort(PusherNext(s, Enqueue(t))) == Effort(s) + 14
  {
    var s' := PusherNext(s, Enqueue(t));
    assert Work(s') == Work(s) + 6;
    EnqueuedPending(s, s', t);
    EnqueuedUnreturned(s, s', t);
    EnqueuedJust(s, s', t);
  }

  lemma EnqueuedPending(s: Pool, s': Pool, t: Task)
    requires t !in s.pushers && s'.pushers == s.pushers[t := Enqueued]
    ensures |Pending(s')| == |Pending(s)| + 1
  {
    assert Pending(s') == Pending(s) + {t};
  }

  lemma EnqueuedUnreturned(s: Pool, s': Pool, t: Task)
    requires t !in s.pushers && s'.pushers == s.pushers[t := Enqueued]
    ensures |Unreturned(s')| == |Unreturned(s)| + 1
  {
    assert Unreturned(s') == Unreturned(s) + {t};
  }

  lemma EnqueuedJust(s: Pool, s': Pool, t: Task)
    requires t !in s.pushers && s'.pushers == s.pushers[t := Enqueued]
    ensures |JustEnqueued(s')| == |JustEnqueued(s)| + 1
  {
    assert JustEnqueued(s') == JustEnqueued(s) + {t};
  }

  lemma EffortLock(s: Pool, t: Task)
    requires PusherEnabled(s, LockToNotify(t))
    ensures Effort(PusherNext(s, LockToNotify(t))) < Effort(s)
  {
    var s' := PusherNext(s, LockToNotify(t));
    assert Pending(s') == Pending(s) && Unreturned(s') == Unreturned(s);
    assert JustEnqueued(s') == JustEnqueued(s) - {t};
  }

  lemma EffortNotify(s: Pool, t: Task, woken: Option<nat>)
    requires PusherEnabled(s, NotifyOne(t, woken))
    ensures Effort(PusherNext(s, NotifyOne(t, woken))) < Effort(s)
  {
    var s' := PusherNext(s, NotifyOne(t, woken));
    if woken.Some? { SumUpdate(s.workers, woken.value, Woken, Rank); }
    assert Pending(s') == Pending(s) - {t};
    assert Unreturned(s') == Unreturned(s) && JustEnqueued(s') == JustEnqueued(s);
  }

  lemma EffortReturn(s: Pool, t: Task)
    requires PusherEnabled(s, PushReturn(t))
    ensures Effort(PusherNext(s, PushReturn(t))) < Effort(s)
  {
    var s' := PusherNext(s, PushReturn(t));
    assert Pending(s') == Pending(s) && JustEnqueued(s') == JustEnqueued(s);
    assert Unreturned(s') == Unreturned(s) - {t};
  }

  lemma EffortPusher(s: Pool, a: Step)
    requires PusherStep(a) && PusherEnabled(s, a)
    ensures Effort(PusherNext(s, a)) + (if Progress(a) then 1 else 0) <= Effort(s) + Cost(a)
  {
    match a
    case Enqueue(t) => EffortEnqueue(s, t);
    case LockToNotify(t) => EffortLock(s, t);
    case NotifyOne(t, woken) => EffortNotify(s, t, woken);
    case PushReturn(t) => EffortReturn(s, t);
  }

  lemma EffortSame(s: Pool, s': Pool)
    requires s'.pushers == s.pushers
    ensures Effort(s') - Work(s') == Effort(s) - Work(s)
  {
    assert Pending(s') == Pending(s) && Unreturned(s') == Unreturned(s) && JustEnqueued(s') == JustEnqueued(s);
  }

  lemma EffortWorker(s: Pool, a: Step)
    requires WorkerStep(a) && WorkerEnabled(s, a)
    ensures Effort(WorkerNext(s, a)) + (if Progress(a) then 1 else 0) <= Effort(s) + Cost(a)
  {
    WorkerFrame(s, a);
    EffortSame(s, WorkerNext(s, a));
    if a.SpuriousWake? { SumUpdate(s.workers, a.i, Woken, Rank); } else { WorkWorker(s, a); }
  }

  lemma EffortGrow(s: Pool)
    requires StopperEnabled(s, Grow)
    ensures Effort(StopperNext(s, Grow)) == Effort(s) + Cost(Grow)
  {
    SumSnoc(s.workers, Popping, Rank);
    EffortSame(s, StopperNext(s, Grow));
  }

  /** Before a stop begins, every step of a worker or a pusher uses up effort. */
  lemma EffortNext(s: Pool, a: Step)
    requires Enabled(s, a) && s.stopper == Outside && Next(s, a).stopper == Outside
    ensures Effort(Next(s, a)) + (if Progress(a) then 1 else 0) <= Effort(s) + Cost(a)
  {
    if PusherStep(a) { EffortPusher(s, a); } else if WorkerStep(a) { EffortWorker(s, a); } else { EffortGrow(s); }
  }

  /** A pool at rest, where no stop has begun and none of those at work can take a step, has nothing left to do. */
  lemma AtRest(s: Pool)
    requires Inv(s) && s.stopper == Outside && s.workers != []
    requires forall a | Progress(a) :: !Enabled(s, a)
    ensures forall t | t in s.pushers :: s.pushers[t] == Returned && multiset(s.ran)[t] == 1
  {
    if s.mutex.Some? { var a := HolderStep(s); }
    forall i: nat | i < |s.workers| ensures s.workers[i] == Asleep {
      if s.workers[i] !in {Asleep, Exited} { var a := LookerStep(s, i); }
    }
    forall t | t in s.pushers ensures s.pushers[t] == Returned {
      assert !Enabled(s, LockToNotify(t));
    }
    assert s.workers[0] == Asleep && Pending(s) == {};
    SumBound(s.workers, Idle, 0);
    forall t | t in s.pushers ensures multiset(s.ran)[t] == 1 {
      SumBound(s.workers, Holder(t), 0);
      assert Places(s, t) == 1;
    }
  }

  // ----- what stays

  /** Nobody leaves the pool; once a stop has begun, nobody joins it and the stop keeps its kind. */
  ghost predicate Stays(s: Pool, d: Pool) {
    && |d.workers| >= |s.workers|
    && (s.stopper != Outside ==>
          d.stopper != Outside && |d.workers| == |s.workers| && d.early == s.early && d.isStop == s.isStop)
  }

  lemma StaysPusher(s: Pool, a: Step)
    requires PusherStep(a) && PusherEnabled(s, a)
    ensures Stays(s, PusherNext(s, a))
  {}

  lemma StaysWorker(s: Pool, a: Step)
    requires WorkerStep(a) && WorkerEnabled(s, a)
    ensures Stays(s, WorkerNext(s, a))
  {}

  lemma StaysStopper(s: Pool, a: Step)
    requires !PusherStep(a) && !WorkerStep(a) && StopperEnabled(s, a)
    ensures Stays(s, StopperNext(s, a))
  {}

  lemma StaysNext(s: Pool, a: Step)
    requires Enabled(s, a)
    ensures Stays(s, Next(s, a))
  {
    if PusherStep(a) { StaysPusher(s, a); } else if WorkerStep(a) { StaysWorker(s, a); } else { StaysStopper(s, a); }
  }
}
