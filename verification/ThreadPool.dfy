/** spdlog's thread pool as interleaved steps: producers and workers around a bounded queue that
    is guarded by a mutex and two condition variables, and the destructor that drains it. */
module ThreadPool {
  import opened Document
  import opened CircularQueue

  datatype Msg = Work(id: int) | Terminate

  /** A message to post, and whether the producer waits for room or overruns the oldest one. */
  datatype Post = Post(msg: Msg, block: bool)

  /** Where a producer is: outside, at the lock, holding it, waiting on pop_cv, at the lock after
      it was woken, and about to notify push_cv. */
  datatype ProducerAt = Idle | AtLock | Inside | Asleep | Woken | Notifying

  /** Where a worker is; `timedOut` tells that the next test of the queue is the last one. */
  datatype WorkerAt =
    | Locking
    | Testing(timedOut: bool)
    | Waiting
    | Roused(timedOut: bool)
    | Announcing(taken: Msg)
    | Handling(handled: Msg)
    | Exited

  datatype Thread =
    | Producer(todo: seq<Post>, p: ProducerAt)
    | Worker(w: WorkerAt)

  /** The first thread runs the destructor.  The ghosts of the run: what was ever pushed, what
      was handled, and what was overrun. */
  datatype State = State(
    threads: seq<Thread>,
    mutex: Option<nat>,
    queue: Fifo<Msg>,
    posted: multiset<Msg>,
    handled: multiset<Msg>,
    lost: multiset<Msg>,
    joined: bool)

  // ----- steps -----

  datatype Step =
    | Begin(i: nat)
    | Acquire(i: nat)
    | Act(i: nat)
    | Notify(i: nat, j: nat)
    | Handle(i: nat)
    | Join
    | SpuriousWake(i: nat)
    | Timeout(i: nat)

  /** Steps the environment may or may not take. */
  predicate Environmental(step: Step) { step.SpuriousWake? || step.Timeout? }

  predicate IsDone(t: Thread) {
    match t
    case Producer(todo, p) => todo == [] && p == Idle
    case Worker(w) => w == Exited
  }

  predicate ProducersDone(threads: seq<Thread>) {
    forall k :: 0 < k < |threads| && threads[k].Producer? ==> IsDone(threads[k])
  }

  /** The destructor has begun. */
  predicate Closing(s: State, n: nat) {
    |s.threads| > 0 && s.threads[0].Producer? && (|s.threads[0].todo| < n || s.threads[0].p != Idle)
  }

  /** A producer at the mutex has something to post. */
  predicate Busy(t: Thread) {
    t.Producer? && t.p != Idle && t.p != Notifying ==> t.todo != []
  }

  predicate WaitsForMutex(t: Thread) {
    match t
    case Producer(_, p) => p == AtLock || p == Woken
    case Worker(w) => w == Locking || w.Roused?
  }

  predicate HoldsMutex(t: Thread) {
    match t
    case Producer(_, p) => p == Inside
    case Worker(w) => w.Testing?
  }

  predicate Notifies(t: Thread) {
    match t
    case Producer(_, p) => p == Notifying
    case Worker(w) => w.Announcing?
  }

  predicate Sleeps(t: Thread) {
    match t
    case Producer(_, p) => p == Asleep
    case Worker(w) => w == Waiting
  }

  /** Whom a thread's notification can wake: producers wake workers, workers wake producers. */
  predicate Hears(t: Thread, notifier: Thread) {
    Sleeps(t) && t.Producer? != notifier.Producer?
  }

  /** Notifying wakes one of the threads that sleep, if any does. */
  predicate MayWake(s: State, i: nat, j: nat)
    requires i < |s.threads|
  {
    if exists k :: 0 <= k < |s.threads| && Hears(s.threads[k], s.threads[i]) then
      j < |s.threads| && Hears(s.threads[j], s.threads[i])
    else
      j == i
  }

  ghost predicate Enabled(s: State, step: Step) {
    match step
    case Join =>
      !s.joined && |s.threads| > 0 && IsDone(s.threads[0]) && forall k :: 0 <= k < |s.threads| && s.threads[k].Worker? ==> IsDone(s.threads[k])
    case Begin(i) =>
      && i < |s.threads| && s.threads[i].Producer? && s.threads[i].p == Idle && s.threads[i].todo != []
      // no message is being posted when the pool is destroyed
      && (i == 0 ==> ProducersDone(s.threads))
    case Acquire(i) => i < |s.threads| && WaitsForMutex(s.threads[i]) && s.mutex == None
    case Act(i) => i < |s.threads| && HoldsMutex(s.threads[i]) && Busy(s.threads[i])
    case Notify(i, j) => i < |s.threads| && Notifies(s.threads[i]) && MayWake(s, i, j)
    case Handle(i) => i < |s.threads| && s.threads[i].Worker? && s.threads[i].w.Handling?
    case SpuriousWake(i) => i < |s.threads| && Sleeps(s.threads[i])
    case Timeout(i) => i < |s.threads| && s.threads[i].Worker? && Sleeps(s.threads[i])
  }

  function With(s: State, i: nat, t: Thread): State
    requires i < |s.threads|
  {
    s.(threads := s.threads[i := t])
  }

  function AfterAcquire(t: Thread): Thread
    requires WaitsForMutex(t)
  {
    match t
    case Producer(todo, _) => Producer(todo, Inside)
    case Worker(w) => Worker(Testing(w.Roused? && w.timedOut))
  }

  function AfterWake(t: Thread, timedOut: bool): Thread
    requires Sleeps(t)
  {
    match t
    case Producer(todo, _) => Producer(todo, Woken)
    case Worker(_) => Worker(Roused(timedOut))
  }

  function AfterNotify(t: Thread): Thread
    requires Notifies(t)
  {
    match t
    case Producer(todo, _) => Producer(todo, Idle)
    case Worker(w) => Worker(Handling(w.taken))
  }

  function AfterHandle(m: Msg): Thread {
    if m.Terminate? then Worker(Exited) else Worker(Locking)
  }

  /** The producer's turn with the mutex: it waits for room, or pushes. */
  function Push(s: State, i: nat): State
    requires i < |s.threads| && s.threads[i].Producer? && s.threads[i].todo != []
  {
    var t := s.threads[i];
    if t.todo[0].block && s.queue.IsFull() then With(s, i, t.(p := Asleep)).(mutex := None)
    else
      var m := t.todo[0].msg;
      With(s, i, Producer(t.todo[1..], Notifying)).(
        mutex := None,
        queue := s.queue.Push(m),
        posted := s.posted + multiset{m},
        lost := if s.queue.IsFull() then s.lost + multiset{(s.queue.items + [m])[0]} else s.lost)
  }

  /** The worker's turn with the mutex: it takes the front message, or waits, or gives up until
      its next turn. */
  function Take(s: State, i: nat): State
    requires i < |s.threads| && s.threads[i].Worker? && s.threads[i].w.Testing?
  {
    if s.queue.items == [] then
      With(s, i, Worker(if s.threads[i].w.timedOut then Locking else Waiting)).(mutex := None)
    else
      With(s, i, Worker(Announcing(s.queue.items[0]))).(mutex := None, queue := s.queue.Pop())
  }

  ghost function Apply(s: State, step: Step): State
    requires Enabled(s, step)
  {
    match step
    case Begin(i) => With(s, i, s.threads[i].(p := AtLock))
    case Acquire(i) => With(s, i, AfterAcquire(s.threads[i])).(mutex := Some(i))
    case Act(i) => if s.threads[i].Producer? then Push(s, i) else Take(s, i)
    case Notify(i, j) =>
      if j == i then With(s, i, AfterNotify(s.threads[i]))
      else With(With(s, j, AfterWake(s.threads[j], false)), i, AfterNotify(s.threads[i]))
    case Handle(i) =>
      var m := s.threads[i].w.handled;
      With(s, i, AfterHandle(m)).(handled := s.handled + multiset{m})
    case Join => s.(joined := true)
    case SpuriousWake(i) => With(s, i, AfterWake(s.threads[i], false))
    case Timeout(i) => With(s, i, AfterWake(s.threads[i], true))
  }

  // ----- counting threads -----

  function Sum(threads: seq<Thread>, f: Thread -> nat): nat {
    if threads == [] then 0 else f(threads[0]) + Sum(threads[1..], f)
  }

  lemma {:induction false} SumUpdate(threads: seq<Thread>, i: nat, t: Thread, f: Thread -> nat)
    requires i < |threads|
    ensures Sum(threads[i := t], f) == Sum(threads, f) - f(threads[i]) + f(t)
    decreases |threads|
  {
    if i == 0 {
      assert threads[0 := t][1..] == threads[1..];
    } else {
      assert threads[i := t][1..] == threads[1..][i - 1 := t];
      SumUpdate(threads[1..], i - 1, t, f);
    }
  }

  lemma {:induction false} SumAtLeast(threads: seq<Thread>, i: nat, f: Thread -> nat)
    requires i < |threads|
    ensures f(threads[i]) <= Sum(threads, f)
    decreases |threads|
  {
    if i > 0 {
      SumAtLeast(threads[1..], i - 1, f);
    }
  }

  lemma {:induction false} SumZero(threads: seq<Thread>, f: Thread -> nat)
    requires forall k :: 0 <= k < |threads| ==> f(threads[k]) == 0
    ensures Sum(threads, f) == 0
    decreases |threads|
  {
    if threads != [] {
      SumZero(threads[1..], f);
    }
  }

  function One(b: bool): nat { if b then 1 else 0 }

  function SleepingProducer(t: Thread): nat { One(t.Producer? && t.p == Asleep) }
  function SleepingWorker(t: Thread): nat { One(t.Worker? && t.w == Waiting) }
  /** Producers that have been woken, or hold the mutex, and will test for room again. */
  function RetryingProducer(t: Thread): nat { One(t.Producer? && (t.p == Woken || t.p == Inside)) }
  function RetryingWorker(t: Thread): nat { One(t.Worker? && (t.w.Roused? || t.w.Testing?)) }
  function NotifyingProducer(t: Thread): nat { One(t.Producer? && t.p == Notifying) }
  function NotifyingWorker(t: Thread): nat { One(t.Worker? && t.w.Announcing?) }
  function ExitedWorker(t: Thread): nat { One(t.Worker? && t.w == Exited) }
  function AnyWorker(t: Thread): nat { One(t.Worker?) }

  // ----- no lost wake-up -----

  function Free(q: Fifo<Msg>): int { q.capacity - |q.items| }

  ghost predicate ProducersHeard(threads: seq<Thread>, free: int) {
    Sum(threads, SleepingProducer) > 0 ==> free <= Sum(threads, RetryingProducer) + Sum(threads, NotifyingWorker)
  }

  ghost predicate WorkersHeard(threads: seq<Thread>, stored: nat) {
    Sum(threads, SleepingWorker) > 0 ==> stored <= Sum(threads, RetryingWorker) + Sum(threads, NotifyingProducer)
  }

  /** While a producer sleeps, every free place has a producer that will test for room again, or
      a worker about to notify; and the same for workers and stored messages. */
  ghost predicate WakeupsKept(s: State) {
    ProducersHeard(s.threads, Free(s.queue)) && WorkersHeard(s.threads, |s.queue.items|)
  }

  /** The counts after one thread has changed. */
  lemma Counts(threads: seq<Thread>, i: nat, t: Thread)
    requires i < |threads|
    ensures var after := threads[i := t];
            && Sum(after, SleepingProducer) == Sum(threads, SleepingProducer) - SleepingProducer(threads[i]) + SleepingProducer(t)
            && Sum(after, SleepingWorker) == Sum(threads, SleepingWorker) - SleepingWorker(threads[i]) + SleepingWorker(t)
            && Sum(after, RetryingProducer) == Sum(threads, RetryingProducer) - RetryingProducer(threads[i]) + RetryingProducer(t)
            && Sum(after, RetryingWorker) == Sum(threads, RetryingWorker) - RetryingWorker(threads[i]) + RetryingWorker(t)
            && Sum(after, NotifyingProducer) == Sum(threads, NotifyingProducer) - NotifyingProducer(threads[i]) + NotifyingProducer(t)
            && Sum(after, NotifyingWorker) == Sum(threads, NotifyingWorker) - NotifyingWorker(threads[i]) + NotifyingWorker(t)
  {
    SumUpdate(threads, i, t, SleepingProducer);
    SumUpdate(threads, i, t, SleepingWorker);
    SumUpdate(threads, i, t, RetryingProducer);
    SumUpdate(threads, i, t, RetryingWorker);
    SumUpdate(threads, i, t, NotifyingProducer);
    SumUpdate(threads, i, t, NotifyingWorker);
  }

  ghost predicate AllBusy(s: State) {
    forall k :: 0 <= k < |s.threads| ==> Busy(s.threads[k])
  }

  lemma WakeupsKeptByThread(s: State, step: Step)
    requires Enabled(s, step) && WakeupsKept(s) && !step.Join? && !step.Notify? && !step.Act?
    ensures WakeupsKept(Apply(s, step))
  {
    hide Sum, ProducersDone, IsDone, Busy;
    Counts(s.threads, step.i, Apply(s, step).threads[step.i]);
  }

  lemma WakeupsKeptByPush(s: State, i: nat)
    requires s.queue.Valid() && s.queue.enabled && WakeupsKept(s) && i < |s.threads|
    requires s.threads[i].Producer? && s.threads[i].p == Inside && s.threads[i].todo != []
    ensures WakeupsKept(Push(s, i))
  {
    hide Sum;
    Counts(s.threads, i, Push(s, i).threads[i]);
  }

  lemma WakeupsKeptByTake(s: State, i: nat)
    requires s.queue.Valid() && WakeupsKept(s) && i < |s.threads| && s.threads[i].Worker? && s.threads[i].w.Testing?
    ensures WakeupsKept(Take(s, i))
  {
    hide Sum;
    Counts(s.threads, i, Take(s, i).threads[i]);
  }

  lemma NobodyHears(threads: seq<Thread>, notifier: Thread)
    requires forall k :: 0 <= k < |threads| ==> !Hears(threads[k], notifier)
    ensures notifier.Producer? ==> Sum(threads, SleepingWorker) == 0
    ensures notifier.Worker? ==> Sum(threads, SleepingProducer) == 0
  {
    if notifier.Producer? {
      SumZero(threads, SleepingWorker);
    } else {
      SumZero(threads, SleepingProducer);
    }
  }

  lemma WakeupsKeptByNotify(s: State, i: nat, j: nat)
    requires Enabled(s, Notify(i, j)) && WakeupsKept(s)
    ensures WakeupsKept(Apply(s, Notify(i, j)))
  {
    if j == i {
      NobodyHears(s.threads, s.threads[i]);
      hide Sum, MayWake;
      Counts(s.threads, i, AfterNotify(s.threads[i]));
    } else {
      OneHears(s, i, j);
    }
  }

  lemma OneHears(s: State, i: nat, j: nat)
    requires i < |s.threads| && j < |s.threads| && i != j && Notifies(s.threads[i]) && Hears(s.threads[j], s.threads[i]) && WakeupsKept(s)
    ensures WakeupsKept(With(With(s, j, AfterWake(s.threads[j], false)), i, AfterNotify(s.threads[i])))
  {
    hide Sum;
    Counts(s.threads, j, AfterWake(s.threads[j], false));
    Counts(s.threads[j := AfterWake(s.threads[j], false)], i, AfterNotify(s.threads[i]));
  }

  // ----- what every step keeps -----

  /** The message a worker has in hand. */
  function Held(t: Thread): multiset<Msg> {
    if t.Worker? && t.w.Announcing? then multiset{t.w.taken}
    else if t.Worker? && t.w.Handling? then multiset{t.w.handled}
    else multiset{}
  }

  function InHand(threads: seq<Thread>): multiset<Msg> {
    if threads == [] then multiset{} else Held(threads[0]) + InHand(threads[1..])
  }

  lemma {:induction false} InHandUpdate(threads: seq<Thread>, i: nat, t: Thread)
    requires i < |threads|
    ensures forall m :: InHand(threads[i := t])[m] + Held(threads[i])[m] == InHand(threads)[m] + Held(t)[m]
    decreases |threads|
  {
    if i == 0 {
      assert threads[0 := t][1..] == threads[1..];
    } else {
      var rest := threads[1..];
      assert threads[i := t][1..] == rest[i - 1 := t] && rest[i - 1] == threads[i];
      InHandUpdate(rest, i - 1, t);
      assert InHand(threads[i := t]) == Held(threads[0]) + InHand(rest[i - 1 := t]);
    }
  }

  lemma {:induction false} InHandEmpty(threads: seq<Thread>)
    requires forall k :: 0 <= k < |threads| ==> Held(threads[k]) == multiset{}
    ensures InHand(threads) == multiset{}
    decreases |threads|
  {
    if threads != [] {
      InHandEmpty(threads[1..]);
    }
  }

  ghost predicate Balanced(posted: multiset<Msg>, handled: multiset<Msg>, lost: multiset<Msg>, q: Fifo<Msg>, hands: multiset<Msg>) {
    posted == handled + lost + multiset(q.items) + hands && q.overrun == |lost|
  }

  /** Every message that was ever pushed is handled, overrun, stored, or in a worker's hand. */
  ghost predicate Conserved(s: State) {
    Balanced(s.posted, s.handled, s.lost, s.queue, InHand(s.threads))
  }

  ghost predicate MutexHeld(s: State) {
    && (s.mutex.Some? ==> s.mutex.value < |s.threads|)
    && forall k :: 0 <= k < |s.threads| ==> (HoldsMutex(s.threads[k]) <==> s.mutex == Some(k))
  }

  predicate PostsTerminates(todo: seq<Post>) {
    forall k :: 0 <= k < |todo| ==> todo[k] == Post(Terminate, true)
  }

  predicate PostsWork(todo: seq<Post>) {
    forall k :: 0 <= k < |todo| ==> todo[k].msg.Work?
  }

  /** The first thread posts a terminate for each worker; the others post work. */
  ghost predicate Roles(s: State, n: nat) {
    && |s.threads| > 0 && s.threads[0].Producer? && PostsTerminates(s.threads[0].todo)
    && (forall k :: 0 < k < |s.threads| && s.threads[k].Producer? ==> PostsWork(s.threads[k].todo))
    && Sum(s.threads, AnyWorker) == n
    && s.posted[Terminate] + |s.threads[0].todo| == n
    && (Closing(s, n) ==> ProducersDone(s.threads))
  }

  predicate TerminatesLast(items: seq<Msg>) {
    forall i, j :: 0 <= i < j < |items| && items[i].Terminate? ==> items[j].Terminate?
  }

  predicate OnlyTerminates(items: seq<Msg>) {
    forall k :: 0 <= k < |items| ==> items[k].Terminate?
  }

  ghost predicate Orderly(items: seq<Msg>, handled: multiset<Msg>, lost: multiset<Msg>, hands: multiset<Msg>, exited: nat) {
    && TerminatesLast(items) && lost[Terminate] == 0 && handled[Terminate] == exited
    && (handled[Terminate] + hands[Terminate] > 0 ==> OnlyTerminates(items))
  }

  /** Terminates follow all the work, are never overrun, and each one that was handled has ended
      a worker. */
  ghost predicate Draining(s: State) {
    Orderly(s.queue.items, s.handled, s.lost, InHand(s.threads), Sum(s.threads, ExitedWorker))
  }

  predicate AllDone(threads: seq<Thread>) {
    && |threads| > 0 && IsDone(threads[0])
    && forall k :: 0 <= k < |threads| && threads[k].Worker? ==> IsDone(threads[k])
  }

  ghost predicate Inv(s: State, n: nat) {
    && s.queue.Valid() && s.queue.enabled && s.queue.capacity >= 1 && n >= 1
    && AllBusy(s) && MutexHeld(s) && Conserved(s) && Roles(s, n) && Draining(s) && WakeupsKept(s)
    && (s.joined ==> AllDone(s.threads))
  }

  /** Before the destructor begins no terminate was posted, so none is stored. */
  lemma NoTerminateYet(s: State, n: nat)
    requires Conserved(s) && Roles(s, n) && !Closing(s, n)
    ensures forall k :: 0 <= k < |s.queue.items| ==> s.queue.items[k].Work?
    ensures s.posted[Terminate] == 0 && s.handled[Terminate] == 0 && InHand(s.threads)[Terminate] == 0
  {
    forall k | 0 <= k < |s.queue.items|
      ensures s.queue.items[k].Work?
    {
      assert s.queue.items[k] in multiset(s.queue.items);
    }
  }

  /** Whose turn it is to push: only the destructor's once it has begun. */
  lemma Pusher(s: State, n: nat, i: nat)
    requires Inv(s, n) && i < |s.threads| && s.threads[i].Producer? && !IsDone(s.threads[i])
    ensures i == 0 || !Closing(s, n)
  {
  }

  lemma BusyStep(s: State, step: Step, n: nat)
    requires Inv(s, n) && Enabled(s, step)
    ensures AllBusy(Apply(s, step))
  {
    hide Sum, InHand, Conserved, Draining, WakeupsKept, Roles, IsDone, ProducersDone, MutexHeld, Push, Take;
    if !step.Join? {
      assert Busy(s.threads[step.i]);
      hide Busy;
      if step.Notify? && step.j != step.i {
        assert Busy(s.threads[step.j]);
        BusyAfterNotify(s.threads[step.i], s.threads[step.j]);
      } else {
        if !step.Notify? {
          StepShape(s, step);
        }
        BusyAfter(s, step);
      }
    }
  }

  lemma BusyAfterNotify(t: Thread, sleeper: Thread)
    requires Notifies(t) && Sleeps(sleeper) && Busy(sleeper)
    ensures Busy(AfterNotify(t)) && Busy(AfterWake(sleeper, false))
  {
  }

  lemma BusyAfter(s: State, step: Step)
    requires Enabled(s, step) && !step.Join? && Busy(s.threads[step.i]) && (step.Notify? ==> step.j == step.i)
    ensures Busy(Apply(s, step).threads[step.i])
  {
    hide MayWake, IsDone, ProducersDone;
  }

  /** One thread changes, and takes, keeps or gives up the mutex. */
  lemma MutexChange(s: State, i: nat, t: Thread, r: State)
    requires MutexHeld(s) && i < |s.threads| && r.threads == s.threads[i := t]
    requires HoldsMutex(t) <==> r.mutex == Some(i)
    requires r.mutex == s.mutex || ((s.mutex == None || s.mutex == Some(i)) && (r.mutex == None || r.mutex == Some(i)))
    ensures MutexHeld(r)
  {
  }

  lemma MutexStep(s: State, step: Step, n: nat)
    requires Inv(s, n) && Enabled(s, step)
    ensures MutexHeld(Apply(s, step))
  {
    hide Sum, Conserved, Draining, WakeupsKept, Roles, IsDone, ProducersDone, AllBusy, Push, Take;
    if step.Join? {
      return;
    }
    var i, r := step.i, Apply(s, step);
    assert HoldsMutex(s.threads[i]) <==> s.mutex == Some(i);
    hide MutexHeld, Inv;
    if step.Notify? && step.j != i {
      MutexNotify(s, i, step.j);
    } else {
      hide MayWake;
      if step.Act? {
        TurnTaken(s, i);
      }
      MutexChange(s, i, r.threads[i], r);
    }
  }

  /** A turn changes one thread, which gives up the mutex. */
  lemma TurnTaken(s: State, i: nat)
    requires i < |s.threads| && HoldsMutex(s.threads[i]) && Busy(s.threads[i])
    ensures var r := if s.threads[i].Producer? then Push(s, i) else Take(s, i);
            && r.mutex == None && r.threads == s.threads[i := r.threads[i]] && !HoldsMutex(r.threads[i])
            && r.threads[i].Producer? == s.threads[i].Producer? && (s.threads[i].Worker? ==> r.posted == s.posted)
  {
  }

  lemma MutexNotify(s: State, i: nat, j: nat)
    requires MutexHeld(s) && i < |s.threads| && j < |s.threads| && i != j && Notifies(s.threads[i]) && Sleeps(s.threads[j])
    ensures MutexHeld(With(With(s, j, AfterWake(s.threads[j], false)), i, AfterNotify(s.threads[i])))
  {
    SleeperHoldsNothing(s, i);
    SleeperHoldsNothing(s, j);
    hide MutexHeld;
    var mid := With(s, j, AfterWake(s.threads[j], false));
    MutexChange(s, j, mid.threads[j], mid);
    MutexChange(mid, i, AfterNotify(s.threads[i]), With(mid, i, AfterNotify(s.threads[i])));
  }

  lemma SleeperHoldsNothing(s: State, j: nat)
    requires MutexHeld(s) && j < |s.threads| && !HoldsMutex(s.threads[j])
    ensures s.mutex != Some(j)
  {
  }

  lemma QueueKept(s: State, step: Step, n: nat)
    requires Inv(s, n) && Enabled(s, step)
    ensures var q := Apply(s, step).queue; q.Valid() && q.enabled && q.capacity == s.queue.capacity
  {
    hide Sum, InHand, Conserved, Draining, WakeupsKept, Roles;
  }

  /** The books that must balance, and the order of the queue. */
  ghost predicate Books(s: State) { Conserved(s) && Draining(s) }

  /** A change of a thread that leaves its hands, its kind and its script alone. */
  predicate Quiet(t: Thread, t': Thread) {
    && Held(t') == Held(t) && ExitedWorker(t') == ExitedWorker(t) && t.Producer? == t'.Producer?
    && (t.Producer? ==> t'.todo == t.todo)
  }

  lemma QuietKeeps(threads: seq<Thread>, i: nat, t: Thread)
    requires i < |threads| && Quiet(threads[i], t)
    ensures InHand(threads[i := t]) == InHand(threads)
    ensures Sum(threads[i := t], ExitedWorker) == Sum(threads, ExitedWorker)
    ensures Sum(threads[i := t], AnyWorker) == Sum(threads, AnyWorker)
  {
    InHandUpdate(threads, i, t);
    SumUpdate(threads, i, t, ExitedWorker);
    SumUpdate(threads, i, t, AnyWorker);
  }

  /** A worker's hands after it has taken or handled a message. */
  lemma HandsChange(threads: seq<Thread>, i: nat, t: Thread)
    requires i < |threads|
    ensures InHand(threads[i := t]) + Held(threads[i]) == InHand(threads) + Held(t)
    ensures Sum(threads[i := t], ExitedWorker) == Sum(threads, ExitedWorker) - ExitedWorker(threads[i]) + ExitedWorker(t)
  {
    InHandUpdate(threads, i, t);
    SumUpdate(threads, i, t, ExitedWorker);
  }

  lemma SameHands(threads: seq<Thread>, i: nat, t: Thread)
    requires i < |threads| && Held(t) == Held(threads[i]) && ExitedWorker(t) == ExitedWorker(threads[i])
    ensures InHand(threads[i := t]) == InHand(threads)
    ensures Sum(threads[i := t], ExitedWorker) == Sum(threads, ExitedWorker)
  {
    InHandUpdate(threads, i, t);
    SumUpdate(threads, i, t, ExitedWorker);
  }

  lemma BooksQuiet(s: State, i: nat, t: Thread, mutex: Option<nat>)
    requires Books(s) && i < |s.threads| && Quiet(s.threads[i], t)
    ensures Books(With(s, i, t).(mutex := mutex))
  {
    hide InHand, Sum, Held, Balanced, Orderly;
    QuietKeeps(s.threads, i, t);
  }

  ghost predicate Kept(q: Fifo<Msg>, posted: multiset<Msg>, handled: multiset<Msg>, lost: multiset<Msg>, hands: multiset<Msg>, exited: nat) {
    Balanced(posted, handled, lost, q, hands) && Orderly(q.items, handled, lost, hands, exited)
  }

  lemma KeptByHandling(q: Fifo<Msg>, posted: multiset<Msg>, handled: multiset<Msg>, lost: multiset<Msg>, hands: multiset<Msg>, hands': multiset<Msg>, exited: nat, m: Msg)
    requires Kept(q, posted, handled, lost, hands, exited) && hands' + multiset{m} == hands
    ensures Kept(q, posted, handled + multiset{m}, lost, hands', exited + One(m.Terminate?))
  {
  }

  lemma KeptByTaking(q: Fifo<Msg>, posted: multiset<Msg>, handled: multiset<Msg>, lost: multiset<Msg>, hands: multiset<Msg>, exited: nat)
    requires Kept(q, posted, handled, lost, hands, exited) && q.items != []
    ensures Kept(q.Pop(), posted, handled, lost, hands + multiset{q.items[0]}, exited)
  {
    FrontAndRest(q.items);
  }

  lemma KeptByPushing(q: Fifo<Msg>, posted: multiset<Msg>, handled: multiset<Msg>, lost: multiset<Msg>, hands: multiset<Msg>, exited: nat, m: Msg)
    requires Kept(q, posted, handled, lost, hands, exited) && q.enabled && (m.Terminate? ==> !q.IsFull())
    requires m.Work? ==> handled[Terminate] == 0 == hands[Terminate] && forall k :: 0 <= k < |q.items| ==> q.items[k].Work?
    ensures Kept(q.Push(m), posted + multiset{m}, handled, if q.IsFull() then lost + multiset{(q.items + [m])[0]} else lost, hands, exited)
  {
    var all := q.items + [m];
    FrontAndRest(all);
    assert multiset(all) == multiset(q.items) + multiset{m};
    var lost' := if q.IsFull() then lost + multiset{all[0]} else lost;
    assert posted + multiset{m} == handled + lost + multiset(all) + hands;
    assert handled + lost' + multiset(q.Push(m).items) + hands == handled + lost + multiset(all) + hands;
  }

  lemma FrontAndRest(items: seq<Msg>)
    requires items != []
    ensures multiset(items) == multiset{items[0]} + multiset(items[1..])
  {
    assert items == [items[0]] + items[1..];
  }

  lemma BooksHandle(s: State, i: nat)
    requires Books(s) && i < |s.threads| && s.threads[i].Worker? && s.threads[i].w.Handling?
    ensures var m := s.threads[i].w.handled; Books(With(s, i, AfterHandle(m)).(handled := s.handled + multiset{m}))
  {
    hide InHand, Sum, Balanced, Orderly;
    var m := s.threads[i].w.handled;
    var after := s.threads[i := AfterHandle(m)];
    HandsChange(s.threads, i, AfterHandle(m));
    assert Held(s.threads[i]) == multiset{m} && Held(AfterHandle(m)) == multiset{};
    assert InHand(after) + multiset{m} == InHand(s.threads);
    KeptByHandling(s.queue, s.posted, s.handled, s.lost, InHand(s.threads), InHand(after), Sum(s.threads, ExitedWorker), m);
  }

  lemma BooksTake(s: State, i: nat)
    requires Books(s) && i < |s.threads| && s.threads[i].Worker? && s.threads[i].w.Testing?
    ensures Books(Take(s, i))
  {
    hide Books;
    if s.queue.items == [] {
      BooksQuiet(s, i, Worker(if s.threads[i].w.timedOut then Locking else Waiting), None);
    } else {
      BooksTakeFront(s, i);
    }
  }

  lemma TakenInHand(threads: seq<Thread>, i: nat, m: Msg)
    requires i < |threads| && Held(threads[i]) == multiset{} && ExitedWorker(threads[i]) == 0
    ensures InHand(threads[i := Worker(Announcing(m))]) == InHand(threads) + multiset{m}
    ensures Sum(threads[i := Worker(Announcing(m))], ExitedWorker) == Sum(threads, ExitedWorker)
  {
    HandsChange(threads, i, Worker(Announcing(m)));
    hide InHand, Sum;
  }

  lemma BooksTakeFront(s: State, i: nat)
    requires Books(s) && i < |s.threads| && s.threads[i].Worker? && s.threads[i].w.Testing? && s.queue.items != []
    ensures Books(With(s, i, Worker(Announcing(s.queue.items[0]))).(mutex := None, queue := s.queue.Pop()))
  {
    TakenInHand(s.threads, i, s.queue.items[0]);
    hide InHand, Sum, Held, Balanced, Orderly;
    KeptByTaking(s.queue, s.posted, s.handled, s.lost, InHand(s.threads), Sum(s.threads, ExitedWorker));
  }

  /** What the producer's turn relies on: only terminates once there are some, and they wait. */
  ghost predicate MayPush(s: State, post: Post) {
    if post.msg.Terminate? then post.block
    else
      && s.handled[Terminate] == 0 && InHand(s.threads)[Terminate] == 0
      && forall k :: 0 <= k < |s.queue.items| ==> s.queue.items[k].Work?
  }

  lemma BooksPush(s: State, i: nat)
    requires Books(s) && s.queue.Valid() && s.queue.enabled && i < |s.threads| && s.threads[i].Producer? && s.threads[i].todo != []
    requires MayPush(s, s.threads[i].todo[0])
    ensures Books(Push(s, i))
  {
    hide Books, MayPush;
    var t := s.threads[i];
    if t.todo[0].block && s.queue.IsFull() {
      BooksQuiet(s, i, t.(p := Asleep), None);
    } else {
      BooksPushBack(s, i, t.todo[0], t.todo[1..]);
    }
  }

  lemma BooksPushBack(s: State, i: nat, post: Post, rest: seq<Post>)
    requires Books(s) && s.queue.Valid() && s.queue.enabled && i < |s.threads| && s.threads[i].Producer?
    requires MayPush(s, post) && !(post.block && s.queue.IsFull())
    ensures Books(With(s, i, Producer(rest, Notifying)).(
              mutex := None, queue := s.queue.Push(post.msg), posted := s.posted + multiset{post.msg},
              lost := if s.queue.IsFull() then s.lost + multiset{(s.queue.items + [post.msg])[0]} else s.lost))
  {
    SameHands(s.threads, i, Producer(rest, Notifying));
    hide InHand, Sum, Held, Balanced, Orderly;
    KeptByPushing(s.queue, s.posted, s.handled, s.lost, InHand(s.threads), Sum(s.threads, ExitedWorker), post.msg);
  }

  lemma TurnToPush(s: State, i: nat, n: nat)
    requires Inv(s, n) && i < |s.threads| && s.threads[i].Producer? && s.threads[i].p == Inside
    ensures s.threads[i].todo != [] && MayPush(s, s.threads[i].todo[0])
  {
    assert Busy(s.threads[i]);
    Pusher(s, n, i);
    if i == 0 {
      assert s.threads[0].todo[0] == Post(Terminate, true);
    } else {
      NoTerminateYet(s, n);
      assert s.threads[i].todo[0].msg.Work?;
    }
  }

  lemma BooksAct(s: State, i: nat, n: nat)
    requires Inv(s, n) && i < |s.threads| && HoldsMutex(s.threads[i])
    ensures Busy(s.threads[i]) && Books(if s.threads[i].Producer? then Push(s, i) else Take(s, i))
  {
    if s.threads[i].Producer? {
      TurnToPush(s, i, n);
      hide Conserved, Draining, Roles, WakeupsKept, AllBusy, MutexHeld, Push;
      BooksPush(s, i);
    } else {
      hide Conserved, Draining, Roles, WakeupsKept, AllBusy, MutexHeld, Take;
      BooksTake(s, i);
    }
  }

  lemma BooksNotify(s: State, i: nat, j: nat)
    requires Books(s) && Enabled(s, Notify(i, j))
    ensures Books(Apply(s, Notify(i, j)))
  {
    hide Books;
    if j == i {
      BooksQuiet(s, i, AfterNotify(s.threads[i]), s.mutex);
    } else {
      var mid := With(s, j, AfterWake(s.threads[j], false));
      BooksQuiet(s, j, AfterWake(s.threads[j], false), s.mutex);
      BooksQuiet(mid, i, AfterNotify(s.threads[i]), s.mutex);
    }
  }

  lemma BooksStep(s: State, step: Step, n: nat)
    requires Inv(s, n) && Enabled(s, step)
    ensures Books(Apply(s, step))
  {
    hide Conserved, Draining, Roles, WakeupsKept, AllBusy, MutexHeld, ProducersDone, IsDone, MayWake, Push, Take;
    assert Books(s);
    hide Books;
    if step.Begin? || step.Acquire? || step.SpuriousWake? || step.Timeout? {
      StepShape(s, step);
      hide Inv, Enabled, Quiet, Apply;
      BooksQuiet(s, step.i, Apply(s, step).threads[step.i], Apply(s, step).mutex);
      return;
    }
    match step
    case Act(i) => BooksAct(s, i, n);
    case Handle(i) => BooksHandle(s, i);
    case Notify(i, j) => BooksNotify(s, i, j);
    case Join => BooksJoined(s);
  }

  lemma BooksJoined(s: State)
    requires Books(s)
    ensures Books(s.(joined := true))
  {
  }

  // ----- who may post what -----

  lemma RolesQuiet(s: State, i: nat, t: Thread, mutex: Option<nat>, n: nat)
    requires Roles(s, n) && i < |s.threads| && Quiet(s.threads[i], t)
    requires s.threads[i].Producer? ==> if i == 0 then ProducersDone(s.threads) else !Closing(s, n)
    ensures Roles(With(s, i, t).(mutex := mutex), n)
  {
    hide Sum, InHand, Held, ExitedWorker, AnyWorker, PostsTerminates, PostsWork, ProducersDone;
    QuietKeeps(s.threads, i, t);
    var r := With(s, i, t);
    if i == 0 || s.threads[i].Worker? {
      OthersDone(s.threads, i, t);
    } else {
      assert !Closing(r, n);
    }
  }

  /** Whether the other producers are done does not depend on the destructor or a worker. */
  lemma OthersDone(threads: seq<Thread>, i: nat, t: Thread)
    requires i < |threads| && (i == 0 || (threads[i].Worker? && t.Worker?))
    ensures ProducersDone(threads[i := t]) <==> ProducersDone(threads)
  {
    hide IsDone;
    var after := threads[i := t];
    assert forall k :: 0 <= k < |threads| && k != i ==> after[k] == threads[k];
  }

  lemma RolesPush(s: State, i: nat, n: nat)
    requires Roles(s, n) && i < |s.threads| && s.threads[i].Producer? && s.threads[i].todo != []
    requires if i == 0 then ProducersDone(s.threads) else !Closing(s, n)
    ensures Roles(Push(s, i), n)
  {
    var t := s.threads[i];
    if t.todo[0].block && s.queue.IsFull() {
      RolesQuiet(s, i, t.(p := Asleep), None, n);
    } else {
      var t' := Producer(t.todo[1..], Notifying);
      SumUpdate(s.threads, i, t', AnyWorker);
      hide Sum;
      if i == 0 {
        assert t.todo[0] == Post(Terminate, true);
      } else {
        assert t.todo[0].msg.Work?;
      }
    }
  }

  lemma RolesWorker(s: State, i: nat, t: Thread, n: nat, r: State)
    requires Roles(s, n) && i < |s.threads| && s.threads[i].Worker? && t.Worker?
    requires r.threads == s.threads[i := t] && r.posted == s.posted
    ensures Roles(r, n)
  {
    SumUpdate(s.threads, i, t, AnyWorker);
    hide Sum;
  }

  lemma Turn(s: State, i: nat, n: nat)
    requires Inv(s, n) && i < |s.threads| && s.threads[i].Producer? && s.threads[i].p != Idle
    ensures if i == 0 then ProducersDone(s.threads) else !Closing(s, n)
  {
    Pusher(s, n, i);
  }

  /** One thread takes a step by itself; only a turn with the mutex or handling a message changes
      more than the thread and the mutex. */
  lemma StepShape(s: State, step: Step)
    requires Enabled(s, step) && !step.Join? && !step.Notify?
    ensures var i, r := step.i, Apply(s, step);
            && r.threads == s.threads[i := r.threads[i]] && r.threads[i].Producer? == s.threads[i].Producer?
            && (s.threads[i].Worker? ==> r.posted == s.posted)
            && (!step.Act? && !step.Handle? ==> Quiet(s.threads[i], r.threads[i]) && r == With(s, i, r.threads[i]).(mutex := r.mutex))
  {
    hide MayWake, IsDone, ProducersDone, Quiet, AfterAcquire, AfterWake, Push, Take;
    var i := step.i;
    var t := s.threads[i];
    match step
    case Act(_) => TurnTaken(s, i);
    case Begin(_) =>
      QuietBegin(t);
      OneChanged(s, i, t.(p := AtLock), s.mutex);
    case Acquire(_) =>
      QuietAcquire(t);
      OneChanged(s, i, AfterAcquire(t), Some(i));
    case Handle(_) => OneChanged(s, i, AfterHandle(t.w.handled), s.mutex);
    case SpuriousWake(_) =>
      QuietWake(t, false);
      OneChanged(s, i, AfterWake(t, false), s.mutex);
    case Timeout(_) =>
      QuietWake(t, true);
      OneChanged(s, i, AfterWake(t, true), s.mutex);
  }

  lemma QuietBegin(t: Thread)
    requires t.Producer?
    ensures Quiet(t, t.(p := AtLock))
  {
  }

  lemma QuietAcquire(t: Thread)
    requires WaitsForMutex(t)
    ensures Quiet(t, AfterAcquire(t)) && AfterAcquire(t).Producer? == t.Producer?
  {
  }

  lemma QuietWake(t: Thread, timedOut: bool)
    requires Sleeps(t)
    ensures Quiet(t, AfterWake(t, timedOut)) && AfterWake(t, timedOut).Producer? == t.Producer?
  {
  }

  lemma OneChanged(s: State, i: nat, t: Thread, mutex: Option<nat>)
    requires i < |s.threads|
    ensures var r := With(s, i, t).(mutex := mutex); r.threads[i] == t && r == With(s, i, r.threads[i]).(mutex := r.mutex)
  {
  }

  lemma RolesStep(s: State, step: Step, n: nat)
    requires Inv(s, n) && Enabled(s, step)
    ensures Roles(Apply(s, step), n)
  {
    hide Sum, Conserved, Draining, WakeupsKept, AllBusy, MutexHeld, MayWake, IsDone;
    if step.Join? {
      return;
    }
    var i := step.i;
    if s.threads[i].Producer? && s.threads[i].p != Idle {
      Turn(s, i, n);
    }
    if step.Begin? {
      Beginning(s, i, n);
    }
    if step.Notify? {
      RolesNotify(s, i, step.j, n);
    } else {
      var r := Apply(s, step);
      StepShape(s, step);
      hide Roles, ProducersDone, Closing, Push, Take, Quiet, Enabled;
      if s.threads[i].Worker? {
        RolesWorker(s, i, r.threads[i], n, r);
      } else if step.Act? {
        RolesPush(s, i, n);
      } else {
        RolesQuiet(s, i, r.threads[i], r.mutex, n);
      }
    }
  }

  lemma Beginning(s: State, i: nat, n: nat)
    requires Inv(s, n) && Enabled(s, Begin(i))
    ensures if i == 0 then ProducersDone(s.threads) else !Closing(s, n)
  {
    if i != 0 {
      Pusher(s, n, i);
    }
  }

  lemma RolesNotify(s: State, i: nat, j: nat, n: nat)
    requires Inv(s, n) && Enabled(s, Notify(i, j))
    ensures Roles(Apply(s, Notify(i, j)), n)
  {
    if s.threads[i].Producer? {
      Turn(s, i, n);
    }
    if j != i {
      if s.threads[j].Producer? {
        Turn(s, j, n);
      }
      hide Conserved, Draining, WakeupsKept, AllBusy, MutexHeld, MayWake, Roles, ProducersDone;
      if s.threads[i].Producer? {
        RolesWakeWorker(s, i, j, n);
      } else {
        RolesWakeProducer(s, i, j, n);
      }
    } else {
      RolesQuiet(s, i, AfterNotify(s.threads[i]), s.mutex, n);
    }
  }

  lemma RolesWakeWorker(s: State, i: nat, j: nat, n: nat)
    requires Roles(s, n) && i < |s.threads| && j < |s.threads| && i != j && s.threads[i].Producer? && Notifies(s.threads[i])
    requires s.threads[j].Worker? && Sleeps(s.threads[j]) && (if i == 0 then ProducersDone(s.threads) else !Closing(s, n))
    ensures Roles(With(With(s, j, AfterWake(s.threads[j], false)), i, AfterNotify(s.threads[i])), n)
  {
    var r := With(s, i, AfterNotify(s.threads[i]));
    RolesQuiet(s, i, AfterNotify(s.threads[i]), s.mutex, n);
    RolesWorker(r, j, AfterWake(s.threads[j], false), n, With(r, j, AfterWake(s.threads[j], false)));
    assert s.threads[i := AfterNotify(s.threads[i])][j := AfterWake(s.threads[j], false)] ==
           s.threads[j := AfterWake(s.threads[j], false)][i := AfterNotify(s.threads[i])];
  }

  lemma RolesWakeProducer(s: State, i: nat, j: nat, n: nat)
    requires Roles(s, n) && i < |s.threads| && j < |s.threads| && i != j && s.threads[i].Worker? && Notifies(s.threads[i])
    requires s.threads[j].Producer? && Sleeps(s.threads[j]) && (if j == 0 then ProducersDone(s.threads) else !Closing(s, n))
    ensures Roles(With(With(s, j, AfterWake(s.threads[j], false)), i, AfterNotify(s.threads[i])), n)
  {
    var r := With(s, j, AfterWake(s.threads[j], false));
    RolesQuiet(s, j, AfterWake(s.threads[j], false), s.mutex, n);
    RolesWorker(r, i, AfterNotify(s.threads[i]), n, With(r, i, AfterNotify(s.threads[i])));
  }

  // ----- every step, every run -----

  /** Once the pool is joined nothing moves. */
  lemma JoinedStops(s: State, step: Step, n: nat)
    requires Inv(s, n) && s.joined
    ensures !Enabled(s, step)
  {
    hide Conserved, Draining, WakeupsKept;
    assert Closing(s, n);
  }

  lemma InvStep(s: State, step: Step, n: nat)
    requires Inv(s, n) && Enabled(s, step)
    ensures Inv(Apply(s, step), n)
  {
    if s.joined {
      JoinedStops(s, step, n);
    }
    BooksStep(s, step, n);
    RolesStep(s, step, n);
    QueueKept(s, step, n);
    BusyStep(s, step, n);
    MutexStep(s, step, n);
    WakeupsStep(s, step, n);
    hide Conserved, Draining, WakeupsKept, Roles, AllBusy, MutexHeld;
  }

  lemma WakeupsStep(s: State, step: Step, n: nat)
    requires Inv(s, n) && Enabled(s, step)
    ensures WakeupsKept(Apply(s, step))
  {
    hide Conserved, Draining, Roles, AllBusy, MutexHeld, ProducersHeard, WorkersHeard;
    if step.Notify? {
      WakeupsKeptByNotify(s, step.i, step.j);
    } else if step.Act? {
      if s.threads[step.i].Producer? {
        WakeupsKeptByPush(s, step.i);
      } else {
        WakeupsKeptByTake(s, step.i);
      }
    } else if !step.Join? {
      WakeupsKeptByThread(s, step);
    }
  }

  /** A fresh pool: nobody is at the queue, and the destructor will post n terminates. */
  ghost predicate Initial(s: State, n: nat) {
    && n >= 1 && Sum(s.threads, AnyWorker) == n
    && |s.threads| > 0 && s.threads[0].Producer? && PostsTerminates(s.threads[0].todo) && |s.threads[0].todo| == n
    && (forall k :: 0 < k < |s.threads| && s.threads[k].Producer? ==> PostsWork(s.threads[k].todo))
    && (forall k :: 0 <= k < |s.threads| ==> s.threads[k] == if s.threads[k].Producer? then s.threads[k].(p := Idle) else Worker(Locking))
    && s.mutex == None && s.queue == Fifo([], s.queue.capacity, true, 0) && s.queue.capacity >= 1
    && s.posted == multiset{} && s.handled == multiset{} && s.lost == multiset{} && !s.joined
  }

  lemma InitialInv(s: State, n: nat)
    requires Initial(s, n)
    ensures Inv(s, n)
  {
    InHandEmpty(s.threads);
    SumZero(s.threads, ExitedWorker);
    SumZero(s.threads, SleepingProducer);
    SumZero(s.threads, SleepingWorker);
  }

  /** A run from s to r. */
  ghost predicate Runs(s: State, steps: seq<Step>, r: State)
    decreases |steps|
  {
    if steps == [] then r == s
    else Enabled(s, steps[0]) && Runs(Apply(s, steps[0]), steps[1..], r)
  }

  lemma {:induction false} InvRun(s: State, steps: seq<Step>, r: State, n: nat)
    requires Inv(s, n) && Runs(s, steps, r)
    ensures Inv(r, n)
    decreases |steps|
  {
    if steps != [] {
      InvStep(s, steps[0], n);
      InvRun(Apply(s, steps[0]), steps[1..], r, n);
    }
  }

  // ----- shutdown drains the queue -----

  lemma {:induction false} AllExited(threads: seq<Thread>)
    requires forall k :: 0 <= k < |threads| && threads[k].Worker? ==> IsDone(threads[k])
    ensures Sum(threads, ExitedWorker) == Sum(threads, AnyWorker) && InHand(threads) == multiset{}
    decreases |threads|
  {
    if threads != [] {
      assert forall k :: 0 <= k < |threads[1..]| ==> threads[1..][k] == threads[k + 1];
      AllExited(threads[1..]);
    }
  }

  /** When the destructor returns, each worker has exited after exactly one terminate, and every
      message that was ever posted was handled exactly once or counted as overrun. */
  lemma Drained(s: State, n: nat)
    requires Inv(s, n) && s.joined
    ensures s.queue.items == [] && AllDone(s.threads)
    ensures s.posted == s.handled + s.lost && s.queue.overrun == |s.lost|
    ensures s.posted[Terminate] == s.handled[Terminate] == n && s.lost[Terminate] == 0
  {
    AllExited(s.threads);
    hide WakeupsKept, AllBusy, MutexHeld, Sum, InHand;
    SomeTerminate(s.queue.items);
  }

  /** Drained, over every run of a fresh pool. */
  lemma ShutdownDrains(s: State, steps: seq<Step>, r: State, n: nat)
    requires Initial(s, n) && Runs(s, steps, r) && r.joined
    ensures r.queue.items == [] && AllDone(r.threads)
    ensures r.posted == r.handled + r.lost && r.queue.overrun == |r.lost|
    ensures r.posted[Terminate] == r.handled[Terminate] == n && r.lost[Terminate] == 0
  {
    InitialInv(s, n);
    InvRun(s, steps, r, n);
    Drained(r, n);
  }

  // ----- progress -----

  /** A thread that cannot move by itself. */
  predicate Resting(t: Thread) { Sleeps(t) || (t.Producer? && t.p == Idle) || (t.Worker? && t.w == Exited) }

  /** Whom k's notification wakes, or k itself. */
  lemma SomeoneHears(s: State, k: nat) returns (j: nat)
    requires k < |s.threads|
    ensures MayWake(s, k, j)
  {
    if exists m :: 0 <= m < |s.threads| && Hears(s.threads[m], s.threads[k]) {
      j :| 0 <= j < |s.threads| && Hears(s.threads[j], s.threads[k]);
    } else {
      j := k;
    }
  }

  /** A thread at the queue can move, or waits for one that can. */
  lemma Moves(s: State, n: nat, k: nat) returns (step: Step)
    requires Inv(s, n) && k < |s.threads| && !Resting(s.threads[k])
    ensures !Environmental(step) && Enabled(s, step)
  {
    hide Conserved, Draining, WakeupsKept, Roles, ProducersDone, IsDone;
    assert Busy(s.threads[k]);
    if WaitsForMutex(s.threads[k]) {
      if s.mutex == None {
        step := Acquire(k);
      } else {
        var i := s.mutex.value;
        assert HoldsMutex(s.threads[i]) && Busy(s.threads[i]);
        step := Act(i);
      }
    } else if HoldsMutex(s.threads[k]) {
      step := Act(k);
    } else if Notifies(s.threads[k]) {
      var j := SomeoneHears(s, k);
      step := Notify(k, j);
    } else {
      step := Handle(k);
    }
  }

  lemma RestingCounts(threads: seq<Thread>)
    requires forall k :: 0 <= k < |threads| ==> Resting(threads[k])
    ensures Sum(threads, RetryingProducer) == 0 && Sum(threads, RetryingWorker) == 0
    ensures Sum(threads, NotifyingProducer) == 0 && Sum(threads, NotifyingWorker) == 0
    ensures InHand(threads) == multiset{}
  {
    SumZero(threads, RetryingProducer);
    SumZero(threads, RetryingWorker);
    SumZero(threads, NotifyingProducer);
    SumZero(threads, NotifyingWorker);
    InHandEmpty(threads);
  }

  /** Nobody sleeps beside available work: when all threads rest, producers sleep only at a full
      queue, and workers only at an empty one. */
  lemma NoSleepBesideWork(s: State, n: nat)
    requires Inv(s, n) && forall k :: 0 <= k < |s.threads| ==> Resting(s.threads[k])
    ensures forall k :: 0 <= k < |s.threads| && Sleeps(s.threads[k]) ==>
              if s.threads[k].Producer? then s.queue.IsFull() else s.queue.items == []
  {
    RestingCounts(s.threads);
    forall k | 0 <= k < |s.threads| && Sleeps(s.threads[k])
      ensures if s.threads[k].Producer? then s.queue.IsFull() else s.queue.items == []
    {
      if s.threads[k].Producer? {
        SumAtLeast(s.threads, k, SleepingProducer);
      } else {
        SumAtLeast(s.threads, k, SleepingWorker);
      }
    }
  }

  /** A worker that has not exited while all threads rest waits at an empty queue. */
  lemma SomeWorkerWaits(s: State, n: nat) returns (k: nat)
    requires Inv(s, n) && (forall k :: 0 <= k < |s.threads| ==> Resting(s.threads[k])) && !AllWorkersDone(s.threads)
    ensures k < |s.threads| && s.threads[k].Worker? && Sleeps(s.threads[k]) && s.queue.items == []
  {
    NoSleepBesideWork(s, n);
    k :| 0 <= k < |s.threads| && s.threads[k].Worker? && !IsDone(s.threads[k]);
  }

  predicate AllWorkersDone(threads: seq<Thread>) {
    forall k :: 0 <= k < |threads| && threads[k].Worker? ==> IsDone(threads[k])
  }

  /** With a worker still alive, a producer with something to post can begin. */
  lemma ProducersFinish(s: State, n: nat)
    requires Inv(s, n) && (forall k :: 0 <= k < |s.threads| ==> Resting(s.threads[k])) && s.queue.items == []
    requires forall k :: 0 <= k < |s.threads| ==> !Enabled(s, Begin(k))
    ensures ProducersDone(s.threads) && IsDone(s.threads[0])
  {
    NoSleepBesideWork(s, n);
    hide Conserved, Draining, WakeupsKept;
    forall k | 0 < k < |s.threads| && s.threads[k].Producer?
      ensures IsDone(s.threads[k])
    {
      assert Resting(s.threads[k]) && !Enabled(s, Begin(k));
    }
    assert Resting(s.threads[0]) && !Enabled(s, Begin(0));
  }

  /** With all terminates posted and nothing stored or in hand, all workers have exited. */
  lemma WorkersFinish(s: State, n: nat)
    requires Inv(s, n) && (forall k :: 0 <= k < |s.threads| ==> Resting(s.threads[k])) && s.queue.items == [] && IsDone(s.threads[0])
    ensures AllWorkersDone(s.threads)
  {
    RestingCounts(s.threads);
    assert Sum(s.threads, ExitedWorker) == Sum(s.threads, AnyWorker) by {
      hide WakeupsKept, AllBusy, MutexHeld, Sum, InHand;
      assert s.posted[Terminate] == n;
    }
    EveryWorkerExited(s.threads);
  }

  lemma {:induction false} EveryWorkerExited(threads: seq<Thread>)
    requires Sum(threads, ExitedWorker) == Sum(threads, AnyWorker)
    ensures AllWorkersDone(threads)
    decreases |threads|
  {
    if threads != [] {
      ExitedAtMost(threads[1..]);
      EveryWorkerExited(threads[1..]);
      forall k | 0 <= k < |threads| && threads[k].Worker?
        ensures IsDone(threads[k])
      {
        assert k > 0 ==> threads[k] == threads[1..][k - 1];
      }
    }
  }

  lemma {:induction false} ExitedAtMost(threads: seq<Thread>)
    ensures Sum(threads, ExitedWorker) <= Sum(threads, AnyWorker)
    decreases |threads|
  {
    if threads != [] {
      ExitedAtMost(threads[1..]);
    }
  }

  /** All workers exited only when everything was posted. */
  lemma PostedAll(s: State, n: nat)
    requires Inv(s, n) && AllWorkersDone(s.threads) && forall k :: 0 <= k < |s.threads| ==> Resting(s.threads[k])
    ensures s.threads[0].todo == [] && ProducersDone(s.threads) && s.queue.items == []
  {
    AllExited(s.threads);
    hide WakeupsKept, AllBusy, MutexHeld, Sum, InHand;
    assert s.handled[Terminate] == n;
    assert s.posted[Terminate] == n && multiset(s.queue.items)[Terminate] == 0;
    SomeTerminate(s.queue.items);
    assert Closing(s, n);
  }

  lemma SomeTerminate(items: seq<Msg>)
    ensures items != [] && OnlyTerminates(items) ==> multiset(items)[Terminate] > 0
  {
    if items != [] && OnlyTerminates(items) {
      assert items[0] in multiset(items);
    }
  }

  /** The pool never gets stuck: until the destructor has joined its workers, some thread can
      take a step, without any spurious wake-up or timeout. */
  lemma Progress(s: State, n: nat) returns (step: Step)
    requires Inv(s, n) && !s.joined
    ensures !Environmental(step) && Enabled(s, step)
  {
    if k :| 0 <= k < |s.threads| && !Resting(s.threads[k]) {
      step := Moves(s, n, k);
    } else if k :| 0 <= k < |s.threads| && Enabled(s, Begin(k)) {
      step := Begin(k);
    } else {
      if !AllWorkersDone(s.threads) {
        var w := SomeWorkerWaits(s, n);
        ProducersFinish(s, n);
        WorkersFinish(s, n);
      } else {
        PostedAll(s, n);
        DestructorDone(s, n);
      }
      hide Conserved, Draining, WakeupsKept, Roles, AllBusy, MutexHeld;
      step := Join;
    }
  }

  lemma DestructorDone(s: State, n: nat)
    requires Inv(s, n) && s.queue.items == [] && s.threads[0].todo == [] && forall k :: 0 <= k < |s.threads| ==> Resting(s.threads[k])
    ensures IsDone(s.threads[0])
  {
    NoSleepBesideWork(s, n);
    assert Resting(s.threads[0]);
  }

  // ----- bounded runs -----

  function ProducerWeight(p: ProducerAt): nat {
    match p
    case Idle => 4
    case AtLock => 3
    case Inside => 2
    case Asleep => 0
    case Woken => 3
    case Notifying => 9
  }

  function WorkerWeight(w: WorkerAt): nat {
    match w
    case Locking => 3
    case Testing(timedOut) => if timedOut then 5 else 2
    case Waiting => 0
    case Roused(timedOut) => if timedOut then 6 else 3
    case Announcing(_) => 8
    case Handling(_) => 4
    case Exited => 0
  }

  const POST_WEIGHT: nat := 16
  const STORED_WEIGHT: nat := 7
  const WAKE_WEIGHT: nat := 6

  /** The steps a thread can still take, counted generously. */
  function Weight(t: Thread): nat {
    match t
    case Producer(todo, p) => POST_WEIGHT * |todo| + ProducerWeight(p)
    case Worker(w) => WorkerWeight(w)
  }

  function Measure(s: State): nat {
    Sum(s.threads, Weight) + STORED_WEIGHT * |s.queue.items| + One(!s.joined)
  }

  /** Every step makes the measure smaller, but for spurious wake-ups and timeouts, which add a
      little. */
  lemma StepShrinks(s: State, step: Step, n: nat)
    requires Inv(s, n) && Enabled(s, step)
    ensures if Environmental(step) then Measure(Apply(s, step)) <= Measure(s) + WAKE_WEIGHT else Measure(Apply(s, step)) < Measure(s)
  {
    hide Sum, Conserved, Draining, WakeupsKept, Roles, MutexHeld, ProducersDone, IsDone, Push, Take;
    if step.Join? {
      return;
    }
    var i := step.i;
    if step.Act? {
      if s.threads[i].Producer? {
        PushShrinks(s, i);
      } else {
        TakeShrinks(s, i);
      }
    } else if step.Notify? && step.j != i {
      NotifyShrinks(s, i, step.j);
    } else {
      hide AllBusy, MayWake, Busy, Inv, Measure;
      MeasureChange(s, i, Apply(s, step).threads[i], Apply(s, step));
    }
  }

  lemma MeasureChange(s: State, i: nat, t: Thread, r: State)
    requires i < |s.threads| && r.threads == s.threads[i := t] && r.queue == s.queue && r.joined == s.joined
    ensures Measure(r) == Measure(s) - Weight(s.threads[i]) + Weight(t)
  {
    hide Sum;
    SumUpdate(s.threads, i, t, Weight);
  }

  lemma PushShrinks(s: State, i: nat)
    requires i < |s.threads| && s.threads[i].Producer? && s.threads[i].p == Inside && s.threads[i].todo != []
    ensures Measure(Push(s, i)) < Measure(s)
  {
    hide Sum;
    SumUpdate(s.threads, i, Push(s, i).threads[i], Weight);
  }

  lemma TakeShrinks(s: State, i: nat)
    requires i < |s.threads| && s.threads[i].Worker? && s.threads[i].w.Testing?
    ensures Measure(Take(s, i)) < Measure(s)
  {
    hide Sum;
    SumUpdate(s.threads, i, Take(s, i).threads[i], Weight);
  }

  lemma NotifyShrinks(s: State, i: nat, j: nat)
    requires i < |s.threads| && j < |s.threads| && i != j && Notifies(s.threads[i]) && Sleeps(s.threads[j])
    ensures Measure(With(With(s, j, AfterWake(s.threads[j], false)), i, AfterNotify(s.threads[i]))) < Measure(s)
  {
    hide Sum;
    var t := AfterWake(s.threads[j], false);
    SumUpdate(s.threads, j, t, Weight);
    SumUpdate(s.threads[j := t], i, AfterNotify(s.threads[i]), Weight);
  }

  function Disturbances(steps: seq<Step>): nat {
    if steps == [] then 0 else One(Environmental(steps[0])) + Disturbances(steps[1..])
  }

  /** A run has no more steps than the measure of its start allows, and a few more for each
      spurious wake-up or timeout. */
  lemma {:induction false} BoundedRun(s: State, steps: seq<Step>, r: State, n: nat)
    requires Inv(s, n) && Runs(s, steps, r)
    ensures |steps| + Measure(r) <= Measure(s) + (WAKE_WEIGHT + 1) * Disturbances(steps)
    decreases |steps|
  {
    if steps != [] {
      StepShrinks(s, steps[0], n);
      InvStep(s, steps[0], n);
      BoundedRun(Apply(s, steps[0]), steps[1..], r, n);
    }
  }

  /** A run of a fresh pool that is longer than that has ended with all workers joined and the
      queue drained, or is not a run: unless the environment keeps waking threads, shutdown
      always comes to its end. */
  lemma ShutdownEnds(s: State, steps: seq<Step>, r: State, n: nat)
    requires Initial(s, n) && Runs(s, steps, r)
    ensures |steps| <= Measure(s) + (WAKE_WEIGHT + 1) * Disturbances(steps)
    ensures r.joined || exists step :: !Environmental(step) && Enabled(r, step)
  {
    InitialInv(s, n);
    InvRun(s, steps, r, n);
    BoundedRun(s, steps, r, n);
    if !r.joined {
      var step := Progress(r, n);
    }
  }
}
