/** What a run of the thread pool does to the messages: all that was to be posted is posted, the queue
    keeps their order, and only a post that does not wait can lose one. */
module ThreadPoolLaws {
  import opened ThreadPool

  // ----- scripts -----

  /** The posts that do not wait. */
  function Hasty(todo: seq<Post>): nat {
    if todo == [] then 0 else (if todo[0].block then 0 else 1) + Hasty(todo[1..])
  }

  function HastyPosts(t: Thread): nat {
    if t.Producer? then Hasty(t.todo) else 0
  }

  function Messages(todo: seq<Post>): multiset<Msg> {
    if todo == [] then multiset{} else multiset{todo[0].msg} + Messages(todo[1..])
  }

  function Script(t: Thread): multiset<Msg> {
    if t.Producer? then Messages(t.todo) else multiset{}
  }

  /** All that the threads still have to post. */
  function Scripts(threads: seq<Thread>): multiset<Msg> {
    if threads == [] then multiset{} else Script(threads[0]) + Scripts(threads[1..])
  }

  lemma {:induction false} ScriptsUpdate(threads: seq<Thread>, i: nat, t: Thread)
    requires i < |threads|
    ensures forall m :: Scripts(threads[i := t])[m] + Script(threads[i])[m] == Scripts(threads)[m] + Script(t)[m]
    decreases |threads|
  {
    if i == 0 {
      assert threads[0 := t][1..] == threads[1..];
    } else {
      var rest := threads[1..];
      assert threads[i := t][1..] == rest[i - 1 := t] && rest[i - 1] == threads[i];
      ScriptsUpdate(rest, i - 1, t);
      assert Scripts(threads[i := t]) == Script(threads[0]) + Scripts(rest[i - 1 := t]);
    }
  }

  // ----- one step -----

  /** The messages that the step posts: the front of a script that has become shorter. */
  function Arrival(s: State, r: State, i: nat): seq<Msg>
    requires i < |s.threads| && i < |r.threads|
  {
    var t, t' := s.threads[i], r.threads[i];
    if t.Producer? && t'.Producer? && |t'.todo| < |t.todo| then [t.todo[0].msg] else []
  }

  /** The script is the same, or its front was posted. */
  predicate Advanced(t: Thread, t': Thread) {
    && t.Producer? == t'.Producer?
    && (t.Producer? ==> t'.todo == t.todo || (t.todo != [] && t'.todo == t.todo[1..]))
  }

  /** What a thread's turn does to the messages.  Whatever is posted goes behind all others; what
      leaves the queue is the oldest message: a worker takes it, or it is lost.  It is lost only
      when a post that does not wait finds the queue full.  A post that waits is made exactly when
      there is room, any other one at once; a worker takes a message exactly when there is one. */
  ghost predicate Turned(s: State, r: State, i: nat)
    requires i < |s.threads| && i < |r.threads|
  {
    var t, t', all := s.threads[i], r.threads[i], s.queue.items + Arrival(s, r, i);
    && Advanced(t, t') && r.posted == s.posted + multiset(Arrival(s, r, i))
    && (|| (r.queue.items == all && r.lost == s.lost && r.queue.overrun == s.queue.overrun && Held(t') == Held(t))
        || (all != [] && r.queue.items == all[1..] && r.lost == s.lost && r.queue.overrun == s.queue.overrun
            && t'.Worker? && Held(t) == multiset{} && Held(t') == multiset{all[0]})
        || (all != [] && r.queue.items == all[1..] && r.lost == s.lost + multiset{all[0]} && r.queue.overrun == s.queue.overrun + 1
            && s.queue.IsFull() && t.Producer? && t.todo != [] && !t.todo[0].block && t'.todo == t.todo[1..]))
    && (t.Producer? && t.todo != [] ==> (Arrival(s, r, i) == [] <==> t.todo[0].block && s.queue.IsFull()))
    && (t.Worker? ==> (Held(t') == Held(t) <==> s.queue.items == []))
  }

  lemma PushTurns(s: State, i: nat)
    requires i < |s.threads| && s.threads[i].Producer? && s.threads[i].todo != [] && s.queue.Valid() && s.queue.enabled
    ensures Turned(s, Push(s, i), i) && Push(s, i).handled == s.handled && Push(s, i).threads == s.threads[i := Push(s, i).threads[i]]
  {
    var r, t := Push(s, i), s.threads[i];
    if r.threads[i].todo != t.todo {
      assert Arrival(s, r, i) == [t.todo[0].msg];
      if s.queue.IsFull() {
        assert (s.queue.items + Arrival(s, r, i))[0] == (s.queue.items + [t.todo[0].msg])[0];
      }
    } else {
      assert Arrival(s, r, i) == [] && s.queue.items + [] == s.queue.items;
    }
  }

  lemma TakeTurns(s: State, i: nat)
    requires i < |s.threads| && s.threads[i].Worker? && s.threads[i].w.Testing?
    ensures Turned(s, Take(s, i), i) && Take(s, i).handled == s.handled && Take(s, i).threads == s.threads[i := Take(s, i).threads[i]]
  {
    assert Arrival(s, Take(s, i), i) == [] && s.queue.items + [] == s.queue.items;
  }

  /** A thread's turn with the mutex. */
  lemma TurnTurns(s: State, i: nat, n: nat)
    requires Inv(s, n) && Enabled(s, Act(i))
    ensures Turned(s, Apply(s, Act(i)), i)
    ensures var r := Apply(s, Act(i)); r.handled == s.handled && r.threads == s.threads[i := r.threads[i]]
  {
    hide Conserved, Draining, WakeupsKept, Roles, AllBusy, MutexHeld, Push, Take, Turned;
    if s.threads[i].Producer? {
      PushTurns(s, i);
    } else {
      TakeTurns(s, i);
    }
  }

  predicate SameScript(t: Thread, t': Thread) {
    t.Producer? == t'.Producer? && (t.Producer? ==> t'.todo == t.todo)
  }

  /** No other step touches the queue, the scripts or what is lost. */
  lemma NothingElse(s: State, step: Step)
    requires Enabled(s, step) && !step.Act?
    ensures var r := Apply(s, step);
            && r.queue == s.queue && r.posted == s.posted && r.lost == s.lost && |r.threads| == |s.threads|
            && forall k :: 0 <= k < |s.threads| ==> SameScript(s.threads[k], r.threads[k])
  {
    hide ProducersDone, IsDone, AfterAcquire, AfterWake, AfterHandle, AfterNotify;
    var r := Apply(s, step);
    match step
    case Join =>
    case Act(_) =>
    case Begin(i) => OneThread(s, r, i, s.threads[i].(p := AtLock));
    case Acquire(i) =>
      ScriptKept(s.threads[i], false);
      OneThread(s, r, i, AfterAcquire(s.threads[i]));
    case Handle(i) =>
      ScriptKept(s.threads[i], false);
      OneThread(s, r, i, AfterHandle(s.threads[i].w.handled));
    case SpuriousWake(i) =>
      ScriptKept(s.threads[i], false);
      OneThread(s, r, i, AfterWake(s.threads[i], false));
    case Timeout(i) =>
      ScriptKept(s.threads[i], true);
      OneThread(s, r, i, AfterWake(s.threads[i], true));
    case Notify(i, j) =>
      ScriptKept(s.threads[i], false);
      if j != i {
        ScriptKept(s.threads[j], false);
        var q := With(s, j, AfterWake(s.threads[j], false));
        OneThread(s, q, j, AfterWake(s.threads[j], false));
        OneThread(q, r, i, AfterNotify(s.threads[i]));
      } else {
        OneThread(s, r, i, AfterNotify(s.threads[i]));
      }
  }

  lemma OneThread(s: State, r: State, i: nat, t: Thread)
    requires i < |s.threads| && r.threads == s.threads[i := t] && SameScript(s.threads[i], t)
    ensures forall k :: 0 <= k < |s.threads| ==> SameScript(s.threads[k], r.threads[k])
  {
  }

  lemma ScriptKept(t: Thread, timedOut: bool)
    ensures WaitsForMutex(t) ==> SameScript(t, AfterAcquire(t))
    ensures Sleeps(t) ==> SameScript(t, AfterWake(t, timedOut))
    ensures Notifies(t) ==> SameScript(t, AfterNotify(t))
    ensures t.Worker? ==> forall m :: SameScript(t, AfterHandle(m))
  {
  }

  /** Scripts that are the same count the same. */
  lemma {:induction false} SameScripts(threads: seq<Thread>, threads': seq<Thread>)
    requires |threads'| == |threads|
    requires forall k :: 0 <= k < |threads| ==> SameScript(threads[k], threads'[k])
    ensures Scripts(threads') == Scripts(threads) && Sum(threads', HastyPosts) == Sum(threads, HastyPosts)
    decreases |threads|
  {
    if threads != [] {
      assert Script(threads[0]) == Script(threads'[0]);
      SameScripts(threads[1..], threads'[1..]);
    }
  }

  /** After any step the posts made and the posts to make are all there were, and what was lost is paid
      for by posts that do not wait. */
  lemma StepAccounts(s: State, step: Step, n: nat)
    requires Inv(s, n) && Enabled(s, step)
    ensures var r := Apply(s, step);
            && r.posted + Scripts(r.threads) == s.posted + Scripts(s.threads)
            && |r.lost| + Sum(r.threads, HastyPosts) <= |s.lost| + Sum(s.threads, HastyPosts)
  {
    var r := Apply(s, step);
    if step.Act? {
      TurnTurns(s, step.i, n);
      TurnAccounts(s, r, step.i);
    } else {
      NothingElse(s, step);
      hide Inv, Enabled;
      SameScripts(s.threads, r.threads);
    }
  }

  lemma TurnAccounts(s: State, r: State, i: nat)
    requires i < |s.threads| && |r.threads| == |s.threads| && r.threads == s.threads[i := r.threads[i]] && Turned(s, r, i)
    ensures r.posted + Scripts(r.threads) == s.posted + Scripts(s.threads)
    ensures |r.lost| + Sum(r.threads, HastyPosts) <= |s.lost| + Sum(s.threads, HastyPosts)
  {
    hide Sum, Scripts, Arrival, Script, HastyPosts, Turned;
    ScriptsUpdate(s.threads, i, r.threads[i]);
    SumUpdate(s.threads, i, r.threads[i], HastyPosts);
    ScriptAdvances(s, r, i);
    Shifted(s.posted, r.posted, Script(s.threads[i]), Script(r.threads[i]), Scripts(s.threads), Scripts(r.threads));
  }

  lemma Shifted(posted: multiset<Msg>, posted': multiset<Msg>, one: multiset<Msg>, one': multiset<Msg>, all: multiset<Msg>, all': multiset<Msg>)
    requires posted' + one' == posted + one && forall m :: all'[m] + one[m] == all[m] + one'[m]
    ensures posted' + all' == posted + all
  {
    forall m
      ensures (posted' + all')[m] == (posted + all)[m]
    {
      assert (posted' + one')[m] == (posted + one)[m];
    }
  }

  lemma ScriptAdvances(s: State, r: State, i: nat)
    requires i < |s.threads| && i < |r.threads| && Turned(s, r, i)
    ensures r.posted + Script(r.threads[i]) == s.posted + Script(s.threads[i])
    ensures |r.lost| + HastyPosts(r.threads[i]) <= |s.lost| + HastyPosts(s.threads[i])
  {
  }

  // ----- runs -----

  /** What a step posts, and what leaves the queue. */
  ghost function Arrivals(s: State, step: Step): seq<Msg>
    requires Enabled(s, step)
  {
    if step.Act? && step.i < |Apply(s, step).threads| then Arrival(s, Apply(s, step), step.i) else []
  }

  ghost function AllArrivals(s: State, steps: seq<Step>, r: State): seq<Msg>
    requires Runs(s, steps, r)
    decreases |steps|
  {
    if steps == [] then [] else Arrivals(s, steps[0]) + AllArrivals(Apply(s, steps[0]), steps[1..], r)
  }

  /** Over every run the queue is first in, first out: what has left it is what came first. */
  lemma {:induction false} FirstOut(s: State, steps: seq<Step>, r: State, n: nat) returns (gone: seq<Msg>)
    requires Inv(s, n) && Runs(s, steps, r)
    ensures s.queue.items + AllArrivals(s, steps, r) == gone + r.queue.items
    ensures r.posted == s.posted + multiset(AllArrivals(s, steps, r))
    decreases |steps|
  {
    if steps == [] {
      gone := [];
      assert s.queue.items + [] == [] + s.queue.items;
    } else {
      var q, more := Apply(s, steps[0]), Arrivals(s, steps[0]);
      InvStep(s, steps[0], n);
      var first := OneLeaves(s, steps[0], n);
      var rest := FirstOut(q, steps[1..], r, n);
      var later := AllArrivals(q, steps[1..], r);
      hide Inv, Apply, Enabled, Arrivals, AllArrivals;
      gone := first + rest;
      Joined(s.queue.items, more, later, first, q.queue.items, rest, r.queue.items);
      assert multiset(more + later) == multiset(more) + multiset(later);
    }
  }

  lemma Joined(items: seq<Msg>, more: seq<Msg>, later: seq<Msg>, first: seq<Msg>, middle: seq<Msg>, rest: seq<Msg>, last: seq<Msg>)
    requires items + more == first + middle && middle + later == rest + last
    ensures items + (more + later) == (first + rest) + last
  {
    assert items + (more + later) == items + more + later;
    assert first + middle + later == first + (middle + later);
    assert first + (rest + last) == (first + rest) + last;
  }

  lemma OneLeaves(s: State, step: Step, n: nat) returns (gone: seq<Msg>)
    requires Inv(s, n) && Enabled(s, step)
    ensures var r := Apply(s, step);
            s.queue.items + Arrivals(s, step) == gone + r.queue.items && r.posted == s.posted + multiset(Arrivals(s, step))
  {
    hide Inv, Apply, Enabled;
    gone := [];
    if step.Act? {
      gone := OneLeavesTurn(s, step.i, n);
    } else {
      NothingElse(s, step);
      assert s.queue.items + [] == [] + s.queue.items;
    }
  }

  lemma OneLeavesTurn(s: State, i: nat, n: nat) returns (gone: seq<Msg>)
    requires Inv(s, n) && Enabled(s, Act(i))
    ensures var r := Apply(s, Act(i)); s.queue.items + Arrivals(s, Act(i)) == gone + r.queue.items && r.posted == s.posted + multiset(Arrivals(s, Act(i)))
  {
    hide Inv, Apply, Turned, Arrival;
    var r := Apply(s, Act(i));
    TurnTurns(s, i, n);
    gone := TurnLeaves(s, r, i);
  }

  lemma TurnLeaves(s: State, r: State, i: nat) returns (gone: seq<Msg>)
    requires i < |s.threads| && i < |r.threads| && Turned(s, r, i)
    ensures s.queue.items + Arrival(s, r, i) == gone + r.queue.items && r.posted == s.posted + multiset(Arrival(s, r, i))
  {
    hide Held, Advanced, Arrival;
    var all := s.queue.items + Arrival(s, r, i);
    gone := if r.queue.items == all then [] else [all[0]];
    assert all == gone + r.queue.items;
  }

  /** What has left the queue is in a worker's hand, was handled, or is lost. */
  lemma QueueKeepsOrder(s: State, steps: seq<Step>, r: State, n: nat) returns (gone: seq<Msg>)
    requires Initial(s, n) && Runs(s, steps, r)
    ensures AllArrivals(s, steps, r) == gone + r.queue.items && r.posted == multiset(AllArrivals(s, steps, r))
    ensures multiset(gone) == r.handled + InHand(r.threads) + r.lost
  {
    hide InHand, AllArrivals;
    InitialInv(s, n);
    InvRun(s, steps, r, n);
    gone := FirstOut(s, steps, r, n);
    assert [] + AllArrivals(s, steps, r) == AllArrivals(s, steps, r);
    assert Conserved(r);
    Departed(gone, r.queue.items, r.posted, r.handled, r.lost, InHand(r.threads));
  }

  lemma Departed(gone: seq<Msg>, items: seq<Msg>, posted: multiset<Msg>, handled: multiset<Msg>, lost: multiset<Msg>, hands: multiset<Msg>)
    requires posted == handled + lost + multiset(items) + hands && posted == multiset(gone + items)
    ensures multiset(gone) == handled + hands + lost
  {
    assert multiset(gone + items) == multiset(gone) + multiset(items);
    forall m
      ensures multiset(gone)[m] == (handled + hands + lost)[m]
    {
      assert posted[m] == multiset(gone)[m] + multiset(items)[m];
    }
  }

  lemma {:induction false} RunAccounts(s: State, steps: seq<Step>, r: State, n: nat)
    requires Inv(s, n) && Runs(s, steps, r)
    ensures r.posted + Scripts(r.threads) == s.posted + Scripts(s.threads)
    ensures |r.lost| + Sum(r.threads, HastyPosts) <= |s.lost| + Sum(s.threads, HastyPosts)
    decreases |steps|
  {
    if steps != [] {
      StepAccounts(s, steps[0], n);
      InvStep(s, steps[0], n);
      RunAccounts(Apply(s, steps[0]), steps[1..], r, n);
    }
  }

  /** Over every run of a fresh pool, no more messages are lost than posts were made that do not wait;
      with none, nothing is lost and nothing was overrun. */
  lemma LostByHaste(s: State, steps: seq<Step>, r: State, n: nat)
    requires Initial(s, n) && Runs(s, steps, r)
    ensures |r.lost| <= Sum(s.threads, HastyPosts) - Sum(r.threads, HastyPosts)
    ensures Sum(s.threads, HastyPosts) == 0 ==> r.lost == multiset{} && r.queue.overrun == 0
  {
    InitialInv(s, n);
    RunAccounts(s, steps, r, n);
    InvRun(s, steps, r, n);
    hide Inv, Initial, Runs;
    assert |r.lost| == 0 ==> r.lost == multiset{};
    assert r.queue.overrun == |r.lost| by { Overrun(r, n); }
  }

  lemma Overrun(s: State, n: nat)
    requires Inv(s, n)
    ensures s.queue.overrun == |s.lost|
  {
  }

  lemma {:induction false} NothingToPost(threads: seq<Thread>)
    requires forall k :: 0 <= k < |threads| && threads[k].Producer? ==> threads[k].todo == []
    ensures Scripts(threads) == multiset{}
    decreases |threads|
  {
    if threads != [] {
      assert Script(threads[0]) == multiset{};
      NothingToPost(threads[1..]);
    }
  }

  /** When the destructor returns, all that any thread had to post was posted, and every message of
      it was handled exactly once or lost to a post that did not wait; if all posts wait, every
      message was handled exactly once. */
  lemma AllHandled(s: State, steps: seq<Step>, r: State, n: nat)
    requires Initial(s, n) && Runs(s, steps, r) && r.joined
    ensures Scripts(s.threads) == r.handled + r.lost && |r.lost| <= Sum(s.threads, HastyPosts)
    ensures Sum(s.threads, HastyPosts) == 0 ==> r.handled == Scripts(s.threads)
  {
    InitialInv(s, n);
    InvRun(s, steps, r, n);
    RunAccounts(s, steps, r, n);
    LostByHaste(s, steps, r, n);
    ShutdownDrains(s, steps, r, n);
    ProducersThrough(r, n);
    NothingToPost(r.threads);
    hide Inv, Runs, Scripts;
  }

  lemma ProducersThrough(s: State, n: nat)
    requires Inv(s, n) && s.joined
    ensures forall k :: 0 <= k < |s.threads| && s.threads[k].Producer? ==> s.threads[k].todo == []
  {
    Drained(s, n);
    hide Conserved, Draining, WakeupsKept, AllBusy, MutexHeld;
    assert Closing(s, n);
  }
}
