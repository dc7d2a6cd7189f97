/**
 * Timers and threads together: the tick handler of kernel/src/misc/time.c launches the events of
 * the timers that are due (kernel/src/misc/kevent.c), and scheduler_sleep_for of
 * kernel/src/proc/scheduler.c waits for one of them.
 */
module SystemTimers {
  import opened Kevents
  import opened Links
  import S = Scheduler
  import opened TimerHeap

  /** The counters after the events of these timers have been launched. */
  function LaunchedAll(counts: map<int, nat>, fired: seq<Timer>): (r: map<int, nat>) {
    if fired == [] then counts
    else
      var before, e := LaunchedAll(counts, fired[..|fired| - 1]), fired[|fired| - 1].node;
      if e in before then before[e := before[e] + 1] else before
  }

  function Nodes(fired: seq<Timer>): (r: seq<int>) {
    seq(|fired|, i requires 0 <= i < |fired| => fired[i].node)
  }

  /** Every counter grows by the number of times that its event is among them. */
  lemma {:induction false} LaunchedExactly(counts: map<int, nat>, fired: seq<Timer>, e: int)
    ensures LaunchedAll(counts, fired).Keys == counts.Keys
    ensures e in counts ==> LaunchedAll(counts, fired)[e] == counts[e] + multiset(Nodes(fired))[e]
  {
    if fired != [] {
      var rest := fired[..|fired| - 1];
      LaunchedExactly(counts, rest, e);
      assert Nodes(fired) == Nodes(rest) + [fired[|fired| - 1].node];
    }
  }

  /** The tasks after the subscribers of these events have been woken. */
  function AwakenedAll(tasks: map<int, S.Task>, threads: map<int, seq<int>>, fired: seq<Timer>)
    : (r: map<int, S.Task>)
  {
    if fired == [] then tasks
    else
      var before, e := AwakenedAll(tasks, threads, fired[..|fired| - 1]), fired[|fired| - 1].node;
      if e in threads then Awakened(before, threads[e]) else before
  }

  /** One of the fired timers is one that t waits for. */
  predicate Called(threads: map<int, seq<int>>, fired: seq<Timer>, t: int) {
    exists x | x in fired :: x.node in threads && t in threads[x.node]
  }

  /** Exactly the sleepers that wait for a fired timer become ready. */
  lemma {:induction false} AwakenedExactly(tasks: map<int, S.Task>, threads: map<int, seq<int>>, fired: seq<Timer>,
                                           t: int)
    requires t in tasks
    ensures t in AwakenedAll(tasks, threads, fired)
    ensures AwakenedAll(tasks, threads, fired)[t]
            == if tasks[t].state == S.Sleeping && Called(threads, fired, t) then tasks[t].(state := S.Ready)
               else tasks[t]
  {
    if fired != [] {
      var rest, x := fired[..|fired| - 1], fired[|fired| - 1];
      AwakenedExactly(tasks, threads, rest, t);
      assert fired == rest + [x];
      assert Called(threads, fired, t) <==> Called(threads, rest, t) || (x.node in threads && t in threads[x.node]);
    }
  }

  /** Every event that a timer has been set for and that has not been launched is on the heap, with
      its expiration time; and what is on the heap has not been launched. */
  ghost predicate Armed(timers: seq<Timer>, launches: map<int, nat>, armed: map<int, nat>, reapEvent: int) {
    && (forall x | x in timers :: x.node in armed && armed[x.node] == x.expires)
    && (forall e | e in armed :: e in launches && e != reapEvent)
    && (forall e | e in armed && e in launches ::
          multiset(timers)[Timer(e, armed[e])] == if launches[e] == 0 then 1 else 0)
  }

  /** The timer of event e is not on the heap. */
  ghost predicate OffHeap(timers: seq<Timer>, e: int) {
    forall x | x in timers :: x.node != e
  }

  lemma ArmedAdded(timers: seq<Timer>, timers': seq<Timer>, launches: map<int, nat>, armed: map<int, nat>,
                   reapEvent: int, t: Timer)
    requires Armed(timers, launches, armed, reapEvent) && OffHeap(timers, t.node)
    requires t.node != reapEvent && multiset(timers') == multiset(timers) + multiset{t}
    ensures Armed(timers', launches[t.node := 0], armed[t.node := t.expires], reapEvent)
  {
    forall x | x in timers'
      ensures x == t || x in timers
    {
      assert x in multiset(timers');
    }
    forall n: nat
      ensures multiset(timers)[Timer(t.node, n)] == 0
    {
      assert Timer(t.node, n) !in timers;
    }
  }

  lemma ArmedLaunched(timers: seq<Timer>, timers': seq<Timer>, launches: map<int, nat>, armed: map<int, nat>,
                      reapEvent: int, t: Timer)
    requires Armed(timers, launches, armed, reapEvent) && Popped(timers, timers', t) && t.node in launches
    ensures Armed(timers', launches[t.node := launches[t.node] + 1], armed, reapEvent) && t.node != reapEvent
  {
    assert t in multiset(timers);
    forall x | x in timers'
      ensures x in timers
    {
      assert x in multiset(timers');
      assert x in multiset(timers);
    }
  }

  /** Other launches do not matter. */
  lemma ArmedKept(timers: seq<Timer>, launches: map<int, nat>, launches': map<int, nat>, armed: map<int, nat>,
                  reapEvent: int)
    requires Armed(timers, launches, armed, reapEvent) && launches' - {reapEvent} == launches - {reapEvent}
    ensures Armed(timers, launches', armed, reapEvent)
  {
    forall e | e in armed
      ensures e in launches' && launches'[e] == launches[e]
    {
      assert e in launches - {reapEvent};
      assert e in launches' - {reapEvent};
      assert (launches' - {reapEvent})[e] == (launches - {reapEvent})[e];
    }
  }

  lemma TimerKnown(timers: seq<Timer>, launches: map<int, nat>, armed: map<int, nat>, reapEvent: int, x: Timer)
    requires Armed(timers, launches, armed, reapEvent) && x in timers
    ensures x.node in launches && x.node != reapEvent
  {
  }

  /** A timer event that has not been launched is still on the heap. */
  lemma StillArmed(timers: seq<Timer>, launches: map<int, nat>, armed: map<int, nat>, reapEvent: int, e: int)
    requires Armed(timers, launches, armed, reapEvent) && e in armed && e in launches && launches[e] == 0
    ensures Timer(e, armed[e]) in timers
  {
    assert Timer(e, armed[e]) in multiset(timers);
  }

  /** The events of somebody who waits for one timer. */
  predicate OnTimer(events: seq<int>, armed: map<int, nat>) {
    |events| == 1 && events[0] in armed
  }

  /** A thread that waits for a timer and has been woken finds the timer's event pending. */
  ghost predicate Roused(tasks: map<int, S.Task>, waiting: map<int, seq<int>>, unprocessed: map<int, nat>,
                         armed: map<int, nat>)
  {
    forall t | t in waiting && OnTimer(waiting[t], armed) && t in tasks && Awake(tasks[t]) ::
      waiting[t][0] in unprocessed && unprocessed[waiting[t][0]] > 0
  }

  /** No two threads wait for the same timer. */
  ghost predicate Private(waiting: map<int, seq<int>>, armed: map<int, nat>) {
    forall t, u, e | t in waiting && u in waiting && e in waiting[t] && e in waiting[u] && e in armed :: t == u
  }

  /** What a thread waits for has not been consumed. */
  ghost predicate Unconsumed(waiting: map<int, seq<int>>, consumed: map<int, nat>, armed: map<int, nat>) {
    forall t, e | t in waiting && e in waiting[t] && e in armed :: e in consumed && consumed[e] == 0
  }

  ghost predicate Unawaited(waiting: map<int, seq<int>>, e: int) {
    forall t | t in waiting :: e !in waiting[t]
  }

  /** A timer that a thread has set and not polled yet has not been launched, and nobody waits for it.
      Somebody waits for every other one that has not been launched. */
  ghost predicate Unpolled(setters: map<int, int>, launches: map<int, nat>, waiting: map<int, seq<int>>,
                           armed: map<int, nat>)
  {
    && (forall e | e in setters :: e in armed && e in launches && launches[e] == 0)
    && (forall e | e in setters :: Unawaited(waiting, e))
    && (forall e | e in armed && e in launches && launches[e] == 0 && e !in setters :: !Unawaited(waiting, e))
  }

  lemma UnpolledSet(setters: map<int, int>, launches: map<int, nat>, waiting: map<int, seq<int>>,
                    consumed: map<int, nat>, armed: map<int, nat>, e: int, t: int, expires: nat)
    requires Unpolled(setters, launches, waiting, armed) && Unconsumed(waiting, consumed, armed)
    requires Unawaited(waiting, e)
    ensures Unpolled(setters[e := t], launches[e := 0], waiting, armed[e := expires])
    ensures Unconsumed(waiting, consumed[e := 0], armed[e := expires])
  {
  }

  lemma UnpolledPolled(setters: map<int, int>, launches: map<int, nat>, waiting: map<int, seq<int>>,
                       consumed: map<int, nat>, armed: map<int, nat>, e: int, t: int)
    requires Unpolled(setters, launches, waiting, armed) && Unconsumed(waiting, consumed, armed)
    requires e in consumed && consumed[e] == 0 && t !in waiting && e in setters
    ensures Unpolled(setters - {e}, launches, waiting[t := [e]], armed)
    ensures Unconsumed(waiting[t := [e]], consumed, armed)
  {
    var waiting' := waiting[t := [e]];
    assert e in waiting'[t];
    forall d
      ensures Unawaited(waiting', d) <==> d != e && Unawaited(waiting, d)
    {
      if u :| u in waiting && d in waiting[u] {
        assert d in waiting'[u];
      }
    }
  }

  /** Somebody waits for what is launched, so it is not one of these. */
  lemma UnpolledLaunched(setters: map<int, int>, launches: map<int, nat>, waiting: map<int, seq<int>>,
                         armed: map<int, nat>, e: int)
    requires Unpolled(setters, launches, waiting, armed) && !Unawaited(waiting, e) && e in launches
    ensures Unpolled(setters, launches[e := launches[e] + 1], waiting, armed)
  {
  }

  lemma UnpolledKept(setters: map<int, int>, launches: map<int, nat>, launches': map<int, nat>,
                     waiting: map<int, seq<int>>, armed: map<int, nat>, reapEvent: int)
    requires Unpolled(setters, launches, waiting, armed) && reapEvent !in armed
    requires launches' - {reapEvent} == launches - {reapEvent}
    ensures Unpolled(setters, launches', waiting, armed)
  {
    forall e | e in armed && (e in launches || e in launches')
      ensures e in launches && e in launches' && launches'[e] == launches[e]
    {
      assert e in launches' - {reapEvent} <==> e in launches - {reapEvent};
      assert e in launches - {reapEvent};
      assert e in launches' - {reapEvent} && (launches' - {reapEvent})[e] == (launches - {reapEvent})[e];
    }
  }

  lemma UnpolledResumed(setters: map<int, int>, launches: map<int, nat>, waiting: map<int, seq<int>>,
                        consumed: map<int, nat>, consumed': map<int, nat>, armed: map<int, nat>, t: int, e: int)
    requires Unpolled(setters, launches, waiting, armed) && Unconsumed(waiting, consumed, armed)
    requires Private(waiting, armed) && t in waiting && waiting[t] == [e] && e in armed
    requires consumed' - {e} == consumed - {e} && e in launches && launches[e] > 0
    ensures Unpolled(setters, launches, waiting - {t}, armed) && Unconsumed(waiting - {t}, consumed', armed)
  {
    assert e in waiting[t];
    forall d | d != e
      ensures Unawaited(waiting - {t}, d) <==> Unawaited(waiting, d)
    {
      if u :| u in waiting && d in waiting[u] {
        assert d in (waiting - {t})[u];
      }
    }
    forall u, d | u in waiting && u != t && d in waiting[u] && d in armed
      ensures d in consumed' && consumed'[d] == 0
    {
      assert d != e;
      assert d in consumed - {e};
      assert d in consumed' - {e} && (consumed' - {e})[d] == (consumed - {e})[d];
    }
  }

  lemma RousedNew(tasks: map<int, S.Task>, waiting: map<int, seq<int>>, unprocessed: map<int, nat>,
                  armed: map<int, nat>, e: int, expires: nat)
    requires Roused(tasks, waiting, unprocessed, armed) && Private(waiting, armed) && Unawaited(waiting, e)
    ensures Roused(tasks, waiting, unprocessed[e := 0], armed[e := expires]) && Private(waiting, armed[e := expires])
  {
    forall t | t in waiting
      ensures e !in waiting[t] && (waiting[t] != [] ==> waiting[t][0] != e)
    {
    }
  }

  lemma RousedLaunched(tasks: map<int, S.Task>, waiting: map<int, seq<int>>, unprocessed: map<int, nat>,
                       armed: map<int, nat>, threads: map<int, seq<int>>, e: int)
    requires Roused(tasks, waiting, unprocessed, armed) && Counts(threads, waiting) && e in threads && e in unprocessed
    ensures Roused(Awakened(tasks, threads[e]), waiting, unprocessed[e := unprocessed[e] + 1], armed)
  {
    hide Counts;
    var tasks' := Awakened(tasks, threads[e]);
    forall t | t in waiting && OnTimer(waiting[t], armed) && t in tasks' && Awake(tasks'[t])
      ensures waiting[t][0] == e || (Awake(tasks[t]) && waiting[t][0] in unprocessed)
    {
      Subscribed(threads, waiting, e, t);
    }
  }

  lemma RousedAsleep(tasks: map<int, S.Task>, after: map<int, S.Task>, waiting: map<int, seq<int>>,
                     unprocessed: map<int, nat>, armed: map<int, nat>, t: int, e: int)
    requires Roused(tasks, waiting, unprocessed, armed) && Private(waiting, armed)
    requires NoneRoused(tasks, after, NULL) && NULL !in waiting && t in after && after[t].state == S.Sleeping
    requires Unawaited(waiting, e)
    ensures Roused(after, waiting[t := [e]], unprocessed, armed) && Private(waiting[t := [e]], armed)
  {
  }

  lemma RousedConsumed(tasks: map<int, S.Task>, waiting: map<int, seq<int>>, unprocessed: map<int, nat>,
                       armed: map<int, nat>, t: int, e: int)
    requires Roused(tasks, waiting, unprocessed, armed) && Private(waiting, armed)
    requires t in waiting && waiting[t] == [e] && e in armed && t in tasks && Awake(tasks[t])
    ensures e in unprocessed && unprocessed[e] > 0
    ensures Roused(tasks, waiting - {t}, unprocessed[e := unprocessed[e] - 1], armed) && Private(waiting - {t}, armed)
  {
    assert OnTimer(waiting[t], armed) && e in waiting[t];
    forall u | u in waiting && u != t && OnTimer(waiting[u], armed)
      ensures waiting[u][0] != e
    {
      assert waiting[u][0] in waiting[u];
    }
  }

  lemma RousedReaper(tasks: map<int, S.Task>, after: map<int, S.Task>, waiting: map<int, seq<int>>,
                     unprocessed: map<int, nat>, unprocessed': map<int, nat>, armed: map<int, nat>, reaper: int,
                     reapEvent: int)
    requires Roused(tasks, waiting, unprocessed, armed) && NoneRoused(tasks, after, reaper) && reapEvent !in armed
    requires unprocessed' - {reapEvent} == unprocessed - {reapEvent}
    requires reaper in waiting ==> waiting[reaper] == [reapEvent]
    ensures Roused(after, waiting, unprocessed', armed)
  {
    forall t | t in waiting && OnTimer(waiting[t], armed) && t in after && Awake(after[t])
      ensures waiting[t][0] in unprocessed' && unprocessed'[waiting[t][0]] > 0
    {
      var e := waiting[t][0];
      assert e in unprocessed - {reapEvent};
      assert e in unprocessed' - {reapEvent} && (unprocessed' - {reapEvent})[e] == (unprocessed - {reapEvent})[e];
    }
  }

  /** Some timer is due, and nobody is subscribed to its event. */
  ghost predicate Unheard(timers: seq<Timer>, threads: map<int, seq<int>>, now: nat) {
    exists x | x in timers :: x.expires <= now && x.node in threads && threads[x.node] == []
  }

  /** A timer that its thread has not polled yet is due. */
  ghost predicate DueUnpolled(setters: map<int, int>, armed: map<int, nat>, now: nat) {
    exists e | e in setters :: e in armed && armed[e] <= now
  }

  ghost predicate Heard(fired: seq<Timer>, threads: map<int, seq<int>>) {
    forall x | x in fired :: x.node in threads && threads[x.node] != []
  }

  /** Every due timer has been fired. */
  lemma AllHeard(timers: seq<Timer>, fired: seq<Timer>, left: seq<Timer>, threads: map<int, seq<int>>, now: nat)
    requires Dispatched(multiset(timers), fired, left, now) && NoneDue(left, now) && Heard(fired, threads)
    ensures !Unheard(timers, threads, now)
  {
    forall x | x in timers && x.expires <= now
      ensures x in fired
    {
      assert x in multiset(timers);
      assert x in multiset(fired) || x in multiset(left);
    }
  }

  lemma FiredUnheard(timers: seq<Timer>, fired: seq<Timer>, left: seq<Timer>, threads: map<int, seq<int>>, now: nat,
                     x: Timer)
    requires Dispatched(multiset(timers), fired, left, now) && x in fired && x.node in threads && threads[x.node] == []
    ensures Unheard(timers, threads, now)
  {
    assert x in multiset(fired);
    assert x in multiset(timers);
  }

  lemma FiredOneMore(counts: map<int, nat>, tasks: map<int, S.Task>, threads: map<int, seq<int>>, fired: seq<Timer>,
                     x: Timer)
    requires x.node in LaunchedAll(counts, fired) && x.node in threads
    ensures var counts' := LaunchedAll(counts, fired);
            LaunchedAll(counts, fired + [x]) == counts'[x.node := counts'[x.node] + 1]
    ensures AwakenedAll(tasks, threads, fired + [x]) == Awakened(AwakenedAll(tasks, threads, fired), threads[x.node])
    ensures Heard(fired, threads) && threads[x.node] != [] ==> Heard(fired + [x], threads)
  {
    assert (fired + [x])[..|fired + [x]| - 1] == fired;
  }

  /** The keys that a kernel keeps equal, and the event it always has. */
  lemma KeysOf(kernel: Kernel)
    requires kernel.Valid()
    ensures kernel.reapEvent in kernel.unprocessed
    ensures kernel.launches.Keys == kernel.consumed.Keys == kernel.unprocessed.Keys == kernel.subscribers.threads.Keys
  {
  }

  lemma NoNullWaits(kernel: Kernel)
    requires kernel.Valid()
    ensures NULL !in kernel.waiting
  {
    hide Counts, NoLostWakeup, Accounted, Fed, S.Current;
    TaskAddresses(kernel.sched);
  }

  /** Nobody waits for an event without subscribers, and somebody for any other. */
  lemma WaitersSubscribe(kernel: Kernel, e: int)
    requires kernel.Valid()
    ensures e in kernel.subscribers.threads && kernel.subscribers.threads[e] != [] <==> !Unawaited(kernel.waiting, e)
  {
    hide Counts, NoLostWakeup, Accounted, Fed, S.Current, S.Scheduler.Kept;
    KeysOf(kernel);
    var threads := kernel.subscribers.threads;
    if e in threads && threads[e] != [] {
      Subscribed(threads, kernel.waiting, e, threads[e][0]);
    }
    if t :| t in kernel.waiting && e in kernel.waiting[t] {
      WaiterKnown(kernel.sched.tasks, kernel.waiting, kernel.unprocessed, t);
      Subscribed(threads, kernel.waiting, e, t);
    }
  }

  lemma NotYet(kernel: Kernel, e: int)
    requires kernel.Valid() && e in kernel.launches && kernel.launches[e] == 0
    ensures e in kernel.unprocessed && kernel.unprocessed[e] == 0 && e in kernel.consumed && kernel.consumed[e] == 0
  {
  }

  /** What a poll consumed, told from the counters. */
  lemma ConsumedOne(launches: map<int, nat>, unprocessed: map<int, nat>, consumed: map<int, nat>,
                    unprocessed': map<int, nat>, consumed': map<int, nat>, e: int)
    requires Accounted(unprocessed, launches, consumed) && Accounted(unprocessed', launches, consumed')
    requires e in unprocessed && unprocessed[e] > 0 && unprocessed' == unprocessed[e := unprocessed[e] - 1]
    ensures consumed' - {e} == consumed - {e}
  {
    forall d | d in consumed - {e}
      ensures d in consumed' && consumed'[d] == consumed[d]
    {
    }
  }

  lemma CountersOf(kernel: Kernel)
    requires kernel.Valid()
    ensures Accounted(kernel.unprocessed, kernel.launches, kernel.consumed)
    ensures forall e | e in kernel.unprocessed :: e in kernel.launches && kernel.launches[e] >= kernel.unprocessed[e]
  {
  }

  lemma TaskAddresses(sched: S.Scheduler)
    requires sched.Kept()
    ensures NULL !in sched.tasks
  {
  }

  lemma CurrentKnown(kernel: Kernel)
    requires kernel.Valid()
    ensures kernel.sched.curr in kernel.sched.tasks
  {
  }

  lemma ReaperWaits(kernel: Kernel)
    requires kernel.Valid()
    ensures kernel.sched.curr in kernel.sched.tasks && kernel.reapEvent in kernel.subscribers.threads
    ensures kernel.reaper in kernel.waiting ==> kernel.waiting[kernel.reaper] == [kernel.reapEvent]
  {
  }

  lemma NeverReap(timers: seq<Timer>, launches: map<int, nat>, armed: map<int, nat>, reapEvent: int)
    requires Armed(timers, launches, armed, reapEvent)
    ensures reapEvent !in armed
  {
  }

  lemma RousedByTimer(kernel: Kernel, armed: map<int, nat>, e: int)
    requires kernel.Valid() && Roused(kernel.sched.tasks, kernel.waiting, kernel.unprocessed, armed)
    requires e in kernel.unprocessed && e in kernel.subscribers.threads
    ensures Roused(Awakened(kernel.sched.tasks, kernel.subscribers.threads[e]), kernel.waiting,
                   kernel.unprocessed[e := kernel.unprocessed[e] + 1], armed)
  {
    hide NoLostWakeup, Accounted, S.Scheduler.Kept, Fed, S.Current, Known, Counts;
    RousedLaunched(kernel.sched.tasks, kernel.waiting, kernel.unprocessed, armed, kernel.subscribers.threads, e);
  }

  /** Nothing has been launched, but consumed by nobody, that a sleeper waits for. */
  lemma NotLaunched(kernel: Kernel, t: int, e: int)
    requires kernel.Valid() && t in kernel.waiting && t in kernel.sched.tasks && e in kernel.waiting[t]
    requires kernel.sched.tasks[t].state == S.Sleeping && e in kernel.consumed && kernel.consumed[e] == 0
    ensures e in kernel.launches && kernel.launches[e] == 0
  {
    hide Counts, S.Scheduler.Kept, Fed, S.Current;
    WaiterKnown(kernel.sched.tasks, kernel.waiting, kernel.unprocessed, t);
    assert Nothing(kernel.unprocessed, kernel.waiting[t]);
  }

  class Clock {
    const kernel: Kernel
    const heap: Heap
    /** The expiration time of every event that a timer has been set for, and the threads that have
        set a timer and not polled it yet. */
    ghost var armed: map<int, nat>
    ghost var setters: map<int, int>

    ghost predicate Valid()
      reads this, kernel, kernel.sched, kernel.sched.rq, kernel.subscribers, heap, heap.heap
    {
      && kernel.Valid() && heap.Valid() && Armed(heap.Timers(), kernel.launches, armed, kernel.reapEvent)
      && Roused(kernel.sched.tasks, kernel.waiting, kernel.unprocessed, armed) && Private(kernel.waiting, armed)
      && Unconsumed(kernel.waiting, kernel.consumed, armed)
      && Unpolled(setters, kernel.launches, kernel.waiting, armed)
    }

    constructor (k: Kernel, h: Heap)
      requires k.Valid() && h.Valid() && h.Timers() == []
      ensures Valid() && kernel == k && heap == h && armed == map[] && setters == map[]
    {
      hide Kernel.Valid, Heap.Valid, Heap.Timers;
      kernel, heap, armed, setters := k, h, map[], map[];
    }

    /** register_system_timer by the current thread: its event starts without subscribers and without
        pending launches, and its timer goes onto the heap.  The node may have been used before. */
    method Register(e: int, ms: nat)
      requires Valid() && 0 <= e && e != kernel.reapEvent && OffHeap(heap.Timers(), e)
      requires e in kernel.subscribers.threads ==> kernel.subscribers.threads[e] == []
      modifies this`armed, this`setters, kernel`unprocessed, kernel`launches, kernel`consumed, kernel.subscribers
      modifies heap`heap, heap`size, heap.heap
      ensures Valid() && armed == old(armed)[e := (heap.ticks + ms) % TICK_LIMIT]
      ensures setters == old(setters)[e := kernel.sched.curr]
      ensures kernel.unprocessed == old(kernel.unprocessed)[e := 0]
      ensures kernel.launches == old(kernel.launches)[e := 0] && kernel.consumed == old(kernel.consumed)[e := 0]
      ensures kernel.subscribers.threads == old(kernel.subscribers.threads)[e := []]
      ensures heap.heap == old(heap.heap) || fresh(heap.heap)
      ensures old(NotBefore(heap.Timers(), heap.ticks)) ==>
                (NotBefore(heap.Timers(), heap.ticks) <==> (heap.ticks + ms) % TICK_LIMIT >= heap.ticks)
    {
      hide Kernel.Valid, Heap.Valid, Heap.Timers, Armed, NotBefore, Roused, Private, OffHeap, Unconsumed, Unpolled,
           Unawaited;
      ghost var timers, launches := heap.Timers(), kernel.launches;
      ghost var t := Timer(e, (heap.ticks + ms) % TICK_LIMIT);
      WaitersSubscribe(kernel, e);
      RousedNew(kernel.sched.tasks, kernel.waiting, kernel.unprocessed, armed, e, t.expires);
      UnpolledSet(setters, launches, kernel.waiting, kernel.consumed, armed, e, kernel.sched.curr, t.expires);
      kernel.NewEvent(e);
      heap.Register(e, ms);
      ArmedAdded(timers, heap.Timers(), launches, armed, kernel.reapEvent, t);
      armed, setters := armed[e := t.expires], setters[e := kernel.sched.curr];
    }

    /** A timer without subscribers is one that its thread has not polled yet. */
    lemma UnheardIsUnpolled(now: nat)
      requires Valid()
      ensures Unheard(heap.Timers(), kernel.subscribers.threads, now) <==> DueUnpolled(setters, armed, now)
    {
      hide Kernel.Valid, Heap.Valid, Heap.Timers, Roused, Private, Unconsumed, Unawaited;
      var timers, threads := heap.Timers(), kernel.subscribers.threads;
      KeysOf(kernel);
      if x :| x in timers && x.expires <= now && x.node in threads && threads[x.node] == [] {
        WaitersSubscribe(kernel, x.node);
        assert x.node in setters;
      }
      if e :| e in setters && e in armed && armed[e] <= now {
        WaitersSubscribe(kernel, e);
        StillArmed(timers, kernel.launches, armed, kernel.reapEvent, e);
        assert Timer(e, armed[e]) in timers;
      }
    }

    /** system_timer_handler.  It panics exactly if a due timer's event has no subscribers, because
        its thread has been interrupted between setting it and polling.
        Otherwise the events of all due timers, and no others, are launched once each, and exactly
        the sleepers that wait for one of them become ready. */
    method Tick() returns (panics: bool, fired: seq<Timer>)
      requires Valid()
      modifies kernel`unprocessed, kernel`launches, kernel.sched`tasks, kernel.sched.rq, heap, heap.heap
      ensures heap.ticks == (old(heap.ticks) + 1) % TICK_LIMIT
      ensures panics <==> Unheard(old(heap.Timers()), kernel.subscribers.threads, heap.ticks)
      ensures panics <==> DueUnpolled(setters, armed, heap.ticks)
      ensures !panics ==>
                && Valid() && NoneDue(heap.Timers(), heap.ticks)
                && Dispatched(multiset(old(heap.Timers())), fired, heap.Timers(), heap.ticks)
                && kernel.unprocessed == LaunchedAll(old(kernel.unprocessed), fired)
                && kernel.sched.tasks == AwakenedAll(old(kernel.sched.tasks), kernel.subscribers.threads, fired)
    {
      hide Kernel.Valid, Heap.Valid, Heap.Timers, Armed, Dispatched, NoneDue, Heard, Unheard, Roused, Private,
           Unconsumed, Unpolled;
      ghost var timers := heap.Timers();
      UnheardIsUnpolled((heap.ticks + 1) % TICK_LIMIT);
      ghost var before := multiset(timers);
      ghost var counts, tasks := kernel.unprocessed, kernel.sched.tasks;
      NothingDispatched(timers, (heap.ticks + 1) % TICK_LIMIT);
      NothingHeard(kernel.subscribers.threads);
      heap.Advance();
      panics, fired := false, [];
      var more := true;
      ghost var now := heap.ticks;
      while more
        invariant Valid() && (heap.heap == old(heap.heap) || fresh(heap.heap)) && heap.ticks == now && !panics
        invariant Dispatched(before, fired, heap.Timers(), now) && (!more ==> NoneDue(heap.Timers(), now))
        invariant Heard(fired, kernel.subscribers.threads)
        invariant kernel.unprocessed == LaunchedAll(counts, fired)
        invariant kernel.sched.tasks == AwakenedAll(tasks, kernel.subscribers.threads, fired)
        decreases heap.size, more
      {
        more, panics, fired := DispatchOne(fired, timers, counts, tasks);
        if panics {
          return;
        }
      }
      AllHeard(timers, fired, heap.Timers(), kernel.subscribers.threads, now);
    }

    /** One iteration of the loop of system_timer_handler. */
    method DispatchOne(fired: seq<Timer>, ghost timers: seq<Timer>, ghost counts: map<int, nat>,
                       ghost tasks: map<int, S.Task>)
      returns (more: bool, panics: bool, f: seq<Timer>)
      requires Valid() && Dispatched(multiset(timers), fired, heap.Timers(), heap.ticks)
      requires Heard(fired, kernel.subscribers.threads) && kernel.unprocessed == LaunchedAll(counts, fired)
      requires kernel.sched.tasks == AwakenedAll(tasks, kernel.subscribers.threads, fired)
      modifies kernel`unprocessed, kernel`launches, kernel.sched`tasks, kernel.sched.rq
      modifies heap`heap, heap`size, heap.heap
      ensures heap.heap == old(heap.heap) || fresh(heap.heap)
      ensures panics ==> Unheard(timers, kernel.subscribers.threads, heap.ticks)
      ensures !panics ==>
                && Valid() && Dispatched(multiset(timers), f, heap.Timers(), heap.ticks)
                && Heard(f, kernel.subscribers.threads) && kernel.unprocessed == LaunchedAll(counts, f)
                && kernel.sched.tasks == AwakenedAll(tasks, kernel.subscribers.threads, f)
      ensures more ==> heap.size < old(heap.size)
      ensures !more ==> !panics && heap.size == old(heap.size) && NoneDue(heap.Timers(), heap.ticks)
    {
      hide Kernel.Valid, Heap.Valid, Heap.Timers, Armed, Dispatched, NoneDue, Awakened, Heard, Unheard, LaunchedAll,
           AwakenedAll, Popped, Roused, Private, Unconsumed, Unpolled, Unawaited;
      ghost var left, launches := heap.Timers(), kernel.launches;
      panics := false;
      more, f := heap.Dispatch(multiset(timers), fired);
      if !more {
        return;
      }
      var x := f[|f| - 1];
      KeysOf(kernel);
      TimerKnown(left, launches, armed, kernel.reapEvent, x);
      FiredOneMore(counts, tasks, kernel.subscribers.threads, fired, x);
      RousedByTimer(kernel, armed, x.node);
      WaitersSubscribe(kernel, x.node);
      panics := LaunchTimer(x.node);
      if panics {
        FiredUnheard(timers, f, heap.Timers(), kernel.subscribers.threads, heap.ticks, x);
        return;
      }
      ArmedLaunched(left, heap.Timers(), launches, armed, kernel.reapEvent, x);
      UnpolledLaunched(setters, launches, kernel.waiting, armed, x.node);
    }

    /** The launch of a timer's event. */
    method LaunchTimer(e: int) returns (panics: bool)
      requires kernel.Valid() && e in kernel.unprocessed && e != kernel.reapEvent
      modifies kernel`unprocessed, kernel`launches, kernel.sched`tasks, kernel.sched.rq
      ensures e in kernel.subscribers.threads && (panics <==> kernel.subscribers.threads[e] == [])
      ensures !panics ==>
                && kernel.Valid() && kernel.unprocessed == old(kernel.unprocessed)[e := old(kernel.unprocessed)[e] + 1]
                && e in old(kernel.launches)
                && kernel.launches == old(kernel.launches)[e := old(kernel.launches)[e] + 1]
                && kernel.sched.tasks == Awakened(old(kernel.sched.tasks), kernel.subscribers.threads[e])
    {
      hide Kernel.Kept, Kernel.Balanced, S.Scheduler.Valid, Fed, Awakened;
      KeysOf(kernel);
      panics := kernel.Launch(e);
    }

    /** kevents_poll in scheduler_sleep_for, up to the context switch: the thread has set the timer
        before, whatever has happened in between, and goes to sleep. */
    method SleepPoll(e: int)
      requires Valid() && e in setters && setters[e] == kernel.sched.curr
      requires kernel.sched.curr in kernel.sched.tasks && kernel.sched.tasks[kernel.sched.curr].state == S.Running
      requires kernel.sched.curr !in {kernel.sched.idle, kernel.reaper} && kernel.sched.curr !in kernel.waiting
      modifies this`setters, kernel, kernel.sched, kernel.sched.rq, kernel.subscribers
      ensures Valid() && setters == old(setters) - {e}
      ensures kernel.waiting == old(kernel.waiting)[old(kernel.sched.curr) := [e]]
      ensures var t := old(kernel.sched.curr);
              && t in kernel.sched.tasks && kernel.sched.tasks[t].state == S.Sleeping
              && Switched(Asleep(old(kernel.sched.tasks), t), kernel.sched.tasks, kernel.sched.curr, kernel.sched.idle)
    {
      hide Kernel.Valid, Heap.Valid, Heap.Timers, Armed, Roused, Private, NoneRoused, Unconsumed, Unpolled, Unawaited,
           Switched, Asleep, Yielded;
      SetFacts(setters, kernel.launches, kernel.waiting, armed, e);
      NeverReap(heap.Timers(), kernel.launches, armed, kernel.reapEvent);
      NotYet(kernel, e);
      NoNullWaits(kernel);
      ghost var t, tasks, waiting := kernel.sched.curr, kernel.sched.tasks, kernel.waiting;
      UnpolledPolled(setters, kernel.launches, waiting, kernel.consumed, armed, e, t);
      var out := kernel.PollBegin([e]);
      if out != POLL_INVALID {
        assert false;
      }
      RousedAsleep(tasks, kernel.sched.tasks, waiting, kernel.unprocessed, armed, t, e);
      setters := setters - {e};
    }

    /** scheduler_sleep_for after the context switch: the event is pending and is consumed; its
        panic cannot happen.  The node of the timer can be used again. */
    method SleepResume(e: int)
      requires Valid() && kernel.sched.tasks[kernel.sched.curr].state == S.Running && e in armed
      requires kernel.sched.curr in kernel.waiting && kernel.waiting[kernel.sched.curr] == [e]
      modifies kernel`unprocessed, kernel`consumed, kernel`owed, kernel`waiting, kernel.subscribers
      ensures Valid() && kernel.waiting == old(kernel.waiting) - {kernel.sched.curr}
      ensures e in old(kernel.unprocessed) && old(kernel.unprocessed)[e] > 0
      ensures kernel.unprocessed == old(kernel.unprocessed)[e := old(kernel.unprocessed)[e] - 1]
      ensures OffHeap(heap.Timers(), e) && (e in kernel.subscribers.threads ==> kernel.subscribers.threads[e] == [])
    {
      hide Kernel.Valid, Heap.Valid, Heap.Timers, Armed, Roused, Private, Unconsumed, Unpolled, Accounted, OffHeap,
           Unawaited;
      CurrentKnown(kernel);
      CountersOf(kernel);
      ghost var t, waiting, unprocessed, consumed := kernel.sched.curr, kernel.waiting, kernel.unprocessed,
          kernel.consumed;
      RousedConsumed(kernel.sched.tasks, waiting, unprocessed, armed, t, e);
      assert [e][0] in [e];
      var out := kernel.PollResume([e]);
      if out != 0 {
        assert false;
      }
      CountersOf(kernel);
      ConsumedOne(kernel.launches, unprocessed, consumed, kernel.unprocessed, kernel.consumed, e);
      UnpolledResumed(setters, kernel.launches, waiting, consumed, kernel.consumed, armed, t, e);
      NobodyElse(waiting, armed, t, e);
      WaitersSubscribe(kernel, e);
      LaunchedIsOff(heap.Timers(), kernel.launches, armed, kernel.reapEvent, e);
    }

    /** scheduler_preempt does not touch the timers. */
    method Preempt() returns (panics: bool)
      requires Valid()
      modifies kernel`unprocessed, kernel`launches
      modifies kernel.sched`tasks, kernel.sched`gone, kernel.sched`curr, kernel.sched.rq
      ensures panics <==>
                && old(kernel.sched.tasks[kernel.sched.curr].state) == S.Killed
                && kernel.subscribers.threads[kernel.reapEvent] == []
      ensures !panics ==> Valid() && heap.Timers() == old(heap.Timers())
      ensures old(kernel.sched.tasks[kernel.sched.curr].state) == S.Running ==>
                Preempted(old(kernel.sched.tasks), old(kernel.sched.rq.lists), old(kernel.sched.curr),
                          kernel.sched.tasks, kernel.sched.rq.lists, kernel.sched.curr, kernel.sched.idle)
    {
      hide Heap.Valid, Heap.Timers, Armed, Kernel.Valid, Roused, Private, NoneRoused, Unconsumed, Unpolled, Preempted,
           Switched, Awakened, Buried;
      ghost var launches, unprocessed, tasks := kernel.launches, kernel.unprocessed, kernel.sched.tasks;
      ReaperWaits(kernel);
      NeverReap(heap.Timers(), launches, armed, kernel.reapEvent);
      panics := kernel.Preempt();
      if !panics {
        ArmedKept(heap.Timers(), launches, kernel.launches, armed, kernel.reapEvent);
        UnpolledKept(setters, launches, kernel.launches, kernel.waiting, armed, kernel.reapEvent);
        RousedReaper(tasks, kernel.sched.tasks, kernel.waiting, unprocessed, kernel.unprocessed, armed, kernel.reaper,
                     kernel.reapEvent);
      }
    }

    /** No thread sleeps past its timer.  After every tick, a thread that still sleeps on a timer's
        event has not reached the expiration time; and at any time, while no timer lies in the past,
        it has not passed it. */
    lemma NobodyOversleeps(t: int, e: int)
      requires Valid() && e in armed
      requires t in kernel.waiting && e in kernel.waiting[t]
      requires t in kernel.sched.tasks && kernel.sched.tasks[t].state == S.Sleeping
      ensures Timer(e, armed[e]) in heap.Timers()
      ensures NoneDue(heap.Timers(), heap.ticks) ==> armed[e] > heap.ticks
      ensures NotBefore(heap.Timers(), heap.ticks) ==> armed[e] >= heap.ticks
    {
      hide Kernel.Valid, Heap.Valid, Heap.Timers, Armed;
      NotLaunched(kernel, t, e);
      StillArmed(heap.Timers(), kernel.launches, armed, kernel.reapEvent, e);
    }
  }

  lemma NobodyElse(waiting: map<int, seq<int>>, armed: map<int, nat>, t: int, e: int)
    requires Private(waiting, armed) && t in waiting && waiting[t] == [e] && e in armed
    ensures Unawaited(waiting - {t}, e)
  {
    assert e in waiting[t];
  }

  lemma LaunchedIsOff(timers: seq<Timer>, launches: map<int, nat>, armed: map<int, nat>, reapEvent: int, e: int)
    requires Armed(timers, launches, armed, reapEvent) && e in armed && e in launches && launches[e] > 0
    ensures OffHeap(timers, e)
  {
    assert Timer(e, armed[e]) !in multiset(timers);
    forall x | x in timers
      ensures x.node != e
    {
      assert x in multiset(timers);
    }
  }

  lemma SetFacts(setters: map<int, int>, launches: map<int, nat>, waiting: map<int, seq<int>>, armed: map<int, nat>,
                 e: int)
    requires Unpolled(setters, launches, waiting, armed) && e in setters
    ensures e in armed && e in launches && launches[e] == 0 && Unawaited(waiting, e)
  {
  }

  lemma NothingHeard(threads: map<int, seq<int>>)
    ensures Heard([], threads)
  {
  }
}
