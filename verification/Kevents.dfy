/**
 * Kernel events, kernel/src/misc/kevent.c, together with the scheduling steps that use them
 * (kernel/src/proc/scheduler.c), for one processor.  Code between two context switches with
 * interrupts off is one step; kevents_poll is two, because it gives up the processor.
 */
module Kevents {
  import opened Links
  import opened RunQueues
  import opened Seqs
  import S = Scheduler
  import opened Subscribers

  const POLL_INVALID := -1

  /** How often task t is subscribed to event e. */
  ghost function Times(waiting: map<int, seq<int>>, t: int, e: int): (n: nat) {
    if t in waiting then multiset(waiting[t])[e] else 0
  }

  /** The subscriber lists hold exactly the subscriptions of the waiting tasks. */
  ghost predicate Counts(threads: map<int, seq<int>>, waiting: map<int, seq<int>>) {
    forall e, t | e in threads :: multiset(threads[e])[t] == Times(waiting, t, e)
  }

  ghost predicate Known(tasks: map<int, S.Task>, waiting: map<int, seq<int>>, unprocessed: map<int, nat>) {
    forall t | t in waiting :: t in tasks && forall e | e in waiting[t] :: e in unprocessed
  }

  /** No launch is pending on any of these events. */
  ghost predicate Nothing(unprocessed: map<int, nat>, events: seq<int>) {
    forall e | e in events && e in unprocessed :: unprocessed[e] == 0
  }

  /** The first pending event is consumed once. */
  ghost predicate Consumed(unprocessed: map<int, nat>, after: map<int, nat>, events: seq<int>, out: int) {
    && 0 <= out < |events| && events[out] in unprocessed && unprocessed[events[out]] > 0
    && (forall i | 0 <= i < out :: events[i] in unprocessed && unprocessed[events[i]] == 0)
    && after == unprocessed[events[out] := unprocessed[events[out]] - 1]
  }

  /** No lost wake-up: nothing is pending for a task that sleeps in kevents_poll. */
  ghost predicate NoLostWakeup(tasks: map<int, S.Task>, waiting: map<int, seq<int>>, unprocessed: map<int, nat>) {
    forall t | t in waiting && t in tasks && tasks[t].state == S.Sleeping :: Nothing(unprocessed, waiting[t])
  }

  /** The reap event is the reaper's alone, and a reaper that has been woken finds it pending. */
  ghost predicate Fed(tasks: map<int, S.Task>, waiting: map<int, seq<int>>, unprocessed: map<int, nat>, reaper: int,
                      reapEvent: int) {
    && (forall t | t in waiting && reapEvent in waiting[t] :: t == reaper)
    && (reaper in waiting ==> waiting[reaper] == [reapEvent])
    && (reaper in waiting && reaper in tasks && Awake(tasks[reaper]) && reapEvent in unprocessed ==>
          unprocessed[reapEvent] > 0)
  }

  predicate Awake(x: S.Task) {
    x.state == S.Ready || x.state == S.Running
  }

  /** Nobody but perhaps `except` has been woken. */
  ghost predicate NoneRoused(tasks: map<int, S.Task>, after: map<int, S.Task>, except: int) {
    forall t | t in after && Awake(after[t]) && t != except :: t in tasks && Awake(tasks[t])
  }

  lemma RousedOne(tasks: map<int, S.Task>, t: int, x: S.Task, except: int)
    requires t == except || (Awake(x) ==> t in tasks && Awake(tasks[t]))
    ensures NoneRoused(tasks, tasks[t := x], except)
  {
  }

  lemma RousedTwice(tasks: map<int, S.Task>, mid: map<int, S.Task>, after: map<int, S.Task>, except: int)
    requires NoneRoused(tasks, mid, except) && NoneRoused(mid, after, except)
    ensures NoneRoused(tasks, after, except)
  {
  }

  lemma RousedWeaker(tasks: map<int, S.Task>, after: map<int, S.Task>, except: int)
    requires NoneRoused(tasks, after, NULL)
    requires NULL in after ==> NULL in tasks && (Awake(after[NULL]) ==> Awake(tasks[NULL]))
    ensures NoneRoused(tasks, after, except)
  {
  }

  /** A launch of an event that only one task waits for. */
  lemma RousedByLaunch(tasks: map<int, S.Task>, waiting: map<int, seq<int>>, threads: map<int, seq<int>>, e: int,
                       except: int)
    requires Counts(threads, waiting) && e in threads
    requires forall t | t in waiting && e in waiting[t] :: t == except
    ensures NoneRoused(tasks, Awakened(tasks, threads[e]), except)
  {
    forall t | t in threads[e]
      ensures t == except
    {
      Subscribed(threads, waiting, e, t);
    }
  }

  /** The counters are launches minus consumptions. */
  ghost predicate Accounted(unprocessed: map<int, nat>, launches: map<int, nat>, consumed: map<int, nat>) {
    && launches.Keys == consumed.Keys == unprocessed.Keys
    && forall e | e in unprocessed :: unprocessed[e] + consumed[e] == launches[e]
  }

  /** The tasks after everyone in `woken` who slept has been made ready. */
  function Awakened(tasks: map<int, S.Task>, woken: seq<int>): (r: map<int, S.Task>) {
    map t | t in tasks :: if t in woken && tasks[t].state == S.Sleeping then tasks[t].(state := S.Ready) else tasks[t]
  }

  /** The foremost of the ready tasks has become the running one. */
  ghost predicate Switched(tasks: map<int, S.Task>, after: map<int, S.Task>, next: int, idle: int) {
    && S.Foremost(tasks, next, idle) && tasks[next].state == S.Ready
    && after == tasks[next := tasks[next].(state := S.Running)]
  }

  /** A running task has been preempted: it is ready, at the end of its run queue unless it is the idle
      task, and the foremost ready task has been taken from the front of its queue and runs. */
  ghost predicate Preempted(tasks: map<int, S.Task>, l: Lists, t: int, tasks': map<int, S.Task>, l': Lists, next: int,
                            idle: int)
  {
    && t in tasks && tasks[t].prio < PRIORITIES && |l| == QUEUES && next in tasks
    && Switched(tasks[t := tasks[t].(state := S.Ready)], tasks', next, idle)
    && S.Dequeued(S.Requeued(l, t, tasks[t].prio, idle), l', tasks[next].prio, next, idle)
  }

  /** A preempted task runs on only if no other task of its priority or a higher one is ready; the
      idle task only if no other is ready at all. */
  lemma RunsOnAlone(tasks: map<int, S.Task>, l: Lists, t: int, tasks': map<int, S.Task>, l': Lists, idle: int,
                    gone: set<int>, u: int)
    requires Preempted(tasks, l, t, tasks', l', t, idle) && S.Placed(tasks, l, idle, gone)
    requires tasks[t].state == S.Running && u in tasks && tasks[u].state == S.Ready && u != idle
    ensures t != idle && tasks[u].prio > tasks[t].prio
  {
    hide Switched;
    assert S.InPlace(tasks, l, idle, gone, u) && S.InPlace(tasks, l, idle, gone, t);
    var p, q := tasks[u].prio, tasks[t].prio;
    assert u in l[p];
    var m := S.Requeued(l, t, q, idle);
    assert l[p] <= m[p] && m[p] != [];
    assert t !in l[q] by {
      assert !S.Belongs(tasks[t], t, q, idle, gone);
    }
  }

  /** A running task has gone to the end of the sleep queue, and the next one has been taken from the
      front of its run queue. */
  ghost predicate Yielded(l: Lists, t: int, l': Lists, tasks: map<int, S.Task>, next: int, idle: int) {
    && |l| == QUEUES && next in tasks
    && S.Dequeued(l[SLEEP := l[SLEEP] + [t]], l', tasks[next].prio, next, idle)
  }

  /** Whoever was in a run queue keeps the place, behind those that have come in. */
  ghost predicate AheadOf(l: Lists, l': Lists) {
    |l| == |l'| == QUEUES &&
    forall q | 0 <= q < PRIORITIES :: |l[q]| <= |l'[q]| && l'[q][|l'[q]| - |l[q]|..] == l[q]
  }

  lemma AheadRefl(l: Lists)
    requires |l| == QUEUES
    ensures AheadOf(l, l)
  {
    forall q | 0 <= q < PRIORITIES
      ensures l[q][0..] == l[q]
    {
    }
  }

  lemma AheadTwice(l: Lists, m: Lists, r: Lists)
    requires AheadOf(l, m) && AheadOf(m, r)
    ensures AheadOf(l, r)
  {
    forall q | 0 <= q < PRIORITIES
      ensures |l[q]| <= |r[q]| && r[q][|r[q]| - |l[q]|..] == l[q]
    {
      var i, j := |r[q]| - |m[q]|, |m[q]| - |l[q]|;
      assert r[q][i + j..] == r[q][i..][j..];
    }
  }

  lemma FrontIsAhead(l: Lists, l': Lists, t: int, p: int)
    requires S.ToFront(l, l', t, p)
    ensures AheadOf(l, l')
  {
    forall q | 0 <= q < PRIORITIES
      ensures |l[q]| <= |l'[q]| && l'[q][|l'[q]| - |l[q]|..] == l[q]
    {
      assert ([t] + l[q])[1..] == l[q];
    }
  }

  ghost function Asleep(tasks: map<int, S.Task>, t: int): (r: map<int, S.Task>) {
    if t in tasks then tasks[t := tasks[t].(state := S.Sleeping)] else tasks
  }

  ghost function Buried(tasks: map<int, S.Task>, t: int): (r: map<int, S.Task>) {
    if t in tasks then tasks[t := tasks[t].(state := S.Killed)] else tasks
  }

  lemma AwakenedStep(tasks: map<int, S.Task>, woken: seq<int>, t: int)
    requires t in tasks
    ensures var r := Awakened(tasks, woken);
            Awakened(tasks, woken + [t]) == if r[t].state == S.Sleeping then r[t := r[t].(state := S.Ready)] else r
  {
    var w := woken + [t];
    forall u
      ensures u in w <==> u in woken || u == t
    {
    }
  }

  /** The subscribers of an event are the tasks that wait for it. */
  lemma Subscribed(threads: map<int, seq<int>>, waiting: map<int, seq<int>>, e: int, t: int)
    requires Counts(threads, waiting) && e in threads
    ensures t in threads[e] <==> t in waiting && e in waiting[t]
  {
    assert multiset(threads[e])[t] == Times(waiting, t, e);
    assert t in threads[e] <==> t in multiset(threads[e]);
    assert t in waiting ==> (e in waiting[t] <==> e in multiset(waiting[t]));
  }

  lemma SubscriberKnown(tasks: map<int, S.Task>, waiting: map<int, seq<int>>, unprocessed: map<int, nat>,
                        threads: map<int, seq<int>>, e: int, t: int)
    requires Counts(threads, waiting) && Known(tasks, waiting, unprocessed) && e in threads
    ensures t in threads[e] ==> t in tasks && t in waiting
    ensures t in waiting && e in waiting[t] ==> t in threads[e]
  {
    hide Counts;
    Subscribed(threads, waiting, e, t);
  }

  /** A launch wakes every sleeper that waits for the event, so none is left with it pending. */
  lemma LaunchKeepsWakeups(tasks: map<int, S.Task>, waiting: map<int, seq<int>>, unprocessed: map<int, nat>,
                           threads: map<int, seq<int>>, e: int)
    requires Counts(threads, waiting) && Known(tasks, waiting, unprocessed) && NoLostWakeup(tasks, waiting, unprocessed)
    requires e in threads && e in unprocessed
    ensures NoLostWakeup(Awakened(tasks, threads[e]), waiting, unprocessed[e := unprocessed[e] + 1])
  {
    var tasks' := Awakened(tasks, threads[e]);
    var pending := unprocessed[e := unprocessed[e] + 1];
    forall t | t in waiting && t in tasks' && tasks'[t].state == S.Sleeping
      ensures Nothing(pending, waiting[t])
    {
      SubscriberKnown(tasks, waiting, unprocessed, threads, e, t);
      assert Nothing(unprocessed, waiting[t]);
    }
  }

  lemma CountsLinked(threads: map<int, seq<int>>, waiting: map<int, seq<int>>, e: int, t: int)
    requires Counts(threads, waiting) && e in threads && t in waiting
    ensures Counts(threads[e := [t] + threads[e]], waiting[t := waiting[t] + [e]])
  {
    var threads' := threads[e := [t] + threads[e]];
    var waiting' := waiting[t := waiting[t] + [e]];
    forall d, u | d in threads'
      ensures multiset(threads'[d])[u] == Times(waiting', u, d)
    {
      assert multiset(threads[d])[u] == Times(waiting, u, d);
      assert multiset([t] + threads[e]) == multiset{t} + multiset(threads[e]);
      assert multiset(waiting[t] + [e]) == multiset(waiting[t]) + multiset{e};
    }
  }

  lemma CountsUnlinked(threads: map<int, seq<int>>, waiting: map<int, seq<int>>, t: int)
    requires Counts(threads, waiting) && t in waiting && waiting[t] != [] && waiting[t][0] in threads
    ensures t in threads[waiting[t][0]]
    ensures var e := waiting[t][0]; Counts(threads[e := Minus(threads[e], t)], waiting[t := waiting[t][1..]])
  {
    hide Minus;
    var e := waiting[t][0];
    assert waiting[t] == [e] + waiting[t][1..];
    assert multiset(waiting[t]) == multiset{e} + multiset(waiting[t][1..]);
    assert multiset(threads[e])[t] == Times(waiting, t, e);
    assert t in multiset(threads[e]);
    MinusMultiset(threads[e], t);
    var threads' := threads[e := Minus(threads[e], t)];
    var waiting' := waiting[t := waiting[t][1..]];
    forall d, u | d in threads'
      ensures multiset(threads'[d])[u] == Times(waiting', u, d)
    {
      assert multiset(threads[d])[u] == Times(waiting, u, d);
    }
  }

  lemma CountsDropped(threads: map<int, seq<int>>, waiting: map<int, seq<int>>, t: int)
    requires Counts(threads, waiting) && t in waiting && waiting[t] == []
    ensures Counts(threads, waiting - {t})
  {
    var waiting' := waiting - {t};
    forall d, u | d in threads
      ensures multiset(threads[d])[u] == Times(waiting', u, d)
    {
      assert multiset(threads[d])[u] == Times(waiting, u, d);
    }
  }

  lemma CountsEntered(threads: map<int, seq<int>>, waiting: map<int, seq<int>>, t: int)
    requires Counts(threads, waiting) && t !in waiting
    ensures Counts(threads, waiting[t := []])
  {
    var waiting' := waiting[t := []];
    forall d, u | d in threads
      ensures multiset(threads[d])[u] == Times(waiting', u, d)
    {
      assert multiset(threads[d])[u] == Times(waiting, u, d);
    }
  }

  // ------------------------------------------------------------------- the kernel

  class Kernel {
    const sched: S.Scheduler
    const subscribers: Subscriptions
    /** The event that announces tasks on the reap queue. */
    const reapEvent: int
    /** The thread of kernel_reaper, the only one that polls that event. */
    const reaper: int
    /** The `unprocessed` field of every event. */
    var unprocessed: map<int, nat>
    ghost var launches: map<int, nat>
    ghost var consumed: map<int, nat>
    /** The tasks between the two halves of kevents_poll, with their events. */
    ghost var waiting: map<int, seq<int>>
    /** Reap events that the reaper has consumed without having taken a task yet. */
    ghost var owed: nat

    /** What holds at every moment with interrupts off. */
    ghost predicate Kept()
      reads this, sched, sched.rq, subscribers
    {
      && sched.Kept() && subscribers.Valid() && subscribers.threads.Keys == unprocessed.Keys
      && Counts(subscribers.threads, waiting) && Known(sched.tasks, waiting, unprocessed)
      && NoLostWakeup(sched.tasks, waiting, unprocessed) && Accounted(unprocessed, launches, consumed)
      && reapEvent in unprocessed
    }

    /** Every task on the reap queue is announced, or its announcement has been consumed. */
    ghost predicate Balanced()
      reads this, sched, sched.rq
    {
      |sched.rq.lists| == QUEUES && reapEvent in unprocessed && |sched.rq.lists[REAP]| == unprocessed[reapEvent] + owed
    }

    /** Between two steps. */
    ghost predicate Valid()
      reads this, sched, sched.rq, subscribers
    {
      Kept() && Balanced() && sched.Valid() && Fed(sched.tasks, waiting, unprocessed, reaper, reapEvent)
    }

    /** A kernel around a scheduler whose current task runs, with the reap event as only event. */
    constructor (scheduler: S.Scheduler, pool: Subscriptions, reap: int, reaperThread: int)
      requires scheduler.Valid() && scheduler.rq.lists[REAP] == [] && pool.Valid() && pool.threads == map[reap := []]
      ensures Valid() && sched == scheduler && subscribers == pool
      ensures reapEvent == reap && reaper == reaperThread && waiting == map[]
      ensures unprocessed == launches == consumed == map[reap := 0] && owed == 0
    {
      hide S.Scheduler.Kept, Subscriptions.Valid, Counts;
      NothingWaits(pool.threads, reap);
      QueueCount(scheduler);
      sched, subscribers, reapEvent, reaper := scheduler, pool, reap, reaperThread;
      unprocessed, launches, consumed, waiting, owed := map[reap := 0], map[reap := 0], map[reap := 0], map[], 0;
    }

    /** _find_unprocessed. */
    method FindUnprocessed(events: seq<int>) returns (out: int)
      requires Kept() && forall e | e in events :: e in unprocessed
      modifies this`unprocessed, this`consumed, this`owed
      ensures Kept() && unprocessed.Keys == old(unprocessed.Keys)
      ensures out == POLL_INVALID ==>
                && Nothing(unprocessed, events)
                && unprocessed == old(unprocessed) && consumed == old(consumed) && owed == old(owed)
      ensures out != POLL_INVALID ==>
                && Consumed(old(unprocessed), unprocessed, events, out)
                && owed == old(owed) + (if events[out] == reapEvent then 1 else 0)
      ensures old(Balanced()) ==> Balanced()
    {
      hide S.Scheduler.Kept, Subscriptions.Valid, Counts, Known, NoLostWakeup, Accounted;
      var i := 0;
      while i < |events|
        invariant 0 <= i <= |events| && unprocessed == old(unprocessed)
        invariant consumed == old(consumed) && owed == old(owed)
        invariant forall j | 0 <= j < i :: events[j] in unprocessed && unprocessed[events[j]] == 0
      {
        var ev := events[i];
        assert ev in events;
        if unprocessed[ev] > 0 {
          ConsumeKeepsWakeups(sched.tasks, waiting, unprocessed, ev);
          ConsumeAccounted(unprocessed, launches, consumed, ev);
          unprocessed := unprocessed[ev := unprocessed[ev] - 1];
          consumed := consumed[ev := consumed[ev] + 1];
          if ev == reapEvent {
            owed := owed + 1;
          }
          return i;
        }
        i := i + 1;
      }
      return POLL_INVALID;
    }

    /** kevent_subscribe. */
    method Subscribe(events: seq<int>, t: int)
      requires Kept() && (forall e | e in events :: e in unprocessed)
      requires t in sched.tasks && t !in waiting && sched.tasks[t].state != S.Sleeping
      modifies this`waiting, subscribers
      ensures Kept() && waiting == old(waiting)[t := events]
    {
      hide S.Scheduler.Kept, Subscriptions.Valid, Counts, Accounted, Known, NoLostWakeup;
      CountsEntered(subscribers.threads, waiting, t);
      EnteredKeeps(sched.tasks, waiting, unprocessed, t, []);
      waiting := waiting[t := []];
      var i := 0;
      while i < |events|
        invariant 0 <= i <= |events| && Kept() && waiting == old(waiting)[t := events[..i]]
      {
        assert events[i] in events;
        SubscribeOne(events[i], t);
        assert events[..i + 1] == events[..i] + [events[i]];
        i := i + 1;
      }
      assert events[..i] == events;
    }

    method SubscribeOne(ev: int, t: int)
      requires Kept() && ev in unprocessed && t in sched.tasks && t in waiting && sched.tasks[t].state != S.Sleeping
      modifies this`waiting, subscribers
      ensures Kept() && waiting == old(waiting)[t := old(waiting)[t] + [ev]]
    {
      hide S.Scheduler.Kept, Subscriptions.Valid, Counts, Accounted, Known, NoLostWakeup;
      WaiterKnown(sched.tasks, waiting, unprocessed, t);
      CountsLinked(subscribers.threads, waiting, ev, t);
      subscribers.Link(ev, t);
      EnteredKeeps(sched.tasks, waiting, unprocessed, t, waiting[t] + [ev]);
      waiting := waiting[t := waiting[t] + [ev]];
    }

    /** kevent_unsubscribe; the panic of _subscriber_list_unlink cannot happen. */
    method Unsubscribe(events: seq<int>, t: int)
      requires Kept() && t in waiting && waiting[t] == events && t in sched.tasks && sched.tasks[t].state != S.Sleeping
      modifies this`waiting, subscribers
      ensures Kept() && waiting == old(waiting) - {t}
    {
      hide S.Scheduler.Kept, Subscriptions.Valid, Counts, Accounted, NoLostWakeup;
      var i := 0;
      assert events[0..] == events;
      assert waiting == waiting[t := events];
      while i < |events|
        invariant 0 <= i <= |events| && Kept() && waiting == old(waiting)[t := events[i..]]
      {
        var ev := events[i];
        assert events[i..][0] == ev && ev in waiting[t];
        CountsUnlinked(subscribers.threads, waiting, t);
        var panics := subscribers.Unlink(ev, t);
        assert !panics;
        EnteredKeeps(sched.tasks, waiting, unprocessed, t, waiting[t][1..]);
        waiting := waiting[t := waiting[t][1..]];
        assert events[i..][1..] == events[i + 1..];
        i := i + 1;
      }
      CountsDropped(subscribers.threads, waiting, t);
      LeftKeeps(sched.tasks, waiting, unprocessed, t);
      waiting := waiting - {t};
      assert waiting == old(waiting) - {t};
    }

    /** kevents_poll up to the context switch: either an event is consumed, or the thread subscribes,
        sleeps and gives up the processor. */
    method PollBegin(events: seq<int>) returns (out: int)
      requires Valid() && sched.tasks[sched.curr].state == S.Running
      requires sched.curr != sched.idle && sched.curr !in waiting
      requires forall e | e in events :: e in unprocessed
      requires reapEvent in events <==> sched.curr == reaper
      requires sched.curr == reaper ==> events == [reapEvent]
      modifies this`unprocessed, this`consumed, this`owed, this`waiting, sched`tasks, sched`curr, sched.rq, subscribers
      ensures Valid()
      ensures out != POLL_INVALID ==>
                && Consumed(old(unprocessed), unprocessed, events, out)
                && sched.curr == old(sched.curr) && waiting == old(waiting)
                && owed == old(owed) + (if events[out] == reapEvent then 1 else 0)
      ensures launches == old(launches) && NoneRoused(old(sched.tasks), sched.tasks, NULL)
      ensures out == POLL_INVALID ==>
                && unprocessed == old(unprocessed) && Nothing(unprocessed, events)
                && consumed == old(consumed) && owed == old(owed)
                && waiting == old(waiting)[old(sched.curr) := events]
                && old(sched.curr) in sched.tasks && sched.tasks[old(sched.curr)].state == S.Sleeping
                && Switched(Asleep(old(sched.tasks), old(sched.curr)), sched.tasks, sched.curr, sched.idle)
                && Yielded(old(sched.rq.lists), old(sched.curr), sched.rq.lists, sched.tasks, sched.curr, sched.idle)
    {
      hide S.Scheduler.Kept, Subscriptions.Valid, Counts, Accounted, NoLostWakeup, Known, Fed, Switched, Asleep,
           Yielded;
      var this_ := sched.curr;
      ghost var before, pending := waiting, unprocessed;
      out := FindUnprocessed(events);
      FedPoll(sched.tasks, before, pending, unprocessed, reaper, reapEvent, this_, events, out);
      if out == POLL_INVALID {
        Subscribe(events, this_);
        Block(this_, events);
      }
    }

    /** Sleep and yield: the end of the first half of kevents_poll. */
    method Block(t: int, ghost events: seq<int>)
      requires Kept() && Balanced() && sched.Valid() && t == sched.curr
      requires sched.tasks[t].state == S.Running && t != sched.idle
      requires t in waiting && waiting[t] == events && Nothing(unprocessed, events)
      requires Fed(sched.tasks[t := sched.tasks[t].(state := S.Sleeping)], waiting, unprocessed, reaper, reapEvent)
      modifies sched`tasks, sched`curr, sched.rq
      ensures Valid() && t in sched.tasks && sched.tasks[t].state == S.Sleeping
      ensures NoneRoused(old(sched.tasks), sched.tasks, NULL)
      ensures Switched(Asleep(old(sched.tasks), t), sched.tasks, sched.curr, sched.idle)
      ensures Yielded(old(sched.rq.lists), t, sched.rq.lists, sched.tasks, sched.curr, sched.idle)
    {
      hide Subscriptions.Valid, Counts, Accounted, NoLostWakeup, Known, Fed, S.Scheduler.Kept, NoneRoused, S.Foremost,
           S.Dequeued;
      ghost var before := sched.tasks;
      QueueCount(sched);
      var panics := sched.PutToSleep(t);
      assert !panics;
      QueueCount(sched);
      assert sched.rq.lists == old(sched.rq.lists)[SLEEP := old(sched.rq.lists)[SLEEP] + [t]];
      SleepKeeps(before, waiting, unprocessed, t);
      assert S.NoneRunning(sched.tasks);
      ghost var asleep := sched.tasks;
      RousedOne(before, t, sched.tasks[t], NULL);
      Dispatch();
      RousedTwice(before, asleep, sched.tasks, NULL);
    }

    /** kevents_poll after the context switch. */
    method PollResume(events: seq<int>) returns (out: int)
      requires Valid() && sched.tasks[sched.curr].state == S.Running
      requires sched.curr in waiting && waiting[sched.curr] == events
      modifies this`unprocessed, this`consumed, this`owed, this`waiting, subscribers
      ensures Valid() && waiting == old(waiting) - {sched.curr}
      ensures out == POLL_INVALID <==> old(Nothing(unprocessed, events))
      ensures sched.curr == reaper ==> out == 0 && owed > 0
      ensures out != POLL_INVALID ==>
                && Consumed(old(unprocessed), unprocessed, events, out)
                && owed == old(owed) + (if events[out] == reapEvent then 1 else 0)
      ensures out == POLL_INVALID ==> unprocessed == old(unprocessed) && owed == old(owed)
    {
      hide S.Scheduler.Kept, Subscriptions.Valid, Counts, Accounted, NoLostWakeup, Known, Fed;
      WaiterKnown(sched.tasks, waiting, unprocessed, sched.curr);
      var this_ := sched.curr;
      ghost var before, pending := waiting, unprocessed;
      out := FindUnprocessed(events);
      if out != POLL_INVALID {
        assert events[out] in events;
      }
      FedResumed(sched.tasks, before, pending, unprocessed, reaper, reapEvent, this_, out);
      Unsubscribe(events, this_);
    }

    /** kevent_launch.  It panics exactly if nobody is subscribed. */
    method Launch(e: int) returns (panics: bool)
      requires Kept() && e in unprocessed
      modifies this`unprocessed, this`launches, sched`tasks, sched.rq
      ensures Kept() && (panics <==> subscribers.threads[e] == [])
      ensures panics ==>
                unprocessed == old(unprocessed) && launches == old(launches) && sched.tasks == old(sched.tasks)
      ensures !panics ==>
                && unprocessed == old(unprocessed)[e := old(unprocessed)[e] + 1]
                && e in old(launches) && launches == old(launches)[e := old(launches)[e] + 1]
                && sched.tasks == Awakened(old(sched.tasks), subscribers.threads[e])
      ensures |sched.rq.lists| == |old(sched.rq.lists)| == QUEUES && sched.rq.lists[REAP] == old(sched.rq.lists)[REAP]
      ensures AheadOf(old(sched.rq.lists), sched.rq.lists)
      ensures old(Valid()) && e != reapEvent ==> Valid()
    {
      hide Subscriptions.Valid, Counts, Accounted, NoLostWakeup, Known, Fed, S.Scheduler.Kept, S.Current, Awakened,
           AheadOf;
      QueueCount(sched);
      AheadRefl(sched.rq.lists);
      EventHead(subscribers, e);
      if subscribers.heads[e] == NULL {
        return true;
      }
      if old(Valid()) && e != reapEvent {
        FedAwakened(sched.tasks, waiting, unprocessed, subscribers.threads, reaper, reapEvent, e);
        StillCurrentAwakened(sched.tasks, sched.curr, sched.gone, subscribers.threads[e]);
      }
      Deliver(e);
      panics := false;
    }

    /** kevent_launch with subscribers: wake them and count the launch. */
    method Deliver(e: int)
      requires Kept() && e in unprocessed
      modifies this`unprocessed, this`launches, sched`tasks, sched.rq
      ensures Kept() && unprocessed == old(unprocessed)[e := old(unprocessed)[e] + 1]
      ensures e in old(launches) && launches == old(launches)[e := old(launches)[e] + 1]
      ensures sched.tasks == Awakened(old(sched.tasks), subscribers.threads[e])
      ensures |sched.rq.lists| == |old(sched.rq.lists)| == QUEUES && sched.rq.lists[REAP] == old(sched.rq.lists)[REAP]
      ensures AheadOf(old(sched.rq.lists), sched.rq.lists)
    {
      hide Subscriptions.Valid, Counts, Accounted, NoLostWakeup, Known, S.Scheduler.Kept, Awakened, AheadOf;
      LaunchKeepsWakeups(sched.tasks, waiting, unprocessed, subscribers.threads, e);
      LaunchAccounted(unprocessed, launches, consumed, e);
      ghost var before := sched.tasks;
      WakeSubscribers(e);
      AwakenedKnown(before, waiting, unprocessed, subscribers.threads[e], e);
      unprocessed := unprocessed[e := unprocessed[e] + 1];
      launches := launches[e := launches[e] + 1];
    }

    /** The loop of kevent_launch. */
    method WakeSubscribers(e: int)
      requires sched.Kept() && subscribers.Valid() && e in subscribers.threads
      requires Counts(subscribers.threads, waiting) && Known(sched.tasks, waiting, unprocessed)
      modifies sched`tasks, sched.rq
      ensures sched.Kept() && sched.tasks == Awakened(old(sched.tasks), subscribers.threads[e])
      ensures |sched.rq.lists| == |old(sched.rq.lists)| == QUEUES && sched.rq.lists[REAP] == old(sched.rq.lists)[REAP]
      ensures AheadOf(old(sched.rq.lists), sched.rq.lists)
    {
      hide Subscriptions.Valid, Counts, Known, S.Scheduler.Kept, S.Woken, AheadOf;
      ghost var before := sched.tasks;
      ghost var woken := subscribers.threads[e];
      EventHead(subscribers, e);
      QueueCount(sched);
      AheadRefl(sched.rq.lists);
      assert Awakened(before, []) == before;
      assert woken[..0] == [];
      var curr := subscribers.heads[e];
      ghost var k := 0;
      while curr != NULL
        invariant 0 <= k <= |woken| && sched.Kept() && sched.tasks == Awakened(before, woken[..k])
        invariant |subscribers.subs[e]| == |woken| && curr == At(subscribers.subs[e], k)
        invariant curr == NULL <==> k == |woken|
        invariant |sched.rq.lists| == QUEUES && sched.rq.lists[REAP] == old(sched.rq.lists)[REAP]
        invariant AheadOf(old(sched.rq.lists), sched.rq.lists)
        decreases |woken| - k
      {
        NodeAt(subscribers, e, k);
        SubscriberKnown(before, waiting, unprocessed, subscribers.threads, e, woken[k]);
        AwakenedStep(before, woken[..k], woken[k]);
        assert woken[..k + 1] == woken[..k] + [woken[k]];
        ghost var l := sched.rq.lists;
        WakeOne(subscribers.thread[curr]);
        AheadTwice(old(sched.rq.lists), l, sched.rq.lists);
        curr := subscribers.next[curr];
        k := k + 1;
      }
      assert woken[..k] == woken;
    }

    /** scheduler_attempt_wake, as far as the tasks and the reap queue are concerned. */
    method WakeOne(t: int)
      requires sched.Kept() && t in sched.tasks
      modifies sched`tasks, sched.rq
      ensures sched.Kept()
      ensures sched.tasks == if old(sched.tasks)[t].state == S.Sleeping
                             then old(sched.tasks)[t := old(sched.tasks)[t].(state := S.Ready)]
                             else old(sched.tasks)
      ensures |sched.rq.lists| == |old(sched.rq.lists)| == QUEUES && sched.rq.lists[REAP] == old(sched.rq.lists)[REAP]
      ensures AheadOf(old(sched.rq.lists), sched.rq.lists)
    {
      hide S.Scheduler.Kept, AheadOf, S.ToFront;
      QueueCount(sched);
      AheadRefl(sched.rq.lists);
      sched.AttemptWake(t);
      QueueCount(sched);
      if old(sched.tasks)[t].state == S.Sleeping {
        FrontIsAhead(old(sched.rq.lists), sched.rq.lists, t, sched.tasks[t].prio);
      }
    }

    /** scheduler_kernel_thread_exit, and the end of a killed task in scheduler_preempt: the current
        task goes to the reap queue, the reaper is told, and the next task runs. */
    method Exit() returns (panics: bool)
      requires Valid() && sched.curr != sched.idle
      modifies this`unprocessed, this`launches, sched`tasks, sched`gone, sched`curr, sched.rq
      ensures panics <==> subscribers.threads[reapEvent] == []
      ensures !panics ==> Valid()
      ensures !panics ==> old(sched.curr) in sched.tasks && sched.tasks[old(sched.curr)].state == S.Killed
      ensures !panics ==> sched.rq.lists[REAP] == old(sched.rq.lists)[REAP] + [old(sched.curr)]
      ensures !panics ==> unprocessed == old(unprocessed)[reapEvent := old(unprocessed)[reapEvent] + 1]
      ensures !panics ==>
                reapEvent in old(launches) && launches == old(launches)[reapEvent := old(launches)[reapEvent] + 1]
      ensures !panics ==> NoneRoused(old(sched.tasks), sched.tasks, reaper)
      ensures !panics ==> Switched(Awakened(Buried(old(sched.tasks), old(sched.curr)), subscribers.threads[reapEvent]),
                                   sched.tasks, sched.curr, sched.idle)
    {
      hide Subscriptions.Valid, Counts, Accounted, NoLostWakeup, Known, Fed, S.Scheduler.Kept, NoneRoused, S.Current,
           S.NoneRunning, Awakened, S.Foremost;
      ghost var before, t := sched.tasks, sched.curr;
      Bury();
      ghost var dead := sched.tasks;
      OnlyReaper(before, dead, waiting, unprocessed, subscribers.threads, reaper, reapEvent);
      panics := Launch(reapEvent);
      if panics {
        return;
      }
      ghost var awake := sched.tasks;
      RousedTwice(before, dead, awake, reaper);
      StillNoneRunning(dead, subscribers.threads[reapEvent]);
      StaysDead(dead, subscribers.threads[reapEvent], t);
      FedAnnounced(before, awake, waiting, old(unprocessed), unprocessed, reaper, reapEvent);
      Dispatch();
      RousedWeaker(awake, sched.tasks, reaper);
      RousedTwice(before, awake, sched.tasks, reaper);
    }

    /** The current task dies and enters the reap queue. */
    method Bury()
      requires Valid() && sched.curr != sched.idle
      modifies sched`tasks, sched`gone, sched.rq
      ensures Kept() && S.NoneRunning(sched.tasks) && sched.idle != NULL
      ensures sched.curr in old(sched.tasks)
      ensures sched.tasks == old(sched.tasks)[sched.curr := old(sched.tasks)[sched.curr].(state := S.Killed)]
      ensures |old(sched.rq.lists)| == |sched.rq.lists| == QUEUES
      ensures sched.rq.lists[REAP] == old(sched.rq.lists)[REAP] + [sched.curr]
      ensures NoneRoused(old(sched.tasks), sched.tasks, reaper)
    {
      hide Subscriptions.Valid, Counts, Accounted, NoLostWakeup, Known, Fed, S.Scheduler.Kept, NoneRoused;
      ghost var before := sched.tasks;
      QueueCount(sched);
      sched.Bury();
      AwakeKeeps(before, waiting, unprocessed, sched.curr, sched.tasks[sched.curr]);
      RousedOne(before, sched.curr, sched.tasks[sched.curr], reaper);
    }

    /** switch_to_next_task. */
    method Dispatch()
      requires Kept() && Balanced() && S.NoneRunning(sched.tasks) && sched.idle != NULL
      requires Fed(sched.tasks, waiting, unprocessed, reaper, reapEvent)
      modifies sched`tasks, sched`curr, sched.rq
      ensures Valid()
      ensures sched.tasks == old(sched.tasks)[sched.curr := old(sched.tasks)[sched.curr].(state := S.Running)]
      ensures |old(sched.rq.lists)| == QUEUES && sched.rq.lists[REAP] == old(sched.rq.lists)[REAP]
      ensures sched.curr in old(sched.tasks) && old(sched.tasks)[sched.curr].state == S.Ready
      ensures NoneRoused(old(sched.tasks), sched.tasks, NULL)
      ensures Switched(old(sched.tasks), sched.tasks, sched.curr, sched.idle)
      ensures S.Dequeued(old(sched.rq.lists), sched.rq.lists, sched.tasks[sched.curr].prio, sched.curr, sched.idle)
    {
      hide Subscriptions.Valid, Counts, Accounted, NoLostWakeup, Known, Fed, S.Scheduler.Kept, NoneRoused, S.Foremost;
      ghost var before := sched.tasks;
      QueueCount(sched);
      sched.SwitchToNextTask();
      RousedOne(before, sched.curr, sched.tasks[sched.curr], NULL);
      AwakeKeeps(before, waiting, unprocessed, sched.curr, sched.tasks[sched.curr]);
      FedStays(before, waiting, unprocessed, reaper, reapEvent, sched.curr, sched.tasks[sched.curr]);
    }

    /** scheduler_preempt. */
    method Preempt() returns (panics: bool)
      requires Valid()
      modifies this`unprocessed, this`launches, sched`tasks, sched`gone, sched`curr, sched.rq
      ensures panics <==> old(sched.tasks[sched.curr].state) == S.Killed && subscribers.threads[reapEvent] == []
      ensures !panics ==> Valid()
      ensures old(sched.tasks[sched.curr].state) == S.Running ==>
                unprocessed == old(unprocessed) && launches == old(launches)
      ensures !panics ==> launches - {reapEvent} == old(launches) - {reapEvent}
      ensures !panics ==> unprocessed - {reapEvent} == old(unprocessed) - {reapEvent}
      ensures !panics ==> NoneRoused(old(sched.tasks), sched.tasks, reaper)
      ensures old(sched.tasks[sched.curr].state) == S.Running ==>
                Preempted(old(sched.tasks), old(sched.rq.lists), old(sched.curr), sched.tasks, sched.rq.lists,
                          sched.curr, sched.idle)
      ensures !panics && old(sched.tasks[sched.curr].state) == S.Killed ==>
                && |sched.rq.lists| == |old(sched.rq.lists)| == QUEUES
                && sched.rq.lists[REAP] == old(sched.rq.lists)[REAP] + [old(sched.curr)]
                && unprocessed == old(unprocessed)[reapEvent := old(unprocessed)[reapEvent] + 1]
                && Switched(Awakened(Buried(old(sched.tasks), old(sched.curr)), subscribers.threads[reapEvent]),
                            sched.tasks, sched.curr, sched.idle)
    {
      hide Subscriptions.Valid, Counts, Accounted, NoLostWakeup, Known, Fed, S.Scheduler.Kept, NoneRoused, Switched,
           Awakened, Buried, Preempted;
      QueueCount(sched);
      if sched.tasks[sched.curr].state == S.Killed {
        IdleLives(sched);
        panics := Exit();
        if !panics {
          QueueCount(sched);
        }
      } else {
        Rotate();
        panics := false;
      }
    }

    /** The part of scheduler_preempt for a task that goes on. */
    method Rotate()
      requires Valid() && sched.tasks[sched.curr].state == S.Running
      modifies sched`tasks, sched`curr, sched.rq
      ensures Valid() && NoneRoused(old(sched.tasks), sched.tasks, reaper)
      ensures Preempted(old(sched.tasks), old(sched.rq.lists), old(sched.curr), sched.tasks, sched.rq.lists,
                        sched.curr, sched.idle)
    {
      hide Subscriptions.Valid, Counts, Accounted, NoLostWakeup, Known, Fed, S.Scheduler.Kept, NoneRoused, Switched,
           S.Dequeued;
      ghost var before := sched.tasks;
      QueueCount(sched);
      sched.Requeue();
      AwakeKeeps(before, waiting, unprocessed, sched.curr, sched.tasks[sched.curr]);
      FedStays(before, waiting, unprocessed, reaper, reapEvent, sched.curr, sched.tasks[sched.curr]);
      QueueCount(sched);
      ghost var ready := sched.tasks;
      RousedOne(before, sched.curr, ready[sched.curr], reaper);
      Dispatch();
      RousedWeaker(ready, sched.tasks, reaper);
      RousedTwice(before, ready, sched.tasks, reaper);
    }

    /** One round of kernel_reaper after its poll has returned: there is a task to take, it can be
        cleaned up, and everything stays in place exactly if its children are dead or run. */
    method Reap() returns (t: int)
      requires Valid() && owed > 0
      modifies this`owed, sched`tasks, sched`children, sched`gone, sched.rq
      ensures old(sched.rq.lists)[REAP] != [] && t == old(sched.rq.lists)[REAP][0] && t in old(sched.children)
      ensures owed == old(owed) - 1 && sched.rq.lists == old(sched.rq.lists)[REAP := old(sched.rq.lists)[REAP][1..]]
      ensures sched.tasks == S.Orphaned(old(sched.tasks), old(sched.children)[t])
      ensures Valid() <==> S.Quiet(old(sched.tasks), old(sched.children)[t], sched.idle)
    {
      hide Subscriptions.Valid, Counts, Accounted, NoLostWakeup, Known, Fed, S.Scheduler.Kept, S.Current, S.Orphaned,
           S.Quiet;
      ghost var before := sched.tasks;
      QueueCount(sched);
      t := sched.PopDead();
      QueueCount(sched);
      owed := owed - 1;
      ghost var kids := sched.children[t];
      ghost var gone0 := sched.gone;
      var panics := sched.CleanupTask(t);
      assert !panics;
      OrphansKeep(before, waiting, unprocessed, kids);
      OrphansFed(before, waiting, unprocessed, reaper, reapEvent, kids);
      if S.Quiet(before, kids, sched.idle) {
        StillCurrent(before, old(sched.gone), gone0, kids, sched.curr, sched.idle, t);
      }
    }

    /** scheduler_new_kernel_thread. */
    method NewThread(t: int, kernelTask: int, prio: nat)
      requires Valid() && 0 <= t && t !in sched.tasks && kernelTask in sched.tasks && prio < PRIORITIES
      modifies sched`tasks, sched`children, sched.rq
      ensures Valid() && sched.tasks == old(sched.tasks)[t := S.Task(S.Ready, prio, kernelTask)]
      ensures sched.children == S.Adopted(old(sched.children)[t := []], t, kernelTask)
    {
      hide Subscriptions.Valid, Counts, Accounted, NoLostWakeup, S.Scheduler.Kept;
      ghost var before := sched.tasks;
      QueueCount(sched);
      sched.NewKernelThread(t, kernelTask, prio);
      AwakeKeeps(before, waiting, unprocessed, t, S.Task(S.Ready, prio, kernelTask));
      FedNewcomer(before, waiting, unprocessed, reaper, reapEvent, t, S.Task(S.Ready, prio, kernelTask));
    }

    /** scheduler_spawn_task. */
    method Spawn(t: int, parent: int, threadGroup: bool)
      requires Valid() && 0 <= t && t !in sched.tasks && (threadGroup ==> parent in sched.tasks)
      modifies sched`tasks, sched`children, sched.rq
      ensures Valid() && sched.tasks == old(sched.tasks)[t := S.Task(S.Uninitialized, S.PRIORITY_IDLE, parent)]
      ensures sched.children == S.Adopted(old(sched.children)[t := []], t, if threadGroup then parent else NULL)
    {
      hide Subscriptions.Valid, Counts, Accounted, NoLostWakeup, S.Scheduler.Kept;
      ghost var before, x := sched.tasks, S.Task(S.Uninitialized, S.PRIORITY_IDLE, parent);
      QueueCount(sched);
      sched.SpawnTask(t, parent, threadGroup);
      AwakeKeeps(before, waiting, unprocessed, t, x);
      FedNewcomer(before, waiting, unprocessed, reaper, reapEvent, t, x);
    }

    /** An event that has not been launched and has no subscribers; one that has been used before
        starts again. */
    method NewEvent(e: int)
      requires Valid() && 0 <= e && e != reapEvent
      requires e in subscribers.threads ==> subscribers.threads[e] == []
      modifies this`unprocessed, this`launches, this`consumed, subscribers
      ensures Valid() && unprocessed == old(unprocessed)[e := 0]
      ensures launches == old(launches)[e := 0] && consumed == old(consumed)[e := 0]
      ensures subscribers.threads == old(subscribers.threads)[e := []]
    {
      hide Subscriptions.Valid, S.Scheduler.Kept, Counts, Known, NoLostWakeup, Accounted, Fed;
      ghost var threads := subscribers.threads;
      subscribers.NewEvent(e);
      NewAccounted(unprocessed, launches, consumed, e);
      CountsNewEvent(threads, waiting, unprocessed, sched.tasks, e);
      FedPending(sched.tasks, waiting, unprocessed, unprocessed[e := 0], reaper, reapEvent);
      unprocessed, launches, consumed := unprocessed[e := 0], launches[e := 0], consumed[e := 0];
    }
  }

  // ------------------------------------------------------- what each step keeps

  /** A task that is awake afterwards was awake before, or is not the reaper. */
  lemma FedStays(tasks: map<int, S.Task>, waiting: map<int, seq<int>>, unprocessed: map<int, nat>, reaper: int,
                 reapEvent: int, t: int, x: S.Task)
    requires Fed(tasks, waiting, unprocessed, reaper, reapEvent) && t in tasks && (Awake(x) ==> Awake(tasks[t]))
    ensures Fed(tasks[t := x], waiting, unprocessed, reaper, reapEvent)
  {
  }

  lemma FedNewcomer(tasks: map<int, S.Task>, waiting: map<int, seq<int>>, unprocessed: map<int, nat>, reaper: int,
                    reapEvent: int, t: int, x: S.Task)
    requires Fed(tasks, waiting, unprocessed, reaper, reapEvent) && Known(tasks, waiting, unprocessed) && t !in tasks
    ensures Fed(tasks[t := x], waiting, unprocessed, reaper, reapEvent)
  {
  }

  /** Other events may change. */
  lemma FedPending(tasks: map<int, S.Task>, waiting: map<int, seq<int>>, unprocessed: map<int, nat>,
                   after: map<int, nat>, reaper: int, reapEvent: int)
    requires Fed(tasks, waiting, unprocessed, reaper, reapEvent) && reapEvent in unprocessed
    requires reapEvent in after && after[reapEvent] >= unprocessed[reapEvent]
    ensures Fed(tasks, waiting, after, reaper, reapEvent)
  {
  }

  lemma FedPoll(tasks: map<int, S.Task>, waiting: map<int, seq<int>>, unprocessed: map<int, nat>, after: map<int, nat>,
                reaper: int, reapEvent: int, t: int, events: seq<int>, out: int)
    requires Fed(tasks, waiting, unprocessed, reaper, reapEvent)
    requires t in tasks && t !in waiting && reapEvent in unprocessed
    requires (reapEvent in events <==> t == reaper) && (t == reaper ==> events == [reapEvent])
    requires if out == POLL_INVALID then after == unprocessed else Consumed(unprocessed, after, events, out)
    ensures Fed(tasks, waiting, after, reaper, reapEvent)
    ensures out == POLL_INVALID ==>
              Fed(tasks[t := tasks[t].(state := S.Sleeping)], waiting[t := events], after, reaper, reapEvent)
  {
    if out != POLL_INVALID {
      assert events[out] in events;
    }
  }

  /** The reaper's second look succeeds, and nobody else takes its event. */
  lemma FedResumed(tasks: map<int, S.Task>, waiting: map<int, seq<int>>, unprocessed: map<int, nat>,
                   after: map<int, nat>, reaper: int, reapEvent: int, t: int, out: int)
    requires Fed(tasks, waiting, unprocessed, reaper, reapEvent) && t in tasks
    requires t in waiting && Awake(tasks[t]) && reapEvent in unprocessed
    requires if out == POLL_INVALID then after == unprocessed && Nothing(after, waiting[t])
             else Consumed(unprocessed, after, waiting[t], out)
    ensures Fed(tasks, waiting - {t}, after, reaper, reapEvent)
    ensures t == reaper ==> out == 0 && waiting[t][out] == reapEvent
  {
    if out != POLL_INVALID {
      assert waiting[t][out] in waiting[t];
    }
  }

  lemma FedAnnounced(tasks: map<int, S.Task>, tasks': map<int, S.Task>, waiting: map<int, seq<int>>,
                     unprocessed: map<int, nat>, after: map<int, nat>, reaper: int, reapEvent: int)
    requires Fed(tasks, waiting, unprocessed, reaper, reapEvent) && reapEvent in after && after[reapEvent] > 0
    ensures Fed(tasks', waiting, after, reaper, reapEvent)
  {
  }

  lemma OnlyReaper(tasks: map<int, S.Task>, dead: map<int, S.Task>, waiting: map<int, seq<int>>,
                   unprocessed: map<int, nat>, threads: map<int, seq<int>>, reaper: int, reapEvent: int)
    requires Fed(tasks, waiting, unprocessed, reaper, reapEvent) && Counts(threads, waiting) && reapEvent in threads
    ensures NoneRoused(dead, Awakened(dead, threads[reapEvent]), reaper)
  {
    RousedByLaunch(dead, waiting, threads, reapEvent, reaper);
  }

  /** A launch of another event does not wake the reaper. */
  lemma FedAwakened(tasks: map<int, S.Task>, waiting: map<int, seq<int>>, unprocessed: map<int, nat>,
                    threads: map<int, seq<int>>, reaper: int, reapEvent: int, e: int)
    requires Fed(tasks, waiting, unprocessed, reaper, reapEvent)
    requires Counts(threads, waiting) && e in threads && e in unprocessed
    requires e != reapEvent && reapEvent in unprocessed
    ensures Fed(Awakened(tasks, threads[e]), waiting, unprocessed[e := unprocessed[e] + 1], reaper, reapEvent)
  {
    Subscribed(threads, waiting, e, reaper);
  }

  lemma StillCurrentAwakened(tasks: map<int, S.Task>, curr: int, gone: set<int>, woken: seq<int>)
    requires S.Current(tasks, curr, gone)
    ensures S.Current(Awakened(tasks, woken), curr, gone)
  {
  }

  lemma OrphansFed(tasks: map<int, S.Task>, waiting: map<int, seq<int>>, unprocessed: map<int, nat>, reaper: int,
                   reapEvent: int, kids: seq<int>)
    requires Fed(tasks, waiting, unprocessed, reaper, reapEvent)
    ensures Fed(S.Orphaned(tasks, kids), waiting, unprocessed, reaper, reapEvent)
  {
  }

  lemma NothingWaits(threads: map<int, seq<int>>, e: int)
    requires threads == map[e := []]
    ensures Counts(threads, map[])
  {
  }

  lemma QueueCount(sched: S.Scheduler)
    requires sched.Kept()
    ensures |sched.rq.lists| == QUEUES && sched.rq.next.Keys == sched.children.Keys == sched.tasks.Keys
  {
  }

  lemma IdleLives(sched: S.Scheduler)
    requires sched.Valid()
    ensures sched.idle in sched.tasks && sched.tasks[sched.idle].state != S.Killed
  {
  }

  lemma EventHead(subscribers: Subscriptions, e: int)
    requires subscribers.Valid() && e in subscribers.threads
    ensures e in subscribers.subs && e in subscribers.heads && |subscribers.subs[e]| == |subscribers.threads[e]|
    ensures subscribers.heads[e] == At(subscribers.subs[e], 0)
    ensures subscribers.heads[e] == NULL <==> subscribers.threads[e] == []
  {
    hide Subscribers.Right;
    SubsOf(subscribers.thread, subscribers.subs, subscribers.threads);
    ListOf(subscribers.Ns(), e);
  }

  lemma NodeAt(subscribers: Subscriptions, e: int, k: int)
    requires subscribers.Valid() && e in subscribers.threads && e in subscribers.subs && 0 <= k < |subscribers.subs[e]|
    ensures |subscribers.threads[e]| == |subscribers.subs[e]|
    ensures var n := subscribers.subs[e][k];
            && n in subscribers.thread && subscribers.thread[n] == subscribers.threads[e][k]
            && n in subscribers.next && subscribers.next[n] == At(subscribers.subs[e], k + 1)
            && (At(subscribers.subs[e], k + 1) == NULL <==> k + 1 == |subscribers.subs[e]|)
  {
    hide Subscribers.Right, IsList;
    ListOf(subscribers.Ns(), e);
    NamedAt(subscribers.thread, subscribers.subs, subscribers.threads, e, k);
    FieldsAt(subscribers.next, subscribers.prev, subscribers.subs[e], k);
  }

  lemma ConsumeKeepsWakeups(tasks: map<int, S.Task>, waiting: map<int, seq<int>>, unprocessed: map<int, nat>, e: int)
    requires NoLostWakeup(tasks, waiting, unprocessed)
    requires Known(tasks, waiting, unprocessed) && e in unprocessed && unprocessed[e] > 0
    ensures NoLostWakeup(tasks, waiting, unprocessed[e := unprocessed[e] - 1])
    ensures Known(tasks, waiting, unprocessed[e := unprocessed[e] - 1])
  {
    var pending: map<int, nat> := unprocessed[e := unprocessed[e] - 1];
    forall t | t in waiting && t in tasks && tasks[t].state == S.Sleeping
      ensures Nothing(pending, waiting[t])
    {
      assert Nothing(unprocessed, waiting[t]);
    }
  }

  lemma EnteredKeeps(tasks: map<int, S.Task>, waiting: map<int, seq<int>>, unprocessed: map<int, nat>, t: int,
                     events: seq<int>)
    requires NoLostWakeup(tasks, waiting, unprocessed) && Known(tasks, waiting, unprocessed)
    requires t in tasks && tasks[t].state != S.Sleeping
    requires forall e | e in events :: e in unprocessed || (t in waiting && e in waiting[t])
    ensures NoLostWakeup(tasks, waiting[t := events], unprocessed) && Known(tasks, waiting[t := events], unprocessed)
  {
    var waiting' := waiting[t := events];
    forall u | u in waiting' && u in tasks && tasks[u].state == S.Sleeping
      ensures Nothing(unprocessed, waiting'[u])
    {
      assert Nothing(unprocessed, waiting[u]);
    }
  }

  lemma WaiterKnown(tasks: map<int, S.Task>, waiting: map<int, seq<int>>, unprocessed: map<int, nat>, t: int)
    requires Known(tasks, waiting, unprocessed) && t in waiting
    ensures t in tasks && forall e | e in waiting[t] :: e in unprocessed
  {
  }

  lemma LeftKeeps(tasks: map<int, S.Task>, waiting: map<int, seq<int>>, unprocessed: map<int, nat>, t: int)
    requires NoLostWakeup(tasks, waiting, unprocessed) && Known(tasks, waiting, unprocessed)
    ensures NoLostWakeup(tasks, waiting - {t}, unprocessed) && Known(tasks, waiting - {t}, unprocessed)
  {
  }

  lemma SleepKeeps(tasks: map<int, S.Task>, waiting: map<int, seq<int>>, unprocessed: map<int, nat>, t: int)
    requires NoLostWakeup(tasks, waiting, unprocessed) && Known(tasks, waiting, unprocessed)
    requires t in tasks && t in waiting && Nothing(unprocessed, waiting[t])
    ensures NoLostWakeup(tasks[t := tasks[t].(state := S.Sleeping)], waiting, unprocessed)
    ensures Known(tasks[t := tasks[t].(state := S.Sleeping)], waiting, unprocessed)
  {
  }

  /** A task that does not sleep afterwards cannot miss anything. */
  lemma AwakeKeeps(tasks: map<int, S.Task>, waiting: map<int, seq<int>>, unprocessed: map<int, nat>, t: int, x: S.Task)
    requires NoLostWakeup(tasks, waiting, unprocessed) && Known(tasks, waiting, unprocessed) && x.state != S.Sleeping
    ensures NoLostWakeup(tasks[t := x], waiting, unprocessed) && Known(tasks[t := x], waiting, unprocessed)
  {
  }

  lemma OrphansKeep(tasks: map<int, S.Task>, waiting: map<int, seq<int>>, unprocessed: map<int, nat>, kids: seq<int>)
    requires NoLostWakeup(tasks, waiting, unprocessed) && Known(tasks, waiting, unprocessed)
    ensures NoLostWakeup(S.Orphaned(tasks, kids), waiting, unprocessed)
    ensures Known(S.Orphaned(tasks, kids), waiting, unprocessed)
  {
    var tasks' := S.Orphaned(tasks, kids);
    forall t | t in waiting && t in tasks' && tasks'[t].state == S.Sleeping
      ensures Nothing(unprocessed, waiting[t])
    {
      assert tasks[t].state == S.Sleeping;
    }
  }

  lemma AwakenedKnown(tasks: map<int, S.Task>, waiting: map<int, seq<int>>, unprocessed: map<int, nat>, woken: seq<int>,
                      e: int)
    requires Known(tasks, waiting, unprocessed) && e in unprocessed
    ensures Known(Awakened(tasks, woken), waiting, unprocessed[e := unprocessed[e] + 1])
  {
  }

  lemma LaunchAccounted(unprocessed: map<int, nat>, launches: map<int, nat>, consumed: map<int, nat>, e: int)
    requires Accounted(unprocessed, launches, consumed) && e in unprocessed
    ensures e in launches && Accounted(unprocessed[e := unprocessed[e] + 1], launches[e := launches[e] + 1], consumed)
  {
  }

  lemma ConsumeAccounted(unprocessed: map<int, nat>, launches: map<int, nat>, consumed: map<int, nat>, e: int)
    requires Accounted(unprocessed, launches, consumed) && e in unprocessed && unprocessed[e] > 0
    ensures e in consumed && Accounted(unprocessed[e := unprocessed[e] - 1], launches, consumed[e := consumed[e] + 1])
  {
  }

  lemma NewAccounted(unprocessed: map<int, nat>, launches: map<int, nat>, consumed: map<int, nat>, e: int)
    requires Accounted(unprocessed, launches, consumed)
    ensures Accounted(unprocessed[e := 0], launches[e := 0], consumed[e := 0])
  {
  }

  lemma StaysDead(tasks: map<int, S.Task>, woken: seq<int>, t: int)
    requires t in tasks && tasks[t].state == S.Killed
    ensures t in Awakened(tasks, woken) && Awakened(tasks, woken)[t].state == S.Killed
  {
  }

  lemma StillNoneRunning(tasks: map<int, S.Task>, woken: seq<int>)
    requires S.NoneRunning(tasks)
    ensures S.NoneRunning(Awakened(tasks, woken))
  {
  }

  /** The current task after the cleanup of another: it runs, or has been killed as its child. */
  lemma StillCurrent(tasks: map<int, S.Task>, gone: set<int>, gone1: set<int>, kids: seq<int>, curr: int, idle: int,
                     t: int)
    requires S.Current(tasks, curr, gone) && gone1 == gone + {t}
    ensures S.Current(S.Orphaned(tasks, kids), curr,
                      gone1 + (set c | c in kids && c in tasks && tasks[c].state == S.Running))
  {
  }

  lemma CountsNewEvent(threads: map<int, seq<int>>, waiting: map<int, seq<int>>, unprocessed: map<int, nat>,
                       tasks: map<int, S.Task>, e: int)
    requires Counts(threads, waiting) && Known(tasks, waiting, unprocessed)
    requires NoLostWakeup(tasks, waiting, unprocessed)
    requires if e in threads then threads[e] == [] else e !in unprocessed
    ensures Counts(threads[e := []], waiting) && Known(tasks, waiting, unprocessed[e := 0])
    ensures NoLostWakeup(tasks, waiting, unprocessed[e := 0])
  {
    var threads' := threads[e := []];
    forall d, u | d in threads'
      ensures multiset(threads'[d])[u] == Times(waiting, u, d)
    {
      if d == e {
        if e in threads {
          assert multiset(threads[e])[u] == Times(waiting, u, e);
        } else if u in waiting {
          assert e !in waiting[u];
        }
      } else {
        assert multiset(threads[d])[u] == Times(waiting, u, d);
      }
    }
    forall t | t in waiting && t in tasks && tasks[t].state == S.Sleeping
      ensures Nothing(unprocessed[e := 0], waiting[t])
    {
      assert Nothing(unprocessed, waiting[t]);
    }
  }
}
