/**
 * The system as kernel_entry of kernel/src/kmain.c brings it up, and runs from there that end where
 * an exact condition of Kevents or SystemTimers says they must.
 */
module Boot {
  import opened Kevents
  import opened Links
  import opened RunQueues
  import S = Scheduler
  import opened Subscribers
  import opened SystemTimers
  import opened TimerHeap

  /** The addresses of the first tasks and of the reap event. */
  const KERNEL_TASK := 0
  const REAPER := 1
  const IDLE_THREAD := 2
  const MAIN := 3
  const REAP_EVENT := 0

  const PRIORITY_CRITICAL := 0
  const PRIORITY_NORMAL := 2

  /** The first tasks, with the states that the reaper and the thread of kernel_main are in. */
  ghost function FirstTasks(reaper: S.TaskState, main: S.TaskState): (r: map<int, S.Task>) {
    map[KERNEL_TASK := S.Task(S.Uninitialized, S.PRIORITY_IDLE, NULL),
        REAPER := S.Task(reaper, PRIORITY_CRITICAL, KERNEL_TASK),
        IDLE_THREAD := S.Task(S.Ready, S.PRIORITY_IDLE, KERNEL_TASK),
        MAIN := S.Task(main, PRIORITY_NORMAL, KERNEL_TASK)]
  }

  /** init_scheduling, the idle thread of the processor, and the thread of kernel_main. */
  method InitScheduling() returns (s: S.Scheduler)
    ensures fresh(s) && fresh(s.rq) && s.Kept() && s.idle == IDLE_THREAD && s.tasks == FirstTasks(S.Ready, S.Ready)
    ensures MAIN in s.children && s.children[MAIN] == [] && |s.rq.lists| == QUEUES && s.rq.lists[REAP] == []
  {
    hide S.Scheduler.Kept;
    s := new S.Scheduler();
    s.SpawnTask(KERNEL_TASK, NULL, false);
    s.NewKernelThread(REAPER, KERNEL_TASK, PRIORITY_CRITICAL);
    s.NewIdleThread(IDLE_THREAD, KERNEL_TASK);
    s.NewKernelThread(MAIN, KERNEL_TASK, PRIORITY_NORMAL);
  }

  /** The end of kernel_entry: the reaper runs first. */
  method FirstSwitch() returns (s: S.Scheduler)
    ensures fresh(s) && fresh(s.rq) && s.Valid() && s.curr == REAPER && s.idle == IDLE_THREAD
    ensures s.tasks == FirstTasks(S.Running, S.Ready) && MAIN in s.children && s.children[MAIN] == []
    ensures |s.rq.lists| == QUEUES && s.rq.lists[REAP] == []
  {
    hide S.Scheduler.Kept, S.Foremost, S.Current;
    s := InitScheduling();
    ReaperFirst(s.tasks);
    s.SwitchToNextTask();
  }

  lemma ReaperFirst(tasks: map<int, S.Task>)
    requires tasks == FirstTasks(S.Ready, S.Ready)
    ensures forall t | S.Foremost(tasks, t, IDLE_THREAD) && tasks[t].state == S.Ready :: t == REAPER
  {
    assert tasks[REAPER].state == S.Ready;
  }

  lemma ReaperSleeps()
    ensures var tasks := FirstTasks(S.Running, S.Ready);
            && REAPER in tasks && tasks[REAPER].state == S.Running
            && forall next, after | Switched(Asleep(tasks, REAPER), after, next, IDLE_THREAD) ::
                 next == MAIN && after == FirstTasks(S.Sleeping, S.Running)
  {
    var asleep := Asleep(FirstTasks(S.Running, S.Ready), REAPER);
    assert asleep == FirstTasks(S.Sleeping, S.Ready);
    assert asleep[MAIN].state == S.Ready;
    assert asleep[MAIN := asleep[MAIN].(state := S.Running)] == FirstTasks(S.Sleeping, S.Running);
  }

  /** The reaper waits for its event, and kernel_main runs. */
  method BootKernel() returns (k: Kernel)
    ensures fresh(k) && fresh(k.sched) && fresh(k.sched.rq) && fresh(k.subscribers) && k.Valid()
    ensures k.reaper == REAPER && k.reapEvent == REAP_EVENT && k.waiting == map[REAPER := [REAP_EVENT]]
    ensures k.sched.curr == MAIN && k.sched.idle == IDLE_THREAD && k.sched.tasks == FirstTasks(S.Sleeping, S.Running)
    ensures MAIN in k.sched.children && k.sched.children[MAIN] == [] && k.unprocessed == map[REAP_EVENT := 0]
  {
    hide Kernel.Valid, S.Scheduler.Valid, Subscriptions.Valid, FirstTasks, Asleep, S.Foremost, NoneRoused, Switched;
    var s := FirstSwitch();
    var pool := new Subscriptions(0);
    pool.NewEvent(REAP_EVENT);
    k := new Kernel(s, pool, REAP_EVENT, REAPER);
    ReaperSleeps();
    var out := k.PollBegin([REAP_EVENT]);
    if out != POLL_INVALID {
      assert false;
    }
  }

  lemma FirstKeys(k: Kernel)
    requires k.sched.tasks == FirstTasks(S.Sleeping, S.Running)
    ensures k.sched.tasks.Keys == {KERNEL_TASK, REAPER, IDLE_THREAD, MAIN} && k.sched.tasks[MAIN].state == S.Running
    ensures forall t | t in k.sched.tasks :: k.sched.tasks[t].state != S.Killed
  {
  }

  lemma ReaperListed(k: Kernel)
    requires k.Valid() && k.waiting == map[REAPER := [REAP_EVENT]]
    ensures REAP_EVENT in k.subscribers.threads && REAPER in k.subscribers.threads[REAP_EVENT]
  {
    hide S.Scheduler.Kept, Accounted, NoLostWakeup, Fed, S.Current, Counts;
    WaiterKnown(k.sched.tasks, k.waiting, k.unprocessed, REAPER);
    assert [REAP_EVENT][0] in k.waiting[REAPER];
    Subscribed(k.subscribers.threads, k.waiting, REAP_EVENT, REAPER);
  }

  lemma FirstIsIn(s: seq<int>)
    ensures s == [] || s[0] in s
  {
  }

  lemma NobodyDead(tasks: map<int, S.Task>, lists: Lists, idle: int, gone: set<int>)
    requires S.Placed(tasks, lists, idle, gone) && forall t | t in tasks :: tasks[t].state != S.Killed
    ensures |lists| == QUEUES && lists[REAP] == []
  {
    forall t
      ensures t !in lists[REAP]
    {
      if t in tasks {
        assert S.InPlace(tasks, lists, idle, gone, t);
      }
    }
    FirstIsIn(lists[REAP]);
  }

  lemma TasksPlaced(k: Kernel)
    requires k.Valid()
    ensures S.Placed(k.sched.tasks, k.sched.rq.lists, k.sched.idle, k.sched.gone)
  {
  }

  /** The tasks when main ends with a child that has not run: the reaper is woken and runs next. */
  lemma ReaperNext(child: int, woken: seq<int>)
    requires child > MAIN && REAPER in woken
    ensures var tasks := FirstTasks(S.Sleeping, S.Running)[child := S.Task(S.Uninitialized, S.PRIORITY_IDLE, MAIN)];
            var awake := Awakened(Buried(tasks, MAIN), woken);
            && (forall t | S.Foremost(awake, t, IDLE_THREAD) && awake[t].state == S.Ready :: t == REAPER)
            && child in awake && awake[child].state == S.Uninitialized
  {
    var tasks := FirstTasks(S.Sleeping, S.Running)[child := S.Task(S.Uninitialized, S.PRIORITY_IDLE, MAIN)];
    var awake := Awakened(Buried(tasks, MAIN), woken);
    assert awake[REAPER].state == S.Ready && awake[REAPER].prio == PRIORITY_CRITICAL;
  }

  lemma SleepsUnstarted(k: Kernel, t: int)
    requires k.Valid() && t in k.sched.tasks && k.sched.tasks[t].state == S.Uninitialized && t != k.sched.idle
    ensures |k.sched.rq.lists| == QUEUES && t in k.sched.rq.lists[SLEEP]
  {
    assert S.InPlace(k.sched.tasks, k.sched.rq.lists, k.sched.idle, k.sched.gone, t);
    assert S.Belongs(k.sched.tasks[t], t, SLEEP, k.sched.idle, k.sched.gone);
  }

  /** A thread that ends while it has a child which has not run: the reaper kills the child where it
      is, so that a dead task stays on the sleep queue. */
  method OrphanStaysQueued(child: int) returns (k: Kernel)
    requires child > MAIN
    ensures fresh(k) && child in k.sched.tasks && k.sched.tasks[child].state == S.Killed
    ensures |k.sched.rq.lists| == QUEUES && child in k.sched.rq.lists[SLEEP] && !k.Valid()
  {
    hide Kernel.Valid, FirstTasks, Awakened, Buried, S.Foremost, S.Placed;
    k := BootKernel();
    FirstKeys(k);
    k.Spawn(child, MAIN, true);
    ReaperListed(k);
    TasksPlaced(k);
    NobodyDead(k.sched.tasks, k.sched.rq.lists, k.sched.idle, k.sched.gone);
    ReaperNext(child, k.subscribers.threads[REAP_EVENT]);
    var panics := k.Exit();
    var out := k.PollResume([REAP_EVENT]);
    SleepsUnstarted(k, child);
    var t := k.Reap();
  }

  /** The clock before any timer has been set. */
  method BootClock() returns (c: Clock)
    ensures fresh(c) && fresh(c.kernel) && fresh(c.kernel.sched) && fresh(c.kernel.sched.rq) && c.Valid()
    ensures fresh(c.kernel.subscribers) && fresh(c.heap) && fresh(c.heap.heap) && c.heap.Timers() == []
    ensures c.kernel.reapEvent == REAP_EVENT && c.kernel.subscribers.threads.Keys == {REAP_EVENT} && c.heap.ticks == 0
  {
    hide Kernel.Valid, Heap.Valid, Heap.Timers, Clock.Valid, FirstTasks;
    var k := BootKernel();
    KeysOf(k);
    var h := new Heap(0, 0);
    c := new Clock(k, h);
  }

  /** A timer that runs out before the thread that has set it polls: the tick panics. */
  method TimerBeforePoll(e: int) returns (panics: bool)
    requires e > REAP_EVENT
    ensures panics
  {
    hide Kernel.Valid, Heap.Valid, Heap.Timers, Clock.Valid, Unheard, Dispatched, NoneDue, NotBefore, LaunchedAll,
         AwakenedAll;
    var c := BootClock();
    c.Register(e, 0);
    assert e in c.setters && e in c.armed && c.armed[e] == 0;
    var fired;
    panics, fired := c.Tick();
  }
}
