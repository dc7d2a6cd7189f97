/**
 * The scheduler of kernel/src/proc/scheduler.c for one processor with interrupts off: task
 * states, and the queue that each state stands for.
 */
module Scheduler {
  import opened Links
  import opened RunQueues
  import opened Seqs

  datatype TaskState = Uninitialized | Running | Ready | Sleeping | Killed

  /** state, prio and parent of struct task */
  datatype Task = Task(state: TaskState, prio: nat, parent: int)

  const PRIORITY_IDLE := 4

  /** The queue that a task of this state is in.  `gone` are the killed tasks outside the reap
      queue: reaped, or killed while running. */
  ghost predicate Belongs(x: Task, t: int, q: int, idle: int, gone: set<int>) {
    t != idle &&
    match x.state
    case Uninitialized => q == SLEEP
    case Sleeping => q == SLEEP
    case Ready => q == x.prio
    case Running => false
    case Killed => q == REAP && t !in gone
  }

  ghost predicate InPlace(tasks: map<int, Task>, lists: Lists, idle: int, gone: set<int>, t: int)
    requires t in tasks
  {
    forall q | 0 <= q < |lists| :: t in lists[q] <==> Belongs(tasks[t], t, q, idle, gone)
  }

  /** Every task is in exactly the queue that its state names. */
  ghost predicate Placed(tasks: map<int, Task>, lists: Lists, idle: int, gone: set<int>) {
    && |lists| == QUEUES
    && (forall t | t in tasks :: 0 <= t && tasks[t].prio < PRIORITIES && InPlace(tasks, lists, idle, gone, t))
    && (forall q, t | 0 <= q < |lists| && t in lists[q] :: t in tasks)
    && (idle != NULL ==> idle in tasks && (tasks[idle].state == Ready || tasks[idle].state == Running))
    && (forall t | t in gone :: t in tasks && tasks[t].state == Killed)
  }

  ghost predicate NoneRunning(tasks: map<int, Task>) {
    forall t | t in tasks :: tasks[t].state != Running
  }

  /** The current task runs, or was killed meanwhile; no other task runs. */
  ghost predicate Current(tasks: map<int, Task>, curr: int, gone: set<int>) {
    && curr in tasks
    && (tasks[curr].state == Running || (tasks[curr].state == Killed && curr in gone))
    && (forall t | t in tasks && tasks[t].state == Running :: t == curr)
  }

  /** Task t changes state and queue; all else stays. */
  lemma Moved(tasks: map<int, Task>, lists: Lists, idle: int, gone: set<int>, t: int, x: Task, lists': Lists,
              gone': set<int>)
    requires Placed(tasks, lists, idle, gone) && |lists'| == QUEUES && x.prio < PRIORITIES && 0 <= t
    requires forall q, u | 0 <= q < QUEUES && u != t :: u in lists'[q] <==> u in lists[q]
    requires forall q | 0 <= q < QUEUES :: t in lists'[q] <==> Belongs(x, t, q, idle, gone')
    requires t == idle ==> x.state == Ready || x.state == Running
    requires forall u | u != t :: u in gone' <==> u in gone
    requires t in gone' ==> x.state == Killed
    ensures Placed(tasks[t := x], lists', idle, gone')
  {
    hide Belongs;
    var tasks' := tasks[t := x];
    forall u | u in tasks'
      ensures InPlace(tasks', lists', idle, gone', u)
    {
      if u != t {
        assert InPlace(tasks, lists, idle, gone, u);
        SameGone(tasks[u], u, idle, gone, gone');
      }
    }
  }

  lemma SameGone(x: Task, u: int, idle: int, gone: set<int>, gone': set<int>)
    requires u in gone' <==> u in gone
    ensures forall q :: Belongs(x, u, q, idle, gone') <==> Belongs(x, u, q, idle, gone)
  {
  }

  /** The lists after t has left queue q (if any) and entered r (if any). */
  lemma Taken(lists: Lists, q: Queue, k: int)
    requires |lists| == QUEUES && 0 <= k < |lists[q]| && Distinct(lists[q]) && Disjoint(lists)
    ensures var t := lists[q][k]; var lists' := lists[q := Without(lists[q], k)];
            && Unqueued(lists', t) && forall r, u | 0 <= r < QUEUES && u != t :: u in lists'[r] <==> u in lists[r]
  {
  }

  /** Every task has a list of children, whose parent it is; the parent of an initialised task is a
      task.  (Only kernel_task has none, and it is never initialised.) */
  ghost predicate Family(tasks: map<int, Task>, children: map<int, seq<int>>) {
    && children.Keys == tasks.Keys
    && (forall p, c | p in children && c in children[p] :: c in tasks && tasks[c].parent == p)
    && (forall t | t in tasks && tasks[t].state != Uninitialized :: tasks[t].parent in tasks)
  }

  lemma FamilyKept(tasks: map<int, Task>, children: map<int, seq<int>>, t: int, x: Task)
    requires Family(tasks, children) && t in tasks && x.parent == tasks[t].parent
    requires tasks[t].state == Uninitialized ==> x.state == Uninitialized || x.parent in tasks
    ensures Family(tasks[t := x], children)
  {
    assert tasks[t := x].Keys == tasks.Keys;
  }

  lemma FamilyKeys(tasks: map<int, Task>, children: map<int, seq<int>>)
    requires Family(tasks, children)
    ensures children.Keys == tasks.Keys
  {
  }

  lemma FamilyGrown(tasks: map<int, Task>, children: map<int, seq<int>>, t: int, x: Task, first: int)
    requires Family(tasks, children) && t !in tasks && x.state == Uninitialized && NULL !in tasks
    requires 0 <= t && (first == NULL || (first == x.parent && first in tasks))
    ensures Family(tasks[t := x], Adopted(children[t := []], t, first))
  {
    var tasks', children' := tasks[t := x], Adopted(children[t := []], t, first);
    assert children'.Keys == tasks'.Keys;
    forall p, c | p in children' && c in children'[p]
      ensures c in tasks' && tasks'[c].parent == p
    {
      if p != t && p == first {
        assert c == t || c in children[p];
      }
    }
  }

  lemma KeptParent(tasks: map<int, Task>, kids: seq<int>, t: int)
    requires t in tasks
    ensures t in Orphaned(tasks, kids) && Orphaned(tasks, kids)[t].parent == tasks[t].parent
    ensures Orphaned(tasks, kids).Keys == tasks.Keys
  {
  }

  lemma FamilyOrphaned(tasks: map<int, Task>, children: map<int, seq<int>>, t: int)
    requires Family(tasks, children) && t in tasks && tasks[t].state != Uninitialized
    ensures t in children && tasks[t].parent in children && forall c | c in children[t] :: c in tasks
    ensures Family(Orphaned(tasks, children[t]), children[tasks[t].parent := Minus(children[tasks[t].parent], t)])
  {
    hide Minus, Orphaned;
    KidsHaveParents(tasks, children, t);
    FamilyKilled(tasks, children, children[t]);
    FamilyLeft(Orphaned(tasks, children[t]), children, tasks[t].parent, Minus(children[tasks[t].parent], t));
  }

  lemma KidsHaveParents(tasks: map<int, Task>, children: map<int, seq<int>>, t: int)
    requires Family(tasks, children) && t in tasks && tasks[t].state != Uninitialized
    ensures t in children && tasks[t].parent in children
    ensures forall c | c in children[t] :: c in tasks && tasks[c].parent in tasks
  {
    hide Family;
    FamilyKeys(tasks, children);
    ParentKnown(tasks, children, t);
    forall c | c in children[t]
      ensures c in tasks && tasks[c].parent == t
    {
      ParentOf(tasks, children, t, c);
    }
  }

  lemma ParentOf(tasks: map<int, Task>, children: map<int, seq<int>>, p: int, c: int)
    requires Family(tasks, children) && p in children && c in children[p]
    ensures c in tasks && tasks[c].parent == p
  {
  }

  lemma ParentKnown(tasks: map<int, Task>, children: map<int, seq<int>>, t: int)
    requires Family(tasks, children) && t in tasks && tasks[t].state != Uninitialized
    ensures tasks[t].parent in tasks
  {
  }

  lemma FamilyKilled(tasks: map<int, Task>, children: map<int, seq<int>>, kids: seq<int>)
    requires Family(tasks, children) && forall c | c in kids :: c in tasks && tasks[c].parent in tasks
    ensures Family(Orphaned(tasks, kids), children)
  {
  }

  lemma FamilyLeft(tasks: map<int, Task>, children: map<int, seq<int>>, p: int, s: seq<int>)
    requires Family(tasks, children) && p in children && forall c | c in s :: c in children[p]
    ensures Family(tasks, children[p := s])
  {
  }

  /** The sibling lists after t has been linked in as the first child of parent (if not NULL). */
  function Adopted(children: map<int, seq<int>>, t: int, parent: int): (c: map<int, seq<int>>) {
    if parent in children then children[parent := [t] + children[parent]] else children
  }

  /** The lists after t has moved from the sleep queue to the front of the run queue p. */
  ghost function Woken(l: Lists, t: int, p: int): (r: Lists)
    requires |l| == QUEUES && t in l[SLEEP] && 0 <= p < PRIORITIES
  {
    l[SLEEP := Without(l[SLEEP], IndexOf(l[SLEEP], t))][p := [t] + l[p]]
  }

  /** t has left the sleep queue and is the first of the run queue p; nobody else has moved. */
  ghost predicate ToFront(l: Lists, l': Lists, t: int, p: int) {
    && |l| == |l'| == QUEUES && 0 <= p < PRIORITIES && l'[p] == [t] + l[p]
    && (exists k :: 0 <= k < |l[SLEEP]| && l[SLEEP][k] == t && l'[SLEEP] == l[SLEEP][..k] + l[SLEEP][k + 1..])
    && (forall q: Queue | q != p && q != SLEEP :: l'[q] == l[q])
  }

  lemma WokenToFront(l: Lists, t: int, p: int)
    requires |l| == QUEUES && t in l[SLEEP] && 0 <= p < PRIORITIES
    ensures ToFront(l, Woken(l, t, p), t, p)
  {
    var k := IndexOf(l[SLEEP], t);
    assert l[SLEEP][k] == t && Woken(l, t, p)[SLEEP] == l[SLEEP][..k] + l[SLEEP][k + 1..];
  }

  /** The tasks after all of `kids` have been killed. */
  function Orphaned(tasks: map<int, Task>, kids: seq<int>): (r: map<int, Task>) {
    map u | u in tasks :: if u in kids then tasks[u].(state := Killed) else tasks[u]
  }

  /** No ready task comes before the one that runs next; the idle task is the last resort. */
  ghost predicate Foremost(tasks: map<int, Task>, next: int, idle: int) {
    && next in tasks
    && forall t | t in tasks && t != idle && tasks[t].state == Ready ::
         next != idle && tasks[next].prio <= tasks[t].prio
  }

  /** `next` has been taken from the front of the first non-empty run queue; it is the idle task if
      all of them are empty. */
  ghost predicate Dequeued(l: Lists, l': Lists, prio: nat, next: int, idle: int)
    requires |l| == QUEUES
  {
    if next == idle then l' == l && forall q | 0 <= q < PRIORITIES :: l[q] == []
    else
      && prio < PRIORITIES && l[prio] != [] && next == l[prio][0] && l' == l[prio := l[prio][1..]]
      && forall r | 0 <= r < prio :: l[r] == []
  }

  /** A preempted task goes to the end of its queue, the idle task to none. */
  ghost function Requeued(l: Lists, t: int, prio: nat, idle: int): (r: Lists)
    requires |l| == QUEUES && prio < PRIORITIES
    ensures |r| == QUEUES
  {
    if t == idle then l else l[prio := l[prio] + [t]]
  }

  /** The j-th in line at the highest priority that anyone waits at is one further with every
      preemption, and runs when it was the first. */
  lemma TurnComes(l: Lists, l': Lists, curr: int, prio: nat, next: int, nextPrio: nat, idle: int, p: nat, j: nat)
    requires |l| == QUEUES && prio < PRIORITIES && p < PRIORITIES && j < |l[p]| && (curr == idle || p <= prio)
    requires (forall r | 0 <= r < p :: l[r] == []) && idle !in l[p]
    requires Dequeued(Requeued(l, curr, prio, idle), l', nextPrio, next, idle)
    ensures if j == 0 then next == l[p][0]
            else |l'| == QUEUES && j - 1 < |l'[p]| && l'[p][j - 1] == l[p][j] && forall r | 0 <= r < p :: l'[r] == []
  {
    var m := Requeued(l, curr, prio, idle);
    assert l[p] <= m[p] && forall r | 0 <= r < p :: m[r] == [];
    assert m[p] != [];
  }

  /** Killing these tasks moves none of them: they are dead already, or run. */
  ghost predicate Quiet(tasks: map<int, Task>, kids: seq<int>, idle: int) {
    forall c | c in kids && c in tasks :: tasks[c].state == Killed || (tasks[c].state == Running && c != idle)
  }

  class Scheduler {
    const rq: Queues
    var tasks: map<int, Task>
    /** The sibling list of the children of each task. */
    var children: map<int, seq<int>>
    /** curr_thread and idle_thread of the processor */
    var curr: int
    var idle: int
    ghost var gone: set<int>

    ghost predicate Kept()
      reads this, rq
    {
      && rq.Valid() && rq.next.Keys == tasks.Keys && Placed(tasks, rq.lists, idle, gone)
      && Family(tasks, children)
    }

    /** Between two scheduling steps. */
    ghost predicate Valid()
      reads this, rq
    {
      Kept() && idle != NULL && Current(tasks, curr, gone)
    }

    constructor ()
      ensures Kept() && fresh(rq) && tasks == map[] && curr == NULL && idle == NULL
      ensures children == map[] && |rq.lists| == QUEUES && forall q: Queue :: rq.lists[q] == []
    {
      rq := new Queues();
      tasks, children, curr, idle, gone := map[], map[], NULL, NULL, {};
    }

    /** scheduler_spawn_task; t is the address of the new task structure. */
    method SpawnTask(t: int, parent: int, threadGroup: bool)
      requires Kept() && 0 <= t && t !in tasks && (threadGroup ==> parent in tasks)
      modifies this`tasks, this`children, rq
      ensures Kept() && tasks == old(tasks)[t := Task(Uninitialized, PRIORITY_IDLE, parent)]
      ensures rq.lists == old(rq.lists)[SLEEP := [t] + old(rq.lists)[SLEEP]]
      ensures children == Adopted(old(children)[t := []], t, if threadGroup then parent else NULL)
      ensures children.Keys == old(children).Keys + {t} && children[t] == []
      ensures forall p | p in old(children) ::
                children[p] == (if threadGroup && p == parent then [t] else []) + old(children)[p]
    {
      hide Placed, Queues.Valid, Belongs, Family;
      ghost var l := rq.lists;
      NewcomerFacts(tasks, l, idle, gone, t);
      FamilyKeys(tasks, children);
      FamilyGrown(tasks, children, t, Task(Uninitialized, PRIORITY_IDLE, parent), if threadGroup then parent else NULL);
      QueuesApart(rq);
      children := children[t := []];
      if threadGroup {
        children := children[parent := [t] + children[parent]];
      }
      rq.NewTask(t);
      rq.InsertFront(SLEEP, t);
      Arrived(tasks, l, idle, gone, t, parent);
      tasks := tasks[t := Task(Uninitialized, PRIORITY_IDLE, parent)];
    }

    /** scheduler_new_kernel_thread. */
    method NewKernelThread(t: int, kernelTask: int, prio: nat)
      requires Kept() && 0 <= t && t !in tasks && kernelTask in tasks && prio < PRIORITIES
      modifies this`tasks, this`children, rq
      ensures Kept() && tasks == old(tasks)[t := Task(Ready, prio, kernelTask)]
      ensures rq.lists == old(rq.lists)[prio := [t] + old(rq.lists)[prio]]
      ensures children == Adopted(old(children)[t := []], t, kernelTask)
    {
      hide Placed, Queues.Valid, Belongs, Family;
      QueuesApart(rq);
      SpawnTask(t, kernelTask, true);
      QueuesApart(rq);
      ghost var l := rq.lists;
      ghost var x := Task(Sleeping, prio, kernelTask);
      NewSleeper(tasks, l, idle, gone, t, prio);
      ghost var before := tasks;
      FamilyKept(tasks, children, t, x);
      tasks := tasks[t := tasks[t].(prio := prio)];
      tasks := tasks[t := tasks[t].(state := Sleeping)];
      assert tasks == before[t := x];
      assert tasks == old(tasks)[t := x];
      AttemptWake(t);
      WokenAtOnce(old(rq.lists), l, t, prio);
    }

    /** scheduler_new_idle_thread: it leaves the sleep queue and enters no other. */
    method NewIdleThread(t: int, kernelTask: int)
      requires Kept() && idle == NULL && 0 <= t && t !in tasks && kernelTask in tasks
      modifies this`tasks, this`children, this`idle, rq
      ensures Kept() && idle == t && tasks == old(tasks)[t := Task(Ready, PRIORITY_IDLE, kernelTask)]
      ensures rq.lists == old(rq.lists) && children == Adopted(old(children)[t := []], t, kernelTask)
    {
      hide Placed, Queues.Valid, Belongs, Family;
      QueuesApart(rq);
      SpawnTask(t, kernelTask, true);
      QueuesApart(rq);
      ghost var l := rq.lists;
      TaskFacts(tasks, l, idle, gone, t);
      assert t in l[SLEEP] by { assert l[SLEEP][0] == t; }
      ghost var before := tasks;
      FamilyKept(tasks, children, t, tasks[t].(prio := PRIORITY_IDLE, state := Ready));
      tasks := tasks[t := tasks[t].(prio := PRIORITY_IDLE)];
      tasks := tasks[t := tasks[t].(state := Ready)];
      assert tasks == before[t := Task(Ready, PRIORITY_IDLE, kernelTask)];
      Taken(l, SLEEP, IndexOf(l[SLEEP], t));
      rq.Remove(SLEEP, t);
      LeftAtOnce(old(rq.lists), l, t);
      IdleArrived(before, l, gone, t, rq.lists);
      idle := t;
    }

    /** scheduler_put_task2sleep, of the current task or of one that waits for the processor.  The
        panic is the case of a task that sleeps already. */
    method PutToSleep(t: int) returns (panics: bool)
      requires Kept() && t in tasks && t != idle
      requires t == curr ==> tasks[t].state == Running
      requires t != curr ==> tasks[t].state == Ready || tasks[t].state == Sleeping
      modifies this`tasks, rq
      ensures Kept() && (panics <==> old(tasks)[t].state == Sleeping)
      ensures panics ==> tasks == old(tasks) && rq.lists == old(rq.lists)
      ensures !panics ==> tasks == old(tasks)[t := old(tasks)[t].(state := Sleeping)]
      ensures !panics ==> rq.lists[SLEEP] == old(rq.lists)[SLEEP] + [t]
      ensures !panics && t == curr ==> forall q: Queue | q != SLEEP :: rq.lists[q] == old(rq.lists)[q]
    {
      hide Placed, Queues.Valid, Belongs, Unqueued, Without;
      if tasks[t].state == Sleeping {
        return true;
      }
      SleepWrites(t);
      return false;
    }

    method SleepWrites(t: int)
      requires Kept() && t in tasks && t != idle
      requires if t == curr then tasks[t].state == Running else tasks[t].state == Ready
      modifies this`tasks, rq
      ensures Kept() && tasks == old(tasks)[t := old(tasks)[t].(state := Sleeping)]
      ensures rq.lists[SLEEP] == old(rq.lists)[SLEEP] + [t]
      ensures t == curr ==> forall q: Queue | q != SLEEP :: rq.lists[q] == old(rq.lists)[q]
    {
      hide Placed, Queues.Valid, Belongs, Unqueued, Without, Family;
      ghost var l := rq.lists;
      FamilyKept(tasks, children, t, tasks[t].(state := Sleeping));
      QueuesApart(rq);
      TaskFacts(tasks, l, idle, gone, t);
      if t != curr {
        Taken(l, tasks[t].prio, IndexOf(l[tasks[t].prio], t));
        rq.Remove(tasks[t].prio, t);
      }
      rq.InsertBack(SLEEP, t);
      SleeperArrived(tasks, l, idle, gone, t, rq.lists);
      tasks := tasks[t := tasks[t].(state := Sleeping)];
    }

    /** scheduler_attempt_wake. */
    method AttemptWake(t: int)
      requires Kept() && t in tasks
      modifies this`tasks, rq
      ensures Kept()
      ensures old(tasks)[t].state != Sleeping ==> tasks == old(tasks) && rq.lists == old(rq.lists)
      ensures old(tasks)[t].state == Sleeping ==>
                && tasks == old(tasks)[t := old(tasks)[t].(state := Ready)]
                && t in old(rq.lists)[SLEEP] && tasks[t].prio < PRIORITIES
                && rq.lists == Woken(old(rq.lists), t, tasks[t].prio)
                && ToFront(old(rq.lists), rq.lists, t, tasks[t].prio)
    {
      if tasks[t].state == Sleeping {
        Wake(t);
      }
    }

    /** The waking part of scheduler_attempt_wake. */
    method Wake(t: int)
      requires Kept() && t in tasks && tasks[t].state == Sleeping
      modifies this`tasks, rq
      ensures Kept()
      ensures tasks == old(tasks)[t := old(tasks)[t].(state := Ready)]
      ensures t in old(rq.lists)[SLEEP] && tasks[t].prio < PRIORITIES
      ensures rq.lists == Woken(old(rq.lists), t, tasks[t].prio)
      ensures ToFront(old(rq.lists), rq.lists, t, tasks[t].prio)
    {
      hide Placed, Queues.Valid, Disjoint, Without, Family, ToFront;
      ghost var l := rq.lists;
      FamilyKept(tasks, children, t, tasks[t].(state := Ready));
      SleeperFacts(tasks, l, idle, gone, t);
      WokenToFront(l, t, tasks[t].prio);
      QueuesApart(rq);
      Taken(l, SLEEP, IndexOf(l[SLEEP], t));
      rq.Remove(SLEEP, t);
      rq.InsertFront(tasks[t].prio, t);
      Moved(tasks, l, idle, gone, t, tasks[t].(state := Ready), rq.lists, gone);
      tasks := tasks[t := tasks[t].(state := Ready)];
    }

    /** find_task_to_run: the head of the highest non-empty priority.  Its panic, a task in a run
        queue that is not ready, cannot happen. */
    method FindTaskToRun() returns (t: int)
      requires Kept()
      modifies rq
      ensures rq.Valid() && rq.next.Keys == old(rq.next.Keys)
      ensures t == NULL <==> forall q | 0 <= q < PRIORITIES :: old(rq.lists)[q] == []
      ensures t == NULL ==> rq.lists == old(rq.lists)
      ensures t != NULL ==>
                && t in tasks && tasks[t].state == Ready && t != idle
                && var q := tasks[t].prio;
                   && q < PRIORITIES && old(rq.lists)[q] != [] && t == old(rq.lists)[q][0]
                   && (forall r | 0 <= r < q :: old(rq.lists)[r] == [])
                   && rq.lists == old(rq.lists)[q := old(rq.lists)[q][1..]]
    {
      hide Queues.Valid, Belongs, Placed;
      QueuesApart(rq);
      ghost var l := rq.lists;
      var i := 0;
      t := NULL;
      while i < PRIORITIES
        invariant 0 <= i <= PRIORITIES && rq.Valid() && rq.next.Keys == old(rq.next.Keys) && rq.lists == l && t == NULL
        invariant forall q | 0 <= q < i :: l[q] == []
      {
        t := rq.PopFront(i);
        if t != NULL {
          QueuedIsReady(tasks, l, idle, gone, i, t);
          if tasks[t].state != Ready {
            assert false;
          }
          return;
        }
        i := i + 1;
      }
    }

    /** switch_to_next_task: dispatch that task, or the idle task if all run queues are empty.  The
        panic of switch2task, a target that is not ready, cannot happen. */
    method SwitchToNextTask()
      requires Kept() && NoneRunning(tasks) && idle != NULL
      modifies this`tasks, this`curr, rq
      ensures Valid() && curr in old(tasks) && old(tasks)[curr].state == Ready
      ensures tasks == old(tasks)[curr := old(tasks)[curr].(state := Running)]
      ensures |old(rq.lists)| == QUEUES && Dequeued(old(rq.lists), rq.lists, tasks[curr].prio, curr, idle)
      ensures Foremost(old(tasks), curr, idle)
    {
      hide Queues.Valid, Belongs, Placed, Family, Foremost;
      ghost var l := rq.lists;
      QueuesApart(rq);
      IdleFacts(tasks, l, idle, gone);
      var next := FindTaskToRun();
      if next == NULL {
        next := idle;
      }
      if tasks[next].state != Ready {
        assert false;
      }
      Dispatched(tasks, l, idle, gone, next, rq.lists);
      FirstQueueIsForemost(tasks, l, idle, gone, next);
      FamilyKept(tasks, children, next, tasks[next].(state := Running));
      tasks := tasks[next := tasks[next].(state := Running)];
      curr := next;
    }

    /** The part of scheduler_preempt for a task that goes on: back to the end of its queue. */
    method Requeue()
      requires Valid() && tasks[curr].state == Running
      modifies this`tasks, rq
      ensures Kept() && NoneRunning(tasks) && tasks == old(tasks)[curr := old(tasks)[curr].(state := Ready)]
      ensures tasks[curr].prio < PRIORITIES
      ensures rq.lists == if curr == idle then old(rq.lists)
                          else old(rq.lists)[tasks[curr].prio := old(rq.lists)[tasks[curr].prio] + [curr]]
    {
      hide Queues.Valid, Belongs, Placed, Unqueued, Family;
      ghost var l := rq.lists;
      QueuesApart(rq);
      TaskFacts(tasks, l, idle, gone, curr);
      FamilyKept(tasks, children, curr, tasks[curr].(state := Ready));
      if curr != idle {
        rq.InsertBack(tasks[curr].prio, curr);
      }
      ReadyArrived(tasks, l, idle, gone, curr, rq.lists);
      tasks := tasks[curr := tasks[curr].(state := Ready)];
    }

    /** The current task ends: killed, and at the end of the reap queue. */
    method Bury()
      requires Valid() && curr != idle
      modifies this`tasks, this`gone, rq
      ensures Kept() && NoneRunning(tasks) && tasks == old(tasks)[curr := old(tasks)[curr].(state := Killed)]
      ensures rq.lists == old(rq.lists)[REAP := old(rq.lists)[REAP] + [curr]] && gone == old(gone) - {curr}
    {
      hide Queues.Valid, Belongs, Placed, Unqueued, Family;
      ghost var l := rq.lists;
      QueuesApart(rq);
      TaskFacts(tasks, l, idle, gone, curr);
      FamilyKept(tasks, children, curr, tasks[curr].(state := Killed));
      rq.InsertBack(REAP, curr);
      DeadArrived(tasks, l, idle, gone, curr, rq.lists);
      tasks := tasks[curr := tasks[curr].(state := Killed)];
      gone := gone - {curr};
    }

    /** kernel_reaper takes the first task off the reap queue. */
    method PopDead() returns (t: int)
      requires Kept() && rq.lists[REAP] != []
      modifies this`gone, rq
      ensures Kept() && t == old(rq.lists)[REAP][0] && t in tasks && tasks[t].state == Killed && gone == old(gone) + {t}
      ensures rq.lists == old(rq.lists)[REAP := old(rq.lists)[REAP][1..]]
      ensures rq.next[t] == NULL && t in rq.prev && rq.prev[t] == NULL
    {
      hide Queues.Valid, Belongs, Placed, Unqueued, Family;
      ghost var l := rq.lists;
      QueuesApart(rq);
      t := rq.PopFront(REAP);
      DeadLeft(tasks, l, idle, gone, t, rq.lists);
      gone := gone + {t};
      NoLinks(rq, t);
    }

    /** The loop over the children in scheduler_cleanup_task. */
    method KillAll(kids: seq<int>)
      requires forall c | c in kids :: c in tasks
      modifies this`tasks
      ensures tasks == Orphaned(old(tasks), kids)
    {
      ghost var before := tasks;
      assert Orphaned(before, []) == before;
      var i := 0;
      while i < |kids|
        invariant 0 <= i <= |kids| && tasks == Orphaned(before, kids[..i])
        invariant forall c | c in kids :: c in tasks
      {
        assert kids[i] in kids;
        tasks := tasks[kids[i] := tasks[kids[i]].(state := Killed)];
        assert kids[..i + 1] == kids[..i] + [kids[i]];
        i := i + 1;
      }
      assert kids[..i] == kids;
    }

    /** scheduler_cleanup_task, up to the release of the stacks.  The panics are the cases of a task
        that is not dead or still linked into a queue. */
    method CleanupTask(t: int) returns (panics: bool)
      requires Kept() && t in tasks
      modifies this`tasks, this`children, this`gone
      ensures panics <==>
                old(tasks)[t].state != Killed || old(rq.next[t] != NULL || (t in rq.prev && rq.prev[t] != NULL))
      ensures panics ==> tasks == old(tasks) && children == old(children) && gone == old(gone)
      ensures !panics ==> tasks == Orphaned(old(tasks), old(children)[t])
      ensures !panics ==>
                var p := old(tasks)[t].parent;
                p in old(children) && children == old(children)[p := Minus(old(children)[p], t)]
      ensures !panics ==>
                gone == old(gone) + set c | c in old(children)[t] && c in old(tasks) && old(tasks)[c].state == Running
      ensures !panics ==> (Kept() <==> Quiet(old(tasks), old(children)[t], idle))
    {
      hide Queues.Valid, Placed, Family, Orphaned;
      FamilyKeys(tasks, children);
      LinkFields(rq);
      if tasks[t].state != Killed {
        return true;
      }
      if rq.next[t] != NULL || rq.prev[t] != NULL {
        return true;
      }
      panics := false;
      var kids := children[t];
      ghost var before := tasks;
      FamilyOrphaned(before, children, t);
      KillAll(kids);
      KeptParent(before, kids, t);
      var parent := tasks[t].parent;
      children := children[parent := Minus(children[parent], t)];
      gone := gone + set c | c in kids && c in before && before[c].state == Running;
      assert (set c | c in kids && before[c].state == Running)
          == (set c | c in kids && c in before && before[c].state == Running);
      KilledInPlace(before, rq.lists, idle, old(gone), kids);
    }
  }

  // ----------------------------------------------------------- facts about placement

  lemma FirstQueueIsForemost(tasks: map<int, Task>, lists: Lists, idle: int, gone: set<int>, next: int)
    requires Placed(tasks, lists, idle, gone) && next in tasks
    requires forall q | 0 <= q < PRIORITIES && (next == idle || q < tasks[next].prio) :: lists[q] == []
    ensures Foremost(tasks, next, idle)
  {
    forall t | t in tasks && t != idle && tasks[t].state == Ready
      ensures next != idle && tasks[next].prio <= tasks[t].prio
    {
      assert InPlace(tasks, lists, idle, gone, t);
      assert Belongs(tasks[t], t, tasks[t].prio, idle, gone);
    }
  }

  lemma LinkFields(rq: Queues)
    requires rq.Valid()
    ensures rq.next.Keys == rq.prev.Keys
  {
  }

  lemma NoLinks(rq: Queues, t: int)
    requires rq.Valid() && t in rq.next && Unqueued(rq.lists, t)
    ensures rq.next[t] == NULL && t in rq.prev && rq.prev[t] == NULL
  {
    assert NullLinks(rq.St(), t);
  }

  lemma NewcomerFacts(tasks: map<int, Task>, lists: Lists, idle: int, gone: set<int>, t: int)
    requires Placed(tasks, lists, idle, gone) && t !in tasks && 0 <= t
    ensures |lists| == QUEUES && t != idle && t !in gone && Unqueued(lists, t) && NULL !in tasks
  {
  }

  lemma Arrived(tasks: map<int, Task>, lists: Lists, idle: int, gone: set<int>, t: int, parent: int)
    requires Placed(tasks, lists, idle, gone) && t !in tasks && 0 <= t
    ensures |lists| == QUEUES
    ensures Placed(tasks[t := Task(Uninitialized, PRIORITY_IDLE, parent)], lists[SLEEP := [t] + lists[SLEEP]],
                   idle, gone)
  {
    NewcomerFacts(tasks, lists, idle, gone, t);
    Moved(tasks, lists, idle, gone, t, Task(Uninitialized, PRIORITY_IDLE, parent),
          lists[SLEEP := [t] + lists[SLEEP]], gone);
  }

  /** A task may change from uninitialised to sleeping, and its priority, without moving. */
  lemma NewSleeper(tasks: map<int, Task>, lists: Lists, idle: int, gone: set<int>, t: int, prio: nat)
    requires Placed(tasks, lists, idle, gone) && t in tasks && tasks[t].state == Uninitialized && prio < PRIORITIES
    ensures Placed(tasks[t := tasks[t].(prio := prio)][t := tasks[t].(prio := prio, state := Sleeping)], lists,
                   idle, gone)
  {
    assert InPlace(tasks, lists, idle, gone, t);
    var x := tasks[t].(prio := prio, state := Sleeping);
    Moved(tasks, lists, idle, gone, t, x, lists, gone);
    assert tasks[t := tasks[t].(prio := prio)][t := x] == tasks[t := x];
  }

  lemma WokenAtOnce(l0: Lists, l: Lists, t: int, p: int)
    requires |l0| == QUEUES && l == l0[SLEEP := [t] + l0[SLEEP]] && Distinct(l[SLEEP]) && 0 <= p < PRIORITIES
    ensures t in l[SLEEP] && Woken(l, t, p) == l0[p := [t] + l0[p]]
  {
    assert l[SLEEP][0] == t;
    assert IndexOf(l[SLEEP], t) == 0;
    assert Without(l[SLEEP], 0) == l0[SLEEP];
  }

  lemma LeftAtOnce(l0: Lists, l: Lists, t: int)
    requires |l0| == QUEUES && l == l0[SLEEP := [t] + l0[SLEEP]] && Distinct(l[SLEEP])
    ensures t in l[SLEEP] && l[SLEEP := Without(l[SLEEP], IndexOf(l[SLEEP], t))] == l0
  {
    assert l[SLEEP][0] == t;
    assert IndexOf(l[SLEEP], t) == 0;
    assert Without(l[SLEEP], 0) == l0[SLEEP];
  }

  lemma IdleArrived(tasks: map<int, Task>, lists: Lists, gone: set<int>, t: int, lists': Lists)
    requires Placed(tasks, lists, NULL, gone) && t in tasks && 0 <= t && t !in gone && |lists'| == QUEUES
    requires Unqueued(lists', t) && forall r, u | 0 <= r < QUEUES && u != t :: u in lists'[r] <==> u in lists[r]
    ensures Placed(tasks[t := tasks[t].(prio := PRIORITY_IDLE)]
                        [t := tasks[t].(prio := PRIORITY_IDLE, state := Ready)],
                   lists', t, gone)
  {
    var x := tasks[t].(prio := PRIORITY_IDLE, state := Ready);
    var tasks' := tasks[t := tasks[t].(prio := PRIORITY_IDLE)][t := x];
    forall u | u in tasks'
      ensures InPlace(tasks', lists', t, gone, u)
    {
      if u != t {
        assert InPlace(tasks, lists, NULL, gone, u);
      }
    }
  }

  /** Where a running, ready or dead-but-unqueued task is. */
  lemma TaskFacts(tasks: map<int, Task>, lists: Lists, idle: int, gone: set<int>, t: int)
    requires Placed(tasks, lists, idle, gone) && t in tasks
    ensures |lists| == QUEUES && 0 <= t && tasks[t].prio < PRIORITIES && (t in gone ==> tasks[t].state == Killed)
    ensures t == idle || tasks[t].state == Running || t in gone ==> Unqueued(lists, t)
    ensures tasks[t].state == Ready && t != idle ==> t in lists[tasks[t].prio]
  {
    assert InPlace(tasks, lists, idle, gone, t);
  }

  lemma SleeperArrived(tasks: map<int, Task>, lists: Lists, idle: int, gone: set<int>, t: int, lists': Lists)
    requires Placed(tasks, lists, idle, gone) && t in tasks && t != idle
    requires tasks[t].state == Running || tasks[t].state == Ready
    requires |lists'| == QUEUES && (exists s :: lists'[SLEEP] == s + [t])
    requires forall q, u | 0 <= q < QUEUES && u != t :: u in lists'[q] <==> u in lists[q]
    requires forall q | 0 <= q < QUEUES && q != SLEEP :: t !in lists'[q]
    ensures Placed(tasks[t := tasks[t].(state := Sleeping)], lists', idle, gone)
  {
    assert InPlace(tasks, lists, idle, gone, t);
    var s :| lists'[SLEEP] == s + [t];
    assert lists'[SLEEP][|s|] == t;
    Moved(tasks, lists, idle, gone, t, tasks[t].(state := Sleeping), lists', gone);
  }

  lemma QueuedIsReady(tasks: map<int, Task>, lists: Lists, idle: int, gone: set<int>, q: int, t: int)
    requires Placed(tasks, lists, idle, gone) && 0 <= q < PRIORITIES && t in lists[q]
    ensures t in tasks && tasks[t].state == Ready && tasks[t].prio == q && t != idle
  {
    assert InPlace(tasks, lists, idle, gone, t);
  }

  lemma IdleFacts(tasks: map<int, Task>, lists: Lists, idle: int, gone: set<int>)
    requires Placed(tasks, lists, idle, gone) && NoneRunning(tasks) && idle != NULL
    ensures idle in tasks && tasks[idle].state == Ready && 0 <= idle
  {
  }

  /** The dispatched task leaves its queue and runs. */
  lemma Dispatched(tasks: map<int, Task>, lists: Lists, idle: int, gone: set<int>, t: int, lists': Lists)
    requires Placed(tasks, lists, idle, gone) && NoneRunning(tasks) && Disjoint(lists)
    requires forall q: Queue | q < |lists| :: Distinct(lists[q])
    requires t in tasks && tasks[t].state == Ready && |lists'| == QUEUES
    requires if t == idle then lists' == lists
             else var q := tasks[t].prio; lists[q] != [] && t == lists[q][0] && lists' == lists[q := lists[q][1..]]
    ensures Placed(tasks[t := tasks[t].(state := Running)], lists', idle, gone)
    ensures Current(tasks[t := tasks[t].(state := Running)], t, gone)
  {
    TaskFacts(tasks, lists, idle, gone, t);
    if t != idle {
      var q := tasks[t].prio;
      Taken(lists, q, 0);
      assert Without(lists[q], 0) == lists[q][1..];
    }
    Moved(tasks, lists, idle, gone, t, tasks[t].(state := Running), lists', gone);
  }

  lemma ReadyArrived(tasks: map<int, Task>, lists: Lists, idle: int, gone: set<int>, t: int, lists': Lists)
    requires Placed(tasks, lists, idle, gone) && t in tasks && tasks[t].state == Running && |lists'| == QUEUES
    requires forall u | u in tasks && tasks[u].state == Running :: u == t
    requires lists' == if t == idle then lists else lists[tasks[t].prio := lists[tasks[t].prio] + [t]]
    ensures Placed(tasks[t := tasks[t].(state := Ready)], lists', idle, gone)
    ensures NoneRunning(tasks[t := tasks[t].(state := Ready)])
  {
    TaskFacts(tasks, lists, idle, gone, t);
    Moved(tasks, lists, idle, gone, t, tasks[t].(state := Ready), lists', gone);
  }

  lemma DeadArrived(tasks: map<int, Task>, lists: Lists, idle: int, gone: set<int>, t: int, lists': Lists)
    requires Placed(tasks, lists, idle, gone) && Current(tasks, t, gone) && t != idle && |lists'| == QUEUES
    requires lists' == lists[REAP := lists[REAP] + [t]]
    ensures Placed(tasks[t := tasks[t].(state := Killed)], lists', idle, gone - {t})
    ensures NoneRunning(tasks[t := tasks[t].(state := Killed)])
  {
    TaskFacts(tasks, lists, idle, gone, t);
    Moved(tasks, lists, idle, gone, t, tasks[t].(state := Killed), lists', gone - {t});
  }

  lemma DeadLeft(tasks: map<int, Task>, lists: Lists, idle: int, gone: set<int>, t: int, lists': Lists)
    requires Placed(tasks, lists, idle, gone) && Disjoint(lists)
    requires forall q: Queue | q < |lists| :: Distinct(lists[q])
    requires lists[REAP] != [] && t == lists[REAP][0] && lists' == lists[REAP := lists[REAP][1..]]
    ensures t in tasks && tasks[t].state == Killed && Unqueued(lists', t) && Placed(tasks, lists', idle, gone + {t})
  {
    assert InPlace(tasks, lists, idle, gone, t);
    Taken(lists, REAP, 0);
    assert Without(lists[REAP], 0) == lists[REAP][1..];
    Moved(tasks, lists, idle, gone, t, tasks[t], lists', gone + {t});
    assert tasks[t := tasks[t]] == tasks;
  }

  /** Killing tasks where they stand leaves everything in place exactly if they are quiet. */
  lemma KilledInPlace(tasks: map<int, Task>, lists: Lists, idle: int, gone: set<int>, kids: seq<int>)
    requires Placed(tasks, lists, idle, gone) && forall c | c in kids :: c in tasks
    ensures Placed(Orphaned(tasks, kids), lists, idle, gone + (set c | c in kids && tasks[c].state == Running))
            <==> Quiet(tasks, kids, idle)
  {
    var tasks' := Orphaned(tasks, kids);
    var gone' := gone + set c | c in kids && tasks[c].state == Running;
    if Quiet(tasks, kids, idle) {
      forall u | u in tasks'
        ensures InPlace(tasks', lists, idle, gone', u)
      {
        assert InPlace(tasks, lists, idle, gone, u);
      }
    } else {
      var c :| c in kids && c in tasks && tasks[c].state != Killed && !(tasks[c].state == Running && c != idle);
      Disturbed(tasks, lists, idle, gone, kids, c);
    }
  }

  lemma Disturbed(tasks: map<int, Task>, lists: Lists, idle: int, gone: set<int>, kids: seq<int>, c: int)
    requires Placed(tasks, lists, idle, gone) && (forall k | k in kids :: k in tasks)
    requires c in kids && tasks[c].state != Killed && !(tasks[c].state == Running && c != idle)
    ensures !Placed(Orphaned(tasks, kids), lists, idle, gone + (set k | k in kids && tasks[k].state == Running))
  {
    var tasks' := Orphaned(tasks, kids);
    var gone' := gone + set k | k in kids && tasks[k].state == Running;
    assert InPlace(tasks, lists, idle, gone, c);
    assert tasks'[c].state == Killed;
    if c != idle {
      var q := if tasks[c].state == Ready then tasks[c].prio else SLEEP;
      assert c in lists[q];
      assert !InPlace(tasks', lists, idle, gone', c) by { assert !Belongs(tasks'[c], c, q, idle, gone'); }
    }
  }

  /** scheduler_yield queues the current task as it is unless it sleeps: a running task in a run
      queue is not in place, and find_task_to_run would refuse it. */
  lemma YieldNeedsSleep(tasks: map<int, Task>, lists: Lists, idle: int, gone: set<int>, t: int)
    requires Placed(tasks, lists, idle, gone) && t in tasks && t != idle
    requires tasks[t].state == Running || tasks[t].state == Sleeping
    ensures |lists| == QUEUES && tasks[t].prio < PRIORITIES
    ensures var lists' := if tasks[t].state == Sleeping then lists
                          else lists[tasks[t].prio := lists[tasks[t].prio] + [t]];
            Placed(tasks, lists', idle, gone) <==> tasks[t].state == Sleeping
  {
    var lists' := if tasks[t].state == Sleeping then lists
                  else lists[tasks[t].prio := lists[tasks[t].prio] + [t]];
    if tasks[t].state == Running {
      var q := tasks[t].prio;
      assert lists'[q][|lists[q]|] == t;
      assert !Belongs(tasks[t], t, q, idle, gone);
      assert !InPlace(tasks, lists', idle, gone, t);
    }
  }

  lemma SleeperFacts(tasks: map<int, Task>, lists: Lists, idle: int, gone: set<int>, t: int)
    requires Placed(tasks, lists, idle, gone) && t in tasks && tasks[t].state == Sleeping
    ensures |lists| == QUEUES && t in lists[SLEEP] && 0 <= t && tasks[t].prio < PRIORITIES && t != idle && t !in gone
  {
    assert InPlace(tasks, lists, idle, gone, t);
  }

  lemma QueuesApart(rq: Queues)
    requires rq.Valid()
    ensures |rq.lists| == QUEUES && Disjoint(rq.lists) && forall q: Queue :: Distinct(rq.lists[q])
  {
    forall q: Queue
      ensures Distinct(rq.lists[q])
    {
      Ends(rq.St(), q);
    }
  }
}
