/**
 * The queues of kernel/src/proc/scheduler.c: one run queue per priority, the sleep queue and
 * the reap queue, all threaded through the rr_next/rr_prev fields of the tasks.
 */
module RunQueues {
  import opened Links

  const PRIORITIES := 5
  const SLEEP := 5
  const REAP := 6
  const QUEUES := 7

  type Queue = q: int | 0 <= q < QUEUES witness 0

  type Lists = seq<seq<int>>

  /** Link fields of the tasks; head, tail and num_tasks of the queues; what they spell out. */
  datatype State = State(next: map<int, int>, prev: map<int, int>, head: seq<int>, tail: seq<int>, num: seq<int>,
                         lists: Lists)

  /** t is in none of the queues. */
  ghost predicate Unqueued(lists: Lists, t: int) {
    forall q | 0 <= q < |lists| :: t !in lists[q]
  }

  ghost predicate QueueRight(st: State, q: Queue, s: seq<int>)
    requires |st.head| == |st.tail| == |st.num| == QUEUES
  {
    IsList(st.next, st.prev, s) && st.head[q] == At(s, 0) && st.tail[q] == At(s, |s| - 1) && st.num[q] == |s|
  }

  ghost predicate Disjoint(lists: Lists) {
    forall q, r, t | 0 <= q < |lists| && 0 <= r < |lists| && t in lists[q] && t in lists[r] :: q == r
  }

  ghost predicate NullLinks(st: State, t: int) {
    t in st.next && t in st.prev && st.next[t] == NULL && st.prev[t] == NULL
  }

  /** The links and the queue records spell out the lists, no task is in two queues, and unqueued
      tasks have null links. */
  ghost predicate Right(st: State) {
    && |st.head| == |st.tail| == |st.num| == |st.lists| == QUEUES
    && st.next.Keys == st.prev.Keys
    && (forall q: Queue :: QueueRight(st, q, st.lists[q]))
    && Disjoint(st.lists)
    && (forall t | t in st.next && Unqueued(st.lists, t) :: NullLinks(st, t))
  }

  /** Only queue q and the links of tasks that are or were in it differ. */
  ghost predicate OnlyQueue(st: State, st': State, q: Queue, s: seq<int>)
    requires |st.head| == |st.tail| == |st.num| == |st.lists| == QUEUES
  {
    && |st'.head| == |st'.tail| == |st'.num| == QUEUES && st'.next.Keys == st'.prev.Keys == st.next.Keys
    && (forall r: Queue | r != q :: st'.head[r] == st.head[r] && st'.tail[r] == st.tail[r] && st'.num[r] == st.num[r])
    && (forall t | t in st.next && t in st.prev && t !in s && t !in st.lists[q] ::
          t in st'.next && t in st'.prev && st'.next[t] == st.next[t] && st'.prev[t] == st.prev[t])
    && (forall t | t in s && t !in st.lists[q] :: Unqueued(st.lists, t))
    && (forall t | t in st.lists[q] && t !in s :: NullLinks(st', t))
  }

  /** What a queue operation has to establish. */
  lemma Commit(st: State, st': State, q: Queue, s: seq<int>)
    requires Right(st) && OnlyQueue(st, st', q, s) && QueueRight(st', q, s) && st'.lists == st.lists[q := s]
    ensures Right(st')
  {
    hide IsList;
    forall r: Queue
      ensures QueueRight(st', r, st'.lists[r])
    {
      if r != q {
        assert QueueRight(st, r, st.lists[r]);
        forall t | t in st.lists[r]
          ensures t !in s && t !in st.lists[q]
        {
        }
        Frame(st.next, st.prev, st'.next, st'.prev, st.lists[r]);
      }
    }
    forall t | t in st'.next && Unqueued(st'.lists, t)
      ensures NullLinks(st', t)
    {
      assert t !in st'.lists[q];
      if t !in st.lists[q] {
        forall r | 0 <= r < |st.lists|
          ensures t !in st.lists[r]
        {
          assert r != q ==> st.lists[r] == st'.lists[r];
        }
        assert NullLinks(st, t);
      }
    }
  }

  /** The first and last task of a queue, and its links. */
  lemma Ends(st: State, q: Queue)
    requires Right(st)
    ensures var s := st.lists[q];
            && IsList(st.next, st.prev, s) && st.head[q] == At(s, 0) && st.tail[q] == At(s, |s| - 1) && st.num[q] == |s|
            && (st.head[q] == NULL <==> s == []) && (st.tail[q] == NULL <==> s == [])
            && (forall t | t in s :: t in st.next && t in st.prev)
  {
    assert QueueRight(st, q, st.lists[q]);
    NonNull(st.next, st.prev, st.lists[q]);
  }

  class Queues {
    var next: map<int, int>
    var prev: map<int, int>
    var head: seq<int>
    var tail: seq<int>
    var num: seq<int>
    ghost var lists: Lists

    ghost function St(): (st: State)
      reads this
    {
      State(next, prev, head, tail, num, lists)
    }

    ghost predicate Valid()
      reads this
    {
      Right(St())
    }

    constructor ()
      ensures Valid() && lists == seq(QUEUES, _ => []) && next == map[]
    {
      next, prev := map[], map[];
      head, tail := seq(QUEUES, _ => NULL), seq(QUEUES, _ => NULL);
      num := seq(QUEUES, _ => 0);
      lists := seq(QUEUES, _ => []);
    }

    /** The links of a new task structure. */
    method NewTask(t: int)
      requires Valid() && 0 <= t && t !in next
      modifies this`next, this`prev
      ensures Valid() && next == old(next)[t := NULL] && Unqueued(lists, t)
    {
      hide IsList;
      forall q: Queue
        ensures t !in lists[q]
      {
        Ends(St(), q);
      }
      next, prev := next[t := NULL], prev[t := NULL];
      forall q: Queue
        ensures QueueRight(St(), q, lists[q])
      {
        Ends(old(St()), q);
        Frame(old(next), old(prev), next, prev, lists[q]);
      }
      forall x | x in next && Unqueued(lists, x)
        ensures NullLinks(St(), x)
      {
        assert x != t ==> NullLinks(old(St()), x);
      }
    }

    /** runqueue_pop_front. */
    method PopFront(q: Queue) returns (t: int)
      requires Valid()
      modifies this
      ensures Valid() && next.Keys == old(next.Keys)
      ensures old(lists)[q] == [] ==> t == NULL && St() == old(St())
      ensures old(lists)[q] != [] ==> t == old(lists)[q][0] && 0 <= t && lists == old(lists)[q := old(lists)[q][1..]]
    {
      hide Right, IsList, Without;
      ghost var st := St();
      Ends(st, q);
      Shape(st);
      if head[q] == NULL {
        return NULL;
      }
      FieldsAt(next, prev, lists[q], 0);
      t := head[q];
      PopWrites(q, t);
      WithoutEnds(st.lists[q], 0);
      lists := lists[q := st.lists[q][1..]];
      RemovedRight(st, St(), q, 0);
    }

    /** The writes of runqueue_pop_front. */
    method PopWrites(q: Queue, t: int)
      requires |head| == |tail| == |num| == |lists| == QUEUES && lists[q] != [] && t == lists[q][0] == head[q]
      requires IsList(next, prev, lists[q]) && tail[q] == At(lists[q], |lists[q]| - 1) && num[q] == |lists[q]|
      modifies this`next, this`prev, this`head, this`tail, this`num
      ensures Cut(old(St()), St(), q, 0)
    {
      hide IsList;
      ghost var s := lists[q];
      FieldsAt(next, prev, s, 0);
      FieldsAt(next, prev, s, |s| - 1);
      WithoutEnds(s, 0);
      if head[q] == tail[q] {
        head, tail := head[q := NULL], tail[q := NULL];
      } else {
        head := head[q := next[head[q]]];
        prev := prev[head[q] := NULL];
      }
      next, prev := next[t := NULL], prev[t := NULL];
      num := num[q := num[q] - 1];
    }

    /** runqueue_insert_front. */
    method InsertFront(q: Queue, t: int)
      requires Valid() && 0 <= t && t in next && Unqueued(lists, t)
      modifies this
      ensures Valid() && next.Keys == old(next.Keys) && lists == old(lists)[q := [t] + old(lists)[q]]
    {
      hide Right, IsList, Unqueued;
      ghost var st := St();
      Ends(st, q);
      Shape(st);
      if head[q] == NULL {
        head, tail := head[q := t], tail[q := t];
        next, prev := next[t := NULL], prev[t := NULL];
      } else {
        prev := prev[t := NULL];
        next := next[t := head[q]];
        prev := prev[head[q] := t];
        head := head[q := t];
      }
      num := num[q := num[q] + 1];
      lists := lists[q := [t] + lists[q]];
      FrontRight(st, St(), q, t);
    }

    /** runqueue_insert_back. */
    method InsertBack(q: Queue, t: int)
      requires Valid() && 0 <= t && t in next && Unqueued(lists, t)
      modifies this
      ensures Valid() && next.Keys == old(next.Keys) && lists == old(lists)[q := old(lists)[q] + [t]]
    {
      hide Right, IsList, Unqueued;
      ghost var st := St();
      Ends(st, q);
      Shape(st);
      if tail[q] == NULL {
        head, tail := head[q := t], tail[q := t];
        next, prev := next[t := NULL], prev[t := NULL];
      } else {
        next := next[t := NULL];
        next := next[tail[q] := t];
        prev := prev[t := tail[q]];
        tail := tail[q := t];
      }
      num := num[q := num[q] + 1];
      lists := lists[q := lists[q] + [t]];
      BackRight(st, St(), q, t);
    }

    /** runqueue_remove. */
    method Remove(q: Queue, t: int)
      requires Valid() && t in lists[q]
      modifies this
      ensures Valid() && next.Keys == old(next.Keys)
      ensures lists == old(lists)[q := Without(old(lists)[q], IndexOf(old(lists)[q], t))]
    {
      hide Right, IsList, Without;
      ghost var st := St();
      Ends(st, q);
      Shape(st);
      ghost var k := IndexOf(lists[q], t);
      RemoveWrites(q, t, k);
      lists := lists[q := Without(lists[q], k)];
      RemovedRight(st, St(), q, k);
    }

    /** The writes of runqueue_remove. */
    method RemoveWrites(q: Queue, t: int, ghost k: int)
      requires |head| == |tail| == |num| == |lists| == QUEUES && 0 <= k < |lists[q]| && t == lists[q][k]
      requires IsList(next, prev, lists[q]) && head[q] == At(lists[q], 0) && tail[q] == At(lists[q], |lists[q]| - 1)
      requires num[q] == |lists[q]|
      modifies this`next, this`prev, this`head, this`tail, this`num
      ensures Cut(old(St()), St(), q, k)
    {
      hide IsList, Without;
      ghost var s := lists[q];
      FieldsAt(next, prev, s, k);
      WithoutEnds(s, k);
      if t == head[q] {
        head := head[q := next[t]];
        if head[q] == NULL {
          tail := tail[q := NULL];
        }
      } else if t == tail[q] {
        tail := tail[q := prev[t]];
        if tail[q] == NULL {
          assert false;
        }
      }
      if prev[t] != NULL {
        next := next[prev[t] := next[t]];
      }
      if next[t] != NULL {
        prev := prev[next[t] := prev[t]];
      }
      next, prev := next[t := NULL], prev[t := NULL];
      num := num[q := num[q] - 1];
    }
  }

  /** Task k of queue q has been cut out; its own links are null. */
  ghost predicate Cut(st: State, st': State, q: Queue, k: int)
    requires |st.head| == |st.tail| == |st.num| == |st.lists| == QUEUES && 0 <= k < |st.lists[q]|
  {
    var s := st.lists[q]; var t := Without(s, k);
    && st'.next == NextWithout(st.next, s, k)[s[k] := NULL] && st'.prev == PrevWithout(st.prev, s, k)[s[k] := NULL]
    && st'.head == st.head[q := At(t, 0)] && st'.tail == st.tail[q := At(t, |t| - 1)] && st'.num == st.num[q := |t|]
  }

  lemma Shape(st: State)
    requires Right(st)
    ensures |st.head| == |st.tail| == |st.num| == |st.lists| == QUEUES && st.next.Keys == st.prev.Keys
  {
  }

  lemma WithoutEnds(s: seq<int>, k: int)
    requires 0 <= k < |s|
    ensures var t := Without(s, k);
            && |t| == |s| - 1
            && At(t, 0) == (if k == 0 then At(s, 1) else s[0])
            && At(t, |t| - 1) == (if k == |s| - 1 then At(s, k - 1) else s[|s| - 1])
            && (k == 0 ==> t == s[1..])
  {
  }

  lemma RemovedRight(st: State, st': State, q: Queue, k: int)
    requires Right(st) && 0 <= k < |st.lists[q]| && Cut(st, st', q, k)
    requires st'.lists == st.lists[q := Without(st.lists[q], k)]
    ensures Right(st') && st'.next.Keys == st.next.Keys
  {
    hide IsList, Without, Right;
    Shape(st);
    Ends(st, q);
    var s := st.lists[q];
    var t := Without(s, k);
    FieldsAt(st.next, st.prev, s, k);
    Unlink(st.next, st.prev, s, k);
    ListDistinct(st.next, st.prev, s);
    Frame(NextWithout(st.next, s, k), PrevWithout(st.prev, s, k), st'.next, st'.prev, t);
    assert st'.next.Keys == st.next.Keys && st'.prev.Keys == st.prev.Keys;
    Commit(st, st', q, t);
  }

  lemma FrontRight(st: State, st': State, q: Queue, t: int)
    requires Right(st) && 0 <= t && t in st.next && Unqueued(st.lists, t)
    requires var s := st.lists[q];
             && st'.next == st.next[t := At(s, 0)]
             && st'.prev == (if s == [] then st.prev[t := NULL] else st.prev[t := NULL][s[0] := t])
             && st'.head == st.head[q := t] && st'.tail == (if s == [] then st.tail[q := t] else st.tail)
             && st'.num == st.num[q := |s| + 1] && st'.lists == st.lists[q := [t] + s]
    ensures Right(st') && st'.next.Keys == st.next.Keys
  {
    hide IsList, Right;
    Shape(st);
    Ends(st, q);
    var s := st.lists[q];
    PushFront(st.next, st.prev, s, t);
    assert st'.next.Keys == st.next.Keys && st'.prev.Keys == st.prev.Keys;
    Commit(st, st', q, [t] + s);
  }

  lemma BackRight(st: State, st': State, q: Queue, t: int)
    requires Right(st) && 0 <= t && t in st.next && Unqueued(st.lists, t)
    requires var s := st.lists[q];
             && st'.next == (if s == [] then st.next[t := NULL] else st.next[t := NULL][s[|s| - 1] := t])
             && st'.prev == st.prev[t := At(s, |s| - 1)]
             && st'.head == (if s == [] then st.head[q := t] else st.head) && st'.tail == st.tail[q := t]
             && st'.num == st.num[q := |s| + 1] && st'.lists == st.lists[q := s + [t]]
    ensures Right(st') && st'.next.Keys == st.next.Keys
  {
    hide IsList, Right;
    Shape(st);
    Ends(st, q);
    var s := st.lists[q];
    PushBack(st.next, st.prev, s, t);
    assert st'.next.Keys == st.next.Keys && st'.prev.Keys == st.prev.Keys;
    Commit(st, st', q, s + [t]);
  }
}
