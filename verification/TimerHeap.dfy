/**
 * The system timer heap of kernel/src/misc/time.c: an array-backed binary min-heap of
 * expiration times that grows and shrinks, and the tick handler that empties its due part.
 */
module TimerHeap {

  const MIN_TIMER_HEAP_SIZE := 64
  const FIRST_CAPACITY := 3000
  const TICK_LIMIT := 0x1_0000_0000_0000_0000

  /** A registered ktimer_node and its expiration_time. */
  datatype Timer = Timer(node: int, expires: nat)

  function Child(i: nat, dir: nat): (c: nat) {
    2 * i + dir
  }

  function Parent(i: nat): (p: nat)
    requires i > 0
  {
    (i - 1) / 2
  }

  function Swap(s: seq<Timer>, i: nat, j: nat): (t: seq<Timer>)
    requires i < |s| && j < |s|
    ensures |t| == |s| && t[i] == s[j] && t[j] == s[i]
    ensures forall k | 0 <= k < |s| && k != i && k != j :: t[k] == s[k]
    ensures multiset(t) == multiset(s)
  {
    s[i := s[j]][j := s[i]]
  }

  predicate Below(s: seq<Timer>, p: nat, c: nat)
    requires p < |s| && c < |s|
  {
    s[p].expires <= s[c].expires
  }

  /** Min-heap order: no entry expires before its parent. */
  predicate HeapOrder(s: seq<Timer>) {
    forall i: nat | 0 < i < |s| :: Below(s, Parent(i), i)
  }

  /** Heap order except between idx and its children. */
  predicate SinkOrder(s: seq<Timer>, idx: nat) {
    && (forall i: nat | 0 < i < |s| && Parent(i) != idx :: Below(s, Parent(i), i))
    && (0 < idx < |s| ==> forall i: nat | 0 < i < |s| && Parent(i) == idx :: Below(s, Parent(idx), i))
  }

  /** Heap order except between idx and its parent. */
  predicate RiseOrder(s: seq<Timer>, idx: nat) {
    && (forall i: nat | 0 < i < |s| && i != idx :: Below(s, Parent(i), i))
    && (0 < idx < |s| ==> forall i: nat | 0 < i < |s| && Parent(i) == idx :: Below(s, Parent(idx), i))
  }

  /** The root of a heap expires first. */
  lemma {:induction false} RootIsLeast(s: seq<Timer>, i: nat)
    requires HeapOrder(s) && i < |s|
    ensures s[0].expires <= s[i].expires
    decreases i
  {
    if i > 0 {
      RootIsLeast(s, Parent(i));
      assert Below(s, Parent(i), i);
    }
  }

  /** The index that min_heapify swaps with: the least of idx and its children. */
  predicate Smallest(s: seq<Timer>, idx: nat, c: nat)
    requires idx < |s|
  {
    && c < |s| && (c == idx || c == Child(idx, 1) || c == Child(idx, 2))
    && Below(s, c, idx)
    && (Child(idx, 1) < |s| ==> Below(s, c, Child(idx, 1)))
    && (Child(idx, 2) < |s| ==> Below(s, c, Child(idx, 2)))
  }

  lemma SinkStep(s: seq<Timer>, idx: nat, c: nat)
    requires idx < |s| && SinkOrder(s, idx) && Smallest(s, idx, c) && c != idx
    ensures SinkOrder(Swap(s, idx, c), c)
  {
    var t := Swap(s, idx, c);
    forall i: nat | 0 < i < |t| && Parent(i) != c
      ensures Below(t, Parent(i), i)
    {
      if i != idx && Parent(i) != idx {
        assert Below(s, Parent(i), i);
      } else if i == idx {
        assert Parent(c) == idx;
        assert Below(s, Parent(idx), c);
      }
    }
    forall i: nat | 0 < i < |t| && Parent(i) == c
      ensures Below(t, Parent(c), i)
    {
      assert Below(s, Parent(i), i);
    }
  }

  lemma SinkDone(s: seq<Timer>, idx: nat)
    requires idx < |s| && SinkOrder(s, idx) && Smallest(s, idx, idx)
    ensures HeapOrder(s)
  {
    forall i: nat | 0 < i < |s|
      ensures Below(s, Parent(i), i)
    {
      if Parent(i) == idx {
        assert i == Child(idx, 1) || i == Child(idx, 2);
      }
    }
  }

  lemma RiseStep(s: seq<Timer>, idx: nat)
    requires 0 < idx < |s| && RiseOrder(s, idx) && s[Parent(idx)].expires > s[idx].expires
    ensures RiseOrder(Swap(s, idx, Parent(idx)), Parent(idx))
  {
    var p := Parent(idx);
    var t := Swap(s, idx, p);
    forall i: nat | 0 < i < |t| && i != p
      ensures Below(t, Parent(i), i)
    {
      if i != idx {
        assert Below(s, Parent(i), i);
        if Parent(i) == idx {
          assert Below(s, Parent(idx), i);
        }
      }
    }
    if p > 0 {
      forall i: nat | 0 < i < |t| && Parent(i) == p
        ensures Below(t, Parent(p), i)
      {
        assert Below(s, Parent(p), p);
        if i != idx {
          assert Below(s, Parent(i), i);
        }
      }
    }
  }

  lemma RiseDone(s: seq<Timer>, idx: nat)
    requires idx < |s| && RiseOrder(s, idx) && (idx == 0 || Below(s, Parent(idx), idx))
    ensures HeapOrder(s)
  {
  }

  /** A new last entry is the only one that may be out of place. */
  lemma Appended(s: seq<Timer>, x: Timer)
    requires HeapOrder(s)
    ensures RiseOrder(s + [x], |s|)
  {
    var t := s + [x];
    forall i: nat | 0 < i < |t| && i != |s|
      ensures Below(t, Parent(i), i)
    {
      assert Below(s, Parent(i), i);
    }
  }

  /** With the root replaced, only the root may be out of place. */
  lemma RootReplaced(s: seq<Timer>, x: Timer)
    requires HeapOrder(s) && |s| > 1 && x == s[|s| - 1]
    ensures SinkOrder(s[0 := x][..|s| - 1], 0)
    ensures multiset(s[0 := x][..|s| - 1]) == multiset(s) - multiset{s[0]}
  {
    var n := |s| - 1;
    var t := s[0 := x][..n];
    forall i: nat | 0 < i < |t| && Parent(i) != 0
      ensures Below(t, Parent(i), i)
    {
      assert Below(s, Parent(i), i);
    }
    assert s == [s[0]] + s[1..n] + [x];
    assert t == [x] + s[1..n];
  }

  // ------------------------------------------------------------------- the heap

  class Heap {
    /** heap_array with its heap_capacity, heap_size, system_ticks, unix_time */
    var heap: array<Timer>
    var size: nat
    var ticks: nat
    var unixTime: nat

    /** size <= capacity, and the used part is a heap. */
    ghost predicate Valid()
      reads this, heap
    {
      size <= heap.Length && HeapOrder(heap[..size]) && ticks < TICK_LIMIT
    }

    function Timers(): (s: seq<Timer>)
      reads this, heap
    {
      if size <= heap.Length then heap[..size] else []
    }

    constructor (ticks0: nat, unix: nat)
      requires ticks0 < TICK_LIMIT
      ensures Valid() && fresh(heap) && Timers() == [] && ticks == ticks0 && unixTime == unix
    {
      heap := new Timer[0];
      size, ticks, unixTime := 0, ticks0, unix;
    }

    /** swap */
    method Exchange(i: nat, j: nat)
      requires i < size <= heap.Length && j < size
      modifies heap
      ensures heap[..size] == Swap(old(heap[..size]), i, j)
    {
      heap[i], heap[j] := heap[j], heap[i];
    }

    /** The comparisons of min_heapify. */
    method LeastOf(idx: nat) returns (least: nat)
      requires idx < size <= heap.Length
      ensures Smallest(heap[..size], idx, least)
    {
      var left, right := Child(idx, 1), Child(idx, 2);
      least := idx;
      if left < size && heap[left].expires < heap[idx].expires {
        least := left;
      }
      if right < size && heap[right].expires < heap[least].expires {
        least := right;
      }
    }

    /** min_heapify. */
    method MinHeapify(start: nat)
      requires start < size <= heap.Length && SinkOrder(heap[..size], start)
      modifies heap
      ensures HeapOrder(heap[..size]) && multiset(heap[..size]) == multiset(old(heap[..size]))
    {
      hide SinkOrder, HeapOrder;
      var idx: nat := start;
      while true
        invariant idx < size <= heap.Length && SinkOrder(heap[..size], idx)
        invariant multiset(heap[..size]) == multiset(old(heap[..size]))
        decreases size - idx
      {
        ghost var s := heap[..size];
        var least := LeastOf(idx);
        if least == idx {
          SinkDone(s, idx);
          break;
        }
        SinkStep(s, idx, least);
        Exchange(idx, least);
        idx := least;
      }
    }

    /** krealloc of the heap array. */
    method Resize(capacity: nat)
      requires size <= heap.Length && size <= capacity
      modifies this`heap
      ensures fresh(heap) && heap.Length == capacity && heap[..size] == old(heap[..size])
    {
      var a := new Timer[capacity];
      forall i | 0 <= i < size {
        a[i] := heap[i];
      }
      assert a[..size] == heap[..size];
      heap := a;
    }

    /** The sift-up loop of timer_insert. */
    method SiftUp(last: nat)
      requires last < size <= heap.Length && RiseOrder(heap[..size], last)
      modifies heap
      ensures HeapOrder(heap[..size]) && multiset(heap[..size]) == multiset(old(heap[..size]))
    {
      hide RiseOrder, HeapOrder;
      var idx: nat := last;
      while idx > 0 && heap[Parent(idx)].expires > heap[idx].expires
        invariant idx < size <= heap.Length && RiseOrder(heap[..size], idx)
        invariant multiset(heap[..size]) == multiset(old(heap[..size]))
        decreases idx
      {
        ghost var s := heap[..size];
        RiseStep(s, idx);
        Exchange(idx, Parent(idx));
        idx := Parent(idx);
      }
      RiseDone(heap[..size], idx);
    }

    /** The first lines of timer_insert: make room for one more. */
    method Grow()
      requires size <= heap.Length
      modifies this`heap
      ensures size < heap.Length && heap[..size] == old(heap[..size]) && (heap == old(heap) || fresh(heap))
      ensures heap.Length == if size < old(heap.Length) then old(heap.Length)
                             else if old(heap.Length) == 0 then FIRST_CAPACITY else 2 * old(heap.Length)
    {
      if size == heap.Length {
        if heap.Length == 0 {
          Resize(FIRST_CAPACITY);
        } else {
          Resize(2 * heap.Length);
        }
      }
    }

    method Append(t: Timer)
      requires size < heap.Length
      modifies this`size, heap
      ensures size == old(size) + 1 && size <= heap.Length && heap[..size] == old(heap[..size]) + [t]
    {
      size := size + 1;
      heap[size - 1] := t;
    }

    /** timer_insert. */
    method Insert(t: Timer)
      requires Valid()
      modifies this`heap, this`size, heap
      ensures Valid() && (heap == old(heap) || fresh(heap))
      ensures multiset(Timers()) == multiset(old(Timers())) + multiset{t}
      ensures heap.Length == if old(size) < old(heap.Length) then old(heap.Length)
                             else if old(heap.Length) == 0 then FIRST_CAPACITY else 2 * old(heap.Length)
    {
      hide HeapOrder, RiseOrder;
      ghost var s := heap[..size];
      Grow();
      Append(t);
      Appended(s, t);
      SiftUp(size - 1);
    }

    /** timer_peek. */
    method Peek() returns (t: seq<Timer>)
      requires Valid()
      ensures t == [] <==> Timers() == []
      ensures t != [] ==> t == [Timers()[0]] && forall x | x in Timers() :: t[0].expires <= x.expires
    {
      if size == 0 {
        return [];
      }
      t := [heap[0]];
      forall x | x in Timers()
        ensures t[0].expires <= x.expires
      {
        var i :| 0 <= i < size && heap[..size][i] == x;
        RootIsLeast(heap[..size], i);
      }
    }

    /** timer_pop.  The panic is the case of an empty heap. */
    method Pop() returns (t: Timer, panics: bool)
      requires Valid()
      modifies this`heap, this`size, heap
      ensures Valid() && (heap == old(heap) || fresh(heap))
      ensures panics <==> old(Timers()) == []
      ensures panics ==> unchanged(this) && unchanged(heap)
      ensures !panics ==> t == old(Timers())[0] && multiset(Timers()) == multiset(old(Timers())) - multiset{t}
    {
      hide HeapOrder;
      if size == 0 {
        return Timer(0, 0), true;
      }
      t := PopRoot();
      panics := false;
    }

    method PopRoot() returns (t: Timer)
      requires Valid() && size > 0
      modifies this`heap, this`size, heap
      ensures Valid() && (heap == old(heap) || fresh(heap))
      ensures t == old(heap[0]) && multiset(heap[..size]) == multiset(old(heap[..size])) - multiset{t}
    {
      hide HeapOrder, SinkOrder;
      t := heap[0];
      if size == 1 {
        assert heap[..size] == [t];
        size := 0;
        EmptyIsHeap();
        assert heap[..size] == [];
      } else {
        RemoveRoot();
        MinHeapify(0);
      }
    }

    /** Move the last entry to the root, and give memory back. */
    method RemoveRoot()
      requires Valid() && size > 1
      modifies this`heap, this`size, heap
      ensures size == old(size) - 1 && size <= heap.Length && (heap == old(heap) || fresh(heap))
      ensures SinkOrder(heap[..size], 0)
      ensures multiset(heap[..size]) == multiset(old(heap[..size])) - multiset{old(heap[0])}
      ensures heap.Length == if size > MIN_TIMER_HEAP_SIZE && old(heap.Length) > 4 * size then old(heap.Length) / 2
                             else old(heap.Length)
    {
      hide HeapOrder, SinkOrder;
      ghost var s := heap[..size];
      heap[0] := heap[size - 1];
      size := size - 1;
      RootReplaced(s, heap[0]);
      assert heap[..size] == s[0 := heap[0]][..size];
      if size > MIN_TIMER_HEAP_SIZE && heap.Length > 4 * size {
        Resize(heap.Length / 2);
      }
    }

    /** register_system_timer. */
    method Register(node: int, ms: nat)
      requires Valid()
      modifies this`heap, this`size, heap
      ensures Valid() && (heap == old(heap) || fresh(heap))
      ensures multiset(Timers()) == multiset(old(Timers())) + multiset{Timer(node, (ticks + ms) % TICK_LIMIT)}
      ensures old(NotBefore(Timers(), ticks)) ==>
                (NotBefore(Timers(), ticks) <==> (ticks + ms) % TICK_LIMIT >= ticks)
    {
      ghost var s := Timers();
      var t := Timer(node, (ticks + ms) % TICK_LIMIT);
      Insert(t);
      if NotBefore(s, ticks) {
        InsertedNotBefore(s, Timers(), t, ticks);
      }
    }

    /** One iteration of the loop of system_timer_handler: launch the first timer if it is due. */
    method Dispatch(ghost before: multiset<Timer>, fired: seq<Timer>) returns (more: bool, f: seq<Timer>)
      requires Valid() && Dispatched(before, fired, Timers(), ticks)
      modifies this`heap, this`size, heap
      ensures Valid() && (heap == old(heap) || fresh(heap))
      ensures Dispatched(before, f, Timers(), ticks)
      ensures more ==>
                && size < old(size) && old(Timers()) != [] && f == fired + [old(Timers())[0]]
                && Popped(old(Timers()), Timers(), old(Timers())[0])
      ensures !more ==>
                && f == fired && heap == old(heap) && size == old(size) && Timers() == old(Timers())
                && NoneDue(Timers(), ticks)
    {
      hide HeapOrder, Dispatched;
      ghost var s := Timers();
      var first := Peek();
      f := fired;
      if first == [] || first[0].expires > ticks {
        return false, f;
      }
      var t, panics := Pop();
      assert !panics;
      more, f := true, fired + [t];
      Fewer(s, Timers(), t);
      DispatchedStep(before, fired, s, Timers(), t, ticks);
    }

    /** The first lines of system_timer_handler. */
    method Advance()
      requires Valid()
      modifies this`ticks, this`unixTime
      ensures Valid() && Timers() == old(Timers()) && ticks == (old(ticks) + 1) % TICK_LIMIT
      ensures unixTime == old(unixTime) + if ticks % 1000 == 0 then 1 else 0
    {
      ticks := (ticks + 1) % TICK_LIMIT;
      if ticks % 1000 == 0 {
        unixTime := unixTime + 1;
      }
    }

    /** system_timer_handler as far as the heap is concerned; `fired` lists the launched timers in
        launch order. */
    method Tick() returns (fired: seq<Timer>)
      requires Valid()
      modifies this, heap
      ensures Valid() && (heap == old(heap) || fresh(heap))
      ensures ticks == (old(ticks) + 1) % TICK_LIMIT
      ensures unixTime == old(unixTime) + if ticks % 1000 == 0 then 1 else 0
      ensures Dispatched(multiset(old(Timers())), fired, Timers(), ticks) && NoneDue(Timers(), ticks)
      ensures old(NotBefore(Timers(), ticks)) ==> NotBefore(Timers(), ticks) && OnTime(fired, ticks)
    {
      hide Heap.Valid, Heap.Timers, Dispatched, NoneDue, NotBefore, OnTime, Popped;
      ghost var s := Timers();
      ghost var before := multiset(s);
      NothingDispatched(s, (ticks + 1) % TICK_LIMIT);
      Advance();
      fired := [];
      var more := true;
      ghost var now, unix := ticks, unixTime;
      while more
        invariant Valid() && (heap == old(heap) || fresh(heap))
        invariant ticks == now && unixTime == unix
        invariant Dispatched(before, fired, Timers(), ticks)
        invariant !more ==> NoneDue(Timers(), ticks)
        decreases size, more
      {
        more, fired := Dispatch(before, fired);
      }
      TickDone(s, fired, Timers(), old(ticks), ticks);
    }
  }

  lemma EmptyIsHeap()
    ensures HeapOrder([])
  {
  }

  /** Every timer is still to come, or expires at this very tick. */
  ghost predicate NotBefore(s: seq<Timer>, now: nat) {
    forall x | x in s :: x.expires >= now
  }

  lemma InsertedNotBefore(s: seq<Timer>, s': seq<Timer>, t: Timer, now: nat)
    requires NotBefore(s, now) && multiset(s') == multiset(s) + multiset{t}
    ensures NotBefore(s', now) <==> t.expires >= now
  {
    assert t in multiset(s');
    forall x | x in s'
      ensures x in s || x == t
    {
      assert x in multiset(s');
    }
    forall x | x in s
      ensures x in s'
    {
      assert x in multiset(s) && x in multiset(s');
    }
  }

  /** Launched at the tick of expiration, or one tick later (a timer of 0 ms). */
  ghost predicate OnTime(fired: seq<Timer>, now: nat) {
    forall t | t in fired :: now == t.expires || now == t.expires + 1
  }

  lemma LaunchedOnTime(s: seq<Timer>, fired: seq<Timer>, left: seq<Timer>, last: nat, now: nat)
    requires NotBefore(s, last) && now == (last + 1) % TICK_LIMIT
    requires Dispatched(multiset(s), fired, left, now)
    ensures OnTime(fired, now)
  {
    forall t | t in fired
      ensures t in s
    {
      assert t in multiset(fired);
      assert t in multiset(s);
    }
  }

  /** Timers are neither lost nor made up, only due ones are launched, the earliest first. */
  ghost predicate Dispatched(before: multiset<Timer>, fired: seq<Timer>, left: seq<Timer>, now: nat) {
    && multiset(fired) + multiset(left) == before
    && (forall t | t in fired :: t.expires <= now)
    && (forall i, j | 0 <= i < j < |fired| :: fired[i].expires <= fired[j].expires)
    && (forall t, x | t in fired && x in left :: t.expires <= x.expires)
  }

  /** One timer t has left the heap. */
  ghost predicate Popped(s: seq<Timer>, s': seq<Timer>, t: Timer) {
    t in s && multiset(s') == multiset(s) - multiset{t}
  }

  /** Nothing is due any more. */
  ghost predicate NoneDue(s: seq<Timer>, now: nat) {
    forall x | x in s :: x.expires > now
  }

  lemma NothingDispatched(s: seq<Timer>, now: nat)
    ensures Dispatched(multiset(s), [], s, now)
  {
  }

  lemma TickDone(s: seq<Timer>, fired: seq<Timer>, left: seq<Timer>, last: nat, now: nat)
    requires now == (last + 1) % TICK_LIMIT && Dispatched(multiset(s), fired, left, now) && NoneDue(left, now)
    ensures NotBefore(s, last) ==> NotBefore(left, now) && OnTime(fired, now)
  {
    if NotBefore(s, last) {
      LaunchedOnTime(s, fired, left, last, now);
    }
  }

  lemma DispatchedStep(before: multiset<Timer>, fired: seq<Timer>, left: seq<Timer>, left': seq<Timer>, t: Timer,
                       now: nat)
    requires Dispatched(before, fired, left, now) && t in left && t.expires <= now
    requires forall x | x in left :: t.expires <= x.expires
    requires multiset(left') == multiset(left) - multiset{t}
    ensures Dispatched(before, fired + [t], left', now)
  {
    var f := fired + [t];
    assert multiset(f) == multiset(fired) + multiset{t};
    assert t in multiset(left);
    forall x | x in left'
      ensures x in left
    {
      assert x in multiset(left');
      assert x in multiset(left);
    }
  }

  lemma Fewer(s: seq<Timer>, s': seq<Timer>, t: Timer)
    requires t in s && multiset(s') == multiset(s) - multiset{t}
    ensures |s'| == |s| - 1
  {
    assert t in multiset(s);
    assert |multiset(s')| == |s'| && |multiset(s)| == |s|;
  }
}
