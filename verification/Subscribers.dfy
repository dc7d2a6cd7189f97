/**
 * Subscriber nodes of kernel/src/misc/kevent.c: a pool of free nodes chained by `next`, and a
 * doubly linked list of nodes per event.
 */
module Subscribers {
  import opened Links
  import opened Seqs

  const REFILL := 128

  /** Where a node is: in the pool, in no list, or (an event number) on the list of an event. */
  const POOL := -1
  const HAND := -2

  /** The node fields, the pool and list heads, and what they spell out. */
  datatype Nodes = Nodes(next: map<int, int>, prev: map<int, int>, thread: map<int, int>, pool: int,
                         heads: map<int, int>, free: seq<int>, subs: map<int, seq<int>>, home: map<int, int>)

  /** A chain by `next` alone. */
  ghost predicate Chain(next: map<int, int>, s: seq<int>) {
    Distinct(s) && forall i | 0 <= i < |s| :: 0 <= s[i] && s[i] in next && next[s[i]] == At(s, i + 1)
  }

  ghost predicate EventRight(ns: Nodes, e: int)
    requires e in ns.subs
  {
    && 0 <= e && e in ns.heads && IsList(ns.next, ns.prev, ns.subs[e]) && ns.heads[e] == At(ns.subs[e], 0)
    && forall n :: n in ns.subs[e] <==> n in ns.home && ns.home[n] == e
  }

  /** Every node is in exactly one place. */
  ghost predicate Right(ns: Nodes) {
    && ns.next.Keys == ns.prev.Keys == ns.thread.Keys == ns.home.Keys && ns.heads.Keys == ns.subs.Keys
    && (forall n | n in ns.home :: 0 <= n && (ns.home[n] == POOL || ns.home[n] == HAND || ns.home[n] in ns.subs))
    && Chain(ns.next, ns.free) && ns.pool == At(ns.free, 0)
    && (forall n :: n in ns.free <==> n in ns.home && ns.home[n] == POOL)
    && (forall e | e in ns.subs :: EventRight(ns, e))
  }

  /** v lists the threads of the nodes s. */
  ghost predicate ThreadsAre(thread: map<int, int>, s: seq<int>, v: seq<int>) {
    |v| == |s| && forall i | 0 <= i < |s| :: s[i] in thread && thread[s[i]] == v[i]
  }

  ghost predicate Named(thread: map<int, int>, subs: map<int, seq<int>>, threads: map<int, seq<int>>) {
    threads.Keys == subs.Keys && forall e | e in subs :: ThreadsAre(thread, subs[e], threads[e])
  }

  /** Addresses that kcalloc has returned. */
  ghost predicate Below(home: map<int, int>, brk: int) {
    forall n | n in home :: n < brk
  }

  /** At most the node n is in no list. */
  ghost predicate InHand(home: map<int, int>, n: int) {
    forall m | m in home && m != n :: home[m] != HAND
  }

  /** Nodes other than n are where they were and name the threads they named. */
  ghost predicate SameNodes(home: map<int, int>, thread: map<int, int>, home': map<int, int>, thread': map<int, int>,
                            n: int)
  {
    forall m | m in home && m != n ::
      m in home' && home'[m] == home[m] && m in thread && m in thread' && thread'[m] == thread[m]
  }

  /** Moving one node. */
  lemma Moved(home: map<int, int>, brk: int, n: int, place: int)
    requires n in home && Below(home, brk)
    ensures Below(home[n := place], brk) && |home[n := place]| == |home| && home[n := place].Keys == home.Keys
  {
    assert home[n := place].Keys == home.Keys;
    SameSize(home, home[n := place]);
  }

  lemma PutDown(home: map<int, int>, n: int, place: int)
    requires n in home && InHand(home, n) && place != HAND
    ensures InHand(home[n := place], NULL)
  {
  }

  lemma TakenUp(home: map<int, int>, n: int)
    requires InHand(home, NULL) && NULL !in home
    ensures InHand(home[n := HAND], n)
  {
  }

  lemma ChainFrame(next: map<int, int>, next': map<int, int>, s: seq<int>)
    requires Chain(next, s) && forall n | n in s && n in next :: n in next' && next'[n] == next[n]
    ensures Chain(next', s)
  {
    forall i | 0 <= i < |s|
      ensures s[i] in next' && next'[s[i]] == At(s, i + 1)
    {
      assert s[i] in s;
    }
  }

  lemma ChainPush(next: map<int, int>, s: seq<int>, n: int)
    requires Chain(next, s) && n !in s && 0 <= n
    ensures Chain(next[n := At(s, 0)], [n] + s)
  {
    var t := [n] + s;
    var next' := next[n := At(s, 0)];
    forall i | 0 <= i < |t|
      ensures 0 <= t[i] && t[i] in next' && next'[t[i]] == At(t, i + 1)
    {
      if i > 0 {
        assert s[i - 1] in s;
      }
    }
  }

  lemma ChainPop(next: map<int, int>, s: seq<int>)
    requires Chain(next, s) && s != []
    ensures s[0] in next && next[s[0]] == At(s[1..], 0) && Chain(next, s[1..]) && s[0] !in s[1..]
  {
  }

  /** Lists of events whose nodes were not written stay right. */
  lemma EventFrame(ns: Nodes, ns': Nodes, e: int)
    requires e in ns.subs && EventRight(ns, e) && e in ns'.subs && ns'.subs[e] == ns.subs[e]
    requires e in ns'.heads && e in ns.heads && ns'.heads[e] == ns.heads[e]
    requires forall n | n in ns.subs[e] ::
               && (n in ns.next ==> n in ns'.next && ns'.next[n] == ns.next[n])
               && (n in ns.prev ==> n in ns'.prev && ns'.prev[n] == ns.prev[n])
    requires forall n :: (n in ns'.home && ns'.home[n] == e) <==> (n in ns.home && ns.home[n] == e)
    ensures EventRight(ns', e)
  {
    Frame(ns.next, ns.prev, ns'.next, ns'.prev, ns.subs[e]);
  }

  class Subscriptions {
    var next: map<int, int>
    var prev: map<int, int>
    /** subscribed_thread */
    var thread: map<int, int>
    /** subscriber_pool, and the `subscribers` field of every event */
    var pool: int
    var heads: map<int, int>
    /** The next address that kcalloc returns. */
    var brk: int
    ghost var free: seq<int>
    ghost var subs: map<int, seq<int>>
    ghost var home: map<int, int>
    /** The subscribed threads of every event, latest first. */
    ghost var threads: map<int, seq<int>>

    ghost function Ns(): (ns: Nodes)
      reads this
    {
      Nodes(next, prev, thread, pool, heads, free, subs, home)
    }

    ghost predicate Kept()
      reads this
    {
      Right(Ns()) && 0 <= brk && Below(home, brk)
    }

    /** Between operations no node is in hand: pool and lists have them all. */
    ghost predicate Valid()
      reads this
    {
      Kept() && InHand(home, NULL) && Named(thread, subs, threads)
    }

    constructor (base: nat)
      ensures Valid() && threads == map[] && home == map[]
    {
      next, prev, thread, pool, heads, brk := map[], map[], map[], NULL, map[], base;
      free, subs, home, threads := [], map[], map[], map[];
    }

    /** An event without subscribers, new or used before. */
    method NewEvent(e: int)
      requires Valid() && 0 <= e && (e in threads ==> threads[e] == [])
      modifies this`heads, this`subs, this`threads
      ensures Valid() && threads == old(threads)[e := []]
    {
      hide Right, Named;
      ghost var ns := Ns();
      SubsOf(thread, subs, threads);
      if e in threads {
        ListOf(ns, e);
      }
      NamedNew(thread, subs, threads, e);
      heads := heads[e := NULL];
      subs := subs[e := []];
      threads := threads[e := []];
      if e in ns.subs {
        assert heads == ns.heads && subs == ns.subs;
      } else {
        EventAdded(ns, Ns(), e);
      }
    }

    /** The refill loop of _subscriber_pool_alloc. */
    method Refill()
      requires Kept() && free == []
      modifies this`next, this`prev, this`thread, this`pool, this`brk, this`free, this`home
      ensures Kept() && |free| == REFILL
      ensures SameNodes(old(home), old(thread), home, thread, NULL)
      ensures forall n | n in home && n !in old(home) :: home[n] == POOL
      ensures |home| == |old(home)| + REFILL
    {
      hide Right;
      KeysAgree(Ns());
      var i := 0;
      while i < REFILL
        invariant 0 <= i <= REFILL && Kept() && |free| == i
        invariant SameNodes(old(home), old(thread), home, thread, NULL)
        invariant forall n | n in home && n !in old(home) :: home[n] == POOL
        invariant |home| == |old(home)| + i
      {
        NewNode();
        i := i + 1;
      }
    }

    /** One kcalloc'ed node at the front of the pool. */
    method NewNode()
      requires Kept()
      modifies this`next, this`prev, this`thread, this`pool, this`brk, this`free, this`home
      ensures Kept() && |free| == |old(free)| + 1
      ensures exists n :: n !in old(home) && home == old(home)[n := POOL] && thread == old(thread)[n := NULL]
      ensures |home| == |old(home)| + 1
    {
      hide Right;
      var n := Calloc();
      PoolFree(n);
      assert home == old(home)[n := POOL];
    }

    method Calloc() returns (n: int)
      requires Kept()
      modifies this`next, this`prev, this`thread, this`brk, this`home
      ensures Kept() && n !in old(home) && home == old(home)[n := HAND] && thread == old(thread)[n := NULL]
      ensures |home| == |old(home)| + 1
    {
      hide Right;
      ghost var ns := Ns();
      KeysAgree(ns);
      n := brk;
      brk := brk + 1;
      next, prev, thread := next[n := NULL], prev[n := NULL], thread[n := NULL];
      home := home[n := HAND];
      OneMore(ns.home, n, HAND);
      Created(ns, Ns(), n);
    }

    /** _subscriber_pool_alloc. */
    method PoolAlloc() returns (n: int)
      requires Valid()
      modifies this`next, this`prev, this`thread, this`pool, this`brk, this`free, this`home
      ensures Kept() && n in home && home[n] == HAND && 0 <= n
      ensures InHand(home, n) && SameNodes(old(home), old(thread), home, thread, n)
      ensures n in old(home) ==> old(home)[n] == POOL
      ensures |home| == |old(home)| + (if old(free) == [] then REFILL else 0)
    {
      hide Right, Chain;
      HeadOfPool(Ns());
      KeysAgree(Ns());
      if pool == NULL {
        Refill();
        HeadOfPool(Ns());
      }
      n := TakeNode();
    }

    method TakeNode() returns (n: int)
      requires Kept() && free != []
      modifies this`pool, this`free, this`home
      ensures Kept() && n == old(free)[0] && n in old(home) && old(home)[n] == POOL && 0 <= n
      ensures home == old(home)[n := HAND] && |home| == |old(home)|
    {
      hide Right, Chain, IsList, Below;
      ghost var ns := Ns();
      n := pool;
      FirstFree(ns);
      Moved(home, brk, n, HAND);
      pool := next[pool];
      free := free[1..];
      home := home[n := HAND];
      Popped(ns, Ns(), n);
    }

    /** _subscriber_pool_free. */
    method PoolFree(n: int)
      requires Kept() && n in home && home[n] == HAND
      modifies this`next, this`pool, this`free, this`home
      ensures Kept() && home == old(home)[n := POOL] && |home| == |old(home)| && |free| == |old(free)| + 1
    {
      hide Right, Chain, IsList, Below;
      ghost var ns := Ns();
      KeysAgree(ns);
      Moved(home, brk, n, POOL);
      var o := pool;
      pool := n;
      next := next[n := o];
      free := [n] + free;
      home := home[n := POOL];
      Pushed(ns, Ns(), n);
    }

    /** _subscriber_list_link. */
    method Link(e: int, t: int)
      requires Valid() && e in threads
      modifies this
      ensures Valid() && threads == old(threads)[e := [t] + old(threads)[e]]
      ensures |home| == |old(home)| + (if old(free) == [] then REFILL else 0)
    {
      hide Right, Named, Below, InHand, SameNodes;
      ghost var ns := Ns();
      var n := PoolAlloc();
      NamedKept(ns, home, thread, subs, threads, n);
      LinkNode(n, e, t);
    }

    /** Link a node that is in hand. */
    method LinkNode(n: int, e: int, t: int)
      requires Kept() && n in home && home[n] == HAND && InHand(home, n) && Named(thread, subs, threads) && e in threads
      modifies this`thread, this`prev, this`next, this`heads, this`subs, this`home, this`threads
      ensures Valid() && threads == old(threads)[e := [t] + old(threads)[e]] && |home| == |old(home)|
    {
      hide Right, Named, Below, InHand;
      ghost var ns := Ns();
      SubsOf(thread, subs, threads);
      ListOf(ns, e);
      Moved(home, brk, n, e);
      PutDown(home, n, e);
      LinkWrites(n, e, t);
      subs := subs[e := [n] + subs[e]];
      home := home[n := e];
      Linked(ns, Ns(), n, e, t);
      NamedLinked(ns, threads, n, e, t);
      threads := threads[e := [t] + threads[e]];
    }

    method LinkWrites(n: int, e: int, t: int)
      requires e in heads
      modifies this`thread, this`prev, this`next, this`heads
      ensures thread == old(thread)[n := t] && next == old(next)[n := old(heads)[e]] && heads == old(heads)[e := n]
      ensures prev == if old(heads)[e] == NULL then old(prev)[n := NULL] else old(prev)[n := NULL][old(heads)[e] := n]
    {
      thread := thread[n := t];
      prev := prev[n := NULL];
      next := next[n := heads[e]];
      if heads[e] != NULL {
        prev := prev[heads[e] := n];
      }
      heads := heads[e := n];
    }

    /** The search of _subscriber_list_unlink: the first node of thread t, NULL if there is none. */
    method Search(e: int, t: int) returns (n: int, ghost k: int)
      requires Valid() && e in threads
      ensures n == NULL <==> t !in threads[e]
      ensures n != NULL ==> e in subs && 0 <= k < |subs[e]| == |threads[e]| && subs[e][k] == n && threads[e][k] == t
      ensures n != NULL ==> forall i | 0 <= i < k :: threads[e][i] != t
    {
      hide Right, Named, IsList;
      SubsOf(thread, subs, threads);
      ListOf(Ns(), e);
      n := heads[e];
      k := 0;
      while n != NULL
        invariant 0 <= k <= |subs[e]| && n == At(subs[e], k)
        invariant n != NULL ==> k < |subs[e]|
        invariant n == NULL ==> k == |subs[e]|
        invariant forall i | 0 <= i < k :: threads[e][i] != t
        decreases |subs[e]| - k
      {
        FieldsAt(next, prev, subs[e], k);
        assert subs[e][k] in thread && thread[subs[e][k]] == threads[e][k] by { NamedAt(thread, subs, threads, e, k); }
        if thread[n] == t {
          return;
        }
        n := next[n];
        k := k + 1;
      }
    }

    /** _subscriber_list_unlink.  It panics exactly if t is not subscribed. */
    method Unlink(e: int, t: int) returns (panics: bool)
      requires Valid() && e in threads
      modifies this
      ensures Valid() && (panics <==> t !in old(threads)[e]) && |home| == |old(home)|
      ensures panics ==> threads == old(threads)
      ensures !panics ==> threads == old(threads)[e := Minus(old(threads)[e], t)]
    {
      hide Right, Named, IsList, Below, InHand;
      var curr, k := Search(e, t);
      if curr == NULL {
        return true;
      }
      UnlinkNode(curr, e, t, k);
      PutDown(home, curr, POOL);
      PoolFree(curr);
      panics := false;
    }

    /** Take a node off its list. */
    method UnlinkNode(curr: int, e: int, t: int, ghost k: int)
      requires Valid() && e in threads && e in subs && 0 <= k < |subs[e]| == |threads[e]|
      requires subs[e][k] == curr && threads[e][k] == t && forall i | 0 <= i < k :: threads[e][i] != t
      modifies this`prev, this`next, this`heads, this`subs, this`home, this`threads
      ensures Kept() && curr in home && home[curr] == HAND && InHand(home, curr) && Named(thread, subs, threads)
      ensures threads == old(threads)[e := Minus(old(threads)[e], t)] && |home| == |old(home)|
    {
      hide Right, Named, IsList, Below, InHand, Without, NextWithout, PrevWithout, Minus;
      ghost var ns := Ns();
      ListOf(ns, e);
      OnEvent(ns, e, curr);
      Moved(home, brk, curr, HAND);
      NoNullNode(ns);
      TakenUp(home, curr);
      UnlinkWrites(curr, e, k);
      subs := subs[e := Without(subs[e], k)];
      home := home[curr := HAND];
      Unlinked(ns, Ns(), e, k);
      NamedUnlinked(thread, ns.subs, threads, e, k, t);
      threads := threads[e := Minus(threads[e], t)];
    }

    method UnlinkWrites(curr: int, e: int, ghost k: int)
      requires e in heads && e in subs && 0 <= k < |subs[e]| && subs[e][k] == curr
      requires IsList(next, prev, subs[e]) && heads[e] == At(subs[e], 0)
      modifies this`next, this`prev, this`heads
      ensures next == NextWithout(old(next), subs[e], k) && prev == PrevWithout(old(prev), subs[e], k)
      ensures heads == old(heads)[e := At(Without(subs[e], k), 0)]
    {
      hide IsList;
      FieldsAt(next, prev, subs[e], k);
      if heads[e] == curr {
        heads := heads[e := next[curr]];
      }
      if prev[curr] != NULL {
        next := next[prev[curr] := next[curr]];
      }
      if next[curr] != NULL {
        prev := prev[next[curr] := prev[curr]];
      }
      assert heads == old(heads)[e := At(Without(subs[e], k), 0)];
    }
  }

  lemma SubsOf(thread: map<int, int>, subs: map<int, seq<int>>, threads: map<int, seq<int>>)
    requires Named(thread, subs, threads)
    ensures subs.Keys == threads.Keys && forall e | e in subs :: |subs[e]| == |threads[e]|
  {
    forall e | e in subs
      ensures |subs[e]| == |threads[e]|
    {
      assert ThreadsAre(thread, subs[e], threads[e]);
    }
  }

  lemma NamedNew(thread: map<int, int>, subs: map<int, seq<int>>, threads: map<int, seq<int>>, e: int)
    requires Named(thread, subs, threads)
    ensures Named(thread, subs[e := []], threads[e := []])
  {
    var subs', threads' := subs[e := []], threads[e := []];
    forall d | d in subs'
      ensures ThreadsAre(thread, subs'[d], threads'[d])
    {
      if d != e {
        assert ThreadsAre(thread, subs[d], threads[d]);
      }
    }
  }

  lemma NamedAt(thread: map<int, int>, subs: map<int, seq<int>>, threads: map<int, seq<int>>, e: int, k: int)
    requires Named(thread, subs, threads) && e in subs && 0 <= k < |subs[e]|
    ensures |threads[e]| == |subs[e]| && subs[e][k] in thread && thread[subs[e][k]] == threads[e][k]
  {
    assert ThreadsAre(thread, subs[e], threads[e]);
  }

  lemma ListOf(ns: Nodes, e: int)
    requires Right(ns) && e in ns.subs
    ensures 0 <= e && e in ns.heads && IsList(ns.next, ns.prev, ns.subs[e]) && ns.heads[e] == At(ns.subs[e], 0)
    ensures ns.heads[e] == NULL <==> ns.subs[e] == []
  {
    assert EventRight(ns, e);
    NonNull(ns.next, ns.prev, ns.subs[e]);
  }

  lemma OnEvent(ns: Nodes, e: int, n: int)
    requires Right(ns) && e in ns.subs && n in ns.subs[e]
    ensures n in ns.home && ns.home[n] == e && 0 <= e
  {
    assert EventRight(ns, e);
  }

  lemma EventAdded(ns: Nodes, ns': Nodes, e: int)
    requires Right(ns) && 0 <= e && e !in ns.subs
    requires ns' == ns.(heads := ns.heads[e := NULL], subs := ns.subs[e := []])
    ensures Right(ns')
  {
    hide Chain, IsList, EventRight;
    forall d | d in ns'.subs
      ensures EventRight(ns', d)
    {
      if d == e {
        EmptyEvent(ns, ns', e);
      } else {
        assert EventRight(ns, d);
        SameEvent(ns, ns', d);
      }
    }
  }

  lemma EmptyEvent(ns: Nodes, ns': Nodes, e: int)
    requires Right(ns) && 0 <= e && e !in ns.subs
    requires ns' == ns.(heads := ns.heads[e := NULL], subs := ns.subs[e := []])
    ensures EventRight(ns', e)
  {
  }

  lemma SameEvent(ns: Nodes, ns': Nodes, d: int)
    requires d in ns.subs && EventRight(ns, d) && d in ns'.subs && ns'.subs[d] == ns.subs[d]
    requires d in ns'.heads && d in ns.heads && ns'.heads[d] == ns.heads[d]
    requires ns'.next == ns.next && ns'.prev == ns.prev && ns'.home == ns.home
    ensures EventRight(ns', d)
  {
    hide IsList;
    EventFrame(ns, ns', d);
  }

  /** Taking a node from the pool (and refilling it) does not rename listed nodes. */
  lemma NamedKept(ns: Nodes, home': map<int, int>, thread': map<int, int>, subs: map<int, seq<int>>,
                  threads: map<int, seq<int>>, n: int)
    requires Right(ns) && ns.subs == subs && Named(ns.thread, subs, threads)
    requires n in ns.home ==> ns.home[n] == POOL
    requires SameNodes(ns.home, ns.thread, home', thread', n)
    ensures Named(thread', subs, threads)
  {
    hide IsList, Chain;
    forall e | e in subs
      ensures ThreadsAre(thread', subs[e], threads[e])
    {
      assert ThreadsAre(ns.thread, subs[e], threads[e]);
      forall i | 0 <= i < |subs[e]|
        ensures subs[e][i] in thread' && subs[e][i] in ns.thread && thread'[subs[e][i]] == ns.thread[subs[e][i]]
      {
        var m := subs[e][i];
        OnEvent(ns, e, m);
        assert m in ns.home && m != n;
      }
    }
  }

  /** A node in hand joins the list of e. */
  lemma Linked(ns: Nodes, ns': Nodes, n: int, e: int, t: int)
    requires Right(ns) && n in ns.home && ns.home[n] == HAND && e in ns.subs && e in ns.heads
    requires ns' == ns.(thread := ns.thread[n := t], next := ns.next[n := ns.heads[e]], heads := ns.heads[e := n],
                        prev := if ns.heads[e] == NULL then ns.prev[n := NULL]
                                else ns.prev[n := NULL][ns.heads[e] := n],
                        subs := ns.subs[e := [n] + ns.subs[e]], home := ns.home[n := e])
    ensures Right(ns')
  {
    hide Chain, IsList, EventRight;
    ListOf(ns, e);
    var s := ns.subs[e];
    assert n !in s by { NotListed(ns, e, n); }
    assert s != [] ==> s[0] in ns.home && ns.home[s[0]] == e by { if s != [] { OnEvent(ns, e, s[0]); } }
    PushFront(ns.next, ns.prev, s, n);
    FreeKept(ns, ns', n, e);
    forall d | d in ns'.subs
      ensures EventRight(ns', d)
    {
      assert EventRight(ns, d);
      if d == e {
        LinkedHere(ns, ns', n, e);
      } else {
        LinkedElsewhere(ns, ns', n, e, d);
      }
    }
  }

  lemma NotListed(ns: Nodes, e: int, n: int)
    requires Right(ns) && e in ns.subs && n in ns.home && ns.home[n] < 0
    ensures n !in ns.subs[e]
  {
    assert EventRight(ns, e);
  }

  lemma LinkedHere(ns: Nodes, ns': Nodes, n: int, e: int)
    requires e in ns.subs && EventRight(ns, e) && e in ns'.subs && ns'.subs[e] == [n] + ns.subs[e]
    requires IsList(ns'.next, ns'.prev, [n] + ns.subs[e])
    requires ns'.heads == ns.heads[e := n] && ns'.home == ns.home[n := e]
    ensures EventRight(ns', e)
  {
    hide IsList;
    forall m
      ensures m in ns'.subs[e] <==> m in ns'.home && ns'.home[m] == e
    {
      assert m in ns.subs[e] <==> m in ns.home && ns.home[m] == e;
    }
  }

  lemma LinkedElsewhere(ns: Nodes, ns': Nodes, n: int, e: int, d: int)
    requires d in ns.subs && EventRight(ns, d) && d != e && n in ns.home && ns.home[n] < 0
    requires ns.heads.Keys == ns.subs.Keys && e in ns.heads && e in ns'.subs
    requires ns'.subs == ns.subs[e := ns'.subs[e]] && ns'.heads == ns.heads[e := n]
    requires ns'.home == ns.home[n := e] && ns'.next == ns.next[n := ns.heads[e]]
    requires ns'.prev == if ns.heads[e] == NULL then ns.prev[n := NULL] else ns.prev[n := NULL][ns.heads[e] := n]
    requires ns.heads[e] != NULL ==> ns.heads[e] in ns.home && ns.home[ns.heads[e]] == e
    ensures EventRight(ns', d)
  {
    hide IsList;
    EventFrame(ns, ns', d);
  }

  /** The pool does not notice what happens to a node that is not in it. */
  lemma FreeKept(ns: Nodes, ns': Nodes, n: int, place: int)
    requires Right(ns) && n in ns.home && ns.home[n] != POOL && place != POOL
    requires ns'.home == ns.home[n := place] && ns'.free == ns.free
    requires ns'.next.Keys == ns.next.Keys
    requires forall m | m in ns.home && m in ns.next && ns.home[m] == POOL :: m in ns'.next && ns'.next[m] == ns.next[m]
    ensures Chain(ns'.next, ns'.free) && forall m :: m in ns'.free <==> m in ns'.home && ns'.home[m] == POOL
  {
    hide Chain, EventRight;
    ChainFrame(ns.next, ns'.next, ns.free);
    forall m
      ensures m in ns'.free <==> m in ns'.home && ns'.home[m] == POOL
    {
      assert m in ns.free <==> m in ns.home && ns.home[m] == POOL;
    }
  }

  lemma NamedLinked(ns: Nodes, threads: map<int, seq<int>>, n: int, e: int, t: int)
    requires Right(ns) && Named(ns.thread, ns.subs, threads) && n in ns.home
    requires ns.home[n] < 0 && e in ns.subs && e in threads
    ensures Named(ns.thread[n := t], ns.subs[e := [n] + ns.subs[e]], threads[e := [t] + threads[e]])
  {
    hide Right;
    var subs' := ns.subs[e := [n] + ns.subs[e]];
    var threads' := threads[e := [t] + threads[e]];
    forall d | d in subs'
      ensures ThreadsAre(ns.thread[n := t], subs'[d], threads'[d])
    {
      assert ThreadsAre(ns.thread, ns.subs[d], threads[d]);
      NotListed(ns, d, n);
    }
  }

  /** The node k of the list of e is taken in hand. */
  lemma Unlinked(ns: Nodes, ns': Nodes, e: int, k: int)
    requires Right(ns) && e in ns.subs && e in ns.heads && 0 <= k < |ns.subs[e]|
    requires var s := ns.subs[e];
             ns' == ns.(next := NextWithout(ns.next, s, k), prev := PrevWithout(ns.prev, s, k),
                        heads := ns.heads[e := At(Without(s, k), 0)], subs := ns.subs[e := Without(s, k)],
                        home := ns.home[s[k] := HAND])
    ensures Right(ns')
  {
    hide Chain, IsList, EventRight, Without;
    var s := ns.subs[e];
    ListOf(ns, e);
    Links.Unlink(ns.next, ns.prev, s, k);
    FieldsAt(ns.next, ns.prev, s, k);
    Neighbours(ns, e, k);
    OnEvent(ns, e, s[k]);
    FreeKept(ns, ns', s[k], HAND);
    forall d | d in ns'.subs
      ensures EventRight(ns', d)
    {
      assert EventRight(ns, d);
      if d == e {
        UnlinkedHere(ns, ns', e, k);
      } else {
        UnlinkedElsewhere(ns, ns', e, k, d);
      }
    }
  }

  lemma Neighbours(ns: Nodes, e: int, k: int)
    requires Right(ns) && e in ns.subs && 0 <= k < |ns.subs[e]|
    ensures forall m | m in ns.subs[e] :: m in ns.home && ns.home[m] == e && m in ns.next && m in ns.prev
  {
    hide IsList;
    assert EventRight(ns, e);
  }

  lemma UnlinkedHere(ns: Nodes, ns': Nodes, e: int, k: int)
    requires e in ns.subs && EventRight(ns, e) && 0 <= k < |ns.subs[e]|
    requires e in ns'.subs && ns'.subs[e] == Without(ns.subs[e], k)
    requires IsList(ns'.next, ns'.prev, Without(ns.subs[e], k))
    requires e in ns'.heads && ns'.heads[e] == At(Without(ns.subs[e], k), 0)
    requires ns'.home == ns.home[ns.subs[e][k] := HAND]
    ensures EventRight(ns', e)
  {
    hide IsList, Without;
    ListDistinct(ns.next, ns.prev, ns.subs[e]);
    forall m
      ensures m in ns'.subs[e] <==> m in ns'.home && ns'.home[m] == e
    {
      assert m in ns.subs[e] <==> m in ns.home && ns.home[m] == e;
    }
  }

  lemma UnlinkedElsewhere(ns: Nodes, ns': Nodes, e: int, k: int, d: int)
    requires d in ns.subs && EventRight(ns, d) && d != e && e in ns.subs && 0 <= k < |ns.subs[e]|
    requires forall m | m in ns.subs[e] :: m in ns.home && ns.home[m] == e
    requires d in ns'.subs && ns'.subs[d] == ns.subs[d] && d in ns.heads
    requires d in ns'.heads && ns'.heads[d] == ns.heads[d]
    requires ns'.home == ns.home[ns.subs[e][k] := HAND]
    requires ns'.next == NextWithout(ns.next, ns.subs[e], k) && ns'.prev == PrevWithout(ns.prev, ns.subs[e], k)
    ensures EventRight(ns', d)
  {
    hide IsList;
    assert ns.subs[e][k] in ns.subs[e];
    assert k > 0 ==> ns.subs[e][k - 1] in ns.subs[e];
    assert k + 1 < |ns.subs[e]| ==> ns.subs[e][k + 1] in ns.subs[e];
    EventFrame(ns, ns', d);
  }

  lemma NamedUnlinked(thread: map<int, int>, subs: map<int, seq<int>>, threads: map<int, seq<int>>, e: int, k: int,
                      t: int)
    requires Named(thread, subs, threads) && e in subs && 0 <= k < |subs[e]| == |threads[e]| && threads[e][k] == t
    requires forall i | 0 <= i < k :: threads[e][i] != t
    ensures Named(thread, subs[e := Without(subs[e], k)], threads[e := Minus(threads[e], t)])
  {
    MinusAt(threads[e], t, k);
    var subs' := subs[e := Without(subs[e], k)];
    var threads' := threads[e := Minus(threads[e], t)];
    forall d | d in subs'
      ensures ThreadsAre(thread, subs'[d], threads'[d])
    {
      assert ThreadsAre(thread, subs[d], threads[d]);
    }
  }

  lemma SameSize(m: map<int, int>, m': map<int, int>)
    requires m'.Keys == m.Keys
    ensures |m'| == |m|
  {
    assert |m| == |m.Keys| && |m'| == |m'.Keys|;
  }

  lemma HeadOfPool(ns: Nodes)
    requires Right(ns)
    ensures ns.pool == NULL <==> ns.free == []
  {
  }

  lemma KeysAgree(ns: Nodes)
    requires Right(ns)
    ensures ns.next.Keys == ns.prev.Keys == ns.thread.Keys == ns.home.Keys && ns.pool == At(ns.free, 0)
    ensures forall n | n in ns.home :: 0 <= n
  {
  }

  lemma NoNullNode(ns: Nodes)
    requires Right(ns)
    ensures NULL !in ns.home
  {
  }

  lemma FirstFree(ns: Nodes)
    requires Right(ns) && ns.free != []
    ensures ns.pool == ns.free[0] && ns.pool in ns.next && ns.next[ns.pool] == At(ns.free[1..], 0)
    ensures ns.pool in ns.home && ns.home[ns.pool] == POOL && 0 <= ns.pool
  {
    assert ns.free[0] in ns.free;
  }

  /** The list of an event does not notice changes at a node that is not on it. */
  lemma EventAway(ns: Nodes, ns': Nodes, e: int, n: int, place: int)
    requires e in ns.subs && EventRight(ns, e) && ns'.subs == ns.subs && ns'.heads == ns.heads
    requires (n in ns.home ==> ns.home[n] < 0) && place < 0 && ns'.home == ns.home[n := place]
    requires forall m | m in ns.next && m != n :: m in ns'.next && ns'.next[m] == ns.next[m]
    requires forall m | m in ns.prev && m != n :: m in ns'.prev && ns'.prev[m] == ns.prev[m]
    ensures EventRight(ns', e)
  {
    hide IsList;
    EventFrame(ns, ns', e);
  }

  lemma OneMore(m: map<int, int>, n: int, v: int)
    requires n !in m
    ensures |m[n := v]| == |m| + 1
  {
    var m' := m[n := v];
    assert m'.Keys == m.Keys + {n};
    assert |m| == |m.Keys| && |m'| == |m'.Keys|;
  }

  /** A new node, in no list. */
  lemma Created(ns: Nodes, ns': Nodes, n: int)
    requires Right(ns) && 0 <= n && n !in ns.home
    requires ns' == ns.(next := ns.next[n := NULL], prev := ns.prev[n := NULL], thread := ns.thread[n := NULL],
                        home := ns.home[n := HAND])
    ensures Right(ns')
  {
    hide Chain, IsList, EventRight;
    assert ns'.next.Keys == ns.next.Keys + {n} && ns'.prev.Keys == ns.prev.Keys + {n};
    assert ns'.thread.Keys == ns.thread.Keys + {n} && ns'.home.Keys == ns.home.Keys + {n};
    ChainFrame(ns.next, ns'.next, ns.free);
    forall e | e in ns'.subs
      ensures EventRight(ns', e)
    {
      assert EventRight(ns, e);
      EventAway(ns, ns', e, n, HAND);
    }
  }

  /** A node that was in no list joins the pool. */
  lemma Pushed(ns: Nodes, ns': Nodes, n: int)
    requires Right(ns) && n in ns.home && ns.home[n] == HAND
    requires ns' == ns.(next := ns.next[n := At(ns.free, 0)], pool := n, free := [n] + ns.free,
                        home := ns.home[n := POOL])
    ensures Right(ns')
  {
    hide Chain, IsList, EventRight;
    assert n !in ns.free;
    ChainPush(ns.next, ns.free, n);
    forall e | e in ns'.subs
      ensures EventRight(ns', e)
    {
      assert EventRight(ns, e);
      EventAway(ns, ns', e, n, POOL);
    }
    forall m
      ensures m in ns'.free <==> m in ns'.home && ns'.home[m] == POOL
    {
      assert m in ns.free <==> m in ns.home && ns.home[m] == POOL;
    }
  }

  /** The first node of the pool is taken in hand. */
  lemma Popped(ns: Nodes, ns': Nodes, n: int)
    requires Right(ns) && ns.free != [] && n == ns.free[0]
    requires ns' == ns.(pool := At(ns.free[1..], 0), free := ns.free[1..], home := ns.home[n := HAND])
    ensures Right(ns')
  {
    hide Chain, IsList, EventRight;
    ChainPop(ns.next, ns.free);
    assert n in ns.free;
    assert ns.free == [n] + ns.free[1..];
    forall e | e in ns'.subs
      ensures EventRight(ns', e)
    {
      assert EventRight(ns, e);
      EventAway(ns, ns', e, n, HAND);
    }
    forall m
      ensures m in ns'.free <==> m in ns'.home && ns'.home[m] == POOL
    {
      assert m in ns.free <==> m in ns.home && ns.home[m] == POOL;
    }
  }
}
