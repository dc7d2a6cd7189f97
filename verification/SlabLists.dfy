/**
 * The three lists of a slab cache and its counters, while slabs move between them
 * (kernel/src/mm/slab.c).
 */
module SlabLists {
  import opened Links
  import opened Seqs
  import opened SlabModel

  lemma {:induction false} MinusIs(s: seq<nat>, p: nat)
    requires Distinct(s)
    ensures var t := Minus(s, p);
            && Distinct(t) && |t| == (if p in s then |s| - 1 else |s|)
            && (forall q :: q in t <==> q in s && q != p)
    decreases |s|
  {
    if s != [] {
      var u := s[1..];
      assert s == [s[0]] + u;
      assert s[0] !in u;
      if s[0] != p {
        MinusIs(u, p);
        var t := [s[0]] + Minus(u, p);
        forall q
          ensures q in t <==> q in s && q != p
        {
        }
      }
    }
  }

  lemma MinusShorter(s: seq<nat>, p: nat)
    ensures |Minus(s, p)| <= |s|
  {
  }

  /** A list after the status of slab p has changed. */
  function Relisted(s: seq<nat>, p: nat, was: bool, now: bool): (t: seq<nat>) {
    if was == now then s else if was then Minus(s, p) else [p] + s
  }

  lemma RelistedIs(s: seq<nat>, p: nat, now: bool)
    requires Distinct(s)
    ensures var t := Relisted(s, p, p in s, now);
            && Distinct(t) && (p in t <==> now) && (forall q | q != p :: q in t <==> q in s)
            && |t| == |s| + (if now then 1 else 0) - (if p in s then 1 else 0)
  {
    MinusIs(s, p);
    if now && p !in s {
      var t := [p] + s;
      forall q | q != p
        ensures q in t <==> q in s
      {
      }
      assert t[0] == p;
    }
  }

  /** Only slab p changes its record or comes or goes. */
  ghost predicate OnlySlab(h: Heap, h': Heap, p: nat) {
    && (forall q | q != p :: q in h'.active <==> q in h.active)
    && (forall q | q != p && q in h.slabs :: q in h'.slabs && h'.slabs[q] == h.slabs[q])
    && (forall q | q != p && q in h'.slabs :: q in h.slabs)
  }

  lemma ListStep(h: Heap, h': Heap, i: CacheIndex, k: Kind, s: seq<nat>, p: nat)
    requires ListRight(h, i, k, s) && OnlySlab(h, h', p)
    ensures var t := Relisted(s, p, OnList(h, i, k, p), OnList(h', i, k, p));
            && ListRight(h', i, k, t)
            && |t| == |s| + (if OnList(h', i, k, p) then 1 else 0) - (if OnList(h, i, k, p) then 1 else 0)
  {
    hide KindOf;
    assert p in s <==> OnList(h, i, k, p);
    RelistedIs(s, p, OnList(h', i, k, p));
    var t := Relisted(s, p, OnList(h, i, k, p), OnList(h', i, k, p));
    forall q: nat
      ensures q in t <==> OnList(h', i, k, q)
    {
      if q != p {
        assert q in s <==> OnList(h, i, k, q);
      }
    }
  }

  /** The lists of c' are those of c, refiled; the counters follow. */
  ghost predicate Refiled(h: Heap, h': Heap, i: CacheIndex, p: nat, c: Cache, c': Cache) {
    forall k: Kind ::
      && c'.List(k) == Relisted(c.List(k), p, OnList(h, i, k, p), OnList(h', i, k, p))
      && c'.Count(k) == c.Count(k) + (if OnList(h', i, k, p) then 1 else 0) - (if OnList(h, i, k, p) then 1 else 0)
  }

  lemma RefiledLists(h: Heap, h': Heap, i: CacheIndex, p: nat, c: Cache, c': Cache, k: Kind)
    requires ListRight(h, i, k, c.List(k)) && c.Count(k) == |c.List(k)|
    requires OnlySlab(h, h', p) && Refiled(h, h', i, p, c, c')
    ensures ListRight(h', i, k, c'.List(k)) && c'.Count(k) == |c'.List(k)|
    ensures |c'.List(k)| == |c.List(k)| + (if OnList(h', i, k, p) then 1 else 0) - (if OnList(h, i, k, p) then 1 else 0)
  {
    hide OnList, ListRight;
    ListStep(h, h', i, k, c.List(k), p);
  }

  /** How many slabs of the cache there are. */
  function Slabs(c: Cache): (n: nat) {
    |c.full| + |c.partial| + |c.empty|
  }

  /** A slab is on one list at most. */
  lemma RefiledSlabs(h: Heap, h': Heap, i: CacheIndex, p: nat, c: Cache, c': Cache)
    requires forall k: Kind :: ListRight(h, i, k, c.List(k)) && c.Count(k) == |c.List(k)|
    requires OnlySlab(h, h', p) && Refiled(h, h', i, p, c, c')
    ensures Slabs(c') == Slabs(c) + (if p in h'.active && p in h'.slabs && h'.slabs[p].cache == i then 1 else 0)
                                  - (if p in h.active && p in h.slabs && h.slabs[p].cache == i then 1 else 0)
  {
    hide ListRight, Relisted, OnlySlab, Refiled;
    RefiledLists(h, h', i, p, c, c', FullKind);
    RefiledLists(h, h', i, p, c, c', PartialKind);
    RefiledLists(h, h', i, p, c, c', EmptyKind);
  }

  /** The cache of slab p, after the step. */
  lemma CacheStep(h: Heap, h': Heap, i: CacheIndex, p: nat)
    requires |h.caches| == SIZES && |h'.caches| == SIZES && CacheRight(h, i) && OnlySlab(h, h', p)
    requires p in h.active ==> p in h.slabs && h.slabs[p].cache == i
    requires p in h'.active ==> p in h'.slabs && h'.slabs[p].cache == i
    requires Refiled(h, h', i, p, h.caches[i], h'.caches[i]) && |h'.caches[i].full| <= i + 1
    requires h'.caches[i].totalObjs == h.caches[i].totalObjs + (if p in h'.active then Total(i) else 0)
                                                             - (if p in h.active then Total(i) else 0)
    requires h'.caches[i].totalAllocated == |ObjectsOf(h'.objects, i)|
    ensures CacheRight(h', i)
  {
    hide ListRight, Relisted, OnlySlab, Refiled, Total, OnList;
    var c, c' := h.caches[i], h'.caches[i];
    forall k: Kind
      ensures ListRight(h', i, k, c'.List(k)) && c'.Count(k) == |c'.List(k)|
    {
      RefiledLists(h, h', i, p, c, c', k);
    }
    RefiledSlabs(h, h', i, p, c, c');
    Multiples(Total(i), Slabs(c), Slabs(c'));
  }

  lemma Multiples(t: nat, m: nat, n: nat)
    ensures n == m ==> t * n == t * m
    ensures n == m + 1 ==> t * n == t * m + t
    ensures m == n + 1 ==> t * n == t * m - t
  {
  }

  /** All other caches. */
  lemma OtherCache(h: Heap, h': Heap, i: CacheIndex, p: nat, j: CacheIndex)
    requires |h.caches| == SIZES && |h'.caches| == SIZES && CacheRight(h, j) && OnlySlab(h, h', p) && j != i
    requires p in h.active ==> p in h.slabs && h.slabs[p].cache == i
    requires p in h'.active ==> p in h'.slabs && h'.slabs[p].cache == i
    requires h'.caches[j] == h.caches[j] && ObjectsOf(h'.objects, j) == ObjectsOf(h.objects, j)
    ensures CacheRight(h', j)
  {
    hide Total, KindOf;
    var c := h.caches[j];
    forall k: Kind
      ensures ListRight(h', j, k, c.List(k))
    {
      assert ListRight(h, j, k, c.List(k));
      ListStep(h, h', j, k, c.List(k), p);
    }
  }

  /** Live objects counted per cache. */
  lemma ObjectAdded(objects: map<nat, nat>, a: nat, i: CacheIndex)
    requires a !in objects
    ensures |ObjectsOf(objects[a := i], i)| == |ObjectsOf(objects, i)| + 1
    ensures forall j: CacheIndex | j != i :: ObjectsOf(objects[a := i], j) == ObjectsOf(objects, j)
  {
    assert ObjectsOf(objects[a := i], i) == ObjectsOf(objects, i) + {a};
  }

  lemma ObjectRemoved(objects: map<nat, nat>, a: nat, i: CacheIndex)
    requires a in objects && objects[a] == i
    ensures |ObjectsOf(objects - {a}, i)| == |ObjectsOf(objects, i)| - 1
    ensures forall j: CacheIndex | j != i :: ObjectsOf(objects - {a}, j) == ObjectsOf(objects, j)
  {
    assert ObjectsOf(objects, i) == ObjectsOf(objects - {a}, i) + {a};
  }
}
