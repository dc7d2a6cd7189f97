/**
 * The kernel heap of kernel/src/mm/slab.c, on top of the buddy allocator: kmalloc and kfree
 * over ten caches of slabs, and page blocks for large requests.
 */
module Slab {
  import opened Arith
  import opened Options
  import opened Bits
  import opened BuddyModel
  import opened BuddyRun
  import Buddy
  import opened Seqs
  import opened SlabModel
  import opened SlabLists
  import opened SlabSteps

  // ------------------------------------------------------------------ size classes

  /** How often the loop of _size2block runs. */
  function Halvings(x: nat): (n: nat) {
    if x / 2 == 0 then 0 else 1 + Halvings(x / 2)
  }

  lemma {:induction false} HalvingsIs(x: nat)
    ensures x < 2 * Pow2(Halvings(x)) && (Halvings(x) > 0 ==> Pow2(Halvings(x)) <= x)
  {
    if x / 2 != 0 {
      HalvingsIs(x / 2);
    }
  }

  /** _size2block: the least block class that holds `size` bytes; it is the cache of that size
      for every request that the caches serve. */
  method SizeToBlock(size: nat) returns (order: nat)
    requires size > 0
    ensures size <= 16 * Pow2(order) && (order > 0 ==> size > 8 * Pow2(order))
    ensures size <= 8192 ==> IsClass(size, order)
  {
    hide ObjSize;
    order := 0;
    var s: nat := (size - 1) / 8;
    HalvingsIs(s);
    ghost var s0 := s;
    while s / 2 != 0
      invariant order + Halvings(s) == Halvings(s0)
      decreases s
    {
      s := s / 2;
      order := order + 1;
    }
    if size <= 8192 {
      BlockClass(order, size);
    }
  }

  /** i is the cache with the smallest objects that hold `size` bytes. */
  predicate IsClass(size: nat, i: nat) {
    i < SIZES && size <= ObjSize(i) && (i > 0 ==> size > ObjSize(i - 1))
  }

  lemma ClassBelow(size: nat, i: nat)
    requires IsClass(size, i)
    ensures i < SIZES && forall j: CacheIndex | IsClass(size, j) :: j == i
  {
    ObjSizes();
    forall j: CacheIndex | IsClass(size, j)
      ensures j == i
    {
      if j < i {
        Pow2Monotone(j, i - 1);
      } else if i < j {
        Pow2Monotone(i, j - 1);
      }
    }
  }

  lemma ObjSizes()
    ensures forall i: CacheIndex :: ObjSize(i) == 16 * Pow2(i)
  {
    SmallSizes();
    assert Pow2(5) == 32 && Pow2(6) == 64 && Pow2(7) == 128 && Pow2(8) == 256 && Pow2(9) == 512;
  }

  lemma BlockClass(order: nat, size: nat)
    requires 0 < size <= 8192 && size <= 16 * Pow2(order) && (order > 0 ==> size > 8 * Pow2(order))
    ensures IsClass(size, order)
  {
    ObjSizes();
    assert Pow2(10) == 2 * Pow2(9);
    if order >= SIZES {
      Pow2Monotone(10, order);
    }
  }

  /** psize2order: halve, rounding down, until a page is enough. */
  function PageOrder(size: nat): (o: nat)
    decreases size
  {
    if size > PAGE then 1 + PageOrder(size / 2) else 0
  }

  method SizeToPageOrder(size: nat) returns (order: nat)
    ensures order == PageOrder(size)
  {
    order := 0;
    var s: nat := size;
    while s > PAGE
      invariant order + PageOrder(s) == PageOrder(size)
      decreases s
    {
      s := s / 2;
      order := order + 1;
    }
  }

  lemma {:induction false} PageOrderIs(size: nat)
    ensures var o := PageOrder(size); size < (PAGE + 1) * Pow2(o) && (o > 0 ==> size >= (PAGE + 1) * Pow2(o - 1))
    decreases size
  {
    if size > PAGE {
      PageOrderIs(size / 2);
    }
  }

  /** A block of the computed order is too small exactly for sizes a little above a power-of-two
      number of pages; otherwise it is the smallest that is large enough. */
  lemma PageOrderFits(size: nat)
    ensures var o := PageOrder(size);
            && (PAGE * Pow2(o) < size <==> exists k: nat :: JustAbove(size, k))
            && (size <= PAGE * Pow2(o) && o > 0 ==> size > PAGE * Pow2(o - 1))
  {
    var o := PageOrder(size);
    PageOrderIs(size);
    if PAGE * Pow2(o) < size {
      assert JustAbove(size, o);
    }
    forall k: nat | JustAbove(size, k)
      ensures k == o
    {
      if k < o {
        Pow2Monotone(k, o - 1);
      } else if o < k {
        Pow2Monotone(o + 1, k);
      }
    }
  }

  predicate JustAbove(size: nat, k: nat) {
    PAGE * Pow2(k) < size < (PAGE + 1) * Pow2(k)
  }

  /** The smallest such request that goes to the page allocator gets a block that is too small. */
  lemma PageBlockTooSmall()
    ensures PageOrder(8193) == 1 && PAGE * Pow2(1) < 8193
  {
    assert PageOrder(4096) == 0;
  }

  // ------------------------------------------------------------------ the heap

  /** What kmalloc returns; NoMemory stands for a request that the page allocator refuses. */
  datatype Grant = Null | At(addr: nat) | NoMemory

  /** The page allocator has no block of that order left. */
  ghost predicate Exhausted(l: Lists, order: nat)
    requires |l| == HIGH + 1
  {
    order > HIGH || forall q: Order | order <= q :: l[q] == []
  }

  /** Some aligned run of 2^order pages is free. */
  ghost predicate RunFree(l: Lists, order: nat)
    requires |l| == HIGH + 1
  {
    order <= HIGH && exists a: nat :: Aligned(a, order) && WhollyFree(l, order, a)
  }

  lemma ExhaustedIs(st: State, n: nat, given: Lists, order: nat)
    requires Sound(st, n, given) && |st.lists| == HIGH + 1 && NoPair(st.lists)
    ensures Exhausted(st.lists, order) <==> !RunFree(st.lists, order)
  {
    if order <= HIGH {
      SearchIsComplete(st.lists, n, order);
    }
  }

  lemma ExhaustedFirst(l: Lists, order: nat)
    requires |l| == HIGH + 1
    ensures Exhausted(l, order) <==> order > HIGH || FirstNonEmpty(l, order) > HIGH
  {
  }

  /** Neither the cache nor the page allocator has an object of that class. */
  ghost predicate ClassExhausted(caches: seq<Cache>, l: Lists, i: CacheIndex)
    requires |caches| == SIZES && |l| == HIGH + 1
  {
    caches[i].partial == [] && caches[i].full == [] && Exhausted(l, SlabOrder(i))
  }

  /** There is no memory for a request of that size. */
  ghost predicate Refused(caches: seq<Cache>, l: Lists, size: nat)
    requires |caches| == SIZES && |l| == HIGH + 1
  {
    if size > 8192 then Exhausted(l, PageOrder(size))
    else exists i: CacheIndex :: IsClass(size, i) && ClassExhausted(caches, l, i)
  }

  /** The object at a was taken from the first partial slab, else from the first wholly free one,
      else from a new one; only then the page allocator was asked, for one block. */
  ghost predicate ServedBy(c: Cache, out: set<Block>, h': Heap, out': set<Block>, hhdm: nat, i: CacheIndex, a: nat) {
    if c.partial != [] then IsSlot(h', hhdm, i, c.partial[0], a) && out' == out
    else if c.full != [] then IsSlot(h', hhdm, i, c.full[0], a) && out' == out
    else exists p :: && IsSlot(h', hhdm, i, p, a) && out' == out + {Block(SlabOrder(i), p)}
                     && FreshBlock(out, Block(SlabOrder(i), p))
  }

  class SlabHeap {
    /** hhdm->offset */
    const hhdm: nat
    const buddy: Buddy.FrameAllocator
    var caches: seq<Cache>
    var slabs: map<nat, Slab>
    var pages: seq<PageRec>
    /** The first word of every free object. */
    var words: map<nat, nat>
    ghost var active: set<nat>
    ghost var free: map<nat, seq<nat>>
    ghost var objects: map<nat, nat>
    /** The page blocks that are out, and the pages that the page allocator was given. */
    ghost var live: set<Block>
    ghost const given: Lists

    ghost function H(): (h: Heap)
      reads this
    {
      Heap(caches, slabs, pages, words, active, free, objects)
    }

    ghost predicate PagesValid()
      reads this, buddy
    {
      && buddy.Valid() && Sound(State(buddy.lists, live), buddy.pages, given) && |pages| == buddy.pages
      && |buddy.lists| == HIGH + 1
    }

    ghost predicate Valid()
      reads this, buddy
    {
      PagesValid() && HeapRight(H(), live, hhdm) && |caches| == SIZES
    }

    /** slab_init: ten caches without slabs. */
    constructor (pageAllocator: Buddy.FrameAllocator, offset: nat, ghost out: set<Block>, ghost initial: Lists)
      requires pageAllocator.Valid()
      requires Sound(State(pageAllocator.lists, out), pageAllocator.pages, initial) && offset > 0
      ensures Valid() && buddy == pageAllocator && hhdm == offset && live == out && objects == map[] && active == {}
    {
      hhdm, buddy, live, given := offset, pageAllocator, out, initial;
      caches := seq(SIZES, _ => Cache([], [], [], 0, 0, 0, 0, 0));
      pages := seq(pageAllocator.pages, _ => PageRec(false, false, false, 0, 0));
      slabs, words, active, free, objects := map[], map[], {}, map[], map[];
      new;
      forall i: CacheIndex
        ensures CacheRight(H(), i)
      {
        assert ObjectsOf(objects, i) == {};
      }
    }

    /** page_alloc. */
    method PageAlloc(order: nat) returns (r: Option<nat>)
      requires PagesValid()
      modifies buddy, this`live
      ensures PagesValid() && (old(NoPair(buddy.lists)) ==> NoPair(buddy.lists))
      ensures r.None? ==> live == old(live)
      ensures r.None? <==> Exhausted(old(buddy.lists), order)
      ensures r.Some? ==> order <= HIGH && r.value + Pow2(order) <= |pages| && Aligned(r.value, order)
      ensures r.Some? ==> live == old(live) + {Block(order, r.value)} && FreshBlock(old(live), Block(order, r.value))
    {
      hide Pow2, Head, Free, Good, NoPair, Carve, Sound, Buddy.FrameAllocator.Valid, Exhausted;
      ghost var st := State(buddy.lists, live);
      ExhaustedFirst(buddy.lists, order);
      AllocKeepsSound(st, buddy.pages, given, order);
      SoundLists(st, buddy.pages, given);
      if order <= HIGH && FirstNonEmpty(buddy.lists, order) <= HIGH {
        GrantedIs(st, buddy.pages, given, order);
      }
      var got := buddy.Alloc(order);
      match got {
        case None =>
          r := None;
        case Some(p) =>
          live := live + {Block(order, p)};
          r := Some(p);
      }
    }

    /** page_free of a block that is out. */
    method PageFree(page: nat, order: Order)
      requires PagesValid() && Block(order, page) in live
      modifies buddy, this`live
      ensures PagesValid() && live == old(live) - {Block(order, page)}
      ensures old(NoPair(buddy.lists)) ==> NoPair(buddy.lists)
    {
      hide Pow2, Head, Free, Good, NoPair, Merge, Sound, Buddy.FrameAllocator.Valid;
      ghost var st := State(buddy.lists, live);
      FreeKeepsSound(st, buddy.pages, given, Block(order, page));
      SoundLists(st, buddy.pages, given);
      OutIsTaken(st, buddy.pages, given, Block(order, page));
      var panics := buddy.FreeBlock(page, order);
      live := live - {Block(order, page)};
    }

    /** _mark_composite_page. */
    method MarkComposite(head: nat, n: nat) returns (panics: bool)
      requires head + n <= |pages| && head < |pages|
      modifies this`pages
      ensures panics <==> n == 0 || old(pages)[head].head || exists g: nat :: head < g < head + n && old(pages)[g].tail
      ensures !panics ==> pages == MarkPages(old(pages), head, n)
    {
      if n == 0 || pages[head].head {
        return true;
      }
      pages := pages[head := pages[head].(head := true)];
      var left := n - 1;
      while left > 0
        invariant 0 <= left < n && |pages| == |old(pages)|
        invariant forall g: nat | g < |pages| ::
                  pages[g] == MarkPages(old(pages), head, n)[g] || head < g <= head + left
        invariant forall g: nat | head < g <= head + left :: pages[g] == old(pages)[g]
        invariant forall g: nat | head + left < g < head + n :: !old(pages)[g].tail
      {
        var g := head + left;
        if pages[g].tail {
          return true;
        }
        pages := pages[g := pages[g].(tail := true, compHead := head)];
        left := left - 1;
      }
      panics := false;
      assert pages == MarkPages(old(pages), head, n);
    }

    /** _unmark_composite_page. */
    method UnmarkComposite(head: nat, n: nat) returns (panics: bool)
      requires n > 0 && head + n <= |pages|
      modifies this`pages
      ensures panics <==> exists g: nat :: head < g < head + n && !old(pages)[g].tail
      ensures !panics ==> pages == UnmarkPages(old(pages), head, n)
    {
      pages := pages[head := pages[head].(head := false)];
      var left := n - 1;
      while left > 0
        invariant 0 <= left < n && |pages| == |old(pages)|
        invariant forall g: nat | g < |pages| ::
                  pages[g] == UnmarkPages(old(pages), head, n)[g] || head < g <= head + left
        invariant forall g: nat | head < g <= head + left :: pages[g] == old(pages)[g]
        invariant forall g: nat | head + left < g < head + n :: old(pages)[g].tail
      {
        var g := head + left;
        if !pages[g].tail {
          return true;
        }
        pages := pages[g := pages[g].(tail := false)];
        left := left - 1;
      }
      panics := false;
      assert pages == UnmarkPages(old(pages), head, n);
    }

    /** The loop of new_slab that threads the free list through the objects. */
    method InitFreelist(i: CacheIndex, p: nat)
      modifies this`words
      ensures Initialised(old(words), words, hhdm, i, p)
    {
      hide ObjSize, Total, Addr, Span, InSlab;
      var k := 0;
      while k < Total(i) - 1
        invariant 0 <= k <= Total(i) - 1
        invariant forall m: nat | m < k ::
                  Addr(hhdm, i, p, m) in words && words[Addr(hhdm, i, p, m)] == Addr(hhdm, i, p, m + 1)
        invariant forall x | x in old(words) && !InSlab(hhdm, i, p, x) :: x in words && words[x] == old(words)[x]
      {
        SlotInSlab(hhdm, i, p, k);
        forall m: nat | m < k
          ensures Addr(hhdm, i, p, m) != Addr(hhdm, i, p, k)
        {
          AddrInjective(hhdm, i, p, m, k);
        }
        words := words[Addr(hhdm, i, p, k) := Addr(hhdm, i, p, k + 1)];
        k := k + 1;
      }
      SlotInSlab(hhdm, i, p, k);
      forall m: nat | m < k
        ensures Addr(hhdm, i, p, m) != Addr(hhdm, i, p, k)
      {
        AddrInjective(hhdm, i, p, m, k);
      }
      words := words[Addr(hhdm, i, p, k) := 0];
    }

    /** new_slab, called when no wholly free slab is left. */
    method NewSlab(i: CacheIndex) returns (ok: bool)
      requires Valid() && caches[i].full == []
      modifies this, buddy
      ensures Valid() && objects == old(objects)
      ensures !ok ==> H() == old(H()) && live == old(live)
      ensures !ok <==> Exhausted(old(buddy.lists), SlabOrder(i))
      ensures old(NoPair(buddy.lists)) ==> NoPair(buddy.lists)
      ensures ok ==> |caches[i].full| == 1 && caches[i].partial == old(caches)[i].partial
      ensures ok ==>
                && live == old(live) + {Block(SlabOrder(i), caches[i].full[0])}
                && FreshBlock(old(live), Block(SlabOrder(i), caches[i].full[0]))
    {
      hide HeapRight, Sound, Buddy.FrameAllocator.Valid, FreshBlock, Pow2, Initialised, Total, Span, Size2Order,
           Aligned, Exhausted, NoPair;
      ghost var h, out := H(), live;
      Parts(h, out, hhdm);
      Geometry(i);
      var got := PageAlloc(Size2Order(PagesPerSlab(i)));
      match got {
        case None =>
          ok := false;
        case Some(p) =>
          InstallSlab(i, p, out);
          ok := true;
      }
    }

    /** The part of new_slab after the page allocation. */
    method InstallSlab(i: CacheIndex, p: nat, ghost out: set<Block>)
      requires PagesValid() && HeapRight(H(), out, hhdm) && |caches| == SIZES && caches[i].full == []
      requires FreshBlock(out, Block(SlabOrder(i), p)) && live == out + {Block(SlabOrder(i), p)}
      requires p + Span(i) <= |pages|
      modifies this`slabs, this`words, this`caches, this`pages, this`active, this`free
      ensures Valid() && |caches| == SIZES
      ensures caches[i].full == [p] && caches[i].partial == old(caches)[i].partial
    {
      hide HeapRight, Sound, Buddy.FrameAllocator.Valid, FreshBlock, Pow2, Initialised, Total, Addr, Size2Order,
           Aligned;
      ghost var h := H();
      Geometry(i);
      slabs := slabs[p := Slab(i, Addr(hhdm, i, p, 0), 0, Total(i))];
      InitFreelist(i, p);
      var c := caches[i];
      caches := caches[i := c.(full := [p] + c.full, fullCount := c.fullCount + 1,
                               totalObjs := c.totalObjs + Total(i))];
      AllClean(h, out, hhdm, i, p);
      var panics := MarkComposite(p, PagesPerSlab(i));
      assert !panics;
      AddedRight(h, out, hhdm, i, p, words, caches[i]);
      active := active + {p};
      free := free[p := Iota(Total(i))];
    }

    /** Take the first object off the free list of slab p. */
    method TakeObject(i: CacheIndex, p: nat) returns (a: nat)
      requires |caches| == SIZES && p in slabs && p in free && free[p] != [] && slabs[p].freelist in words
      requires slabs[p].cache == i && slabs[p].freelist == Addr(hhdm, i, p, free[p][0])
      modifies this`slabs, this`caches, this`free, this`objects
      ensures a == old(slabs[p].freelist)
      ensures H() == TakeFrom(old(H()), hhdm, p).(caches := caches)
      ensures caches == old(caches)[i := old(caches)[i].(totalAllocated := old(caches)[i].totalAllocated + 1)]
    {
      hide Addr;
      var s := slabs[p];
      a := s.freelist;
      objects := objects[a := i];
      free := free[p := free[p][1..]];
      slabs := slabs[p := s.(freelist := words[s.freelist], used := s.used + 1)];
      caches := caches[i := caches[i].(totalAllocated := caches[i].totalAllocated + 1)];
    }

    /** Move slab p to the front of another list. */
    method Move(i: CacheIndex, p: nat, from: Kind, to: Kind)
      requires |caches| == SIZES && from != to
      modifies this`caches
      ensures caches == old(caches)[i := Moved(old(caches)[i], p, from, to)]
      ensures caches[i].List(to) == [p] + old(caches)[i].List(to)
      ensures caches[i].List(from) == Minus(old(caches)[i].List(from), p)
    {
      var c := caches[i];
      c := c.With(from, Minus(c.List(from), p), c.Count(from) - 1);
      c := c.With(to, [p] + c.List(to), c.Count(to) + 1);
      caches := caches[i := c];
    }

    /** cache_alloc, from the first partial slab. */
    method AllocPartial(i: CacheIndex) returns (a: nat)
      requires Valid() && caches[i].partial != []
      modifies this
      ensures Valid() && live == old(live)
      ensures a !in old(objects) && objects == old(objects)[a := i]
      ensures IsSlot(H(), hhdm, i, old(caches)[i].partial[0], a)
    {
      hide HeapRight, Sound, Buddy.FrameAllocator.Valid, SlabRight, Total, Addr, Refiled, ListRight, Minus;
      ghost var h := H();
      Parts(h, live, hhdm);
      var part := caches[i].partial[0];
      Listed(h, live, hhdm, i, PartialKind, part);
      FirstFree(h, live, hhdm, part);
      FreeCount(h, live, hhdm, part);
      if slabs[part].freelist == 0 {
        assert false;
      }
      a := TakeObject(i, part);
      ghost var h1 := H();
      if slabs[part].used == slabs[part].total {
        if slabs[part].freelist != 0 {
          assert false;
        }
        Move(i, part, PartialKind, EmptyKind);
        MovedIsRefiled(h, h1, i, part, h.caches[i], caches[i], PartialKind, EmptyKind);
      } else {
        MovedIsRefiled(h, h1, i, part, h.caches[i], caches[i], PartialKind, PartialKind);
      }
      RefiledFrame(h, h1, TakeFrom(h, hhdm, part), i, part, h.caches[i], caches[i]);
      TakenRight(h, live, hhdm, i, part, caches[i]);
      assert caches == h.caches[i := caches[i]];
      assert H() == TakeFrom(h, hhdm, part).(caches := caches);
      SlotOfTaken(h, H(), hhdm, i, part);
    }

    /** cache_alloc, from the first wholly free slab. */
    method AllocFull(i: CacheIndex) returns (a: nat)
      requires Valid() && caches[i].full != []
      modifies this
      ensures Valid() && live == old(live)
      ensures a !in old(objects) && objects == old(objects)[a := i] && IsSlot(H(), hhdm, i, old(caches)[i].full[0], a)
    {
      hide HeapRight, Sound, Buddy.FrameAllocator.Valid, SlabRight, Total, Addr, Refiled, ListRight, Minus;
      ghost var h := H();
      Parts(h, live, hhdm);
      var full := caches[i].full[0];
      Listed(h, live, hhdm, i, FullKind, full);
      FirstFree(h, live, hhdm, full);
      FreeCount(h, live, hhdm, full);
      Move(i, full, FullKind, PartialKind);
      a := TakeObject(i, full);
      MovedIsRefiled(h, H(), i, full, h.caches[i], caches[i], FullKind, PartialKind);
      RefiledFrame(h, H(), TakeFrom(h, hhdm, full), i, full, h.caches[i], caches[i]);
      MinusShorter(h.caches[i].full, full);
      TakenRight(h, live, hhdm, i, full, caches[i]);
      assert caches == h.caches[i := caches[i]];
      assert H() == TakeFrom(h, hhdm, full).(caches := caches);
      SlotOfTaken(h, H(), hhdm, i, full);
    }

    /** cache_alloc. */
    method CacheAlloc(i: CacheIndex) returns (r: Option<nat>)
      requires Valid()
      modifies this, buddy
      ensures Valid() && (old(NoPair(buddy.lists)) ==> NoPair(buddy.lists))
      ensures r.None? <==> ClassExhausted(old(caches), old(buddy.lists), i)
      ensures r.None? ==> H() == old(H()) && live == old(live)
      ensures r.Some? ==>
                && r.value !in old(objects) && objects == old(objects)[r.value := i]
                && ServedBy(old(caches)[i], old(live), H(), live, hhdm, i, r.value)
    {
      hide HeapRight, Sound, Buddy.FrameAllocator.Valid, IsSlot, FreshBlock, Exhausted, NoPair;
      ghost var out := live;
      if caches[i].partial != [] {
        var a := AllocPartial(i);
        return Some(a);
      }
      if caches[i].full == [] {
        var ok := NewSlab(i);
        if !ok {
          return None;
        }
      }
      ghost var from := caches[i].full[0];
      var a := AllocFull(i);
      assert IsSlot(H(), hhdm, i, from, a);
      return Some(a);
    }

    /** kmalloc. */
    method Kmalloc(size: nat) returns (g: Grant)
      requires Valid()
      modifies this, buddy
      ensures Valid()
      ensures size == 0 <==> g == Null
      ensures !g.At? ==> H() == old(H()) && live == old(live)
      ensures g == NoMemory <==> size > 0 && Refused(old(caches), old(buddy.lists), size)
      ensures old(NoPair(buddy.lists)) ==> NoPair(buddy.lists)
      ensures g.At? && size <= 8192 ==>
                exists i: CacheIndex ::
                  && IsClass(size, i) && g.addr !in old(objects) && objects == old(objects)[g.addr := i]
                  && ServedBy(old(caches)[i], old(live), H(), live, hhdm, i, g.addr)
                  && NoOverlap(old(objects), g.addr, ObjSize(i)) && g.addr >= hhdm && (g.addr - hhdm) % ObjSize(i) == 0
      ensures g.At? && size > 8192 ==>
                && objects == old(objects) && IsBig(H(), hhdm, g.addr) && PageOrder(size) <= HIGH
                && var p := PageOf(hhdm, g.addr); var b := Block(PageOrder(size), p);
                   && pages == old(pages)[p := old(pages)[p].(buddy := true, order := PageOrder(size))]
                   && live == old(live) + {b} && FreshBlock(old(live), b)
                   && NoOverlap(objects, g.addr, PAGE * Pow2(PageOrder(size)))
    {
      hide HeapRight, Sound, Buddy.FrameAllocator.Valid, Pow2, PageOrder, ObjSize, Exhausted, ServedBy, ClassExhausted,
           NoPair, NoOverlap, FreshBlock, IsBig, IsClass;
      if size > 8192 {
        g := KmallocPages(size);
        return;
      }
      if size == 0 {
        return Null;
      }
      var i := SizeToBlock(size);
      ClassBelow(size, i);
      g := KmallocCached(i);
    }

    /** Over page lists without mergeable pairs, as every run keeps them: memory is refused exactly if
        no aligned run of pages of the order that would be asked for is free. */
    lemma RefusedExactly(size: nat)
      requires Valid() && NoPair(buddy.lists)
      ensures Refused(caches, buddy.lists, size) <==>
              if size > 8192 then !RunFree(buddy.lists, PageOrder(size))
              else exists i: CacheIndex ::
                     && IsClass(size, i) && caches[i].partial == [] && caches[i].full == []
                     && !RunFree(buddy.lists, SlabOrder(i))
    {
      hide HeapRight, Sound, Buddy.FrameAllocator.Valid, PageOrder, IsClass, RunFree, Exhausted, NoPair;
      var st := State(buddy.lists, live);
      if size > 8192 {
        ExhaustedIs(st, buddy.pages, given, PageOrder(size));
      } else {
        forall i: CacheIndex
          ensures Exhausted(buddy.lists, SlabOrder(i)) <==> !RunFree(buddy.lists, SlabOrder(i))
        {
          ExhaustedIs(st, buddy.pages, given, SlabOrder(i));
        }
        if i: CacheIndex :| IsClass(size, i) && ClassExhausted(caches, buddy.lists, i) {
          assert IsClass(size, i) && !RunFree(buddy.lists, SlabOrder(i));
        }
      }
    }

    /** kmalloc from a cache. */
    method KmallocCached(i: CacheIndex) returns (g: Grant)
      requires Valid()
      modifies this, buddy
      ensures Valid() && g != Null && (old(NoPair(buddy.lists)) ==> NoPair(buddy.lists))
      ensures g == NoMemory <==> ClassExhausted(old(caches), old(buddy.lists), i)
      ensures !g.At? ==> H() == old(H()) && live == old(live)
      ensures g.At? ==>
                && g.addr !in old(objects) && objects == old(objects)[g.addr := i]
                && ServedBy(old(caches)[i], old(live), H(), live, hhdm, i, g.addr)
                && NoOverlap(old(objects), g.addr, ObjSize(i)) && g.addr >= hhdm && (g.addr - hhdm) % ObjSize(i) == 0
    {
      hide HeapRight, Sound, Buddy.FrameAllocator.Valid, Pow2, ObjSize, ClassExhausted, ServedBy, NoPair, IsSlot,
           NoOverlap;
      ghost var before, c, out := objects, caches[i], live;
      var r := CacheAlloc(i);
      match r {
        case None =>
          g := NoMemory;
        case Some(a) =>
          g := At(a);
          ServedSlot(c, out, H(), live, hhdm, i, a);
          SlotAligned(H(), live, hhdm, buddy.lists, buddy.pages, given, i, a);
          NewApart(H(), live, hhdm, before, a, i);
      }
    }

    /** kmalloc of more than the caches serve. */
    method KmallocPages(size: nat) returns (g: Grant)
      requires Valid()
      modifies this, buddy
      ensures Valid() && g != Null && objects == old(objects) && (old(NoPair(buddy.lists)) ==> NoPair(buddy.lists))
      ensures g == NoMemory <==> Exhausted(old(buddy.lists), PageOrder(size))
      ensures !g.At? ==> H() == old(H()) && live == old(live)
      ensures g.At? ==>
                && IsBig(H(), hhdm, g.addr) && PageOrder(size) <= HIGH
                && var p := PageOf(hhdm, g.addr); var b := Block(PageOrder(size), p);
                   && pages == old(pages)[p := old(pages)[p].(buddy := true, order := PageOrder(size))]
                   && live == old(live) + {b} && FreshBlock(old(live), b)
                   && NoOverlap(objects, g.addr, PAGE * Pow2(PageOrder(size)))
    {
      hide HeapRight, Sound, Buddy.FrameAllocator.Valid, Pow2, FreshBlock, Aligned, PageOrder, NoOverlap, Exhausted,
           NoPair;
      ghost var h, out := H(), live;
      var order := SizeToPageOrder(size);
      var got := PageAlloc(order);
      match got {
        case None =>
          g := NoMemory;
        case Some(p) =>
          SizePositive(order);
          pages := pages[p := pages[p].(buddy := true)];
          pages := pages[p := pages[p].(order := order)];
          assert pages == h.pages[p := h.pages[p].(buddy := true, order := order)];
          BigAdded(h, out, hhdm, Block(order, p));
          BigApart(h, out, hhdm, Block(order, p));
          BigAddress(hhdm, p);
          g := At(hhdm + p * PAGE);
      }
    }

    /** _find_corresponding_slab; its panic cannot happen for the address of an object. */
    method FindSlab(a: nat, ghost p: nat, ghost k: nat) returns (s: nat)
      requires SlabRight(H(), live, hhdm, p) && k < slabs[p].total && a == Addr(hhdm, slabs[p].cache, p, k)
      ensures s == p
    {
      hide SlabRight, Addr, PageOf;
      SlotOwner(H(), live, hhdm, p, k);
      HasRecord(H(), live, hhdm, p);
      var g := PageOf(hhdm, a);
      if pages[g].head {
        s := g;
      } else if pages[g].tail {
        s := pages[g].compHead;
      } else {
        assert false;
      }
    }

    /** _attempt_free_full: give up the first wholly free slab if there are too many. */
    method AttemptFreeFull(i: CacheIndex)
      requires PagesValid() && |caches| == SIZES
      requires caches[i].fullCount > i + 1 ==>
                 && caches[i].full != []
                 && var s := caches[i].full[0];
                    && s in slabs && slabs[s].total == Total(i)
                    && Marked(pages, s, Span(i)) && Block(SlabOrder(i), s) in live
      modifies this`caches, this`pages, this`live, buddy
      ensures PagesValid() && (old(NoPair(buddy.lists)) ==> NoPair(buddy.lists))
      ensures old(caches)[i].fullCount <= i + 1 ==> caches == old(caches) && pages == old(pages) && live == old(live)
      ensures old(caches)[i].fullCount > i + 1 ==>
                var c := old(caches)[i]; var s := c.full[0];
                && caches == old(caches)[i := c.(full := Minus(c.full, s), fullCount := c.fullCount - 1,
                                                 totalObjs := c.totalObjs - Total(i))]
                && pages == UnmarkPages(old(pages), s, Span(i)) && live == old(live) - {Block(SlabOrder(i), s)}
    {
      hide Sound, Buddy.FrameAllocator.Valid, Pow2, Total, Span, ObjSize, Size2Order, Aligned, NoPair;
      ObjSizeBound(i);
      var keep := SizeToBlock(ObjSize(i));
      ClassOfObject(i, keep);
      if caches[i].fullCount > keep + 1 {
        Geometry(i);
        var s := caches[i].full[0];
        var c := caches[i];
        c := c.(full := Minus(c.full, s), fullCount := c.fullCount - 1);
        c := c.(totalObjs := c.totalObjs - slabs[s].total);
        caches := caches[i := c];
        var panics := UnmarkComposite(s, PagesPerSlab(i));
        assert !panics;
        PageFree(s, Size2Order(PagesPerSlab(i)));
      }
    }

    /** kfree. */
    method Kfree(a: nat)
      requires Valid() && (a == 0 || a in objects || IsBig(H(), hhdm, a))
      modifies this, buddy
      ensures Valid() && objects == old(objects) - {a} && (old(NoPair(buddy.lists)) ==> NoPair(buddy.lists))
      ensures a == 0 ==> H() == old(H()) && live == old(live)
      ensures a in old(objects) ==>
                && old(HasOwner(pages, slabs, caches, hhdm, a))
                && live == old(live) - old(GivenUp(slabs, caches, Owner(pages, PageOf(hhdm, a))))
      ensures old(IsBig(H(), hhdm, a)) ==>
                var p := PageOf(hhdm, a);
                && old(pages)[p].order <= HIGH
                && pages == old(pages)[p := old(pages)[p].(buddy := false, order := 0)]
                && live == old(live) - {Block(old(pages)[p].order, p)}
    {
      hide HeapRight, Sound, Buddy.FrameAllocator.Valid, SlabRight, NoPair, GivenUp, PageOf, Owner;
      Parts(H(), live, hhdm);
      AddressKinds(H(), live, hhdm, a);
      if a == 0 {
        return;
      }
      var g := PageOf(hhdm, a);
      if pages[g].buddy {
        KfreePages(g);
      } else {
        ghost var p, k :| IsObject(H(), hhdm, a, p, k);
        KfreeObject(a, p, k);
      }
    }

    /** kfree of a block from the page allocator. */
    method KfreePages(g: nat)
      requires Valid() && g < |pages| && pages[g].buddy
      modifies this, buddy
      ensures Valid() && objects == old(objects) && (old(NoPair(buddy.lists)) ==> NoPair(buddy.lists))
      ensures pages == old(pages)[g := old(pages)[g].(buddy := false, order := 0)]
      ensures old(pages)[g].order <= HIGH && live == old(live) - {Block(old(pages)[g].order, g)}
    {
      hide HeapRight, Sound, Buddy.FrameAllocator.Valid;
      ghost var h, out := H(), live;
      BigPageOut(h, out, hhdm, g);
      pages := pages[g := pages[g].(buddy := false)];
      var ord := pages[g].order;
      pages := pages[g := pages[g].(order := 0)];
      assert pages == h.pages[g := h.pages[g].(buddy := false, order := 0)];
      BigRemoved(h, out, hhdm, g);
      PageFree(g, ord);
    }

    /** kfree of an object: back on the free list, and the slab to the list it now belongs on. */
    method KfreeObject(a: nat, ghost p: nat, ghost k: nat)
      requires Valid() && IsObject(H(), hhdm, a, p, k)
      modifies this, buddy
      ensures Valid() && objects == old(objects) - {a} && (old(NoPair(buddy.lists)) ==> NoPair(buddy.lists))
      ensures old(HasOwner(pages, slabs, caches, hhdm, a)) && old(Owner(pages, PageOf(hhdm, a))) == p
      ensures live == old(live) - old(GivenUp(slabs, caches, p))
    {
      hide HeapRight, Sound, Buddy.FrameAllocator.Valid, SlabRight, Addr, Total, NoPair, PageOf;
      ghost var h := H();
      Active(h, live, hhdm, p);
      HasRecord(h, live, hhdm, p);
      SlotOwner(h, live, hhdm, p, k);
      FullCounter(h, live, hhdm, slabs[p].cache);
      UsedPositive(h, live, hhdm, p, k);
      FreeCount(h, live, hhdm, p);
      var s := FindSlab(a, p, k);
      if slabs[s].used == slabs[s].total {
        FreeMoving(a, s, EmptyKind, PartialKind, k);
      } else if slabs[s].used == 1 {
        FreeLast(a, s, k);
      } else {
        FreeMoving(a, s, PartialKind, PartialKind, k);
      }
    }

    /** The free-list part of kfree. */
    method PushFree(a: nat, s: nat)
      requires s in slabs
      modifies this`words, this`slabs
      ensures words == old(words)[a := old(slabs)[s].freelist]
      ensures slabs == old(slabs)[s := old(slabs)[s].(freelist := a)]
    {
      words := words[a := slabs[s].freelist];
      slabs := slabs[s := slabs[s].(freelist := a)];
    }

    /** The counters at the end of kfree. */
    method CountDown(i: CacheIndex, s: nat)
      requires s in slabs && slabs[s].used > 0 && |caches| == SIZES
      modifies this`slabs, this`caches
      ensures slabs == old(slabs)[s := old(slabs)[s].(used := old(slabs)[s].used - 1)]
      ensures caches == old(caches)[i := old(caches)[i].(totalAllocated := old(caches)[i].totalAllocated - 1)]
    {
      slabs := slabs[s := slabs[s].(used := slabs[s].used - 1)];
      caches := caches[i := caches[i].(totalAllocated := caches[i].totalAllocated - 1)];
    }

    /** kfree into a slab that is partial afterwards. */
    method FreeMoving(a: nat, s: nat, from: Kind, to: Kind, ghost k: nat)
      requires Valid() && IsObject(H(), hhdm, a, s, k) && slabs[s].used > 1
      requires from == (if slabs[s].used == slabs[s].total then EmptyKind else PartialKind) && to == PartialKind
      modifies this
      ensures Valid() && objects == old(objects) - {a} && live == old(live)
    {
      hide HeapRight, Sound, Buddy.FrameAllocator.Valid, SlabRight, Addr, Total, Refiled, Minus, NoPair;
      ghost var h := H();
      var i := slabs[s].cache;
      Parts(h, live, hhdm);
      Active(h, live, hhdm, s);
      FreeCount(h, live, hhdm, s);
      FreeMovingWrites(a, s, i, from, to);
      ghost var h' := GiveTo(h, hhdm, s, k);
      MovedIsRefiled(h, h', i, s, h.caches[i], caches[i], from, to);
      GivenRight(h, live, hhdm, i, s, k, caches[i]);
      free := free[s := [k] + free[s]];
      objects := objects - {a};
      assert H() == h'.(caches := caches);
    }

    method FreeMovingWrites(a: nat, s: nat, i: CacheIndex, from: Kind, to: Kind)
      requires |caches| == SIZES && s in slabs && slabs[s].used > 0
      modifies this`words, this`slabs, this`caches
      ensures words == old(words)[a := old(slabs)[s].freelist]
      ensures slabs == old(slabs)[s := old(slabs)[s].(freelist := a, used := old(slabs)[s].used - 1)]
      ensures var c := old(caches)[i];
              caches == old(caches)[i := (if from == to then c else Moved(c, s, from, to))
                                           .(totalAllocated := c.totalAllocated - 1)]
    {
      hide Minus;
      PushFree(a, s);
      if from != to {
        Move(i, s, from, to);
      }
      CountDown(i, s);
    }

    /** The writes of kfree for the only live object of slab s. */
    method FreeLastWrites(a: nat, s: nat, i: CacheIndex)
      requires PagesValid() && |caches| == SIZES && s in slabs && slabs[s].cache == i && slabs[s].used == 1
      requires slabs[s].total == Total(i) && Marked(pages, s, Span(i)) && Block(SlabOrder(i), s) in live
      modifies this`words, this`slabs, this`caches, this`pages, this`live, buddy
      ensures PagesValid() && (old(NoPair(buddy.lists)) ==> NoPair(buddy.lists))
      ensures words == old(words)[a := old(slabs)[s].freelist]
      ensures slabs == old(slabs)[s := old(slabs)[s].(freelist := a, used := 0)]
      ensures var c := old(caches)[i];
              if c.fullCount + 1 > i + 1 then
                && caches == old(caches)[i := c.(partial := Minus(c.partial, s), partialCount := c.partialCount - 1,
                                                 totalObjs := c.totalObjs - Total(i),
                                                 totalAllocated := c.totalAllocated - 1)]
                && pages == UnmarkPages(old(pages), s, Span(i)) && live == old(live) - {Block(SlabOrder(i), s)}
              else
                && caches == old(caches)[i := Moved(c, s, PartialKind, FullKind)
                                                .(totalAllocated := c.totalAllocated - 1)]
                && pages == old(pages) && live == old(live)
    {
      hide Sound, Buddy.FrameAllocator.Valid, Total, Minus, Marked, UnmarkPages, Span, NoPair;
      ghost var c := caches[i];
      ghost var before := slabs[s];
      PushFree(a, s);
      Move(i, s, PartialKind, FullKind);
      AttemptFreeFull(i);
      CountDown(i, s);
      HeadMinus(c.full, s);
      assert slabs[s] == before.(freelist := a, used := 0);
    }

    /** kfree of the only live object of a slab, which may then be given up. */
    method FreeLast(a: nat, s: nat, ghost k: nat)
      requires Valid() && IsObject(H(), hhdm, a, s, k) && slabs[s].used == 1 < slabs[s].total
      modifies this, buddy
      ensures Valid() && objects == old(objects) - {a} && (old(NoPair(buddy.lists)) ==> NoPair(buddy.lists))
      ensures live == old(live) - old(GivenUp(slabs, caches, s))
    {
      hide HeapRight, Sound, Buddy.FrameAllocator.Valid, SlabRight, Addr, Total, Refiled, Minus, Marked, UnmarkPages,
           Span, NoPair;
      ghost var h, out := H(), live;
      var i := slabs[s].cache;
      Parts(h, live, hhdm);
      Active(h, live, hhdm, s);
      FreeCount(h, live, hhdm, s);
      MarkedSlab(h, live, hhdm, s);
      FullCounter(h, live, hhdm, i);
      FreeLastWrites(a, s, i);
      free := free[s := [k] + free[s]];
      objects := objects - {a};
      if h.caches[i].fullCount > i {
        EvictedRight(h, out, hhdm, i, s, k, caches[i]);
        active := active - {s};
        assert H() == DropSlab(GiveTo(h, hhdm, s, k), s).(caches := caches);
      } else {
        LastStays(h, out, hhdm, i, s, k, caches[i]);
        assert H() == GiveTo(h, hhdm, s, k).(caches := caches);
      }
    }
  }

  lemma LastStays(h: Heap, live: set<Block>, hhdm: nat, i: CacheIndex, s: nat, k: nat, c': Cache)
    requires HeapRight(h, live, hhdm) && SlabRight(h, live, hhdm, s) && IsObject(h, hhdm, Addr(hhdm, i, s, k), s, k)
    requires h.slabs[s].cache == i && h.slabs[s].used == 1 < h.slabs[s].total && |h.caches[i].full| < i + 1
    requires var c := h.caches[i]; c' == Moved(c, s, PartialKind, FullKind).(totalAllocated := c.totalAllocated - 1)
    ensures HeapRight(GiveTo(h, hhdm, s, k).(caches := h.caches[i := c']), live, hhdm)
  {
    hide HeapRight, SlabRight, Addr, Total, Refiled, Minus;
    Parts(h, live, hhdm);
    MovedIsRefiled(h, GiveTo(h, hhdm, s, k), i, s, h.caches[i], c', PartialKind, FullKind);
    GivenRight(h, live, hhdm, i, s, k, c');
  }

  /** The page marks lead from a to a slab of some cache. */
  ghost predicate HasOwner(pages: seq<PageRec>, slabs: map<nat, Slab>, caches: seq<Cache>, hhdm: nat, a: nat) {
    && a >= hhdm && PageOf(hhdm, a) < |pages| && Owner(pages, PageOf(hhdm, a)) in slabs
    && slabs[Owner(pages, PageOf(hhdm, a))].cache < |caches|
  }

  /** What kfree of an object gives back to the page allocator: the slab, if this was its last live
      object and cache i keeps i + 1 wholly free slabs already; otherwise nothing. */
  ghost function GivenUp(slabs: map<nat, Slab>, caches: seq<Cache>, p: nat): (s: set<Block>)
    requires p in slabs && slabs[p].cache < |caches|
  {
    var i := slabs[p].cache;
    if slabs[p].used == 1 && |caches[i].full| == i + 1 then {Block(SlabOrder(i), p)} else {}
  }

  /** a is the address of an object of slab p of cache i. */
  ghost predicate IsSlot(h: Heap, hhdm: nat, i: CacheIndex, p: nat, a: nat) {
    p in h.active && p in h.slabs && h.slabs[p].cache == i && exists k: nat :: k < Total(i) && a == Addr(hhdm, i, p, k)
  }

  lemma ServedSlot(c: Cache, out: set<Block>, h: Heap, out': set<Block>, hhdm: nat, i: CacheIndex, a: nat)
    requires ServedBy(c, out, h, out', hhdm, i, a)
    ensures exists p: nat :: IsSlot(h, hhdm, i, p, a)
  {
  }

  /** The bytes [a, a + n) meet no live object. */
  ghost predicate NoOverlap(objects: map<nat, nat>, a: nat, n: nat) {
    forall b | b in objects :: objects[b] < SIZES && (b + ObjSize(objects[b]) <= a || a + n <= b)
  }

  /** a is the address of a block that kmalloc took from the page allocator. */
  ghost predicate IsBig(h: Heap, hhdm: nat, a: nat) {
    a >= hhdm && PageOf(hhdm, a) < |h.pages| && a == hhdm + PageOf(hhdm, a) * PAGE && h.pages[PageOf(hhdm, a)].buddy
  }

  lemma HeadMinus(s: seq<nat>, p: nat)
    ensures Minus([p] + s, p) == s
  {
  }

  lemma FullCounter(h: Heap, live: set<Block>, hhdm: nat, i: CacheIndex)
    requires HeapRight(h, live, hhdm)
    ensures h.caches[i].fullCount == |h.caches[i].full|
  {
    assert CacheRight(h, i);
    assert h.caches[i].Count(FullKind) == |h.caches[i].List(FullKind)|;
  }

  lemma Active(h: Heap, live: set<Block>, hhdm: nat, p: nat)
    requires HeapRight(h, live, hhdm) && p in h.active
    ensures SlabRight(h, live, hhdm, p)
  {
  }

  lemma MarkedSlab(h: Heap, live: set<Block>, hhdm: nat, p: nat)
    requires SlabRight(h, live, hhdm, p)
    ensures Marked(h.pages, p, Span(h.slabs[p].cache)) && Block(SlabOrder(h.slabs[p].cache), p) in live
  {
  }

  /** What kfree reads off the page of an address. */
  lemma AddressKinds(h: Heap, live: set<Block>, hhdm: nat, a: nat)
    requires HeapRight(h, live, hhdm)
    ensures 0 !in h.objects
    ensures a in h.objects ==> a >= hhdm && PageOf(hhdm, a) < |h.pages| && !h.pages[PageOf(hhdm, a)].buddy
                               && exists p, k :: IsObject(h, hhdm, a, p, k)
  {
    hide SlabRight, PageRight, CacheRight, Addr, PageOf;
    if 0 in h.objects {
      ObjectPage(h, live, hhdm, 0);
    }
    if a in h.objects {
      ObjectPage(h, live, hhdm, a);
      assert Located(h, hhdm, a);
    }
  }

  lemma ObjectPage(h: Heap, live: set<Block>, hhdm: nat, a: nat)
    requires HeapRight(h, live, hhdm) && a in h.objects
    ensures a >= hhdm && PageOf(hhdm, a) < |h.pages| && !h.pages[PageOf(hhdm, a)].buddy
  {
    hide SlabRight, PageRight, CacheRight, Addr, PageOf;
    assert Located(h, hhdm, a);
    var p, k :| IsObject(h, hhdm, a, p, k);
    assert SlabRight(h, live, hhdm, p);
    HasRecord(h, live, hhdm, p);
    SlotOwner(h, live, hhdm, p, k);
  }

  lemma BigPageOut(h: Heap, live: set<Block>, hhdm: nat, g: nat)
    requires HeapRight(h, live, hhdm) && g < |h.pages| && h.pages[g].buddy
    ensures h.pages[g].order <= HIGH && Block(h.pages[g].order, g) in live
  {
    assert PageRight(h, live, g);
  }

  lemma BigRemoved(h: Heap, live: set<Block>, hhdm: nat, g: nat)
    requires HeapRight(h, live, hhdm) && g < |h.pages| && h.pages[g].buddy && h.pages[g].order <= HIGH
    ensures HeapRight(h.(pages := h.pages[g := h.pages[g].(buddy := false, order := 0)]),
                      live - {Block(h.pages[g].order, g)}, hhdm)
  {
    hide SlabRight, PageRight, CacheRight;
    var b := Block(h.pages[g].order, g);
    var h' := h.(pages := h.pages[g := h.pages[g].(buddy := false, order := 0)]);
    var live' := live - {b};
    forall p | p in h'.active
      ensures SlabRight(h', live', hhdm, p)
    {
      assert SlabRight(h, live, hhdm, p);
      SlabNotBig(h, h', live, live', hhdm, p, g);
    }
    forall x: nat | x < |h'.pages|
      ensures PageRight(h', live', x)
    {
      assert PageRight(h, live, x);
      BigGone(h, h', live, live', g, x);
    }
    SameElse(h, h', hhdm);
  }

  lemma SlabNotBig(h: Heap, h': Heap, live: set<Block>, live': set<Block>, hhdm: nat, p: nat, g: nat)
    requires SlabRight(h, live, hhdm, p) && g < |h.pages| && h.pages[g].buddy && h.pages[g].order <= HIGH
    requires h' == h.(pages := h.pages[g := h.pages[g].(buddy := false, order := 0)])
    requires live' == live - {Block(h.pages[g].order, g)}
    ensures SlabRight(h', live', hhdm, p)
  {
    hide Total, Addr, Chained, ObjectRight, FreeRight, Span;
    assert !h.pages[p].buddy by { SpanPositive(h.slabs[p].cache); }
    assert Marked(h'.pages, p, Span(h.slabs[p].cache));
  }

  lemma SpanPositive(i: CacheIndex)
    ensures Span(i) > 0
  {
  }

  lemma BigGone(h: Heap, h': Heap, live: set<Block>, live': set<Block>, g: nat, x: nat)
    requires g < |h.pages| && x < |h.pages| && PageRight(h, live, x) && h.pages[g].order <= HIGH
    requires h' == h.(pages := h.pages[g := h.pages[g].(buddy := false, order := 0)])
    requires live' == live - {Block(h.pages[g].order, g)}
    ensures PageRight(h', live', x)
  {
    hide Span;
  }

  lemma ObjSizeBound(i: CacheIndex)
    ensures ObjSize(i) <= 8192
  {
  }

  lemma ClassOfObject(i: CacheIndex, order: nat)
    requires IsClass(ObjSize(i), order)
    ensures order == i
  {
  }

  lemma BigAddress(hhdm: nat, p: nat)
    ensures PageOf(hhdm, hhdm + p * PAGE) == p
  {
  }

  /** Objects are aligned to their size, because slabs are naturally aligned blocks. */
  lemma SlotAligned(h: Heap, live: set<Block>, hhdm: nat, lists: Lists, n: nat, given: Lists, i: CacheIndex, a: nat)
    requires HeapRight(h, live, hhdm) && Sound(State(lists, live), n, given)
    requires exists p: nat :: IsSlot(h, hhdm, i, p, a)
    ensures a >= hhdm && (a - hhdm) % ObjSize(i) == 0
  {
    hide Head, Pow2, Total, ObjSize;
    var p: nat :| IsSlot(h, hhdm, i, p, a);
    var k: nat :| k < Total(i) && a == Addr(hhdm, i, p, k);
    assert SlabRight(h, live, hhdm, p);
    assert Aligned(Block(SlabOrder(i), p).page, SlabOrder(i));
    StartAligned(p, i);
    SumAligned(p * PAGE, k, i);
  }

  lemma StartAligned(p: nat, i: CacheIndex)
    requires Aligned(p, SlabOrder(i))
    ensures p * PAGE % ObjSize(i) == 0
  {
    hide Head;
    if i == 9 {
      EvenPage(p);
      MultipleMod(8192, p / 2);
    } else {
      var c := match i
        case 0 => 256 case 1 => 128 case 2 => 64 case 3 => 32 case 4 => 16 case 5 => 8 case 6 => 4 case 7 => 2
        case 8 => 1;
      assert p * PAGE == ObjSize(i) * (c * p);
      MultipleMod(ObjSize(i), c * p);
    }
  }

  lemma EvenPage(p: nat)
    requires Aligned(p, 4)
    ensures p == 2 * (p / 2)
  {
    AlignedDown(p, 3);
    AlignedDown(p, 2);
    AlignedDown(p, 1);
    assert Shl(Shr(p, 1), 1) == Shl(2 * Shr(p, 1), 0);
  }

  lemma SumAligned(x: nat, k: nat, i: CacheIndex)
    requires x % ObjSize(i) == 0
    ensures (x + Offset(i, k)) % ObjSize(i) == 0
  {
    hide ObjSize;
    var z := ObjSize(i);
    var q := Multiple(x, z);
    assert x + Offset(i, k) == z * q + k * z;
    assert z * (q + k) == z * q + k * z;
    MultipleMod(z, q + k);
  }

  lemma MultipleMod(z: nat, q: nat)
    requires z > 0
    ensures z * q % z == 0
  {
    ModAdd(q, 0, z);
  }

  lemma NewApart(h: Heap, live: set<Block>, hhdm: nat, before: map<nat, nat>, a: nat, i: CacheIndex)
    requires HeapRight(h, live, hhdm) && a !in before && h.objects == before[a := i]
    ensures NoOverlap(before, a, ObjSize(i))
  {
    hide HeapRight, ObjSize;
    forall b | b in before
      ensures before[b] < SIZES && (b + ObjSize(before[b]) <= a || a + ObjSize(i) <= b)
    {
      ObjectsDisjoint(h, live, hhdm, a, b);
    }
  }

  lemma BigAdded(h: Heap, live: set<Block>, hhdm: nat, b: Block)
    requires HeapRight(h, live, hhdm) && FreshBlock(live, b)
    requires b.page + Pow2(b.order) <= |h.pages| && b.page < |h.pages|
    ensures HeapRight(h.(pages := h.pages[b.page := h.pages[b.page].(buddy := true, order := b.order)]),
                      live + {b}, hhdm)
  {
    hide Pow2, SlabRight, PageRight, CacheRight, FreshBlock;
    var h' := h.(pages := h.pages[b.page := h.pages[b.page].(buddy := true, order := b.order)]);
    var live' := live + {b};
    SizePositive(b.order);
    CleanPages(h, live, hhdm, b, b.page);
    forall p | p in h'.active
      ensures SlabRight(h', live', hhdm, p)
    {
      HasRecord(h, live, hhdm, p);
      SlabAwayFrom(h, h', live, live', hhdm, p, b.page);
    }
    forall g: nat | g < |h'.pages|
      ensures PageRight(h', live', g)
    {
      assert PageRight(h, live, g);
      BigPage(h, h', live, live', b, g);
    }
    SameElse(h, h', hhdm);
  }

  lemma BigPage(h: Heap, h': Heap, live: set<Block>, live': set<Block>, b: Block, g: nat)
    requires g < |h.pages| && PageRight(h, live, g) && b.page < |h.pages|
    requires h' == h.(pages := h.pages[b.page := h.pages[b.page].(buddy := true, order := b.order)])
    requires live' == live + {b}
    ensures PageRight(h', live', g)
  {
    hide Span;
  }

  /** A slab does not notice a change of the record of an unmarked page. */
  lemma SlabAwayFrom(h: Heap, h': Heap, live: set<Block>, live': set<Block>, hhdm: nat, p: nat, g: nat)
    requires SlabRight(h, live, hhdm, p) && g < |h.pages| && !h.pages[g].head && !h.pages[g].tail
    requires h' == h.(pages := h'.pages) && |h'.pages| == |h.pages|
    requires forall x: nat | x < |h.pages| && x != g :: h'.pages[x] == h.pages[x]
    requires Block(SlabOrder(h.slabs[p].cache), p) in live'
    ensures SlabRight(h', live', hhdm, p)
  {
    hide Span, Total, Addr, Chained, ObjectRight, FreeRight;
    assert Marked(h'.pages, p, Span(h.slabs[p].cache));
  }

  /** Objects and caches do not depend on the page records. */
  lemma SameElse(h: Heap, h': Heap, hhdm: nat)
    requires |h.caches| == SIZES && ObjectsLocated(h, hhdm) && (forall i: CacheIndex :: CacheRight(h, i))
    requires h' == h.(pages := h'.pages)
    ensures ObjectsLocated(h', hhdm) && forall i: CacheIndex :: CacheRight(h', i)
  {
    hide Addr, Total, KindOf;
    forall a | a in h'.objects
      ensures Located(h', hhdm, a)
    {
      assert Located(h, hhdm, a);
      var q, m :| IsObject(h, hhdm, a, q, m);
      assert IsObject(h', hhdm, a, q, m);
    }
    forall i: CacheIndex
      ensures CacheRight(h', i)
    {
      assert CacheRight(h, i);
      forall k: Kind
        ensures ListRight(h', i, k, h.caches[i].List(k))
      {
        assert ListRight(h, i, k, h.caches[i].List(k));
        forall p: nat
          ensures OnList(h', i, k, p) <==> OnList(h, i, k, p)
        {
        }
      }
    }
  }

  /** A fresh page block meets no live object. */
  lemma BigApart(h: Heap, live: set<Block>, hhdm: nat, b: Block)
    requires HeapRight(h, live, hhdm) && FreshBlock(live, b)
    ensures NoOverlap(h.objects, hhdm + b.page * PAGE, PAGE * Pow2(b.order))
  {
    hide Pow2, SlabRight, PageRight, CacheRight, ObjSize, Addr;
    forall a | a in h.objects
      ensures h.objects[a] < SIZES
      ensures a + ObjSize(h.objects[a]) <= hhdm + b.page * PAGE || hhdm + b.page * PAGE + PAGE * Pow2(b.order) <= a
    {
      assert Located(h, hhdm, a);
      var q, m :| IsObject(h, hhdm, a, q, m);
      assert SlabRight(h, live, hhdm, q);
      LiveObject(h, live, hhdm, q, m) by { HasRecord(h, live, hhdm, q); }
      HasRecord(h, live, hhdm, q);
      FreeCount(h, live, hhdm, q);
      assert Apart(b, Block(SlabOrder(h.slabs[q].cache), q));
      SlotApart(hhdm, h.slabs[q].cache, q, m, b);
    }
  }

  lemma SlotApart(hhdm: nat, i: CacheIndex, q: nat, m: nat, b: Block)
    requires m < Total(i) && Apart(b, Block(SlabOrder(i), q))
    ensures var a := Addr(hhdm, i, q, m);
            a + ObjSize(i) <= hhdm + b.page * PAGE || hhdm + b.page * PAGE + PAGE * Pow2(b.order) <= a
  {
    hide Pow2, ObjSize, Total, Span;
    Geometry(i);
    OffsetBounds(i, m);
  }

  lemma Parts(h: Heap, live: set<Block>, hhdm: nat)
    requires HeapRight(h, live, hhdm)
    ensures |h.caches| == SIZES && hhdm > 0 && forall i: CacheIndex :: |h.caches[i].full| <= i + 1
  {
    forall i: CacheIndex
      ensures |h.caches[i].full| <= i + 1
    {
      assert CacheRight(h, i);
    }
  }

  /** A slab on a list of a cache. */
  lemma Listed(h: Heap, live: set<Block>, hhdm: nat, i: CacheIndex, k: Kind, p: nat)
    requires HeapRight(h, live, hhdm) && |h.caches| == SIZES && p in h.caches[i].List(k)
    ensures p in h.active && SlabRight(h, live, hhdm, p) && OnList(h, i, k, p)
  {
    assert CacheRight(h, i);
    assert ListRight(h, i, k, h.caches[i].List(k));
  }

  lemma FreeCount(h: Heap, live: set<Block>, hhdm: nat, p: nat)
    requires SlabRight(h, live, hhdm, p)
    ensures |h.free[p]| == h.slabs[p].total - h.slabs[p].used && h.slabs[p].total == Total(h.slabs[p].cache) >= 8
    ensures forall k | k in h.free[p] :: k < h.slabs[p].total
  {
  }

  lemma SlotOfTaken(h: Heap, h': Heap, hhdm: nat, i: CacheIndex, p: nat)
    requires p in h.active && p in h.slabs && h.slabs[p].cache == i
    requires p in h.free && h.free[p] != [] && h.free[p][0] < Total(i)
    requires h'.active == h.active && p in h'.slabs && h'.slabs[p].cache == i
    ensures IsSlot(h', hhdm, i, p, Addr(hhdm, i, p, h.free[p][0]))
  {
    hide Total, Addr;
  }

  lemma AllClean(h: Heap, live: set<Block>, hhdm: nat, i: CacheIndex, p: nat)
    requires HeapRight(h, live, hhdm) && FreshBlock(live, Block(SlabOrder(i), p)) && p + Span(i) <= |h.pages|
    ensures !h.pages[p].head && forall g: nat | p < g < p + Span(i) :: !h.pages[g].tail
  {
    hide SlabsRight, PagesRight, Pow2, Span, FreshBlock;
    Geometry(i);
    forall g: nat | p <= g < p + Span(i)
      ensures !h.pages[g].head && !h.pages[g].tail
    {
      CleanPages(h, live, hhdm, Block(SlabOrder(i), p), g);
    }
  }

  lemma SoundLists(st: State, n: nat, given: Lists)
    requires Sound(st, n, given)
    ensures |st.lists| == HIGH + 1
  {
  }

  /** A block that the allocator grants was wholly free, so it meets no block that is out. */
  lemma GrantedIs(st: State, n: nat, given: Lists, order: nat)
    requires Sound(st, n, given) && |st.lists| == HIGH + 1 && order <= HIGH && FirstNonEmpty(st.lists, order) <= HIGH
    ensures var q := FirstNonEmpty(st.lists, order);
            && st.lists[q] != [] && st.lists[q][0] >= 0
            && var b := Block(order, st.lists[q][0]);
               && Granted(st.lists, order) == [b] && Aligned(b.page, order)
               && b.page + Pow2(order) <= n && FreshBlock(st.live, b)
  {
    hide Pow2, Shr, Shl, Good, NoPair, Carve;
    var q := FirstNonEmpty(st.lists, order);
    CarveTakesBlock(st.lists, n, order, q);
    var b := Block(order, st.lists[q][0]);
    forall c | c in st.live
      ensures Apart(b, c)
    {
      forall p: nat | Inside(p, b)
        ensures !Inside(p, c)
      {
        assert Free(st.lists, p);
      }
      NoCommonPage(b, c);
    }
  }

  lemma NoCommonPage(b: Block, c: Block)
    requires Aligned(b.page, b.order) && Aligned(c.page, c.order)
    requires forall p: nat | Inside(p, b) :: !Inside(p, c)
    ensures Apart(b, c)
  {
    hide Pow2, Head;
    var p := if b.page < c.page then c.page else b.page;
    InBlock(p, b.page, b.order);
    InBlock(p, c.page, c.order);
    assert Inside(p, b) ==> !Inside(p, c);
    SizePositive(b.order);
    SizePositive(c.order);
  }

  lemma OutIsTaken(st: State, n: nat, given: Lists, b: Block)
    requires Sound(st, n, given) && |st.lists| == HIGH + 1 && b in st.live
    ensures Aligned(b.page, b.order) && b.page < n && b.page + Pow2(b.order) <= n && Taken(st.lists, b.order, b.page)
  {
    hide Pow2, Shr, Shl;
    SizePositive(b.order);
    forall p: nat | Head(p, b.order) == b.page
      ensures !Free(st.lists, p)
    {
      assert Inside(p, b);
    }
  }

  // ------------------------------------------------------------------ whole steps

  /** The cache after slab p has moved from one list to another. */
  function Moved(c: Cache, p: nat, from: Kind, to: Kind): (c': Cache) {
    if from == to then c
    else c.With(from, Minus(c.List(from), p), c.Count(from) - 1).With(to, [p] + c.List(to), c.Count(to) + 1)
  }

  lemma MovedIsRefiled(h: Heap, h': Heap, i: CacheIndex, p: nat, c: Cache, c': Cache, from: Kind, to: Kind)
    requires OnList(h, i, from, p) && OnList(h', i, to, p)
    requires forall k: Kind ::
              c'.List(k) == Moved(c, p, from, to).List(k) && c'.Count(k) == Moved(c, p, from, to).Count(k)
    ensures Refiled(h, h', i, p, c, c')
  {
    hide Minus;
  }

  lemma TakenRight(h: Heap, live: set<Block>, hhdm: nat, i: CacheIndex, p: nat, c': Cache)
    requires HeapRight(h, live, hhdm) && p in h.active && SlabRight(h, live, hhdm, p)
    requires h.slabs[p].cache == i && h.free[p] != [] && h.slabs[p].freelist in h.words
    requires var c := h.caches[i];
             && Refiled(h, TakeFrom(h, hhdm, p), i, p, c, c') && |c'.full| <= i + 1
             && c'.totalObjs == c.totalObjs && c'.totalAllocated == c.totalAllocated + 1
    ensures HeapRight(TakeFrom(h, hhdm, p).(caches := h.caches[i := c']), live, hhdm)
  {
    hide SlabRight, PageRight, CacheRight, Refiled, Total, Addr, Body;
    FirstFree(h, live, hhdm, p);
    HasRecord(h, live, hhdm, p);
    assert Body(h, live, hhdm) by { BodyOf(h, live, hhdm); }
    TakenBody(h, live, hhdm, p);
    var h1 := TakeFrom(h, hhdm, p);
    var h' := h1.(caches := h.caches[i := c']);
    BodyFrame(h1, h', live, hhdm);
    ObjectAdded(h.objects, h.slabs[p].freelist, i);
    CachesKept(h, h', i, p) by { TakenCount(h, i); RefiledFrame(h, h1, h', i, p, h.caches[i], c'); }
  }

  lemma BodyOf(h: Heap, live: set<Block>, hhdm: nat)
    requires HeapRight(h, live, hhdm)
    ensures Body(h, live, hhdm)
  {
  }

  /** Slabs, pages and objects do not depend on the cache structures. */
  lemma BodyFrame(h: Heap, h': Heap, live: set<Block>, hhdm: nat)
    requires Body(h, live, hhdm) && h' == h.(caches := h'.caches)
    ensures SlabsRight(h', live, hhdm) && PagesRight(h', live) && ObjectsLocated(h', hhdm)
  {
    hide Chained, Marked, ObjectRight, FreeRight, Addr;
    forall p | p in h'.active
      ensures SlabRight(h', live, hhdm, p)
    {
      assert SlabRight(h, live, hhdm, p);
    }
    forall g: nat | g < |h'.pages|
      ensures PageRight(h', live, g)
    {
      assert PageRight(h, live, g);
    }
    forall a | a in h'.objects
      ensures Located(h', hhdm, a)
    {
      assert Located(h, hhdm, a);
      var q, m :| IsObject(h, hhdm, a, q, m);
      assert IsObject(h', hhdm, a, q, m);
    }
  }

  lemma RefiledFrame(h: Heap, h1: Heap, h': Heap, i: CacheIndex, p: nat, c: Cache, c': Cache)
    requires Refiled(h, h1, i, p, c, c') && h' == h1.(caches := h'.caches)
    ensures Refiled(h, h', i, p, c, c')
  {
    hide KindOf, Relisted;
    forall k: Kind
      ensures OnList(h', i, k, p) <==> OnList(h1, i, k, p)
    {
    }
  }

  lemma TakenCount(h: Heap, i: CacheIndex)
    requires |h.caches| == SIZES && CacheRight(h, i)
    ensures h.caches[i].totalAllocated == |ObjectsOf(h.objects, i)|
  {
  }

  /** All caches are right after a change at slab p of cache i. */
  lemma CachesKept(h: Heap, h': Heap, i: CacheIndex, p: nat)
    requires |h.caches| == SIZES && (forall j: CacheIndex :: CacheRight(h, j)) && OnlySlab(h, h', p)
    requires p in h.active ==> p in h.slabs && h.slabs[p].cache == i
    requires p in h'.active ==> p in h'.slabs && h'.slabs[p].cache == i
    requires |h'.caches| == SIZES && forall j: CacheIndex | j != i :: h'.caches[j] == h.caches[j]
    requires Refiled(h, h', i, p, h.caches[i], h'.caches[i]) && |h'.caches[i].full| <= i + 1
    requires h'.caches[i].totalObjs == h.caches[i].totalObjs + (if p in h'.active then Total(i) else 0)
                                                             - (if p in h.active then Total(i) else 0)
    requires h'.caches[i].totalAllocated == |ObjectsOf(h'.objects, i)|
    requires forall j: CacheIndex | j != i :: ObjectsOf(h'.objects, j) == ObjectsOf(h.objects, j)
    ensures forall j: CacheIndex :: CacheRight(h', j)
  {
    hide CacheRight, Refiled, OnlySlab, Total, ObjectsOf;
    forall j: CacheIndex
      ensures CacheRight(h', j)
    {
      if j == i {
        CacheStep(h, h', i, p);
      } else {
        OtherCache(h, h', i, p, j);
      }
    }
  }

  lemma GivenRight(h: Heap, live: set<Block>, hhdm: nat, i: CacheIndex, p: nat, k: nat, c': Cache)
    requires HeapRight(h, live, hhdm) && p in h.active && SlabRight(h, live, hhdm, p)
    requires h.slabs[p].cache == i && k < h.slabs[p].total && k !in h.free[p] && h.slabs[p].used > 0
    requires var c := h.caches[i];
             && Refiled(h, GiveTo(h, hhdm, p, k), i, p, c, c') && |c'.full| <= i + 1
             && c'.totalObjs == c.totalObjs && c'.totalAllocated == c.totalAllocated - 1
    ensures HeapRight(GiveTo(h, hhdm, p, k).(caches := h.caches[i := c']), live, hhdm)
  {
    hide SlabRight, PageRight, CacheRight, Refiled, Total, Addr, Body;
    HasRecord(h, live, hhdm, p);
    BodyOf(h, live, hhdm);
    GivenBody(h, live, hhdm, p, k);
    var h1 := GiveTo(h, hhdm, p, k);
    var h' := h1.(caches := h.caches[i := c']);
    BodyFrame(h1, h', live, hhdm);
    LiveObject(h, live, hhdm, p, k);
    ObjectRemoved(h.objects, Addr(hhdm, i, p, k), i);
    CachesKept(h, h', i, p) by { TakenCount(h, i); RefiledFrame(h, h1, h', i, p, h.caches[i], c'); }
  }

  lemma LiveObject(h: Heap, live: set<Block>, hhdm: nat, p: nat, k: nat)
    requires SlabRight(h, live, hhdm, p) && k < h.slabs[p].total && k !in h.free[p]
    ensures var a := Addr(hhdm, h.slabs[p].cache, p, k); a in h.objects && h.objects[a] == h.slabs[p].cache
  {
    assert ObjectRight(h.objects, hhdm, h.slabs[p].cache, p, k, h.free[p]);
  }

  lemma AddedRight(h: Heap, live: set<Block>, hhdm: nat, i: CacheIndex, p: nat, words': map<nat, nat>, c': Cache)
    requires HeapRight(h, live, hhdm) && Initialised(h.words, words', hhdm, i, p)
    requires FreshBlock(live, Block(SlabOrder(i), p)) && p + Span(i) <= |h.pages| && h.caches[i].full == []
    requires var c := h.caches[i];
             c' == c.(full := [p], fullCount := c.fullCount + 1, totalObjs := c.totalObjs + Total(i))
    ensures HeapRight(AddSlab(h, hhdm, i, p, words').(caches := h.caches[i := c']),
                      live + {Block(SlabOrder(i), p)}, hhdm)
  {
    hide SlabRight, PageRight, CacheRight, Total, Addr, Body, Initialised, FreshBlock, MarkPages, Iota, Span;
    BodyOf(h, live, hhdm);
    AddedBody(h, live, hhdm, i, p, words');
    var h1 := AddSlab(h, hhdm, i, p, words');
    var h' := h1.(caches := h.caches[i := c']);
    var live' := live + {Block(SlabOrder(i), p)};
    BodyFrame(h1, h', live', hhdm);
    assert h1.objects == h.objects;
    CachesKept(h, h', i, p) by { TakenCount(h, i); NewIsRefiled(h, h', i, p); }
  }

  lemma NewIsRefiled(h: Heap, h': Heap, i: CacheIndex, p: nat)
    requires |h.caches| == SIZES && |h'.caches| == SIZES && p !in h.active && OnList(h', i, FullKind, p)
    requires var c, c' := h.caches[i], h'.caches[i];
             c'.full == [p] + c.full && c'.fullCount == c.fullCount + 1
             && c'.partial == c.partial && c'.partialCount == c.partialCount
             && c'.empty == c.empty && c'.emptyCount == c.emptyCount
    ensures Refiled(h, h', i, p, h.caches[i], h'.caches[i])
  {
    hide Minus;
  }

  /** The last object of a slab comes back and the slab itself is given up. */
  lemma EvictedRight(h: Heap, live: set<Block>, hhdm: nat, i: CacheIndex, p: nat, k: nat, c': Cache)
    requires HeapRight(h, live, hhdm) && p in h.active && SlabRight(h, live, hhdm, p)
    requires h.slabs[p].cache == i && k < h.slabs[p].total && k !in h.free[p] && h.slabs[p].used == 1
    requires var c := h.caches[i];
             c' == c.(partial := Minus(c.partial, p), partialCount := c.partialCount - 1,
                      totalObjs := c.totalObjs - Total(i), totalAllocated := c.totalAllocated - 1)
    ensures HeapRight(DropSlab(GiveTo(h, hhdm, p, k), p).(caches := h.caches[i := c']),
                      live - {Block(SlabOrder(i), p)}, hhdm)
  {
    hide SlabRight, PageRight, CacheRight, Total, Addr, Body, UnmarkPages, Minus;
    HasRecord(h, live, hhdm, p);
    BodyOf(h, live, hhdm);
    GivenBody(h, live, hhdm, p, k);
    var h1 := GiveTo(h, hhdm, p, k);
    assert SlabRight(h1, live, hhdm, p) by { GivenSlab(h, live, hhdm, p, k); }
    var h2 := DropSlab(h1, p);
    DroppedBody(h1, live, hhdm, p);
    var h' := h2.(caches := h.caches[i := c']);
    BodyFrame(h2, h', live - {Block(SlabOrder(i), p)}, hhdm);
    LiveObject(h, live, hhdm, p, k);
    ObjectRemoved(h.objects, Addr(hhdm, i, p, k), i);
    FreeCount(h, live, hhdm, p);
    CachesKept(h, h', i, p) by { TakenCount(h, i); Parts(h, live, hhdm); GoneIsRefiled(h, h', i, p); }
  }

  lemma GoneIsRefiled(h: Heap, h': Heap, i: CacheIndex, p: nat)
    requires |h.caches| == SIZES && |h'.caches| == SIZES && p !in h'.active && OnList(h, i, PartialKind, p)
    requires var c, c' := h.caches[i], h'.caches[i];
             c'.full == c.full && c'.fullCount == c.fullCount
             && c'.partial == Minus(c.partial, p) && c'.partialCount == c.partialCount - 1
             && c'.empty == c.empty && c'.emptyCount == c.emptyCount
    ensures Refiled(h, h', i, p, h.caches[i], h'.caches[i])
  {
    hide Minus;
  }
}
