/**
 * What the elementary changes of the kernel heap do to its invariant: taking an object from a
 * slab, giving one back, adding a slab, dropping one, and moving a slab between lists.
 */
module SlabSteps {
  import opened Arith
  import opened BuddyRun
  import opened Links
  import opened SlabModel

  // ------------------------------------------------------------- slots and slabs

  /** The slab that a marked page belongs to (_find_corresponding_slab). */
  function Owner(pages: seq<PageRec>, g: nat): (p: nat)
    requires g < |pages|
  {
    if pages[g].head then g else pages[g].compHead
  }

  /** From the address of any object of a slab, live or free, the page marks lead to the slab. */
  lemma SlotOwner(h: Heap, live: set<Block>, hhdm: nat, p: nat, k: nat)
    requires SlabRight(h, live, hhdm, p) && k < h.slabs[p].total
    ensures var a := Addr(hhdm, h.slabs[p].cache, p, k);
            && a >= hhdm && PageOf(hhdm, a) < |h.pages| && Owner(h.pages, PageOf(hhdm, a)) == p
            && !h.pages[PageOf(hhdm, a)].buddy && (h.pages[PageOf(hhdm, a)].head || h.pages[PageOf(hhdm, a)].tail)
  {
    hide Span, ObjSize, Total, Addr, PageOf, Chained;
    AddrPage(hhdm, h.slabs[p].cache, p, k);
  }

  lemma SlabsApart(h: Heap, live: set<Block>, hhdm: nat, p: nat, q: nat)
    requires SlabRight(h, live, hhdm, p) && SlabRight(h, live, hhdm, q) && p < q
    ensures p + Span(h.slabs[p].cache) <= q
  {
    hide Span, ObjSize, Total, Addr, Chained, ObjectRight;
    assert h.pages[q].head;
  }

  /** Different objects, live or free, of the same or of different slabs, do not overlap. */
  lemma SlotsDisjoint(h: Heap, live: set<Block>, hhdm: nat, p: nat, k: nat, q: nat, m: nat)
    requires SlabRight(h, live, hhdm, p) && SlabRight(h, live, hhdm, q)
    requires k < h.slabs[p].total && m < h.slabs[q].total && (p, k) != (q, m)
    ensures var i, j := h.slabs[p].cache, h.slabs[q].cache;
            var a, b := Addr(hhdm, i, p, k), Addr(hhdm, j, q, m);
            a + ObjSize(i) <= b || b + ObjSize(j) <= a
  {
    hide Span, ObjSize, Total, Chained, ObjectRight, Offset, Marked, SlabRight;
    HasRecord(h, live, hhdm, p);
    HasRecord(h, live, hhdm, q);
    if p == q {
      if k < m {
        OffsetsApart(h.slabs[p].cache, k, m);
      } else {
        OffsetsApart(h.slabs[p].cache, m, k);
      }
    } else if p < q {
      BelowSlab(h, live, hhdm, p, k, q);
    } else {
      BelowSlab(h, live, hhdm, q, m, p);
    }
  }

  lemma BelowSlab(h: Heap, live: set<Block>, hhdm: nat, p: nat, k: nat, q: nat)
    requires SlabRight(h, live, hhdm, p) && SlabRight(h, live, hhdm, q) && p < q && k < h.slabs[p].total
    ensures Addr(hhdm, h.slabs[p].cache, p, k) + ObjSize(h.slabs[p].cache) <= hhdm + q * PAGE
  {
    hide Span, ObjSize, Total, Chained, ObjectRight, Offset, Marked;
    SlabsApart(h, live, hhdm, p, q);
    OffsetBounds(h.slabs[p].cache, k);
  }

  lemma AddrsDiffer(h: Heap, live: set<Block>, hhdm: nat, p: nat, k: nat, q: nat, m: nat)
    requires SlabRight(h, live, hhdm, p) && SlabRight(h, live, hhdm, q)
    requires k < h.slabs[p].total && m < h.slabs[q].total && (p, k) != (q, m)
    ensures Addr(hhdm, h.slabs[p].cache, p, k) != Addr(hhdm, h.slabs[q].cache, q, m)
  {
    hide Span, ObjSize, Total, Chained, ObjectRight, Offset, Marked, SlabRight, Addr;
    SlotsDisjoint(h, live, hhdm, p, k, q, m);
  }

  /** No two live objects overlap. */
  lemma ObjectsDisjoint(h: Heap, live: set<Block>, hhdm: nat, a: nat, b: nat)
    requires HeapRight(h, live, hhdm) && a in h.objects && b in h.objects && a != b
    ensures h.objects[a] < SIZES && h.objects[b] < SIZES
    ensures a + ObjSize(h.objects[a]) <= b || b + ObjSize(h.objects[b]) <= a
  {
    hide Span, ObjSize, Total, Chained, Offset, Marked, Addr, CacheRight, PagesRight;
    assert Located(h, hhdm, a) && Located(h, hhdm, b);
    var p, k :| IsObject(h, hhdm, a, p, k);
    var q, m :| IsObject(h, hhdm, b, q, m);
    assert SlabRight(h, live, hhdm, p) && SlabRight(h, live, hhdm, q);
    assert ObjectRight(h.objects, hhdm, h.slabs[p].cache, p, k, h.free[p]);
    assert ObjectRight(h.objects, hhdm, h.slabs[q].cache, q, m, h.free[q]);
    SlotsDisjoint(h, live, hhdm, p, k, q, m);
  }

  /** Slabs, pages and objects, without the caches. */
  ghost predicate Body(h: Heap, live: set<Block>, hhdm: nat) {
    SlabsRight(h, live, hhdm) && PagesRight(h, live) && ObjectsLocated(h, hhdm)
  }

  /** h and h' agree outside slab p and outside one object of it, at address a. */
  ghost predicate SameBut(h: Heap, h': Heap, p: nat, a: nat) {
    && h'.pages == h.pages && h'.active == h.active
    && (forall q | q in h.slabs && q != p :: q in h'.slabs && h'.slabs[q] == h.slabs[q])
    && (forall q | q in h.free && q != p :: q in h'.free && h'.free[q] == h.free[q])
    && (forall x | x in h.words && x != a :: x in h'.words && h'.words[x] == h.words[x])
    && (forall x | x in h.objects && x != a :: x in h'.objects && h'.objects[x] == h.objects[x])
    && (forall x | x in h'.objects && x != a :: x in h.objects)
  }

  lemma OtherSlab(h: Heap, h': Heap, live: set<Block>, hhdm: nat, p: nat, k: nat, q: nat)
    requires SlabRight(h, live, hhdm, p) && SlabRight(h, live, hhdm, q) && p != q && k < h.slabs[p].total
    requires SameBut(h, h', p, Addr(hhdm, h.slabs[p].cache, p, k))
    ensures SlabRight(h', live, hhdm, q)
  {
    hide Span, ObjSize, Total, Offset, Marked, Addr;
    var j, f := h.slabs[q].cache, h.free[q];
    forall m: nat | m < h.slabs[q].total
      ensures ObjectRight(h'.objects, hhdm, j, q, m, f) && Addr(hhdm, j, q, m) != Addr(hhdm, h.slabs[p].cache, p, k)
    {
      AddrsDiffer(h, live, hhdm, p, k, q, m);
      assert ObjectRight(h.objects, hhdm, j, q, m, f);
    }
    forall n: nat | n < |f|
      ensures Link(hhdm, j, q, f, n) in h'.words && h'.words[Link(hhdm, j, q, f, n)] == Link(hhdm, j, q, f, n + 1)
    {
      assert f[n] in f;
    }
  }

  lemma PagesKept(h: Heap, h': Heap, live: set<Block>, p: nat)
    requires PagesRight(h, live) && h'.pages == h.pages && h'.active == h.active
    requires forall q | q in h.slabs :: q in h'.slabs && h'.slabs[q].cache == h.slabs[q].cache
    ensures PagesRight(h', live)
  {
    forall g: nat | g < |h'.pages|
      ensures PageRight(h', live, g)
    {
      assert PageRight(h, live, g);
    }
  }

  // ---------------------------------------------------------------- taking

  /** The first free object of slab p becomes live. */
  ghost function TakeFrom(h: Heap, hhdm: nat, p: nat): (h': Heap)
    requires p in h.slabs && p in h.free && h.free[p] != [] && h.slabs[p].freelist in h.words
  {
    var s, f := h.slabs[p], h.free[p];
    h.(slabs := h.slabs[p := s.(freelist := h.words[s.freelist], used := s.used + 1)],
       free := h.free[p := f[1..]],
       objects := h.objects[Addr(hhdm, s.cache, p, f[0]) := s.cache])
  }

  lemma FirstFree(h: Heap, live: set<Block>, hhdm: nat, p: nat)
    requires SlabRight(h, live, hhdm, p) && hhdm > 0
    ensures h.free[p] != [] <==> h.slabs[p].freelist != 0
    ensures h.free[p] != [] ==>
              && h.slabs[p].freelist == Addr(hhdm, h.slabs[p].cache, p, h.free[p][0]) && h.slabs[p].freelist in h.words
              && h.free[p][0] < h.slabs[p].total && h.slabs[p].freelist !in h.objects
              && (h.words[h.slabs[p].freelist] == 0 <==> |h.free[p]| == 1)
  {
    hide Span, ObjSize, Total, Offset, Marked;
    var s, f := h.slabs[p], h.free[p];
    if f != [] {
      assert f[0] in f;
      assert ObjectRight(h.objects, hhdm, s.cache, p, f[0], f);
      var first := Link(hhdm, s.cache, p, f, 0);
      assert first in h.words && h.words[first] == Link(hhdm, s.cache, p, f, 0 + 1);
    }
  }

  lemma TakenSlab(h: Heap, live: set<Block>, hhdm: nat, p: nat)
    requires SlabRight(h, live, hhdm, p) && h.free[p] != [] && h.slabs[p].freelist in h.words
    ensures SlabRight(TakeFrom(h, hhdm, p), live, hhdm, p)
  {
    hide Span, ObjSize, Total, Offset, Marked, Addr;
    var h' := TakeFrom(h, hhdm, p);
    var s, f := h.slabs[p], h.free[p];
    var f' := f[1..];
    assert f[0] in f;
    assert forall j: nat | j < |f| :: Link(hhdm, s.cache, p, f', j) == Link(hhdm, s.cache, p, f, j + 1);
    forall j: nat | j < |f'|
      ensures Link(hhdm, s.cache, p, f', j) in h.words
      ensures h.words[Link(hhdm, s.cache, p, f', j)] == Link(hhdm, s.cache, p, f', j + 1)
    {
      assert Link(hhdm, s.cache, p, f, j + 1) in h.words;
    }
    forall k: nat | k < s.total
      ensures ObjectRight(h'.objects, hhdm, s.cache, p, k, f')
    {
      assert ObjectRight(h.objects, hhdm, s.cache, p, k, f);
      AddrInjective(hhdm, s.cache, p, k, f[0]);
      TailMember(f, k);
    }
    assert Link(hhdm, s.cache, p, f, 0) in h.words && h.words[s.freelist] == Link(hhdm, s.cache, p, f, 0 + 1);
    forall k | k in f'
      ensures k in f
    {
      TailMember(f, k);
    }
  }

  lemma TailMember(f: seq<nat>, k: nat)
    requires Distinct(f) && f != []
    ensures k in f[1..] <==> k in f && k != f[0]
  {
    if k in f && k != f[0] {
      var j :| 0 <= j < |f| && f[j] == k;
      assert f[1..][j - 1] == k;
    }
  }

  lemma TakenBody(h: Heap, live: set<Block>, hhdm: nat, p: nat)
    requires Body(h, live, hhdm) && hhdm > 0 && p in h.active && p in h.free && h.free[p] != []
    ensures SlabRight(h, live, hhdm, p) && h.slabs[p].freelist in h.words
    ensures Body(TakeFrom(h, hhdm, p), live, hhdm)
  {
    hide Span, ObjSize, Total, Offset, Marked, Addr, SlabRight, PageRight, Chained;
    assert SlabRight(h, live, hhdm, p);
    FirstFree(h, live, hhdm, p);
    assert p in h.slabs by { HasRecord(h, live, hhdm, p); }
    var h' := TakeFrom(h, hhdm, p);
    var s, f := h.slabs[p], h.free[p];
    var a := Addr(hhdm, s.cache, p, f[0]);
    assert SameBut(h, h', p, a);
    forall q | q in h'.active
      ensures SlabRight(h', live, hhdm, q)
    {
      if q == p {
        TakenSlab(h, live, hhdm, p);
      } else {
        OtherSlab(h, h', live, hhdm, p, f[0], q);
      }
    }
    PagesKept(h, h', live, p);
    forall x | x in h'.objects
      ensures Located(h', hhdm, x)
    {
      TakenLocated(h, live, hhdm, p, x);
    }
  }

  lemma HasRecord(h: Heap, live: set<Block>, hhdm: nat, p: nat)
    requires SlabRight(h, live, hhdm, p)
    ensures p in h.slabs && p in h.free && Distinct(h.free[p]) && forall k | k in h.free[p] :: k < h.slabs[p].total
    ensures Block(SlabOrder(h.slabs[p].cache), p) in live
  {
  }

  lemma TakenLocated(h: Heap, live: set<Block>, hhdm: nat, p: nat, x: nat)
    requires ObjectsLocated(h, hhdm) && SlabRight(h, live, hhdm, p) && h.free[p] != [] && h.slabs[p].freelist in h.words
    requires p in h.active && x in TakeFrom(h, hhdm, p).objects
    ensures Located(TakeFrom(h, hhdm, p), hhdm, x)
  {
    hide Span, ObjSize, Total, Offset, Marked, Addr, PageRight, Chained;
    var h' := TakeFrom(h, hhdm, p);
    var f := h.free[p];
    HasRecord(h, live, hhdm, p);
    if x == Addr(hhdm, h.slabs[p].cache, p, f[0]) {
      TailMember(f, f[0]);
      assert f[0] in f;
      assert IsObject(h', hhdm, x, p, f[0]);
    } else {
      assert Located(h, hhdm, x);
      var q, m :| IsObject(h, hhdm, x, q, m);
      if q == p {
        TailMember(f, m);
      }
      assert IsObject(h', hhdm, x, q, m);
    }
  }

  // ---------------------------------------------------------------- giving back

  /** Object k of slab p goes to the front of the free list. */
  ghost function GiveTo(h: Heap, hhdm: nat, p: nat, k: nat): (h': Heap)
    requires p in h.slabs && p in h.free && h.slabs[p].used > 0
  {
    var s := h.slabs[p];
    var a := Addr(hhdm, s.cache, p, k);
    h.(slabs := h.slabs[p := s.(freelist := a, used := s.used - 1)],
       words := h.words[a := s.freelist],
       free := h.free[p := [k] + h.free[p]],
       objects := h.objects - {a})
  }

  /** The free list has no room for more than the objects of the slab. */
  lemma UsedPositive(h: Heap, live: set<Block>, hhdm: nat, p: nat, k: nat)
    requires SlabRight(h, live, hhdm, p) && k < h.slabs[p].total && k !in h.free[p]
    ensures h.slabs[p].used > 0
  {
    hide Span, ObjSize, Offset, Marked, Addr, Chained, ObjectRight;
    var f := h.free[p] + [k];
    assert Distinct(f) && forall x | x in f :: x < h.slabs[p].total;
    Pigeonhole(f, h.slabs[p].total);
  }

  lemma {:induction false} Pigeonhole(f: seq<nat>, n: nat)
    requires Distinct(f) && forall k | k in f :: k < n
    ensures |f| <= n
    decreases n
  {
    if n > 0 {
      if n - 1 in f {
        var j :| 0 <= j < |f| && f[j] == n - 1;
        var g := f[..j] + f[j + 1..];
        assert forall x | 0 <= x < |g| :: g[x] == f[if x < j then x else x + 1];
        forall k | k in g
          ensures k in f && k != n - 1
        {
          var x :| 0 <= x < |g| && g[x] == k;
          assert f[if x < j then x else x + 1] == k;
        }
        Pigeonhole(g, n - 1);
      } else {
        Pigeonhole(f, n - 1);
      }
    }
    assert f != [] ==> f[0] in f;
  }

  lemma GivenSlab(h: Heap, live: set<Block>, hhdm: nat, p: nat, k: nat)
    requires SlabRight(h, live, hhdm, p) && k < h.slabs[p].total && k !in h.free[p] && h.slabs[p].used > 0
    ensures SlabRight(GiveTo(h, hhdm, p, k), live, hhdm, p)
  {
    hide Span, ObjSize, Total, Offset, Marked, Addr;
    var h' := GiveTo(h, hhdm, p, k);
    var s, f := h.slabs[p], h.free[p];
    var f' := [k] + f;
    forall j: nat | j < |f'|
      ensures Link(hhdm, s.cache, p, f', j) in h'.words
      ensures h'.words[Link(hhdm, s.cache, p, f', j)] == Link(hhdm, s.cache, p, f', j + 1)
    {
      if j > 0 {
        assert Link(hhdm, s.cache, p, f', j) == Link(hhdm, s.cache, p, f, j - 1);
        assert Link(hhdm, s.cache, p, f', j + 1) == Link(hhdm, s.cache, p, f, j);
        assert f[j - 1] in f;
        AddrInjective(hhdm, s.cache, p, k, f[j - 1]);
        assert Link(hhdm, s.cache, p, f, j - 1) in h.words;
      } else {
        assert Link(hhdm, s.cache, p, f', 1) == Link(hhdm, s.cache, p, f, 0);
      }
    }
    forall m: nat | m < s.total
      ensures ObjectRight(h'.objects, hhdm, s.cache, p, m, f')
    {
      assert ObjectRight(h.objects, hhdm, s.cache, p, m, f);
      AddrInjective(hhdm, s.cache, p, m, k);
    }
  }

  lemma GivenBody(h: Heap, live: set<Block>, hhdm: nat, p: nat, k: nat)
    requires Body(h, live, hhdm) && p in h.active && SlabRight(h, live, hhdm, p)
    requires k < h.slabs[p].total && k !in h.free[p]
    ensures h.slabs[p].used > 0 && Body(GiveTo(h, hhdm, p, k), live, hhdm)
  {
    hide Span, ObjSize, Total, Offset, Marked, Addr, SlabRight, PageRight, Chained;
    UsedPositive(h, live, hhdm, p, k);
    HasRecord(h, live, hhdm, p);
    var h' := GiveTo(h, hhdm, p, k);
    var a := Addr(hhdm, h.slabs[p].cache, p, k);
    assert SameBut(h, h', p, a);
    forall q | q in h'.active
      ensures SlabRight(h', live, hhdm, q)
    {
      if q == p {
        GivenSlab(h, live, hhdm, p, k);
      } else {
        OtherSlab(h, h', live, hhdm, p, k, q);
      }
    }
    PagesKept(h, h', live, p);
    forall x | x in h'.objects
      ensures Located(h', hhdm, x)
    {
      assert Located(h, hhdm, x);
      var q, m :| IsObject(h, hhdm, x, q, m);
      assert IsObject(h', hhdm, x, q, m);
    }
  }

  // ---------------------------------------------------------------- a new slab

  /** Two blocks have no page in common. */
  predicate Apart(b: Block, c: Block) {
    b.page + Pow2(b.order) <= c.page || c.page + Pow2(c.order) <= b.page
  }

  ghost predicate FreshBlock(live: set<Block>, b: Block) {
    forall c | c in live :: Apart(b, c)
  }

  /** _mark_composite_page. */
  function MarkPages(pages: seq<PageRec>, p: nat, n: nat): (r: seq<PageRec>)
    ensures |r| == |pages|
  {
    seq(|pages|, g requires 0 <= g < |pages| =>
      if g == p then pages[g].(head := true)
      else if p < g < p + n then pages[g].(tail := true, compHead := p)
      else pages[g])
  }

  /** _unmark_composite_page. */
  function UnmarkPages(pages: seq<PageRec>, p: nat, n: nat): (r: seq<PageRec>)
    ensures |r| == |pages|
  {
    seq(|pages|, g requires 0 <= g < |pages| =>
      if g == p then pages[g].(head := false)
      else if p < g < p + n then pages[g].(tail := false)
      else pages[g])
  }

  /** A marked page lies in a block that is out. */
  lemma Holder(h: Heap, live: set<Block>, hhdm: nat, g: nat) returns (c: Block)
    requires SlabsRight(h, live, hhdm) && PagesRight(h, live) && g < |h.pages|
    ensures h.pages[g].head || h.pages[g].tail || h.pages[g].buddy ==> c in live && c.page <= g < c.page + Pow2(c.order)
  {
    hide Total, ObjSize, Chained, ObjectRight, Marked, Pow2, Span;
    assert PageRight(h, live, g);
    var r := h.pages[g];
    c := Block(0, 0);
    if r.head || r.tail {
      var q := if r.head then g else r.compHead;
      assert SlabRight(h, live, hhdm, q);
      c := Block(SlabOrder(h.slabs[q].cache), q);
      Geometry(h.slabs[q].cache);
    } else if r.buddy {
      c := Block(r.order, g);
      SizePositive(r.order);
    }
  }

  /** Pages of a block that nobody held carry no marks, so marking it cannot panic. */
  lemma CleanPages(h: Heap, live: set<Block>, hhdm: nat, b: Block, g: nat)
    requires SlabsRight(h, live, hhdm) && PagesRight(h, live) && FreshBlock(live, b)
    requires b.page <= g < b.page + Pow2(b.order) <= |h.pages|
    ensures !h.pages[g].head && !h.pages[g].tail && !h.pages[g].buddy
  {
    hide SlabsRight, PagesRight, Pow2;
    var c := Holder(h, live, hhdm, g);
    assert c in live ==> Apart(b, c);
  }

  lemma SizePositive(o: nat)
    ensures Pow2(o) > 0
  {
  }

  function Iota(n: nat): (f: seq<nat>)
    ensures |f| == n && Distinct(f) && forall k: nat | k < n :: f[k] == k
  {
    seq(n, k requires 0 <= k => k)
  }

  /** Slab p of cache i joins, with all objects free in ascending order. */
  ghost function AddSlab(h: Heap, hhdm: nat, i: CacheIndex, p: nat, words': map<nat, nat>): (h': Heap) {
    h.(slabs := h.slabs[p := Slab(i, Addr(hhdm, i, p, 0), 0, Total(i))],
       pages := MarkPages(h.pages, p, Span(i)), words := words', active := h.active + {p},
       free := h.free[p := Iota(Total(i))])
  }

  predicate InSlab(hhdm: nat, i: CacheIndex, p: nat, x: nat) {
    hhdm + p * PAGE <= x < hhdm + (p + Span(i)) * PAGE
  }

  /** Only memory of slab p was written, and it chains up all its objects. */
  ghost predicate Initialised(words: map<nat, nat>, words': map<nat, nat>, hhdm: nat, i: CacheIndex, p: nat) {
    && Chained(words', hhdm, i, p, Iota(Total(i)))
    && forall x | x in words && !InSlab(hhdm, i, p, x) :: x in words' && words'[x] == words[x]
  }

  lemma ElsewhereSlot(h: Heap, live: set<Block>, hhdm: nat, i: CacheIndex, p: nat, q: nat, m: nat)
    requires SlabRight(h, live, hhdm, q) && m < h.slabs[q].total
    requires Apart(Block(SlabOrder(i), p), Block(SlabOrder(h.slabs[q].cache), q))
    ensures !InSlab(hhdm, i, p, Addr(hhdm, h.slabs[q].cache, q, m))
  {
    hide ObjSize, Span, Total, Chained, ObjectRight, Marked, Pow2;
    Geometry(i);
    Geometry(h.slabs[q].cache);
    OffsetBounds(h.slabs[q].cache, m);
    if p + Span(i) <= q {
      MulLe(p + Span(i), q, PAGE);
    } else {
      MulLe(q + Span(h.slabs[q].cache), p, PAGE);
    }
  }

  lemma SlotInSlab(hhdm: nat, i: CacheIndex, p: nat, k: nat)
    requires k < Total(i)
    ensures InSlab(hhdm, i, p, Addr(hhdm, i, p, k))
  {
    hide ObjSize, Span, Total;
    OffsetBounds(i, k);
  }

  lemma AddedOther(h: Heap, live: set<Block>, hhdm: nat, i: CacheIndex, p: nat, words': map<nat, nat>, q: nat)
    requires SlabRight(h, live, hhdm, q) && Initialised(h.words, words', hhdm, i, p)
    requires FreshBlock(live, Block(SlabOrder(i), p))
    ensures SlabRight(AddSlab(h, hhdm, i, p, words'), live + {Block(SlabOrder(i), p)}, hhdm, q)
  {
    hide ObjSize, Span, Total, Pow2, Addr, InSlab, Iota;
    var j, f := h.slabs[q].cache, h.free[q];
    var b := Block(SlabOrder(j), q);
    assert Apart(Block(SlabOrder(i), p), b);
    Geometry(i);
    Geometry(j);
    var h' := AddSlab(h, hhdm, i, p, words');
    assert q != p;
    forall n: nat | n < |f|
      ensures Link(hhdm, j, q, f, n) in words' && words'[Link(hhdm, j, q, f, n)] == Link(hhdm, j, q, f, n + 1)
    {
      assert f[n] in f;
      ElsewhereSlot(h, live, hhdm, i, p, q, f[n]);
      assert Link(hhdm, j, q, f, n) in h.words;
    }
  }

  lemma AddedSlab(h: Heap, live: set<Block>, hhdm: nat, i: CacheIndex, p: nat, words': map<nat, nat>)
    requires Body(h, live, hhdm) && Initialised(h.words, words', hhdm, i, p)
    requires FreshBlock(live, Block(SlabOrder(i), p)) && p + Span(i) <= |h.pages|
    ensures SlabRight(AddSlab(h, hhdm, i, p, words'), live + {Block(SlabOrder(i), p)}, hhdm, p)
  {
    hide ObjSize, Span, Total, Pow2, Addr, InSlab, Chained, PagesRight, SlabsRight, SlabRight;
    var h' := AddSlab(h, hhdm, i, p, words');
    var f := Iota(Total(i));
    var b := Block(SlabOrder(i), p);
    Geometry(i);
    forall g: nat | p <= g < p + Span(i)
      ensures !h.pages[g].head && !h.pages[g].tail && !h.pages[g].buddy
    {
      CleanPages(h, live, hhdm, b, g);
    }
    assert Marked(h'.pages, p, Span(i));
    forall k: nat | k < Total(i)
      ensures ObjectRight(h'.objects, hhdm, i, p, k, f)
    {
      assert f[k] == k;
      NoObjectThere(h, live, hhdm, i, p, k);
    }
    assert SlabRight(h', live + {b}, hhdm, p) by { AddedSlabParts(h', live + {b}, hhdm, i, p); }
  }

  lemma AddedSlabParts(h': Heap, live': set<Block>, hhdm: nat, i: CacheIndex, p: nat)
    requires p in h'.slabs && p in h'.free && h'.free[p] == Iota(Total(i))
    requires h'.slabs[p] == Slab(i, Addr(hhdm, i, p, 0), 0, Total(i))
    requires Chained(h'.words, hhdm, i, p, Iota(Total(i)))
    requires Marked(h'.pages, p, Span(i)) && Block(SlabOrder(i), p) in live'
    requires forall k: nat | k < Total(i) :: ObjectRight(h'.objects, hhdm, i, p, k, Iota(Total(i)))
    ensures SlabRight(h', live', hhdm, p)
  {
    hide ObjSize, Span, Addr, Chained, Marked, ObjectRight;
  }

  lemma NoObjectThere(h: Heap, live: set<Block>, hhdm: nat, i: CacheIndex, p: nat, k: nat)
    requires SlabsRight(h, live, hhdm) && ObjectsLocated(h, hhdm)
    requires FreshBlock(live, Block(SlabOrder(i), p)) && k < Total(i)
    ensures Addr(hhdm, i, p, k) !in h.objects
  {
    hide ObjSize, Span, Total, Pow2, Addr, InSlab, Chained, SlabRight;
    var a := Addr(hhdm, i, p, k);
    if a in h.objects {
      assert Located(h, hhdm, a);
      var q, m :| IsObject(h, hhdm, a, q, m);
      assert SlabRight(h, live, hhdm, q);
      HasRecord(h, live, hhdm, q);
      assert Apart(Block(SlabOrder(i), p), Block(SlabOrder(h.slabs[q].cache), q));
      ElsewhereSlot(h, live, hhdm, i, p, q, m);
      SlotInSlab(hhdm, i, p, k);
    }
  }

  lemma AddedBody(h: Heap, live: set<Block>, hhdm: nat, i: CacheIndex, p: nat, words': map<nat, nat>)
    requires Body(h, live, hhdm) && Initialised(h.words, words', hhdm, i, p)
    requires FreshBlock(live, Block(SlabOrder(i), p)) && p + Span(i) <= |h.pages|
    ensures p !in h.active && Body(AddSlab(h, hhdm, i, p, words'), live + {Block(SlabOrder(i), p)}, hhdm)
  {
    hide ObjSize, Span, Total, Pow2, Addr, InSlab, Chained, SlabRight, PageRight, Initialised, MarkPages;
    var h' := AddSlab(h, hhdm, i, p, words');
    var b := Block(SlabOrder(i), p);
    NotActive(h, live, hhdm, b);
    forall q | q in h'.active
      ensures SlabRight(h', live + {b}, hhdm, q)
    {
      if q == p {
        AddedSlab(h, live, hhdm, i, p, words');
      } else {
        AddedOther(h, live, hhdm, i, p, words', q);
      }
    }
    forall g: nat | g < |h'.pages|
      ensures PageRight(h', live + {b}, g)
    {
      AddedPage(h, live, hhdm, i, p, words', g);
    }
    forall x | x in h'.objects
      ensures Located(h', hhdm, x)
    {
      assert Located(h, hhdm, x);
      var q, m :| IsObject(h, hhdm, x, q, m);
      assert IsObject(h', hhdm, x, q, m);
    }
  }

  lemma NotActive(h: Heap, live: set<Block>, hhdm: nat, b: Block)
    requires SlabsRight(h, live, hhdm) && FreshBlock(live, b)
    ensures b.page !in h.active
  {
    hide Pow2, Chained, ObjectRight, Marked;
    if b.page in h.active {
      assert SlabRight(h, live, hhdm, b.page);
      var c := Block(SlabOrder(h.slabs[b.page].cache), b.page);
      assert Apart(b, c);
      SizePositive(b.order);
      SizePositive(c.order);
    }
  }

  lemma AddedPage(h: Heap, live: set<Block>, hhdm: nat, i: CacheIndex, p: nat, words': map<nat, nat>, g: nat)
    requires Body(h, live, hhdm) && FreshBlock(live, Block(SlabOrder(i), p))
    requires p + Span(i) <= |h.pages| && g < |h.pages|
    ensures PageRight(AddSlab(h, hhdm, i, p, words'), live + {Block(SlabOrder(i), p)}, g)
  {
    hide ObjSize, Span, Total, Pow2, Addr, Chained, SlabRight, SlabsRight, ObjectsLocated;
    assert PageRight(h, live, g);
    Geometry(i);
    NotActive(h, live, hhdm, Block(SlabOrder(i), p));
    if p <= g < p + Span(i) {
      CleanPages(h, live, hhdm, Block(SlabOrder(i), p), g);
    }
  }

  // ---------------------------------------------------------------- dropping a slab

  /** A wholly free slab leaves. */
  ghost function DropSlab(h: Heap, p: nat): (h': Heap)
    requires p in h.slabs
  {
    h.(pages := UnmarkPages(h.pages, p, Span(h.slabs[p].cache)), active := h.active - {p})
  }

  lemma DroppedBody(h: Heap, live: set<Block>, hhdm: nat, p: nat)
    requires Body(h, live, hhdm) && p in h.active && SlabRight(h, live, hhdm, p) && h.slabs[p].used == 0
    ensures Body(DropSlab(h, p), live - {Block(SlabOrder(h.slabs[p].cache), p)}, hhdm)
  {
    hide ObjSize, Span, Total, Pow2, Addr, InSlab, Chained, SlabRight, PageRight, UnmarkPages;
    HasRecord(h, live, hhdm, p);
    var h' := DropSlab(h, p);
    var live' := live - {Block(SlabOrder(h.slabs[p].cache), p)};
    forall q | q in h'.active
      ensures SlabRight(h', live', hhdm, q)
    {
      DroppedOther(h, live, hhdm, p, q);
    }
    forall g: nat | g < |h'.pages|
      ensures PageRight(h', live', g)
    {
      DroppedPage(h, live, hhdm, p, g);
    }
    forall x | x in h'.objects
      ensures Located(h', hhdm, x)
    {
      assert Located(h, hhdm, x);
      var q, m :| IsObject(h, hhdm, x, q, m);
      if q == p {
        UsedPositive(h, live, hhdm, p, m);
      }
      assert IsObject(h', hhdm, x, q, m);
    }
  }

  lemma DroppedOther(h: Heap, live: set<Block>, hhdm: nat, p: nat, q: nat)
    requires SlabRight(h, live, hhdm, p) && SlabRight(h, live, hhdm, q) && p != q
    ensures SlabRight(DropSlab(h, p), live - {Block(SlabOrder(h.slabs[p].cache), p)}, hhdm, q)
  {
    hide ObjSize, Span, Total, Pow2, Addr, InSlab, Chained, ObjectRight;
    if p < q {
      SlabsApart(h, live, hhdm, p, q);
    } else {
      SlabsApart(h, live, hhdm, q, p);
    }
  }

  lemma DroppedPage(h: Heap, live: set<Block>, hhdm: nat, p: nat, g: nat)
    requires SlabRight(h, live, hhdm, p) && g < |h.pages| && PageRight(h, live, g)
    ensures PageRight(DropSlab(h, p), live - {Block(SlabOrder(h.slabs[p].cache), p)}, g)
  {
    hide ObjSize, Total, Pow2, Addr, InSlab, Chained, ObjectRight;
    var h' := DropSlab(h, p);
    var r := h.pages[g];
    if r.tail && r.compHead == p {
      assert p < g < p + Span(h.slabs[p].cache) || g == p;
    }
  }
}
