/**
 * The state of the kernel heap (kernel/src/mm/slab.c): caches of equally sized objects, slabs
 * of pages cut into objects, free lists threaded through the free objects, and what must hold
 * of them between operations.
 */
module SlabModel {
  import opened Arith
  import opened BuddyRun
  import opened Links

  const PAGE := 0x1000
  const SIZES := 10

  type CacheIndex = i: int | 0 <= i < SIZES witness 0

  // ----------------------------------------------------------------- geometry

  /** The raw size of the objects of a cache: 1 << (i + 4). */
  function ObjSize(i: CacheIndex): (z: nat)
    ensures z >= 16
  {
    match i
    case 0 => 16 case 1 => 32 case 2 => 64 case 3 => 128 case 4 => 256
    case 5 => 512 case 6 => 1024 case 7 => 2048 case 8 => 4096 case 9 => 8192
  }

  /** size2order: how often a size can be halved before it reaches one. */
  function Size2Order(size: nat): (o: nat)
    decreases size
  {
    if size > 1 then 1 + Size2Order(size / 2) else 0
  }

  const PPS_MAPPINGS := [1, 1, 1, 1, 2, 4, 8, 8, 16, 16]

  /** pages_per_slab, as init_slab_cache looks it up. */
  function PagesPerSlab(i: CacheIndex): (n: int) {
    var j := Size2Order(ObjSize(i) / 32);
    if j < |PPS_MAPPINGS| then PPS_MAPPINGS[j] else 0
  }

  /** Pages and objects of a slab, and the order of its block. */
  function Span(i: CacheIndex): (n: nat)
    ensures n > 0
  {
    if i < 5 then 1 else if i == 5 then 2 else if i == 6 then 4 else if i < 9 then 8 else 16
  }

  function SlabOrder(i: CacheIndex): (o: nat)
    ensures o <= 4
  {
    if i < 5 then 0 else if i < 8 then i - 4 else i - 5
  }

  function Total(i: CacheIndex): (n: nat)
    ensures n >= 8
  {
    match i
    case 0 => 256 case 1 => 128 case 2 => 64 case 3 => 32 case 4 => 16
    case 5 => 16 case 6 => 16 case 7 => 16 case 8 => 8 case 9 => 8
  }

  /** The lookup gives these values, the block that is requested has exactly that many pages (so
      the "check failed" panic of new_slab cannot fire), and its objects fill it. */
  lemma Geometry(i: CacheIndex)
    ensures PagesPerSlab(i) == Span(i) && Size2Order(Span(i)) == SlabOrder(i) && Pow2(SlabOrder(i)) == Span(i)
    ensures Total(i) == Span(i) * PAGE / ObjSize(i) && Total(i) * ObjSize(i) == Span(i) * PAGE
  {
    SmallOrders();
    SmallSizes();
  }

  lemma SmallOrders()
    ensures Size2Order(0) == Size2Order(1) == 0 && Size2Order(2) == 1 && Size2Order(4) == 2 && Size2Order(8) == 3
    ensures Size2Order(16) == 4 && Size2Order(32) == 5 && Size2Order(64) == 6
    ensures Size2Order(128) == 7 && Size2Order(256) == 8
  {
  }

  lemma SmallSizes()
    ensures Pow2(0) == 1 && Pow2(1) == 2 && Pow2(2) == 4 && Pow2(3) == 8 && Pow2(4) == 16
  {
  }

  // -------------------------------------------------------------------- slots

  /** The distance of object k from the start of its slab. */
  function Offset(i: CacheIndex, k: nat): (d: nat) {
    k * ObjSize(i)
  }

  lemma OffsetBounds(i: CacheIndex, k: nat)
    ensures k < Total(i) ==> Offset(i, k) + ObjSize(i) <= Span(i) * PAGE
  {
    if k < Total(i) {
      Geometry(i);
      MulLe(k + 1, Total(i), ObjSize(i));
    }
  }

  lemma MulLe(a: nat, b: nat, z: nat)
    requires a <= b
    ensures a * z <= b * z
  {
    assert (b - a) * z >= 0;
    assert b * z == a * z + (b - a) * z;
  }

  lemma OffsetsApart(i: CacheIndex, k: nat, m: nat)
    requires k < m
    ensures Offset(i, k) + ObjSize(i) <= Offset(i, m)
  {
    MulLe(k + 1, m, ObjSize(i));
  }

  /** The kernel address of object k of the slab that starts at page p. */
  function Addr(hhdm: nat, i: CacheIndex, p: nat, k: nat): (a: nat) {
    hhdm + p * PAGE + Offset(i, k)
  }

  /** The page an address lies in (phys2page). */
  function PageOf(hhdm: nat, a: nat): (g: nat)
    requires hhdm <= a
  {
    (a - hhdm) / PAGE
  }

  lemma AddrPage(hhdm: nat, i: CacheIndex, p: nat, k: nat)
    requires k < Total(i)
    ensures var a := Addr(hhdm, i, p, k); a >= hhdm && p <= PageOf(hhdm, a) < p + Span(i)
  {
    OffsetBounds(i, k);
  }

  lemma AddrInjective(hhdm: nat, i: CacheIndex, p: nat, k: nat, m: nat)
    ensures Addr(hhdm, i, p, k) == Addr(hhdm, i, p, m) <==> k == m
  {
    if k < m {
      OffsetsApart(i, k, m);
    } else if m < k {
      OffsetsApart(i, m, k);
    }
  }

  // -------------------------------------------------------------------- state

  /** struct page while it heads a slab. */
  datatype Slab = Slab(cache: CacheIndex, freelist: nat, used: nat, total: nat)

  /** Flag bits of a struct page, and the fields that go with them. */
  datatype PageRec = PageRec(head: bool, tail: bool, buddy: bool, compHead: nat, order: nat)

  datatype Kind = FullKind | PartialKind | EmptyKind

  /** struct slab_cache.  "full" slabs have all objects free, "empty" ones none. */
  datatype Cache = Cache(full: seq<nat>, partial: seq<nat>, empty: seq<nat>,
                         fullCount: int, partialCount: int, emptyCount: int, totalObjs: int, totalAllocated: int) {
    function List(k: Kind): (s: seq<nat>) {
      match k case FullKind => full case PartialKind => partial case EmptyKind => empty
    }

    function Count(k: Kind): (n: int) {
      match k case FullKind => fullCount case PartialKind => partialCount case EmptyKind => emptyCount
    }

    /** The list of that kind and its counter replaced. */
    function With(k: Kind, s: seq<nat>, n: int): (c: Cache) {
      match k
      case FullKind => this.(full := s, fullCount := n)
      case PartialKind => this.(partial := s, partialCount := n)
      case EmptyKind => this.(empty := s, emptyCount := n)
    }
  }

  /** The list a slab belongs on. */
  function KindOf(s: Slab): (k: Kind) {
    if s.used == 0 then FullKind else if s.used == s.total then EmptyKind else PartialKind
  }

  /** Everything that the heap operations touch.  `active` are the pages that head a slab,
      `free` the free objects of each slab in free-list order, `objects` the live objects with
      their caches. */
  datatype Heap = Heap(caches: seq<Cache>, slabs: map<nat, Slab>, pages: seq<PageRec>, words: map<nat, nat>,
                       active: set<nat>, free: map<nat, seq<nat>>, objects: map<nat, nat>)

  // ---------------------------------------------------------------- invariants

  /** The address a free-list link holds: 0 is the null pointer. */
  function Link(hhdm: nat, i: CacheIndex, p: nat, f: seq<nat>, j: nat): (a: nat) {
    if j < |f| then Addr(hhdm, i, p, f[j]) else 0
  }

  /** The first words of the free objects chain them up in the order f. */
  ghost predicate Chained(words: map<nat, nat>, hhdm: nat, i: CacheIndex, p: nat, f: seq<nat>) {
    forall j: nat | j < |f| ::
      Link(hhdm, i, p, f, j) in words && words[Link(hhdm, i, p, f, j)] == Link(hhdm, i, p, f, j + 1)
  }

  /** The pages of a slab carry its marks. */
  ghost predicate Marked(pages: seq<PageRec>, p: nat, n: nat) {
    && p + n <= |pages|
    && forall g: nat | p <= g < p + n ::
         && !pages[g].buddy
         && (if g == p then pages[g].head && !pages[g].tail
             else pages[g].tail && !pages[g].head && pages[g].compHead == p)
  }

  /** An object is live exactly if it is not on the free list. */
  ghost predicate ObjectRight(objects: map<nat, nat>, hhdm: nat, i: CacheIndex, p: nat, k: nat, f: seq<nat>) {
    var a := Addr(hhdm, i, p, k);
    if k in f then a !in objects else a in objects && objects[a] == i
  }

  ghost predicate FreeRight(f: seq<nat>, i: CacheIndex) {
    Distinct(f) && forall k | k in f :: k < Total(i)
  }

  ghost predicate SlabRight(h: Heap, live: set<Block>, hhdm: nat, p: nat) {
    && p in h.slabs && p in h.free
    && var s := h.slabs[p]; var f := h.free[p];
       && s.total == Total(s.cache) && FreeRight(f, s.cache) && s.used == s.total - |f|
       && s.freelist == Link(hhdm, s.cache, p, f, 0) && Chained(h.words, hhdm, s.cache, p, f)
       && Marked(h.pages, p, Span(s.cache)) && Block(SlabOrder(s.cache), p) in live
       && (forall k: nat | k < s.total :: ObjectRight(h.objects, hhdm, s.cache, p, k, f))
  }

  /** A marked page belongs to a slab. */
  ghost predicate PageRight(h: Heap, live: set<Block>, g: nat)
    requires g < |h.pages|
  {
    var r := h.pages[g];
    && (r.head ==> g in h.active)
    && (r.tail ==>
          && r.compHead in h.active && r.compHead in h.slabs
          && r.compHead <= g < r.compHead + Span(h.slabs[r.compHead].cache))
    && (r.buddy ==> r.order <= 10 && Block(r.order, g) in live)
  }

  ghost predicate IsObject(h: Heap, hhdm: nat, a: nat, p: nat, k: nat) {
    && p in h.active && p in h.slabs && p in h.free && k < h.slabs[p].total
    && a == Addr(hhdm, h.slabs[p].cache, p, k) && k !in h.free[p]
  }

  ghost predicate Located(h: Heap, hhdm: nat, a: nat) {
    exists p, k :: IsObject(h, hhdm, a, p, k)
  }

  ghost predicate OnList(h: Heap, i: CacheIndex, k: Kind, p: nat) {
    p in h.active && p in h.slabs && h.slabs[p].cache == i && KindOf(h.slabs[p]) == k
  }

  ghost predicate ListRight(h: Heap, i: CacheIndex, k: Kind, s: seq<nat>) {
    Distinct(s) && forall p: nat :: p in s <==> OnList(h, i, k, p)
  }

  ghost function ObjectsOf(objects: map<nat, nat>, i: CacheIndex): (s: set<nat>) {
    set a | a in objects && objects[a] == i
  }

  /** Lists and counters of a cache; at most i + 1 wholly free slabs are kept. */
  ghost predicate CacheRight(h: Heap, i: CacheIndex)
    requires |h.caches| == SIZES
  {
    var c := h.caches[i];
    && (forall k: Kind :: ListRight(h, i, k, c.List(k)) && c.Count(k) == |c.List(k)|)
    && c.totalObjs == Total(i) * (|c.full| + |c.partial| + |c.empty|)
    && c.totalAllocated == |ObjectsOf(h.objects, i)|
    && |c.full| <= i + 1
  }

  ghost predicate SlabsRight(h: Heap, live: set<Block>, hhdm: nat) {
    forall p | p in h.active :: SlabRight(h, live, hhdm, p)
  }

  ghost predicate PagesRight(h: Heap, live: set<Block>) {
    forall g: nat | g < |h.pages| :: PageRight(h, live, g)
  }

  ghost predicate ObjectsLocated(h: Heap, hhdm: nat) {
    forall a | a in h.objects :: Located(h, hhdm, a)
  }

  ghost predicate HeapRight(h: Heap, live: set<Block>, hhdm: nat) {
    && hhdm > 0 && |h.caches| == SIZES
    && SlabsRight(h, live, hhdm) && PagesRight(h, live) && ObjectsLocated(h, hhdm)
    && forall i: CacheIndex :: CacheRight(h, i)
  }
}
