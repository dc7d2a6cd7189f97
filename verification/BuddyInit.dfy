/**
 * How the boot memory map is cut into the first free lists (_slice_range and the loops of
 * buddy_init in kernel/src/mm/frame_alloc.c).
 */
module BuddyInit {
  import opened Arith
  import opened Bits
  import opened BuddyModel

  const PAGE_SIZE := 0x1000

  /** struct memmap_entry, in bytes; only usable entries matter here. */
  datatype Entry = Entry(start: nat, length: nat, usable: bool) {
    function Low(): (p: nat) { start / PAGE_SIZE }
    function High(): (p: nat) { (start + length) / PAGE_SIZE }
    predicate PageAligned() { start % PAGE_SIZE == 0 && length % PAGE_SIZE == 0 }
    predicate Holds(p: nat) { usable && Low() <= p < High() }
  }

  /** Block (a, o) lies in [low, high) and no larger aligned block at a does. */
  ghost predicate Largest(low: nat, high: nat, o: Order, a: nat) {
    && Aligned(a, o) && low <= a && a + Pow2(o) <= high
    && (o < HIGH ==> !(Aligned(a, o + 1) && a + Pow2(o + 1) <= high))
  }

  lemma ShrZero(p: nat, o: nat)
    ensures Shr(p, o) == 0 <==> p < Pow2(o)
  {
    HeadBounds(p, o);
    ShlOne(o);
    if Shr(p, o) > 0 {
      ShlAdd(1, Shr(p, o) - 1, o);
    }
  }

  lemma SizeOrder(o: nat, q: nat)
    ensures Pow2(o) <= Pow2(q) <==> o <= q
  {
    if o < q {
      Pow2Monotone(o, q);
    } else if q < o {
      Pow2Monotone(q, o);
    }
  }

  /** A page aligned to q but not to q + 1 is aligned to no order above q. */
  lemma AlignedOrder(a: nat, o: nat, q: nat)
    requires q >= HIGH || !Aligned(a, q + 1)
    ensures Aligned(a, o) && o <= HIGH ==> o <= q
  {
    if Aligned(a, o) && q + 1 <= o {
      AlignedBelow(a, q + 1, o);
    }
  }

  /** get_alignment_order: the largest order, up to HIGH, to which the page is aligned. */
  method AlignmentOrder(address: nat) returns (order: Order)
    ensures Aligned(address / PAGE_SIZE, order)
    ensures order < HIGH ==> !Aligned(address / PAGE_SIZE, order + 1)
  {
    order := 0;
    var rest := address / PAGE_SIZE;
    ghost var page := rest;
    HeadZero(page);
    while rest % 2 == 0 && order < HIGH
      invariant Aligned(page, order) && rest == Shr(page, order)
      decreases HIGH - order
    {
      Sides(page, order);
      rest := rest / 2;
      order := order + 1;
    }
    Sides(page, order);
  }

  /** _slice_range: the largest block that is aligned to low and ends by high. */
  method SliceRange(low: nat, high: nat) returns (order: Order)
    requires low % PAGE_SIZE == 0 && high % PAGE_SIZE == 0 && low < high
    ensures Largest(low / PAGE_SIZE, high / PAGE_SIZE, order, low / PAGE_SIZE)
  {
    hide Largest, Shr;
    var align := AlignmentOrder(low);
    var end := if high < low + Pow2(align) * PAGE_SIZE then high else low + Pow2(align) * PAGE_SIZE;
    var size := (end - low) / PAGE_SIZE;
    ghost var total := size;
    SliceSize(low, high, align, total);
    order := SizeLoop(size);
    SliceIsLargest(low / PAGE_SIZE, high / PAGE_SIZE, align, total, order);
  }

  /** The halving loop of the slicer: the highest power of two within the size, or HIGH. */
  method SizeLoop(total: nat) returns (order: Order)
    requires total > 0
    ensures Pow2(order) <= total && (order < HIGH ==> total < Pow2(order + 1))
  {
    order := 0;
    var size := total / 2;
    while size != 0 && order < HIGH
      invariant size == Shr(total, order) / 2 && Pow2(order) <= total
      decreases HIGH - order
    {
      ShrZero(total, order + 1);
      order := order + 1;
      size := size / 2;
    }
    ShrZero(total, order + 1);
  }

  lemma SliceSize(low: nat, high: nat, align: nat, total: nat)
    requires low % PAGE_SIZE == 0 && high % PAGE_SIZE == 0 && low < high
    requires var end := if high < low + Pow2(align) * PAGE_SIZE then high else low + Pow2(align) * PAGE_SIZE;
             total == (end - low) / PAGE_SIZE
    ensures var a, e := low / PAGE_SIZE, high / PAGE_SIZE;
            a < e && total == (if e - a < Pow2(align) then e - a else Pow2(align)) && total > 0
  {
  }

  lemma SliceIsLargest(a: nat, e: nat, align: Order, total: nat, order: Order)
    requires a < e && total == if e - a < Pow2(align) then e - a else Pow2(align)
    requires Aligned(a, align) && (align < HIGH ==> !Aligned(a, align + 1))
    requires Pow2(order) <= total && (order < HIGH ==> total < Pow2(order + 1))
    ensures Largest(a, e, order, a)
  {
    hide Pow2;
    SizeOrder(order, align);
    AlignedBelow(a, order, align);
    if order < HIGH {
      AlignedOrder(a, order + 1, align);
      SizeOrder(align, order + 1);
    }
  }

  // ---------------------------------------------------- what slicing yields

  /** Every listed block was cut, as large as possible, from one of the first k entries. */
  ghost predicate CutFrom(l: Lists, map_: seq<Entry>, k: nat)
    requires |l| == HIGH + 1 && k <= |map_|
  {
    forall o: Order, a: nat | a in l[o] :: exists i :: 0 <= i < k && CutAt(map_[i], o, a)
  }

  ghost predicate CutAt(e: Entry, o: Order, a: nat) {
    e.usable && Largest(e.Low(), e.High(), o, a)
  }

  /** Usable entries are page aligned, in range and do not overlap. */
  ghost predicate Regions(map_: seq<Entry>, n: nat) {
    && (forall i | 0 <= i < |map_| && map_[i].usable :: map_[i].PageAligned() && map_[i].High() <= n)
    && (forall i, j, p: nat | 0 <= i < |map_| && 0 <= j < |map_| && map_[i].Holds(p) && map_[j].Holds(p) :: i == j)
  }

  /** No usable entry starts where another one ends. */
  ghost predicate NonTouching(map_: seq<Entry>) {
    forall i, j | 0 <= i < |map_| && 0 <= j < |map_| && i != j && map_[i].usable && map_[j].usable ::
      map_[i].High() != map_[j].Low()
  }

  /** The two halves of a pair are never cut from one region; if they are cut from two
      disjoint regions, those touch. */
  lemma HalvesApart(e: Entry, f: Entry, o: Order, x: nat)
    requires o < HIGH && Aligned(x, o + 1) && CutAt(e, o, x) && CutAt(f, o, x + Pow2(o))
    ensures e != f && e.usable && f.usable
    ensures (forall p: nat :: !(e.Holds(p) && f.Holds(p))) ==> e.High() == f.Low()
  {
    var y := x + Pow2(o);
    assert e.Holds(y - 1) && f.Holds(y);
    assert e.High() < y + Pow2(o) <= f.High();
    if forall p: nat :: !(e.Holds(p) && f.Holds(p)) {
      assert !f.Holds(y - 1) && !e.Holds(y);
    }
  }

  // ------------------------------------------------ exactly when a pair stays split

  /** The regions e and f meet at a page whose alignment is exactly 2^o, and both reach at least
      that far from it. */
  ghost predicate SplitAt(e: Entry, f: Entry, o: Order) {
    && e.usable && f.usable && e.High() == f.Low()
    && Aligned(f.Low(), o) && !Aligned(f.Low(), o + 1)
    && e.Low() + Pow2(o) <= f.Low() && f.Low() + Pow2(o) <= f.High()
  }

  ghost predicate HasSplit(map_: seq<Entry>) {
    exists i, j, o: Order :: 0 <= i < |map_| && 0 <= j < |map_| && o < HIGH && SplitAt(map_[i], map_[j], o)
  }

  /** The listed pages are exactly those of the usable entries. */
  ghost predicate Covering(l: Lists, map_: seq<Entry>)
    requires |l| == HIGH + 1
  {
    forall p: nat :: Free(l, p) <==> exists i :: 0 <= i < |map_| && map_[i].Holds(p)
  }

  /** The block of the cut that holds page p of entry i. */
  lemma BlockOf(l: Lists, map_: seq<Entry>, n: nat, i: int, p: nat) returns (q: Order)
    requires Good(l, n) && Regions(map_, n) && CutFrom(l, map_, |map_|) && Covering(l, map_)
    requires 0 <= i < |map_| && map_[i].Holds(p)
    ensures Head(p, q) in l[q] && Largest(map_[i].Low(), map_[i].High(), q, Head(p, q))
  {
    hide Shr, Shl;
    assert Free(l, p);
    q :| Covers(l, p, q);
    var b := Head(p, q);
    var k :| 0 <= k < |map_| && CutAt(map_[k], q, b);
    HeadBounds(p, q);
    assert map_[k].Holds(p);
  }

  /** Aligned pages are at least a block apart. */
  lemma AlignedGap(u: nat, v: nat, o: nat)
    requires Aligned(u, o) && Aligned(v, o) && u < v
    ensures u + Pow2(o) <= v
  {
    hide Shr, Shl;
    InBlock(v, u, o);
  }

  /** The upper region starts with a block of that order. */
  lemma UpperHalfListed(l: Lists, map_: seq<Entry>, n: nat, i: int, j: int, o: Order)
    requires Good(l, n) && Regions(map_, n) && CutFrom(l, map_, |map_|) && Covering(l, map_)
    requires 0 <= i < |map_| && 0 <= j < |map_| && o < HIGH && SplitAt(map_[i], map_[j], o)
    ensures map_[j].Low() in l[o]
  {
    hide Shr, Shl, Good, Regions, CutFrom, Covering;
    var m := map_[j].Low();
    var q := BlockOf(l, map_, n, j, m);
    HeadBounds(m, q);
    assert Aligned(m, q);
    if q > o {
      AlignedBelow(m, o + 1, q);
    } else if q < o {
      AlignedBelow(m, q + 1, o);
      SizeOrder(q + 1, o);
    }
  }

  /** The lower region ends with one. */
  lemma LowerHalfListed(l: Lists, map_: seq<Entry>, n: nat, i: int, j: int, o: Order)
    requires Good(l, n) && Regions(map_, n) && CutFrom(l, map_, |map_|) && Covering(l, map_)
    requires 0 <= i < |map_| && 0 <= j < |map_| && o < HIGH && SplitAt(map_[i], map_[j], o)
    ensures map_[j].Low() >= Pow2(o) && map_[j].Low() - Pow2(o) in l[o] && Aligned(map_[j].Low() - Pow2(o), o + 1)
  {
    hide Shr, Shl, Pow2, Good, Regions, CutFrom, Covering;
    var m := map_[j].Low();
    Sides(m, o);
    var x := m - Pow2(o);
    var q := BlockOf(l, map_, n, i, x);
    var b := Head(x, q);
    HeadBounds(x, q);
    HeadAligned(x, q);
    if q > o + 1 {
      WideBlock(x, b, q, o);
    } else {
      NarrowBlock(x, q, o);
    }
  }

  /** A larger block around x reaches beyond x + 2^o. */
  lemma WideBlock(x: nat, b: nat, q: nat, o: nat)
    requires q > o + 1 && Aligned(b, q) && Aligned(x, o + 1) && b <= x < b + Pow2(q)
    ensures x + Pow2(o) < b + Pow2(q)
  {
    hide Shr, Shl;
    AlignedEnd(b, q, o + 1);
    AlignedGap(x, b + Pow2(q), o + 1);
  }

  /** A block of order up to o + 1 around x starts there; below o a larger one fits as well. */
  lemma NarrowBlock(x: nat, q: nat, o: nat)
    requires q <= o + 1 && Aligned(x, o + 1)
    ensures Head(x, q) == x && Aligned(x, o) && Pow2(o) < Pow2(o + 1)
    ensures q < o ==> Aligned(x, q + 1) && Pow2(q + 1) <= Pow2(o)
  {
    hide Shr, Shl;
    AlignedBelow(x, q, o + 1);
    AlignedDown(x, o);
    if q < o {
      AlignedBelow(x, q + 1, o);
      SizeOrder(q + 1, o);
    }
  }

  lemma AlignedEnd(b: nat, q: nat, o: nat)
    requires Aligned(b, q) && o <= q
    ensures Aligned(b + Pow2(q), o)
  {
    hide Shr, Shl;
    var k := Shr(b, q);
    ShlAdd(k, 1, q);
    ShlOne(q);
    ShrShl(k + 1, q);
    assert b == Shl(k, q);
    AlignedBelow(b + Pow2(q), o, q);
  }

  /** Both halves of a pair are only listed where two regions meet like that. */
  lemma PairSplits(l: Lists, map_: seq<Entry>, n: nat, o: Order, x: nat)
    requires |l| == HIGH + 1 && Regions(map_, n) && CutFrom(l, map_, |map_|)
    requires o < HIGH && Aligned(x, o + 1) && x in l[o] && x + Pow2(o) in l[o]
    ensures HasSplit(map_)
  {
    hide Shr, Shl, Pow2, Aligned, CutAt, SplitAt;
    var y := x + Pow2(o);
    var i :| 0 <= i < |map_| && CutAt(map_[i], o, x);
    var j :| 0 <= j < |map_| && CutAt(map_[j], o, y);
    HalvesApart(map_[i], map_[j], o, x);
    assert i != j;
    HalvesSplit(map_[i], map_[j], o, x);
  }

  lemma HalvesSplit(e: Entry, f: Entry, o: Order, x: nat)
    requires o < HIGH && Aligned(x, o + 1) && CutAt(e, o, x) && CutAt(f, o, x + Pow2(o))
    requires forall p: nat :: !(e.Holds(p) && f.Holds(p))
    ensures SplitAt(e, f, o)
  {
    hide Shr, Shl;
    HalvesApart(e, f, o, x);
    Halves(x, o);
    var y := x + Pow2(o);
    assert e.Holds(y - 1) && f.Holds(y);
  }

  lemma NoSplitNoPair(l: Lists, map_: seq<Entry>, n: nat)
    requires |l| == HIGH + 1 && Regions(map_, n) && CutFrom(l, map_, |map_|) && !HasSplit(map_)
    ensures NoPair(l)
  {
    hide Shr, Shl, CutFrom, Regions, HasSplit;
    forall o: Order, a: nat | o < HIGH && a in l[o] && Aligned(a, o)
      ensures Buddy(a, o) !in l[o]
    {
      BuddyFacts(a, o);
      var b := Buddy(a, o);
      Sides(a, o);
      if b in l[o] {
        PairSplits(l, map_, n, o, if a < b then a else b);
        assert false;
      }
    }
  }

  /** Cutting non-touching regions leaves no mergeable pair. */
  lemma SlicingLeavesNoPair(l: Lists, map_: seq<Entry>, n: nat)
    requires |l| == HIGH + 1 && Regions(map_, n) && NonTouching(map_) && CutFrom(l, map_, |map_|)
    ensures NoPair(l)
  {
    hide Aligned, CutFrom, Regions;
    assert !HasSplit(map_);
    NoSplitNoPair(l, map_, n);
  }

  /** The cut leaves no mergeable pair exactly if no two regions meet at a page whose alignment both
      of them can use. */
  lemma PairsExactlyAtSplits(l: Lists, map_: seq<Entry>, n: nat)
    requires Good(l, n) && Regions(map_, n) && CutFrom(l, map_, |map_|) && Covering(l, map_)
    ensures NoPair(l) <==> !HasSplit(map_)
  {
    hide Shr, Shl, Good, CutFrom, Regions, Covering, SplitAt;
    ListCount(l, n);
    if HasSplit(map_) {
      var i, j, o: Order :| 0 <= i < |map_| && 0 <= j < |map_| && o < HIGH && SplitAt(map_[i], map_[j], o);
      UpperHalfListed(l, map_, n, i, j, o);
      LowerHalfListed(l, map_, n, i, j, o);
      var x := map_[j].Low() - Pow2(o);
      AlignedDown(x, o);
      assert Buddy(x, o) == map_[j].Low();
    } else {
      NoSplitNoPair(l, map_, n);
    }
  }

  lemma ListCount(l: Lists, n: nat)
    requires Good(l, n)
    ensures |l| == HIGH + 1
  {
  }

  /** Two touching one-page regions: an aligned run of two pages is free, yet the lists hold a
      split pair and an allocation of order 1 finds nothing. */
  lemma TouchingRegionsStaySplit() returns (map_: seq<Entry>, l: Lists)
    ensures Regions(map_, 2) && HasSplit(map_) && Good(l, 2) && CutFrom(l, map_, |map_|) && Covering(l, map_)
    ensures !NoPair(l) && Aligned(0, 1) && WhollyFree(l, 1, 0) && FirstNonEmpty(l, 1) > HIGH
  {
    hide Good, WhollyFree, NoPair;
    map_ := [Entry(0, PAGE_SIZE, true), Entry(PAGE_SIZE, PAGE_SIZE, true)];
    l := [[1, 0], [], [], [], [], [], [], [], [], [], []];
    TwoPages(l);
    assert Pow2(0) == 1 && Aligned(0, 0) && Aligned(1, 0) && !Aligned(1, 1);
    assert CutAt(map_[0], 0, 0) && CutAt(map_[1], 0, 1);
    assert SplitAt(map_[0], map_[1], 0);
    assert map_[0].Holds(0) && map_[1].Holds(1);
    PairsExactlyAtSplits(l, map_, 2);
    assert forall q: Order | 1 <= q :: l[q] == [];
  }

  lemma TwoPages(l: Lists)
    requires |l| == HIGH + 1 && l[0] == [1, 0] && forall o: Order | o > 0 :: l[o] == []
    ensures Good(l, 2) && (forall p: nat :: Free(l, p) <==> p < 2) && Aligned(0, 1) && WhollyFree(l, 1, 0)
  {
    forall p: nat, o: Order
      ensures Covers(l, p, o) <==> o == 0 && p < 2
    {
      if o == 0 {
        HeadZero(p);
      }
    }
    forall p: nat
      ensures Free(l, p) <==> p < 2
    {
      if p < 2 {
        assert Covers(l, p, 0);
      }
    }
    assert Aligned(0, 0) && Aligned(1, 0) && Aligned(0, 1);
    forall p: nat | Head(p, 1) == 0
      ensures Free(l, p)
    {
      InBlock(p, 0, 1);
    }
  }
}
