/**
 * The buddy frame allocator of kernel/src/mm/frame_alloc.c: eleven doubly linked free
 * lists threaded through struct page, one state bit per buddy pair, and the loops that
 * split and merge blocks by looking at that single bit.
 */
module Buddy {
  import opened Arith
  import opened Options
  import opened Bits
  import opened Links
  import opened BuddyModel
  import opened BuddyInit

  /** "Lower half listed" xor "upper half listed" for pair t of order o. */
  predicate PairBit(list: seq<int>, o: nat, t: nat) {
    (Shl(2 * t, o) in list) != (Shl(2 * t + 1, o) in list)
  }

  /** Every state bit of one order is right. */
  ghost predicate BitsRight(bitmap: seq<bv8>, list: seq<int>, o: nat) {
    forall t: nat | t / 8 < |bitmap| :: Status(t, bitmap) == PairBit(list, o, t)
  }

  lemma BitAt(bitmap: seq<bv8>, list: seq<int>, o: nat, t: nat)
    requires BitsRight(bitmap, list, o) && t / 8 < |bitmap|
    ensures Status(t, bitmap) == PairBit(list, o, t)
  {
  }

  /** The bit of a block's pair compares the block with its buddy. */
  lemma PairOf(a: nat, o: nat, list: seq<int>)
    requires Aligned(a, o)
    ensures PairBit(list, o, Shr(a, o + 1)) == ((a in list) != (Buddy(a, o) in list))
    ensures Shr(Buddy(a, o), o + 1) == Shr(a, o + 1)
  {
    var t := Shr(a, o + 1);
    BuddyFacts(a, o);
    HeadAligned(a, o + 1);
    ShlAdd(2 * t, 1, o);
    ShlOne(o);
    assert Shl(t, o + 1) == Shl(2 * t, o) == Head(a, o + 1);
    Sides(a, o);
  }

  /** Pairs are told apart by their index. */
  lemma OtherPair(a: nat, o: nat, t: nat)
    requires Aligned(a, o) && t != Shr(a, o + 1)
    ensures Shl(2 * t, o) != a && Shl(2 * t + 1, o) != a
  {
    ShrShl(2 * t, o);
    ShrShl(2 * t + 1, o);
  }

  /** Listing or unlisting one block and flipping its pair's bit keeps all bits right. */
  lemma FlipFollows(bitmap: seq<bv8>, list: seq<int>, list': seq<int>, o: nat, a: nat)
    requires BitsRight(bitmap, list, o) && Aligned(a, o) && Shr(a, o + 1) / 8 < |bitmap|
    requires (a in list) != (a in list')
    requires forall b | b != a :: b in list <==> b in list'
    ensures BitsRight(Flip(Shr(a, o + 1), bitmap), list', o)
  {
    hide Shr, Shl, Flip, Status;
    var n := Shr(a, o + 1);
    var bitmap' := Flip(n, bitmap);
    forall t: nat | t / 8 < |bitmap'| ensures Status(t, bitmap') == PairBit(list', o, t) {
      FlipStatus(n, t, bitmap);
      if t == n {
        PairOf(a, o, list);
        PairOf(a, o, list');
        BuddyFacts(a, o);
      } else {
        OtherPair(a, o, t);
      }
    }
  }

  lemma {:induction false} ShrMonotone(p: nat, q: nat, o: nat)
    requires p <= q
    ensures Shr(p, o) <= Shr(q, o)
  {
    if o > 0 {
      ShrMonotone(p, q, o - 1);
    }
  }

  /** The first page of a block without free pages is on no list. */
  lemma TakenUnlisted(l: Lists, n: nat, o: Order, a: nat)
    requires Good(l, n) && Aligned(a, o) && Taken(l, o, a)
    ensures forall q: Order :: a !in l[q]
  {
    assert Head(a, o) == a && !Free(l, a);
    forall q: Order ensures a !in l[q] {
      assert !Covers(l, a, q);
    }
  }

  lemma InRange(l: Lists, n: nat, o: Order, a: int)
    requires Good(l, n) && a in l[o]
    ensures 0 <= a < n && Aligned(a, o)
  {
  }

  /** Some entry before k holds page p. */
  ghost predicate HeldBefore(map_: seq<Entry>, k: nat, p: nat)
    requires k <= |map_|
  {
    exists i :: 0 <= i < k && map_[i].Holds(p)
  }

  lemma HeldStep(map_: seq<Entry>, k: nat)
    requires k < |map_|
    ensures forall p: nat :: HeldBefore(map_, k + 1, p) <==> HeldBefore(map_, k, p) || map_[k].Holds(p)
  {
  }

  lemma HeldAll(map_: seq<Entry>)
    ensures forall p: nat :: HeldBefore(map_, |map_|, p) <==> exists i :: 0 <= i < |map_| && map_[i].Holds(p)
  {
  }

  lemma CutWeaken(l: Lists, map_: seq<Entry>, k: nat)
    requires |l| == HIGH + 1 && k < |map_| && CutFrom(l, map_, k)
    ensures CutFrom(l, map_, k + 1)
  {
    hide CutAt;
  }

  lemma CutPush(l: Lists, map_: seq<Entry>, k: nat, o: Order, a: nat)
    requires |l| == HIGH + 1 && k < |map_| && CutFrom(l, map_, k + 1) && CutAt(map_[k], o, a)
    ensures CutFrom(Push(l, o, a), map_, k + 1)
  {
    hide CutAt;
  }

  /** The free pages are those of the entries before i and of entry i up to page c. */
  ghost predicate CoveredTo(l: Lists, map_: seq<Entry>, i: nat, c: nat)
    requires |l| == HIGH + 1 && i < |map_|
  {
    forall p: nat :: Free(l, p) <==> HeldBefore(map_, i, p) || map_[i].Low() <= p < c
  }

  lemma CoverMore(l: Lists, map_: seq<Entry>, i: nat, o: Order, a: nat)
    requires |l| == HIGH + 1 && i < |map_| && CoveredTo(l, map_, i, a) && Aligned(a, o) && map_[i].Low() <= a
    requires Grows(l, Push(l, o, a), o, a)
    ensures CoveredTo(Push(l, o, a), map_, i, a + Pow2(o))
  {
    hide Free, HeldBefore;
    var r := Push(l, o, a);
    forall p: nat ensures Free(r, p) <==> HeldBefore(map_, i, p) || map_[i].Low() <= p < a + Pow2(o) {
      InBlock(p, a, o);
    }
  }

  /** The next slice of entry i is not yet covered. */
  lemma NextSlice(l: Lists, map_: seq<Entry>, n: nat, i: nat, o: Order, a: nat)
    requires |l| == HIGH + 1 && Regions(map_, n) && i < |map_| && CutAt(map_[i], o, a)
    requires CoveredTo(l, map_, i, a)
    ensures Taken(l, o, a) && a + Pow2(o) <= n
  {
    forall p: nat | Head(p, o) == a ensures !Free(l, p) {
      InBlock(p, a, o);
      assert map_[i].Holds(p);
    }
  }

  class FrameAllocator {
    /** pages_count */
    const pages: nat
    /** The link fields of struct page, by page number. */
    var next: map<int, int>
    var prev: map<int, int>
    /** buddy_allocator.orders[o].list and .bitmap */
    var heads: seq<int>
    var bitmaps: seq<seq<bv8>>
    /** frame_allocator_free, and the debugging counters. */
    var free: int
    var allocationCount: nat
    var deallocationCount: nat
    /** What the links spell out. */
    ghost var lists: Lists

    ghost predicate Linked()
      reads this
    {
      && |lists| == HIGH + 1 && |heads| == HIGH + 1
      && (forall o: Order :: IsList(next, prev, lists[o]) && heads[o] == At(lists[o], 0))
      && (forall o: Order, q: Order, a | a in lists[o] && a in lists[q] :: o == q)
    }

    ghost predicate BitmapsFit()
      reads this
    {
      |bitmaps| == HIGH + 1 && forall o: Order :: |bitmaps[o]| == Shr(pages, o) + 1
    }

    ghost predicate Valid()
      reads this
    {
      && Linked() && BitmapsFit() && Good(lists, pages)
      && forall o: Order | o < HIGH :: BitsRight(bitmaps[o], lists[o], o)
    }

    /** buddy_init up to the point where the memory map is final: empty lists, zeroed
        bitmaps.  `count` is the page count reported by the boot allocator. */
    constructor (n: nat, count: int)
      ensures Valid() && pages == n && free == count && forall o: Order :: lists[o] == []
      ensures allocationCount == 0 && deallocationCount == 0
    {
      pages := n;
      next, prev := map[], map[];
      heads := seq(HIGH + 1, _ => NULL);
      bitmaps := seq(HIGH + 1, o requires 0 <= o <= HIGH => seq(Shr(n, o) + 1, _ => 0 as bv8));
      free, allocationCount, deallocationCount := count, 0, 0;
      lists := seq(HIGH + 1, _ => []);
      new;
      forall o: Order, t: nat | t / 8 < |bitmaps[o]| ensures Status(t, bitmaps[o]) == PairBit(lists[o], o, t) {
        ZeroStatus(t, bitmaps[o]);
      }
    }

    /** One round of the slicing loop of buddy_init. */
    method LinkSlice(map_: seq<Entry>, i: nat, current: nat, end: nat) returns (next_: nat)
      requires Linked() && Good(lists, pages) && Regions(map_, pages) && i < |map_| && map_[i].usable
      requires map_[i].start <= current < end == map_[i].start + map_[i].length && current % PAGE_SIZE == 0
      requires CutFrom(lists, map_, i + 1) && CoveredTo(lists, map_, i, current / PAGE_SIZE)
      modifies this`next, this`prev, this`heads, this`lists
      ensures Linked() && Good(lists, pages)
      ensures current < next_ <= end && next_ % PAGE_SIZE == 0
      ensures CutFrom(lists, map_, i + 1) && CoveredTo(lists, map_, i, next_ / PAGE_SIZE)
    {
      hide Shr, Shl, Pow2, CutFrom, Good;
      var buddy := SliceRange(current, end);
      ghost var a := current / PAGE_SIZE;
      assert CutAt(map_[i], buddy, a);
      NextSlice(lists, map_, pages, i, buddy, a);
      TakenUnlisted(lists, pages, buddy, a);
      PushBlock(lists, pages, buddy, a);
      CutPush(lists, map_, i, buddy, a);
      CoverMore(lists, map_, i, buddy, a);
      ListLink(current / PAGE_SIZE, buddy);
      next_ := current + Pow2(buddy) * PAGE_SIZE;
    }

    /** The slicing loop of buddy_init for one usable entry. */
    method LinkEntry(map_: seq<Entry>, i: nat)
      requires Linked() && Good(lists, pages) && Regions(map_, pages) && i < |map_| && map_[i].usable
      requires CutFrom(lists, map_, i) && forall p: nat :: Free(lists, p) <==> HeldBefore(map_, i, p)
      modifies this`next, this`prev, this`heads, this`lists
      ensures Linked() && Good(lists, pages)
      ensures CutFrom(lists, map_, i + 1) && forall p: nat :: Free(lists, p) <==> HeldBefore(map_, i + 1, p)
    {
      hide Shr, Shl, Pow2, CutFrom, Good;
      CutWeaken(lists, map_, i);
      var current, end := map_[i].start, map_[i].start + map_[i].length;
      while current < end
        invariant map_[i].start <= current <= end && current % PAGE_SIZE == 0
        invariant Linked() && Good(lists, pages) && CutFrom(lists, map_, i + 1)
        invariant CoveredTo(lists, map_, i, current / PAGE_SIZE)
        decreases end - current
      {
        current := LinkSlice(map_, i, current, end);
      }
      HeldStep(map_, i);
    }

    /** _list_link: insert at the head. */
    method ListLink(x: nat, o: Order)
      requires Linked() && forall q: Order :: x !in lists[q]
      modifies this`next, this`prev, this`heads, this`lists
      ensures Linked() && lists == Push(old(lists), o, x)
      ensures lists[o] == [x] + old(lists)[o] && forall q: Order | q != o :: lists[q] == old(lists)[q]
    {
      PushFront(next, prev, lists[o], x);
      NonNull(next, prev, lists[o]);
      prev := prev[x := NULL];
      next := next[x := heads[o]];
      if heads[o] != NULL {
        prev := prev[heads[o] := x];
      }
      heads := heads[o := x];
      lists := Push(lists, o, x);
      forall q: Order ensures IsList(next, prev, lists[q]) && heads[q] == At(lists[q], 0) {
        if q != o {
          Frame(old(next), old(prev), next, prev, lists[q]);
        }
      }
    }

    /** _list_unlink: the panic on an empty head cannot fire for a listed entry. */
    method ListUnlink(entry: nat, o: Order)
      requires Linked() && entry in lists[o]
      modifies this`next, this`prev, this`heads, this`lists
      ensures Linked() && lists == Drop(old(lists), o, IndexOf(old(lists)[o], entry))
      ensures entry in next && next[entry] == POISON && entry in prev && prev[entry] == POISON
      ensures OneLess(old(lists)[o], lists[o], entry) && forall q: Order | q != o :: lists[q] == old(lists)[q]
    {
      ghost var s, k := lists[o], IndexOf(lists[o], entry);
      FieldsAt(next, prev, s, k);
      NonNull(next, prev, s);
      Unlink(next, prev, s, k);
      assert heads[o] != NULL;
      if heads[o] == entry {
        heads := heads[o := next[entry]];
      }
      if prev[entry] != NULL {
        next := next[prev[entry] := next[entry]];
      }
      if next[entry] != NULL {
        prev := prev[next[entry] := prev[entry]];
      }
      assert next == NextWithout(old(next), s, k) && prev == PrevWithout(old(prev), s, k);
      prev := prev[entry := POISON];
      next := next[entry := POISON];
      Frame(NextWithout(old(next), s, k), PrevWithout(old(prev), s, k), next, prev, Without(s, k));
      lists := Drop(lists, o, k);
      forall q: Order ensures IsList(next, prev, lists[q]) && heads[q] == At(lists[q], 0) {
        if q != o {
          Frame(old(next), old(prev), next, prev, lists[q]);
        }
      }
    }

    /** _list_get: remove and return the first entry, NULL if there is none. */
    method ListGet(o: Order) returns (ret: int)
      requires Linked()
      modifies this`next, this`prev, this`heads, this`lists
      ensures Linked()
      ensures old(lists)[o] == [] ==> ret == NULL && lists == old(lists)
      ensures old(lists)[o] != [] ==> ret == old(lists)[o][0] >= 0 && lists == old(lists)[o := old(lists)[o][1..]]
      ensures ret != NULL ==> ret in next && next[ret] == POISON && ret in prev && prev[ret] == POISON
    {
      ghost var s := lists[o];
      NonNull(next, prev, s);
      if heads[o] == NULL {
        return NULL;
      }
      FieldsAt(next, prev, s, 0);
      Unlink(next, prev, s, 0);
      ret := heads[o];
      heads := heads[o := next[ret]];
      if heads[o] != NULL {
        prev := prev[heads[o] := NULL];
      }
      assert next == NextWithout(old(next), s, 0) && prev == PrevWithout(old(prev), s, 0);
      next := next[ret := POISON];
      prev := prev[ret := POISON];
      assert Without(s, 0) == s[1..];
      Frame(NextWithout(old(next), s, 0), PrevWithout(old(prev), s, 0), next, prev, s[1..]);
      lists := lists[o := s[1..]];
      forall q: Order ensures IsList(next, prev, lists[q]) && heads[q] == At(lists[q], 0) {
        if q != o {
          Frame(old(next), old(prev), next, prev, lists[q]);
        }
      }
    }

    /** order_flip_at. */
    method FlipAt(n: nat, o: Order)
      requires BitmapsFit() && n < pages
      modifies this`bitmaps
      ensures BitmapsFit() && Shr(n, o + 1) / 8 < |old(bitmaps)[o]|
      ensures bitmaps == old(bitmaps)[o := Flip(Shr(n, o + 1), old(bitmaps)[o])]
    {
      ShrMonotone(n, pages, o);
      bitmaps := bitmaps[o := Flip(Shr(n, o + 1), bitmaps[o])];
    }

    /** order_status_at. */
    method StatusAt(n: nat, o: Order) returns (r: bool)
      requires BitmapsFit() && n < pages
      ensures Shr(n, o + 1) / 8 < |bitmaps[o]| && r == Status(Shr(n, o + 1), bitmaps[o])
    {
      ShrMonotone(n, pages, o);
      r := Status(Shr(n, o + 1), bitmaps[o]);
    }

    /** get_buddy. */
    function GetBuddy(page: nat, o: Order): (b: nat)
      requires Aligned(page, o)
      ensures b == Buddy(page, o)
    {
      XorIsBuddy(page, o);
      Xor(page, Pow2(o))
    }

    ghost predicate BitsRightAll()
      reads this
    {
      |bitmaps| == HIGH + 1 && |lists| == HIGH + 1 &&
      forall o: Order | o < HIGH :: BitsRight(bitmaps[o], lists[o], o)
    }

    /** One split: the upper half goes on the list below.  The panic on an invalid split
        cannot fire. */
    method Split(pg: nat, o: Order)
      requires Valid() && o < HIGH && Aligned(pg, o + 1) && pg + Pow2(o + 1) <= pages && Taken(lists, o + 1, pg)
      modifies this`next, this`prev, this`heads, this`lists, this`bitmaps
      ensures Linked() && BitmapsFit() && BitsRightAll()
      ensures lists == Push(old(lists), o, pg + Pow2(o))
    {
      hide Shr, Shl, Status, Flip, Good, BitsRight, IsList;
      Halves(pg, o);
      BlockHalves(pg, o);
      var buddy := GetBuddy(pg, o);
      TakenUnlisted(lists, pages, o, buddy);
      TakenUnlisted(lists, pages, o, pg);
      var status := StatusAt(buddy, o);
      PairOf(pg, o, lists[o]);
      BitAt(bitmaps[o], lists[o], o, Shr(buddy, o + 1));
      assert !status;
      ListLink(buddy, o);
      FlipAt(pg, o);
      FlipFollows(old(bitmaps)[o], old(lists)[o], lists[o], o, buddy);
    }

    /** The search loop of buddy_alloc: the first entry of the first non-empty list from
        `order` upwards, unlinked and with its bit flipped. */
    method TakeFirst(order: Order) returns (pg: int, o: nat)
      requires Valid()
      modifies this`next, this`prev, this`heads, this`lists, this`bitmaps
      ensures Linked() && BitmapsFit() && BitsRightAll()
      ensures o == FirstNonEmpty(old(lists), order)
      ensures pg == NULL <==> o > HIGH
      ensures pg == NULL ==> lists == old(lists) && bitmaps == old(bitmaps)
      ensures pg != NULL ==> pg == old(lists)[o][0] >= 0 && lists == Carve(old(lists), o, o)
    {
      pg, o := NULL, order;
      while o <= HIGH
        invariant order <= o <= HIGH + 1 && pg == NULL && Valid()
        invariant lists == old(lists) && bitmaps == old(bitmaps)
        invariant FirstNonEmpty(lists, o) == FirstNonEmpty(lists, order)
      {
        pg := ListGet(o);
        if pg != NULL {
          break;
        }
        o := o + 1;
      }
      if pg != NULL {
        FlipTaken(pg, o, old(lists));
      }
    }

    /** The flip after _list_get in buddy_alloc. */
    method FlipTaken(pg: nat, o: Order, ghost l: Lists)
      requires Linked() && BitmapsFit() && Good(l, pages) && l[o] != [] && l[o][0] == pg
      requires lists == l[o := l[o][1..]]
      requires forall q: Order | q < HIGH :: BitsRight(bitmaps[q], l[q], q)
      modifies this`bitmaps
      ensures BitmapsFit() && BitsRightAll()
    {
      hide Shr, Shl, Pow2, Flip, Status, BitsRight;
      assert pg in l[o];
      assert Without(l[o], 0) == lists[o];
      InRange(l, pages, o, pg);
      ghost var b := bitmaps[o];
      FlipAt(pg, o);
      if o < HIGH {
        FlipFollows(b, l[o], lists[o], o, pg);
      }
    }

    /** The splitting loop of buddy_alloc. */
    method SplitDown(pg: nat, order: Order, start: Order, ghost l: Lists)
      requires Linked() && BitmapsFit() && BitsRightAll() && order <= start
      requires Good(l, pages) && |l| == HIGH + 1 && l[start] != []
      requires l[start][0] == pg && lists == Carve(l, start, start)
      modifies this`next, this`prev, this`heads, this`lists, this`bitmaps
      ensures Linked() && BitmapsFit() && BitsRightAll() && lists == Carve(l, order, start)
    {
      hide Shr, Shl, Head, BitsRight, IsList, Good;
      var o := start;
      while o > order
        invariant order <= o <= start
        invariant Linked() && BitmapsFit() && BitsRightAll()
        invariant lists == Carve(l, o, start)
      {
        CarveTakesBlock(l, pages, o, start);
        o := o - 1;
        Split(pg, o);
      }
    }

    /** buddy_alloc. */
    method Alloc(order: nat) returns (r: Option<nat>)
      requires Valid()
      modifies this
      ensures Valid()
      ensures order > HIGH || FirstNonEmpty(old(lists), order) > HIGH ==>
                r == None && lists == old(lists) && free == old(free) && bitmaps == old(bitmaps)
                && allocationCount == old(allocationCount)
      ensures order <= HIGH && FirstNonEmpty(old(lists), order) <= HIGH ==>
                var q := FirstNonEmpty(old(lists), order);
                && r == Some(old(lists)[q][0]) && r.value >= 0
                && lists == Carve(old(lists), order, q) && SplitOff(old(lists), lists, order, q)
                && free == old(free) - Pow2(order) && allocationCount == old(allocationCount) + 1
      ensures free - |FreePages(lists, pages)| == old(free - |FreePages(lists, pages)|)
      ensures deallocationCount == old(deallocationCount)
    {
      hide Free, FreePages, SplitOff, IsList, BitsRight;
      if order > HIGH {
        return None;
      }
      var pg, o := TakeFirst(order);
      if pg == NULL {
        return None;
      }
      ghost var q := o;
      SplitDown(pg, order, o, old(lists));
      CarveTakesBlock(old(lists), pages, order, q);
      CarveIsSplitOff(old(lists), order, q);
      CountShrinks(old(lists), lists, pages, order, pg);
      free := free - Pow2(order);
      allocationCount := allocationCount + 1;
      return Some(pg);
    }

    /** One merge step: the flipped bit tells whether the buddy is listed; if so it is
        unlinked. */
    method TryMerge(page: nat, o: Order) returns (merged: bool)
      requires Valid() && o < HIGH && Aligned(page, o) && page + Pow2(o) <= pages && Taken(lists, o, page)
      modifies this`next, this`prev, this`heads, this`lists, this`bitmaps
      ensures Linked() && BitmapsFit()
      ensures merged <==> Buddy(page, o) in old(lists)[o]
      ensures merged ==> lists == Drop(old(lists), o, IndexOf(old(lists)[o], Buddy(page, o))) && BitsRightAll()
      ensures !merged ==> lists == old(lists) && BitsRight(bitmaps[o], [page] + lists[o], o)
      ensures !merged ==> forall q: Order | q < HIGH && q != o :: BitsRight(bitmaps[q], lists[q], q)
    {
      hide Shr, Shl, Status, Flip, Good;
      TakenUnlisted(lists, pages, o, page);
      BuddyFacts(page, o);
      PairOf(page, o, lists[o]);
      FlipAt(page, o);
      FlipStatus(Shr(page, o + 1), Shr(page, o + 1), old(bitmaps)[o]);
      var status := StatusAt(page, o);
      if status {
        FlipFollows(old(bitmaps)[o], lists[o], [page] + lists[o], o, page);
        return false;
      }
      var buddy := GetBuddy(page, o);
      ListUnlink(buddy, o);
      FlipFollows(old(bitmaps)[o], old(lists)[o], lists[o], o, buddy);
      return true;
    }

    /** The merging loop of buddy_free: the block to list, and its order. */
    method MergeUp(page: nat, order: Order) returns (p: nat, o: Order)
      requires Valid() && Aligned(page, order) && page + Pow2(order) <= pages && Taken(lists, order, page)
      modifies this`next, this`prev, this`heads, this`lists, this`bitmaps
      ensures Linked() && BitmapsFit() && (forall q: Order :: p !in lists[q])
      ensures Push(lists, o, p) == Merge(old(lists), order, page)
      ensures o < HIGH ==> BitsRight(bitmaps[o], [p] + lists[o], o)
      ensures forall q: Order | q < HIGH && q != o :: BitsRight(bitmaps[q], lists[q], q)
    {
      p, o := page, order;
      while o < HIGH
        invariant Valid()
        invariant Aligned(p, o) && p + Pow2(o) <= pages && Taken(lists, o, p)
        invariant Merge(lists, o, p) == Merge(old(lists), order, page)
        decreases HIGH - o
      {
        TakenUnlisted(lists, pages, o, p);
        ghost var l := lists;
        var merged := TryMerge(p, o);
        if !merged {
          return;
        }
        hide Shr, Shl, BitsRight;
        BuddyFacts(p, o);
        MergeOnce(l, pages, o, p);
        var buddy := GetBuddy(p, o);
        p := if p < buddy then p else buddy;
        o := o + 1;
      }
      TakenUnlisted(lists, pages, o, p);
    }

    /** buddy_free after the alignment check. */
    method Release(page: nat, order: Order)
      requires Valid() && Aligned(page, order) && page + Pow2(order) <= pages && Taken(lists, order, page)
      modifies this
      ensures Valid() && lists == Merge(old(lists), order, page)
      ensures free == old(free) + Pow2(order) && deallocationCount == old(deallocationCount) + 1
      ensures |FreePages(lists, pages)| == old(|FreePages(lists, pages)|) + Pow2(order)
      ensures allocationCount == old(allocationCount)
    {
      hide Shr, Shl, Merge, Good, Grows, Free, FreePages, BitsRight, Pow2;
      MergeReturnsBlock(lists, pages, order, page);
      CountGrows(lists, Merge(lists, order, page), pages, order, page);
      var p, o := MergeUp(page, order);
      ListLink(p, o);
      free := free + Pow2(order);
      deallocationCount := deallocationCount + 1;
    }

    /** buddy_free.  `panics` is the alignment check.  The caller owns the block: none of its
        pages is free. */
    method FreeBlock(page: nat, order: Order) returns (panics: bool)
      requires Valid() && page < pages
      requires Aligned(page, order) ==> page + Pow2(order) <= pages && Taken(lists, order, page)
      modifies this
      ensures Valid()
      ensures panics <==> !Aligned(page, order)
      ensures panics ==> lists == old(lists) && free == old(free) && bitmaps == old(bitmaps)
      ensures !panics ==>
                && lists == Merge(old(lists), order, page)
                && (exists o: Order :: MergedInto(old(lists), lists, order, page, o))
                && free == old(free) + Pow2(order) && deallocationCount == old(deallocationCount) + 1
      ensures free - |FreePages(lists, pages)| == old(free - |FreePages(lists, pages)|)
      ensures allocationCount == old(allocationCount)
    {
      if !Aligned(page, order) {
        return true;
      }
      Release(page, order);
      MergeIsMergedInto(old(lists), order, page);
      return false;
    }

    /** The second loop of buddy_init for one order: flip the bit of every listed block. */
    method FlipListed(o: Order)
      requires Linked() && BitmapsFit() && Good(lists, pages) && (o < HIGH ==> BitsRight(bitmaps[o], [], o))
      modifies this`bitmaps
      ensures BitmapsFit() && (o < HIGH ==> BitsRight(bitmaps[o], lists[o], o))
      ensures forall q: Order | q != o :: bitmaps[q] == old(bitmaps)[q]
    {
      hide Shr, Shl, Pow2, Flip, Status;
      ghost var s, k := lists[o], 0;
      var curr := heads[o];
      NonNull(next, prev, s);
      while curr != NULL
        invariant BitmapsFit() && 0 <= k <= |s| && curr == At(s, k) && (curr == NULL <==> k == |s|)
        invariant o < HIGH ==> BitsRight(bitmaps[o], s[..k], o)
        invariant forall q: Order | q != o :: bitmaps[q] == old(bitmaps)[q]
        decreases |s| - k
      {
        FieldsAt(next, prev, s, k);
        InRange(lists, pages, o, curr);
        ghost var b := bitmaps[o];
        FlipAt(curr, o);
        assert s[..k + 1] == s[..k] + [curr];
        if o < HIGH {
          FlipFollows(b, s[..k], s[..k + 1], o, curr);
        }
        curr := next[curr];
        k := k + 1;
      }
      assert s[..k] == s;
    }

    /** buddy_init from the memory map on: cut every usable entry into blocks, then set the
        pair bits. */
    method Populate(map_: seq<Entry>)
      requires Valid() && (forall o: Order :: lists[o] == []) && Regions(map_, pages)
      modifies this`next, this`prev, this`heads, this`lists, this`bitmaps
      ensures Valid()
      ensures forall p: nat :: Free(lists, p) <==> HeldBefore(map_, |map_|, p)
      ensures NoPair(lists) <==> !HasSplit(map_)
      ensures NonTouching(map_) ==> NoPair(lists)
    {
      assert forall p: nat, o: Order :: !Covers(lists, p, o);
      for i := 0 to |map_|
        invariant Linked() && Good(lists, pages) && bitmaps == old(bitmaps) && BitmapsFit()
        invariant CutFrom(lists, map_, i)
        invariant forall p: nat :: Free(lists, p) <==> HeldBefore(map_, i, p)
      {
        if map_[i].usable {
          LinkEntry(map_, i);
        } else {
          CutWeaken(lists, map_, i);
          HeldStep(map_, i);
        }
      }
      FlipAllListed();
      assert Covering(lists, map_) by { hide Free; HeldAll(map_); }
      PairsExactlyAtSplits(lists, map_, pages);
      if NonTouching(map_) {
        SlicingLeavesNoPair(lists, map_, pages);
      }
    }

    method FlipAllListed()
      requires Linked() && BitmapsFit() && Good(lists, pages)
      requires forall o: Order | o < HIGH :: BitsRight(bitmaps[o], [], o)
      modifies this`bitmaps
      ensures Valid()
    {
      hide Shr, Shl, Pow2, Flip, Status, BitsRight;
      for i := 0 to HIGH + 1
        invariant BitmapsFit()
        invariant forall o: Order | o < i && o < HIGH :: BitsRight(bitmaps[o], lists[o], o)
        invariant forall o: Order | i <= o && o < HIGH :: BitsRight(bitmaps[o], [], o)
      {
        FlipListed(i);
      }
    }
  }
}
