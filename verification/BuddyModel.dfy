/**
 * The free lists of the buddy allocator as values: which pages they cover, when they are
 * consistent, and why consistent lists without a mergeable pair are determined by the
 * set of free pages alone.
 */
module BuddyModel {
  import opened Arith
  import opened Bits
  import opened Links

  /** BUDDY_HIGH_ORDER */
  const HIGH := 10

  /** One list of page numbers per order. */
  type Lists = seq<seq<int>>

  type Order = o: int | 0 <= o <= HIGH

  /** Page p lies in a block on the list of order o. */
  ghost predicate Covers(l: Lists, p: nat, o: Order)
    requires |l| == HIGH + 1
  {
    Head(p, o) in l[o]
  }

  ghost predicate Free(l: Lists, p: nat)
    requires |l| == HIGH + 1
  {
    exists o: Order :: Covers(l, p, o)
  }

  /** Every listed block is aligned and in range, and no page is covered twice. */
  ghost predicate Good(l: Lists, n: nat) {
    && |l| == HIGH + 1
    && (forall o: Order :: Distinct(l[o]))
    && (forall o: Order, a | a in l[o] :: 0 <= a && Aligned(a, o) && a + Pow2(o) <= n)
    && (forall p: nat, o: Order, o': Order | Covers(l, p, o) && Covers(l, p, o') :: o == o')
  }

  /** No order below the highest holds both halves of a pair. */
  ghost predicate NoPair(l: Lists)
    requires |l| == HIGH + 1
  {
    forall o: Order, a: nat | o < HIGH && a in l[o] && Aligned(a, o) :: Buddy(a, o) !in l[o]
  }

  /** No page of the block (a, o) is free. */
  ghost predicate Taken(l: Lists, o: Order, a: nat)
    requires |l| == HIGH + 1
  {
    forall p: nat | Head(p, o) == a :: !Free(l, p)
  }

  /** Every page of the block (a, o) is free. */
  ghost predicate WhollyFree(l: Lists, o: nat, a: nat)
    requires |l| == HIGH + 1
  {
    forall p: nat | Head(p, o) == a :: Free(l, p)
  }

  /** The free pages grow by exactly the block (a, o). */
  ghost predicate Grows(l: Lists, l': Lists, o: nat, a: nat)
    requires |l| == HIGH + 1 && |l'| == HIGH + 1
  {
    forall p: nat :: Free(l', p) <==> Free(l, p) || Head(p, o) == a
  }

  /** The free pages shrink by exactly the block (a, o). */
  ghost predicate Shrinks(l: Lists, l': Lists, o: nat, a: nat)
    requires |l| == HIGH + 1 && |l'| == HIGH + 1
  {
    forall p: nat :: Free(l', p) <==> Free(l, p) && Head(p, o) != a
  }

  function Push(l: Lists, o: Order, a: nat): (r: Lists)
    requires |l| == HIGH + 1
    ensures |r| == HIGH + 1
  {
    l[o := [a] + l[o]]
  }

  function Drop(l: Lists, o: Order, k: nat): (r: Lists)
    requires |l| == HIGH + 1 && k < |l[o]|
    ensures |r| == HIGH + 1
  {
    l[o := Without(l[o], k)]
  }

  lemma PushBlock(l: Lists, n: nat, o: Order, a: nat)
    requires Good(l, n) && Aligned(a, o) && a + Pow2(o) <= n && Taken(l, o, a)
    ensures Good(Push(l, o, a), n) && Grows(l, Push(l, o, a), o, a) && a !in l[o]
  {
    hide Shr, Shl, Pow2;
    var l' := Push(l, o, a);
    assert Head(a, o) == a && !Free(l, a) && !Covers(l, a, o);
    forall p: nat, q: Order ensures Covers(l', p, q) <==> Covers(l, p, q) || (q == o && Head(p, o) == a) {
    }
    forall p: nat ensures Free(l', p) <==> Free(l, p) || Head(p, o) == a {
      if Head(p, o) == a {
        assert Covers(l', p, o);
      }
      if Free(l, p) {
        var q: Order :| Covers(l, p, q);
        assert Covers(l', p, q);
      }
      if Free(l', p) && Head(p, o) != a {
        var q: Order :| Covers(l', p, q);
        assert Covers(l, p, q);
      }
    }
    forall p: nat, q: Order, q': Order | Covers(l', p, q) && Covers(l', p, q') ensures q == q' {
      if Head(p, o) == a {
        assert !Covers(l, p, q) && !Covers(l, p, q');
      }
    }
  }

  lemma DropBlock(l: Lists, n: nat, o: Order, k: nat)
    requires Good(l, n) && k < |l[o]|
    ensures 0 <= l[o][k] && Aligned(l[o][k], o) && l[o][k] + Pow2(o) <= n
    ensures Good(Drop(l, o, k), n) && Shrinks(l, Drop(l, o, k), o, l[o][k])
    ensures WhollyFree(l, o, l[o][k]) && Taken(Drop(l, o, k), o, l[o][k])
  {
    hide Shr, Shl, Pow2;
    assert l[o][k] in l[o];
    var l', a := Drop(l, o, k), l[o][k];
    forall p: nat, q: Order ensures Covers(l', p, q) <==> Covers(l, p, q) && !(q == o && Head(p, o) == a) {
    }
    forall p: nat | Head(p, o) == a ensures Free(l, p) {
      assert Covers(l, p, o);
    }
    forall p: nat ensures Free(l', p) <==> Free(l, p) && Head(p, o) != a {
      if Free(l', p) {
        var q: Order :| Covers(l', p, q);
        assert Covers(l, p, q);
        CoveredOnce(l, n, p, o, q);
      }
      if Free(l, p) && Head(p, o) != a {
        var q: Order :| Covers(l, p, q);
        assert Covers(l', p, q);
      }
    }
  }

  /** A block is made of its two halves. */
  lemma BlockHalves(a: nat, o: nat)
    requires Aligned(a, o + 1)
    ensures forall p: nat :: Head(p, o + 1) == a <==> Head(p, o) == a || Head(p, o) == a + Pow2(o)
  {
    Halves(a, o);
    forall p: nat ensures Head(p, o + 1) == a <==> Head(p, o) == a || Head(p, o) == a + Pow2(o) {
      InBlock(p, a, o + 1);
      InBlock(p, a, o);
      InBlock(p, a + Pow2(o), o);
    }
  }

  // --------------------------------------------------------- maximality

  /** A wholly free aligned block lies inside some listed block. */
  lemma {:induction false} Contained(l: Lists, n: nat, o: Order, a: nat) returns (q: Order)
    requires Good(l, n) && NoPair(l) && Aligned(a, o) && WhollyFree(l, o, a)
    ensures o <= q && Covers(l, a, q)
  {
    hide Shr, Shl;
    if o == 0 {
      HeadZero(a);
      assert Head(a, o) == a;
      assert Free(l, a);
      q :| Covers(l, a, q);
    } else {
      var b := a + Pow2(o - 1);
      Halves(a, o - 1);
      BlockHalves(a, o - 1);
      q := Contained(l, n, o - 1, a);
      var r := Contained(l, n, o - 1, b);
      if q == o - 1 {
        assert Buddy(a, o - 1) == b;
        HeadUp(a, b, o, r);
        q := r;
      }
    }
  }

  /** Pages in one block of order o share every larger block. */
  lemma {:induction false} HeadUp(p: nat, p': nat, o: nat, r: nat)
    requires o <= r && Head(p, o) == p && p <= p' < p + Pow2(o)
    ensures Head(p, r) == Head(p', r)
  {
    HeadUnique(p', p, o);
    SameHead(p, p', o);
    ShrUp(p, p', o, r);
  }

  lemma {:induction false} ShrUp(p: nat, p': nat, o: nat, r: nat)
    requires o <= r && Shr(p, o) == Shr(p', o)
    ensures Shr(p, r) == Shr(p', r)
    decreases r
  {
    if o < r {
      ShrUp(p, p', o, r - 1);
    }
  }

  /** The listed blocks of order o are exactly the maximal wholly free aligned blocks. */
  ghost predicate Maximal(l: Lists, o: Order, a: nat)
    requires |l| == HIGH + 1
  {
    Aligned(a, o) && WhollyFree(l, o, a) && (o < HIGH ==> !WhollyFree(l, o + 1, Head(a, o + 1)))
  }

  lemma CoveredOnce(l: Lists, n: nat, p: nat, o: Order, q: Order)
    requires Good(l, n)
    ensures Covers(l, p, o) && Covers(l, p, q) ==> o == q
  {
  }

  lemma ListedIsMaximal(l: Lists, n: nat, o: Order, a: nat)
    requires Good(l, n) && NoPair(l)
    ensures a in l[o] <==> Maximal(l, o, a)
  {
    hide Shr, Shl, Pow2;
    if a in l[o] {
      forall p: nat | Head(p, o) == a ensures Free(l, p) {
        assert Covers(l, p, o);
      }
      if o < HIGH {
        NotWider(l, n, o, a);
      }
    }
    if Maximal(l, o, a) {
      var q := Contained(l, n, o, a);
      if q > o {
        Wider(l, o, a, q);
      }
    }
  }

  lemma NotWider(l: Lists, n: nat, o: Order, a: nat)
    requires Good(l, n) && NoPair(l) && o < HIGH && a in l[o]
    ensures !WhollyFree(l, o + 1, Head(a, o + 1))
  {
    hide Shr, Shl, Pow2;
    assert Covers(l, a, o);
    var h := Head(a, o + 1);
    if WhollyFree(l, o + 1, h) {
      HeadAligned(a, o + 1);
      var q := Contained(l, n, o + 1, h);
      HeadBounds(a, o + 1);
      HeadUp(h, a, o + 1, q);
      CoveredOnce(l, n, a, o, q);
      assert false;
    }
  }

  lemma Wider(l: Lists, o: Order, a: nat, q: Order)
    requires |l| == HIGH + 1 && o < q && Covers(l, a, q)
    ensures WhollyFree(l, o + 1, Head(a, o + 1))
  {
    forall p: nat | Head(p, o + 1) == Head(a, o + 1) ensures Free(l, p) {
      SameHead(p, a, o + 1);
      ShrUp(p, a, o + 1, q);
      assert Covers(l, p, q);
    }
  }

  /** History independence: the lists, as sets, depend only on which pages are free. */
  lemma ListsDependOnFreePages(l: Lists, l': Lists, n: nat, n': nat)
    requires Good(l, n) && NoPair(l) && Good(l', n') && NoPair(l')
    requires forall p: nat :: Free(l, p) <==> Free(l', p)
    ensures forall o: Order, a: nat :: a in l[o] <==> a in l'[o]
  {
    forall o: Order, a: nat ensures a in l[o] <==> a in l'[o] {
      ListedIsMaximal(l, n, o, a);
      ListedIsMaximal(l', n', o, a);
    }
  }

  /** Some list of order at least o is non-empty exactly when some aligned run of 2^o pages
      is free. */
  lemma SearchIsComplete(l: Lists, n: nat, o: Order)
    requires Good(l, n) && NoPair(l)
    ensures (exists q: Order :: o <= q && l[q] != []) <==>
            (exists a: nat :: Aligned(a, o) && WhollyFree(l, o, a))
  {
    if q: Order :| o <= q && l[q] != [] {
      var a := l[q][0];
      assert a in l[q];
      forall p: nat | Head(p, o) == a ensures Free(l, p) {
        AlignedBelow(a, o, q);
        SameHead(p, a, o);
        ShrUp(p, a, o, q);
        assert Covers(l, p, q);
      }
      AlignedBelow(a, o, q);
    }
    if a: nat :| Aligned(a, o) && WhollyFree(l, o, a) {
      var q := Contained(l, n, o, a);
    }
  }

  lemma {:induction false} AlignedBelow(a: nat, o: nat, q: nat)
    requires o <= q && Aligned(a, q)
    ensures Aligned(a, o)
    decreases q
  {
    if o < q {
      AlignedDown(a, q - 1);
      AlignedBelow(a, o, q - 1);
    }
  }

  // ------------------------------------------------------- counting pages

  ghost function FreePages(l: Lists, n: nat): (s: set<nat>)
    requires |l| == HIGH + 1
  {
    set p: nat | 0 <= p < n && Free(l, p)
  }

  predicate Within(p: nat, a: nat, b: nat) {
    a <= p < b
  }

  ghost function Interval(a: nat, b: nat): (s: set<nat>) {
    set p: nat | 0 <= p < b && Within(p, a, b)
  }

  lemma {:induction false} IntervalSize(a: nat, b: nat)
    requires a <= b
    ensures |Interval(a, b)| == b - a
    decreases b
  {
    if a < b {
      IntervalSize(a, b - 1);
      assert Within(b - 1, a, b);
      assert forall p: nat :: Within(p, a, b) <==> Within(p, a, b - 1) || p == b - 1;
      assert Interval(a, b) == Interval(a, b - 1) + {b - 1};
    } else {
      assert Interval(a, b) == {};
    }
  }

  lemma CountShrinks(l: Lists, l': Lists, n: nat, o: nat, a: nat)
    requires |l| == HIGH + 1 && |l'| == HIGH + 1
    requires Aligned(a, o) && a + Pow2(o) <= n && WhollyFree(l, o, a) && Shrinks(l, l', o, a)
    ensures |FreePages(l', n)| == |FreePages(l, n)| - Pow2(o)
  {
    var s := Interval(a, a + Pow2(o));
    forall p: nat ensures p in s <==> Head(p, o) == a {
      InBlock(p, a, o);
    }
    assert FreePages(l', n) == FreePages(l, n) - s;
    assert s <= FreePages(l, n);
    IntervalSize(a, a + Pow2(o));
  }

  lemma CountGrows(l: Lists, l': Lists, n: nat, o: Order, a: nat)
    requires |l| == HIGH + 1 && |l'| == HIGH + 1
    requires Aligned(a, o) && a + Pow2(o) <= n && Taken(l, o, a) && Grows(l, l', o, a)
    ensures |FreePages(l', n)| == |FreePages(l, n)| + Pow2(o)
  {
    var s := Interval(a, a + Pow2(o));
    forall p: nat ensures p in s <==> Head(p, o) == a {
      InBlock(p, a, o);
    }
    assert FreePages(l', n) == FreePages(l, n) + s;
    assert FreePages(l, n) !! s;
    IntervalSize(a, a + Pow2(o));
  }

  // ------------------------------------------------- allocation and release

  /** The lists after taking the first block of order q and handing out its lowest part
      of order o: each split leaves the upper half on the list below. */
  function Carve(l: Lists, o: Order, q: Order): (r: Lists)
    requires |l| == HIGH + 1 && o <= q && l[q] != [] && 0 <= l[q][0]
    ensures |r| == HIGH + 1
    decreases q - o
  {
    if o == q then l[q := l[q][1..]] else Push(Carve(l, o + 1, q), o, l[q][0] + Pow2(o))
  }

  /** Splitting keeps the lists consistent and takes exactly the block handed out. */
  lemma {:induction false} CarveTakesBlock(l: Lists, n: nat, o: Order, q: Order)
    requires Good(l, n) && o <= q && l[q] != []
    ensures var a := l[q][0];
            && 0 <= a && a + Pow2(o) <= n && Aligned(a, o)
            && var r := Carve(l, o, q);
               && Good(r, n) && WhollyFree(l, o, a) && Shrinks(l, r, o, a) && Taken(r, o, a)
               && (NoPair(l) ==> NoPair(r))
    decreases q - o
  {
    hide Shr, Shl, NoPair, Taken, Shrinks, WhollyFree, Aligned, Pow2, Free;
    if o == q {
      CarveFirst(l, n, q);
    } else {
      CarveTakesBlock(l, n, o + 1, q);
      CarveHalf(l, Carve(l, o + 1, q), n, o, l[q][0]);
    }
  }

  /** Taking the first block of a list ... */
  lemma CarveFirst(l: Lists, n: nat, q: Order)
    requires Good(l, n) && l[q] != []
    ensures var a := l[q][0];
            && 0 <= a && a + Pow2(q) <= n && Aligned(a, q)
            && var r := l[q := l[q][1..]];
               && Good(r, n) && WhollyFree(l, q, a) && Shrinks(l, r, q, a) && Taken(r, q, a)
               && (NoPair(l) ==> NoPair(r))
  {
    hide Shr, Shl;
    assert l[q][0] in l[q];
    assert Without(l[q], 0) == l[q][1..];
    DropBlock(l, n, q, 0);
  }

  /** ... and giving its upper half back. */
  lemma CarveHalf(l: Lists, m: Lists, n: nat, o: Order, a: nat)
    requires o < HIGH && |l| == HIGH + 1 && Good(m, n) && Aligned(a, o + 1) && a + Pow2(o + 1) <= n
    requires WhollyFree(l, o + 1, a) && Shrinks(l, m, o + 1, a) && Taken(m, o + 1, a)
    ensures a + Pow2(o) <= n && Aligned(a, o)
    ensures var r := Push(m, o, a + Pow2(o));
            && Good(r, n) && WhollyFree(l, o, a) && Shrinks(l, r, o, a) && Taken(r, o, a)
            && (NoPair(m) ==> NoPair(r))
  {
    hide Shr, Shl, NoPair;
    var b := a + Pow2(o);
    Halves(a, o);
    BlockHalves(a, o);
    assert Taken(m, o, a) && Taken(m, o, b);
    PushBlock(m, n, o, b);
    if NoPair(m) {
      PushNoPair(m, n, o, b);
    }
  }

  /** A block may be listed without creating a pair if its buddy is not listed. */
  lemma PushNoPair(l: Lists, n: nat, o: Order, a: nat)
    requires Good(l, n) && NoPair(l) && Aligned(a, o) && a !in l[o]
    requires o < HIGH ==> Taken(l, o, Buddy(a, o)) || Buddy(a, o) !in l[o]
    ensures NoPair(Push(l, o, a))
  {
    hide Shr, Shl, Pow2;
    var r := Push(l, o, a);
    if o < HIGH {
      BuddyFacts(a, o);
      var b := Buddy(a, o);
      if Taken(l, o, b) {
        assert Head(b, o) == b && !Covers(l, b, o);
      }
    }
    forall q: Order, c: nat | q < HIGH && c in r[q] && Aligned(c, q) ensures Buddy(c, q) !in r[q] {
      BuddyFacts(c, q);
    }
  }

  /** The order of the first non-empty list from o upwards (HIGH + 1 if there is none). */
  function FirstNonEmpty(l: Lists, o: nat): (q: nat)
    requires |l| == HIGH + 1 && o <= HIGH + 1
    ensures o <= q <= HIGH + 1
    ensures q <= HIGH ==> l[q] != []
    ensures forall j | o <= j < q :: l[j] == []
    decreases HIGH + 1 - o
  {
    if o > HIGH || l[o] != [] then o else FirstNonEmpty(l, o + 1)
  }

  /** The block of order o is the first part of the first block of order q: that one is gone, and each
      list from o up to q has the upper half of one split as its new first entry. */
  ghost predicate SplitOff(l: Lists, r: Lists, o: Order, q: Order) {
    && |l| == |r| == HIGH + 1 && o <= q && l[q] != [] && r[q] == l[q][1..]
    && (forall j: Order | o <= j < q :: r[j] == [l[q][0] + Pow2(j)] + l[j])
    && (forall j: Order | j < o || q < j :: r[j] == l[j])
  }

  lemma {:induction false} CarveIsSplitOff(l: Lists, o: Order, q: Order)
    requires |l| == HIGH + 1 && o <= q && l[q] != [] && 0 <= l[q][0]
    ensures SplitOff(l, Carve(l, o, q), o, q)
    decreases q - o
  {
    hide Pow2;
    if o < q {
      CarveIsSplitOff(l, o + 1, q);
    }
  }

  /** The lists after releasing the block (a, o): merge with the buddy while it is listed. */
  ghost function Merge(l: Lists, o: Order, a: nat): (r: Lists)
    requires |l| == HIGH + 1 && Aligned(a, o)
    ensures |r| == HIGH + 1
    decreases HIGH - o
  {
    if o < HIGH && Buddy(a, o) in l[o] then
      BuddyFacts(a, o);
      HeadAligned(a, o + 1);
      Merge(Drop(l, o, IndexOf(l[o], Buddy(a, o))), o + 1, Head(a, o + 1))
    else
      Push(l, o, a)
  }

  /** The released block (a, o) has become part of a block of order q, the new first entry of its
      list: the buddies of all orders between were listed and are gone, the buddy of order q was
      not listed, and nothing else has changed. */
  ghost predicate MergedInto(l: Lists, r: Lists, o: Order, a: nat, q: Order) {
    && |l| == |r| == HIGH + 1 && o <= q && r[q] == [Head(a, q)] + l[q]
    && (q < HIGH ==> Aligned(Head(a, q), q) && Buddy(Head(a, q), q) !in l[q])
    && (forall j: Order | o <= j < q :: Aligned(Head(a, j), j) && OneLess(l[j], r[j], Buddy(Head(a, j), j)))
    && (forall j: Order | j < o || q < j :: r[j] == l[j])
  }

  ghost predicate OneLess(s: seq<int>, r: seq<int>, x: int) {
    x in s && r == Without(s, IndexOf(s, x))
  }

  lemma {:induction false} MergeIsMergedInto(l: Lists, o: Order, a: nat)
    requires |l| == HIGH + 1 && Aligned(a, o)
    ensures exists q: Order :: MergedInto(l, Merge(l, o, a), o, a, q)
    decreases HIGH - o
  {
    hide Shr, Shl, Pow2, Head;
    HeadOfAligned(a, o);
    if o < HIGH && Buddy(a, o) in l[o] {
      BuddyFacts(a, o);
      HeadAligned(a, o + 1);
      var d, h := Drop(l, o, IndexOf(l[o], Buddy(a, o))), Head(a, o + 1);
      MergeIsMergedInto(d, o + 1, h);
      var q: Order :| MergedInto(d, Merge(d, o + 1, h), o + 1, h, q);
      MergedOnce(l, Merge(d, o + 1, h), o, a, q);
      assert Merge(l, o, a) == Merge(d, o + 1, h);
    } else {
      assert MergedInto(l, Merge(l, o, a), o, a, o);
    }
  }

  lemma MergedOnce(l: Lists, r: Lists, o: Order, a: nat, q: Order)
    requires |l| == HIGH + 1 && o < HIGH && Aligned(a, o) && Buddy(a, o) in l[o]
    requires MergedInto(Drop(l, o, IndexOf(l[o], Buddy(a, o))), r, o + 1, Head(a, o + 1), q)
    ensures MergedInto(l, r, o, a, q)
  {
    hide Shr, Shl, Pow2, Head, Aligned;
    var h := Head(a, o + 1);
    HeadOfAligned(a, o);
    HeadAligned(a, o + 1);
    forall j: Order | o + 1 <= j
      ensures Head(h, j) == Head(a, j)
    {
      HeadBounds(a, o + 1);
      HeadOfAligned(h, o + 1);
      HeadUp(h, a, o + 1, j);
    }
  }

  lemma HeadOfAligned(a: nat, o: nat)
    requires Aligned(a, o)
    ensures Head(a, o) == a
  {
  }

  lemma {:induction false} MergeReturnsBlock(l: Lists, n: nat, o: Order, a: nat)
    requires Good(l, n) && Aligned(a, o) && a + Pow2(o) <= n && Taken(l, o, a)
    ensures Good(Merge(l, o, a), n) && Grows(l, Merge(l, o, a), o, a)
    ensures NoPair(l) ==> NoPair(Merge(l, o, a))
    decreases HIGH - o
  {
    hide Shr, Shl;
    if o < HIGH && Buddy(a, o) in l[o] {
      var b, h := Buddy(a, o), Head(a, o + 1);
      var k := IndexOf(l[o], b);
      MergeOnce(l, n, o, a);
      MergeReturnsBlock(Drop(l, o, k), n, o + 1, h);
      if NoPair(l) {
        DropNoPair(l, o, k);
      }
    } else {
      PushBlock(l, n, o, a);
      if NoPair(l) {
        PushNoPair(l, n, o, a);
      }
    }
  }

  lemma MergeOnce(l: Lists, n: nat, o: Order, a: nat)
    requires Good(l, n) && Aligned(a, o) && a + Pow2(o) <= n && Taken(l, o, a)
    requires o < HIGH && Buddy(a, o) in l[o]
    ensures var l', h := Drop(l, o, IndexOf(l[o], Buddy(a, o))), Head(a, o + 1);
            && Good(l', n) && Aligned(h, o + 1) && h + Pow2(o + 1) <= n && Taken(l', o + 1, h)
            && forall p: nat :: (Free(l', p) || Head(p, o + 1) == h) <==> (Free(l, p) || Head(p, o) == a)
  {
    hide Shr, Shl;
    var b, h := Buddy(a, o), Head(a, o + 1);
    DropBlock(l, n, o, IndexOf(l[o], b));
    BuddyFacts(a, o);
    HeadAligned(a, o + 1);
    Sides(a, o);
    BlockHalves(h, o);
  }

  lemma DropNoPair(l: Lists, o: Order, k: nat)
    requires |l| == HIGH + 1 && NoPair(l) && k < |l[o]| && Distinct(l[o])
    ensures NoPair(Drop(l, o, k))
  {
    hide Shr, Shl, Pow2;
  }
}
