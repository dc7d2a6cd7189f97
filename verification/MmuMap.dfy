/**
 * The mapping functions of kernel/src/arch/x86-64/mmu.c: forced walks, single pages of the
 * three sizes, linear ranges, and the translation that the kernel computes itself.
 */
module MmuMap {
  import opened Arith
  import opened Options
  import opened PageTable
  import opened Mmu
  import opened MmuRange

  datatype Outcome = Done | Panic | OutOfMemory

  /** All walks give the same result before and after. */
  ghost predicate SameWalks(mem: Memory, mem': Memory, root: nat) {
    forall u: nat | u < VA_LIMIT :: WalkFrom(mem', root, 4, u) == WalkFrom(mem, root, 4, u)
  }

  /** Exactly the unit that holds v ends in the leaf e of level l; all else is as before. */
  ghost predicate OneMapped(mem: Memory, mem': Memory, root: nat, v: nat, l: Level, e: Entry) {
    forall u: nat | u < VA_LIMIT ::
      WalkFrom(mem', root, 4, u) == if u / Unit(l) == v / Unit(l) then Some((l, e)) else WalkFrom(mem, root, 4, u)
  }

  lemma SameThenMapped(mem: Memory, mem1: Memory, mem2: Memory, root: nat, v: nat, l: Level, e: Entry)
    requires SameWalks(mem, mem1, root) && OneMapped(mem1, mem2, root, v, l, e)
    ensures OneMapped(mem, mem2, root, v, l, e)
  {
    hide WalkFrom;
  }

  lemma SameThenSame(mem: Memory, mem1: Memory, mem2: Memory, root: nat)
    requires SameWalks(mem, mem1, root) && SameWalks(mem1, mem2, root)
    ensures SameWalks(mem, mem2, root)
  {
    hide WalkFrom;
  }

  /** A fresh frame turned into a table pointer: below_pml | PRESENT | WRITE. */
  lemma PointerEntry(n: nat, l: Level)
    requires n % 0x1000 == 0 && n < 0x10_0000_0000_0000 && l > 1
    ensures IsPointer(n + 3, l) && Writable(n + 3) && Target(n + 3) == n
  {
    hide LargePage, Present, Writable, Target;
    var q := Multiple(n, 0x1000);
    SecondBit(q);
    LowBit(3);
    LowBit(3 + 0x1000 * q);
    SplitByte(3, q);
    SmallIsNotLarge();
    TargetOf(q, 3);
  }

  lemma SecondBit(q: nat)
    ensures Writable(3 + 0x1000 * q)
  {
    HalfOdd(1 + 2 * (0x400 * q));
    Even(1, 0x400 * q);
    assert 3 + 0x1000 * q == 2 * (1 + 2 * (0x400 * q)) + 1;
  }

  lemma HalfOdd(k: nat)
    ensures (2 * k + 1) / 2 == k
  {
  }

  lemma SmallIsNotLarge()
    ensures !LargePage(3)
  {
  }

  lemma TargetOf(q: nat, low: nat)
    requires q < 0x100_0000_0000 && low < 0x1000
    ensures Target(0x1000 * q + low) == 0x1000 * q
  {
  }

  ghost function Frames(pool: seq<nat>): (s: set<nat>) {
    set n | n in pool
  }

  /** The first frames of the pool have become tables, and nothing else has. */
  ghost predicate Drawn(pool: seq<nat>, pool': seq<nat>, mem: Memory, mem': Memory) {
    && |pool'| <= |pool| && pool' == pool[|pool| - |pool'|..]
    && mem'.Keys == mem.Keys + Frames(pool[..|pool| - |pool'|])
  }

  lemma DrawnNone(pool: seq<nat>, mem: Memory)
    ensures forall mem': Memory | mem'.Keys == mem.Keys :: Drawn(pool, pool, mem, mem')
  {
    assert pool[0..] == pool;
  }

  lemma DrawnOne(pool: seq<nat>, mem: Memory)
    requires pool != []
    ensures forall mem': Memory | mem'.Keys == mem.Keys + {pool[0]} :: Drawn(pool, pool[1..], mem, mem')
  {
    assert pool[..1] == [pool[0]];
    assert Frames(pool[..1]) == {pool[0]};
  }

  lemma DrawnLess(pool: seq<nat>, pool': seq<nat>, mem: Memory, mem': Memory)
    requires Drawn(pool, pool', mem, mem')
    ensures |pool'| <= |pool|
  {
  }

  lemma DrawnLeaf(pool: seq<nat>, pool': seq<nat>, mem: Memory, mem1: Memory, mem2: Memory)
    requires Drawn(pool, pool', mem, mem1) && mem2.Keys == mem1.Keys
    ensures Drawn(pool, pool', mem, mem2)
  {
  }

  /** A mapping that needs this many tables: it fails exactly if there are not enough frames, and
      otherwise takes no more than it needs. */
  ghost predicate Served(pool: seq<nat>, pool': seq<nat>, needed: nat, o: Outcome) {
    && (o == OutOfMemory <==> |pool| < needed)
    && (o == Done ==> |pool| == |pool'| + needed)
  }

  /** The frames are used up, and a table is still missing. */
  ghost predicate Stuck(mem: Memory, pool: seq<nat>, root: nat, v: nat, l: Level) {
    pool == [] && Missing(mem, root, 4, v, l) > 0
  }

  lemma Arrived(mem: Memory, a: nat, l: Level, v: nat)
    ensures Missing(mem, a, l, v, l) == 0
  {
  }

  lemma DrawnTwice(pool: seq<nat>, pool1: seq<nat>, pool2: seq<nat>, mem: Memory, mem1: Memory, mem2: Memory)
    requires Drawn(pool, pool1, mem, mem1) && Drawn(pool1, pool2, mem1, mem2)
    ensures Drawn(pool, pool2, mem, mem2)
  {
    var i, j := |pool| - |pool1|, |pool1| - |pool2|;
    assert pool[..i + j] == pool[..i] + pool[i..][..j];
    assert pool[i + j..] == pool[i..][j..];
  }

  class PageMap {
    /** pml4_address and phys_addr_width */
    const root: nat
    const width: nat
    var mem: Memory
    /** The frames that page_calloc will hand out. */
    var pool: seq<nat>
    ghost var own: map<nat, Owner>

    ghost predicate Valid()
      reads this
    {
      && 30 <= width <= 52
      && root in mem && root in own && own[root] == Owner(4, 0)
      && WellFormed(mem, own)
      && PoolRight(pool, mem)
    }

    /** init_kpm: an empty top table, so that nothing is mapped. */
    constructor (pml4: nat, physWidth: nat, frames: seq<nat>)
      requires 30 <= physWidth <= 52 && PoolRight(frames, map[pml4 := ZeroTable()])
      ensures Valid() && root == pml4 && width == physWidth && pool == frames
      ensures forall u: nat :: WalkFrom(mem, root, 4, u) == None
    {
      root, width, pool := pml4, physWidth, frames;
      mem, own := map[pml4 := ZeroTable()], map[pml4 := Owner(4, 0)];
    }

    /** force_walk_pagemap_single_lvl: the table below entry `index` of table a, a new empty
        one if the entry is empty. */
    method ForceWalk(a: nat, index: nat, ghost l: Level, ghost v: nat) returns (r: Option<nat>)
      requires Valid() && v < VA_LIMIT && l > 1 && index == Index(v, l)
      requires Reaches(mem, root, 4, a, l, v)
      requires WalkFrom(mem, root, 4, v).None? || WalkFrom(mem, root, 4, v).value.0 < l
      modifies this
      ensures Valid() && SameWalks(old(mem), mem, root)
      ensures r.Some? ==> Reaches(mem, root, 4, r.value, l - 1, v)
      ensures r.None? ==> pool == old(pool) == [] && mem == old(mem)
      ensures Drawn(old(pool), pool, old(mem), mem)
      ensures forall lx: Level | lx < l ::
                Missing(old(mem), a, l, v, lx) ==
                if r.Some? then Missing(mem, r.value, l - 1, v, lx) + |old(pool)| - |pool| else l - lx
    {
      hide WellFormed, WalkFrom, Reaches, SameWalks, PoolRight, IsPointer, Target, Drawn;
      ghost var m, w := mem, own;
      WalkStep(mem, own, root, a, l, v);
      SameRefl(mem, root);
      DrawnNone(pool, mem);
      var e := mem[a][index];
      if Present(e) {
        return Some(Target(e));
      }
      if pool == [] {
        return None;
      }
      var n := pool[0];
      PoolHead(pool, mem);
      PointerEntry(n, l);
      var table: seq<Entry> := mem[a][index := n + 3];
      LinkTable(m, w, root, a, l, v, n);
      DrawnOne(pool, mem);
      pool := pool[1..];
      mem := mem[a := table];
      mem := mem[n := ZeroTable()];
      AllMissing(mem, n, l - 1, v);
      own := own[n := Owner(w[a].level - 1, w[a].prefix * 512 + index)];
      return Some(n);
    }

    /** The last step of the mapping functions: write the leaf. */
    method SetLeaf(x: nat, index: nat, e: Entry, ghost l: Level, ghost v: nat)
      requires Valid() && v < VA_LIMIT && index == Index(v, l) && Reaches(mem, root, 4, x, l, v) && IsLeaf(e, l)
      modifies this`mem
      ensures Valid() && OneMapped(old(mem), mem, root, v, l, e) && mem.Keys == old(mem).Keys
    {
      hide WellFormed, WalkFrom, Reaches, PoolRight, OneMapped;
      LeafWritten(mem, own, root, x, l, v, e);
      PoolKept(pool, mem);
      var table: seq<Entry> := mem[x][index := e];
      mem := mem[x := table];
    }

    /** The leaf for va in the table x that the forced walks have ended at. */
    method WriteLeaf(x: nat, va: nat, pa: nat, flags: Flags, l: Level, ghost v: nat, ghost m0: Memory,
                     ghost pool0: seq<nat>)
      requires Valid() && l <= 3 && GoodFlags(flags, l) && pa < Pow2(width) && pa % Unit(l) == 0 && v == va % VA_LIMIT
      requires Reaches(mem, root, 4, x, l, v) && SameWalks(m0, mem, root) && Drawn(pool0, pool, m0, mem)
      requires Missing(m0, root, 4, v, l) == Missing(mem, x, l, v, l) + |pool0| - |pool|
      modifies this`mem
      ensures Valid() && OneMapped(m0, mem, root, v, l, MakeLeaf(pa, flags, l))
      ensures Drawn(pool0, pool, m0, mem) && Served(pool0, pool, Missing(m0, root, 4, v, l), Done)
    {
      hide WalkFrom, Reaches, SameWalks, OneMapped, WellFormed, PoolRight, IsLeaf, Pow2, Drawn, Missing, Unit, MakeLeaf;
      ghost var m := mem;
      Bits48(va);
      Arrived(mem, x, l, v);
      LeafRoundTrip(pa, flags, l, width);
      SetLeaf(x, Index(va, l), MakeLeaf(pa, flags, l), l, v);
      DrawnLeaf(pool0, pool, m0, m, mem);
      SameThenMapped(m0, m, mem, root, v, l, MakeLeaf(pa, flags, l));
    }

    /** mmu_map_single_page_1g. */
    method Map1G(va: nat, pa: nat, flags: Flags) returns (o: Outcome)
      requires Valid() && GoodFlags(flags, 3) && pa < Pow2(width)
      modifies this
      ensures Valid()
      ensures o == Panic <==> pa % Unit(3) != 0 || va % Unit(3) != 0
      ensures o != Done ==> SameWalks(old(mem), mem, root)
      ensures o == Done ==> OneMapped(old(mem), mem, root, va % VA_LIMIT, 3, MakeLeaf(pa, flags, 3))
      ensures o == OutOfMemory ==> |old(pool)| < 1 && Stuck(mem, pool, root, va % VA_LIMIT, 3)
      ensures Drawn(old(pool), pool, old(mem), mem)
      ensures o != Panic ==> Served(old(pool), pool, Missing(old(mem), root, 4, va % VA_LIMIT, 3), o)
    {
      hide WalkFrom, Reaches, SameWalks, OneMapped, WellFormed, PoolRight, IsLeaf, Pow2, Drawn, Missing, MakeLeaf,
           GoodFlags;
      SameRefl(mem, root);
      DrawnNone(pool, mem);
      if pa % 0x4000_0000 != 0 || va % 0x4000_0000 != 0 {
        return Panic;
      }
      ghost var v := va % VA_LIMIT;
      Bits48(va);
      RootReached(mem, own, root, v);
      LeafBelow(mem, root, v);
      var pdpt := ForceWalk(root, Index(va, 4), 4, v);
      if pdpt.None? {
        return OutOfMemory;
      }
      WriteLeaf(pdpt.value, va, pa, flags, 3, v, old(mem), old(pool));
      return Done;
    }

    /** The first two forced walks of mmu_map_single_page_2m and _4k. */
    method ForceWalkTwice(va: nat, ghost v: nat) returns (r: Option<nat>)
      requires Valid() && v == va % VA_LIMIT && NoneAbove(mem, root, v, 2)
      modifies this
      ensures Valid() && SameWalks(old(mem), mem, root) && Drawn(old(pool), pool, old(mem), mem)
      ensures r.Some? ==> Reaches(mem, root, 4, r.value, 2, v)
      ensures r.Some? ==>
                forall lx: Level | lx <= 2 :: Missing(old(mem), root, 4, v, lx)
                                              == Missing(mem, r.value, 2, v, lx) + |old(pool)| - |pool|
      ensures r.None? ==>
                && |old(pool)| < 2 && pool == []
                && forall lx: Level | lx <= 2 ::
                     Missing(mem, root, 4, v, lx) > 0 && |old(pool)| < Missing(old(mem), root, 4, v, lx)
    {
      hide WalkFrom, Reaches, SameWalks, WellFormed, PoolRight, Drawn, Missing;
      Bits48(va);
      RootReached(mem, own, root, v);
      var pdpt := ForceWalk(root, Index(va, 4), 4, v);
      if pdpt.None? {
        assert Missing(mem, root, 4, v, 2) == 2;
        return None;
      }
      ghost var m1, pool1 := mem, pool;
      SameAt(old(mem), m1, root, v);
      r := ForceWalk(pdpt.value, Index(va, 3), 3, v);
      SameThenSame(old(mem), m1, mem, root);
      DrawnTwice(old(pool), pool1, pool, old(mem), m1, mem);
      DrawnLess(old(pool), pool1, old(mem), m1);
      assert Missing(old(mem), root, 4, v, 2) <= 2;
      if r.None? {
        MissingBelow(mem, root, 4, pdpt.value, 3, v, 1);
        MissingBelow(mem, root, 4, pdpt.value, 3, v, 2);
      }
    }

    /** mmu_map_single_page_2m.  No 1 GiB leaf may be in the way. */
    method Map2M(va: nat, pa: nat, flags: Flags) returns (o: Outcome)
      requires Valid() && GoodFlags(flags, 2) && pa < Pow2(width) && NoneAbove(mem, root, va % VA_LIMIT, 2)
      modifies this
      ensures Valid()
      ensures o == Panic <==> pa % Unit(2) != 0 || va % Unit(2) != 0
      ensures o != Done ==> SameWalks(old(mem), mem, root)
      ensures o == Done ==> OneMapped(old(mem), mem, root, va % VA_LIMIT, 2, MakeLeaf(pa, flags, 2))
      ensures o == OutOfMemory ==> |old(pool)| < 2 && Stuck(mem, pool, root, va % VA_LIMIT, 2)
      ensures Drawn(old(pool), pool, old(mem), mem)
      ensures o != Panic ==> Served(old(pool), pool, Missing(old(mem), root, 4, va % VA_LIMIT, 2), o)
    {
      hide WalkFrom, Reaches, SameWalks, OneMapped, WellFormed, PoolRight, IsLeaf, Pow2, Drawn, Missing, MakeLeaf,
           GoodFlags;
      SameRefl(mem, root);
      DrawnNone(pool, mem);
      if pa % 0x20_0000 != 0 || va % 0x20_0000 != 0 {
        return Panic;
      }
      ghost var v := va % VA_LIMIT;
      Bits48(va);
      var pd := ForceWalkTwice(va, v);
      if pd.None? {
        return OutOfMemory;
      }
      WriteLeaf(pd.value, va, pa, flags, 2, v, old(mem), old(pool));
      return Done;
    }

    /** The third forced walk of mmu_map_single_page_4k. */
    method ForceWalkThrice(va: nat, ghost v: nat) returns (r: Option<nat>)
      requires Valid() && v == va % VA_LIMIT && NoneAbove(mem, root, v, 1)
      modifies this
      ensures Valid() && SameWalks(old(mem), mem, root) && Drawn(old(pool), pool, old(mem), mem)
      ensures r.Some? ==>
                && Reaches(mem, root, 4, r.value, 1, v)
                && Missing(old(mem), root, 4, v, 1) == Missing(mem, r.value, 1, v, 1) + |old(pool)| - |pool|
      ensures r.None? ==>
                |old(pool)| < Missing(old(mem), root, 4, v, 1) && Stuck(mem, pool, root, v, 1)
    {
      hide WalkFrom, Reaches, SameWalks, WellFormed, PoolRight, Drawn, Missing;
      Bits48(va);
      var pd := ForceWalkTwice(va, v);
      if pd.None? {
        return None;
      }
      ghost var m1, pool1 := mem, pool;
      SameAt(old(mem), m1, root, v);
      r := ForceWalk(pd.value, Index(va, 2), 2, v);
      SameThenSame(old(mem), m1, mem, root);
      DrawnTwice(old(pool), pool1, pool, old(mem), m1, mem);
      if r.None? {
        MissingBelow(mem, root, 4, pd.value, 2, v, 1);
      }
    }

    /** mmu_map_single_page_4k.  No large leaf may be in the way. */
    method Map4K(va: nat, pa: nat, flags: Flags) returns (o: Outcome)
      requires Valid() && GoodFlags(flags, 1) && pa < Pow2(width) && NoneAbove(mem, root, va % VA_LIMIT, 1)
      modifies this
      ensures Valid()
      ensures o == Panic <==> pa % Unit(1) != 0 || va % Unit(1) != 0
      ensures o != Done ==> SameWalks(old(mem), mem, root)
      ensures o == Done ==> OneMapped(old(mem), mem, root, va % VA_LIMIT, 1, MakeLeaf(pa, flags, 1))
      ensures o == OutOfMemory ==> |old(pool)| < 3 && Stuck(mem, pool, root, va % VA_LIMIT, 1)
      ensures Drawn(old(pool), pool, old(mem), mem)
      ensures o != Panic ==> Served(old(pool), pool, Missing(old(mem), root, 4, va % VA_LIMIT, 1), o)
    {
      hide WalkFrom, Reaches, SameWalks, OneMapped, WellFormed, PoolRight, IsLeaf, Pow2, Drawn, Missing, MakeLeaf,
           GoodFlags, Stuck;
      SameRefl(mem, root);
      DrawnNone(pool, mem);
      if pa % 0x1000 != 0 || va % 0x1000 != 0 {
        return Panic;
      }
      ghost var v := va % VA_LIMIT;
      var pt := ForceWalkThrice(va, v);
      if pt.None? {
        return OutOfMemory;
      }
      WriteLeaf(pt.value, va, pa, flags, 1, v, old(mem), old(pool));
      return Done;
    }

    /** The body of the loops of mmu_map_range_linear: one page of level l at lo. */
    method MapOne(lo: nat, l: Level, r: Range) returns (o: Outcome)
      requires Valid() && l <= 3 && r.Fits(width) && lo < Pow2(width)
      requires NoneAbove(mem, root, (lo + r.off) % VA_LIMIT, l)
      modifies this
      ensures Valid()
      ensures o == Panic <==> !On(lo, l) || !On(lo + r.off, l)
      ensures Drawn(old(pool), pool, old(mem), mem) && (o != Done ==> SameWalks(old(mem), mem, root))
      ensures o == OutOfMemory ==> Stuck(mem, pool, root, (lo + r.off) % VA_LIMIT, l)
      ensures o == Done ==> OneMapped(old(mem), mem, root, (lo + r.off) % VA_LIMIT, l, MakeLeaf(lo, r.FlagsFor(l), l))
    {
      hide OneMapped, SameWalks, NoneAbove, WellFormed, PoolRight, MakeLeaf, Pow2, Drawn, Stuck, Served, Missing;
      match l {
        case 1 => o := Map4K(lo + r.off, lo, r.flagsPt);
        case 2 => o := Map2M(lo + r.off, lo, r.flagsPd);
        case 3 => o := Map1G(lo + r.off, lo, r.flagsPd);
      }
    }

    /** One of the five loops of mmu_map_range_linear: pages of level l from lo up to end. */
    method MapRun(lo: nat, end: nat, l: Level, r: Range, ghost m0: Memory, ghost pool0: seq<nat>)
      returns (at: nat, o: Outcome)
      requires Valid() && l <= 3 && r.Fits(width) && r.base <= lo && Piece(r.base, r.Limit(), lo, end, l)
      requires Clear(m0, root, r) && RangeMapped(m0, mem, root, r, lo) && Drawn(pool0, pool, m0, mem)
      modifies this
      ensures Valid() && Drawn(pool0, pool, m0, mem)
      ensures o == Done ==> at == Max(lo, end) && RangeMapped(m0, mem, root, r, at) && (lo < end ==> On(r.off, l))
      ensures o == Panic <==> lo < end && !On(r.off, l)
      ensures o != Done ==> Stopped(m0, mem, pool, root, r, o)
    {
      hide OneMapped, SameWalks, NoneAbove, WellFormed, PoolRight, MakeLeaf, Pow2, RangeMapped, Clear, On, LevelAt,
           Unit, Drawn, Stuck;
      at, o := lo, Done;
      while at < end
        invariant Valid() && o == Done && lo <= at <= Max(lo, end) && (lo < end ==> On(at, l))
        invariant lo < at ==> On(r.off, l)
        invariant RangeMapped(m0, mem, root, r, at) && Drawn(pool0, pool, m0, mem)
        decreases end - at
      {
        ghost var m, frames := mem, pool;
        RunStep(m0, m, root, r, at, end, l, width);
        o := MapOne(at, l, r);
        DrawnTwice(pool0, frames, pool, m0, m, mem);
        if o != Done {
          SameMapped(m0, m, mem, root, r, at);
          assert StoppedAt(m0, mem, pool, root, r, o, at);
          return;
        }
        RunStepDone(m0, m, mem, root, r, at, l);
        at := at + Unit(l);
      }
    }

    /** mmu_map_range_linear, with the flags of the two kinds of entries already computed. */
    method MapRangeLinear(vbase: nat, pbase: nat, len: nat, flagsPt: Flags, flagsPd: Flags) returns (o: Outcome)
      requires Valid() && GoodFlags(flagsPt, 1) && GoodFlags(flagsPd, 2) && GoodFlags(flagsPd, 3)
      requires var r := Range(pbase, len, Diff(vbase, pbase), flagsPt, flagsPd); r.InReach(width) && Clear(mem, root, r)
      modifies this
      ensures Valid()
      ensures var r := Range(pbase, len, Diff(vbase, pbase), flagsPt, flagsPd);
              var aligned := On(pbase, 1) && On(vbase, 1) && On(len, 1);
              && (o == Panic ==> !aligned || !Compatible(pbase, pbase + len, r.off))
              && (o == Done ==>
                    aligned && Compatible(pbase, pbase + len, r.off) && Linear(old(mem), mem, root, width, r))
              && (o == Done ==> RangeMapped(old(mem), mem, root, r, pbase + len) && Flagged(mem, root, r))
              && (!aligned ==> o == Panic && mem == old(mem))
              && (aligned && o != Done ==> Stopped(old(mem), mem, pool, root, r, o))
      ensures Drawn(old(pool), pool, old(mem), mem) && (o == OutOfMemory ==> pool == [])
    {
      hide OneMapped, SameWalks, NoneAbove, WellFormed, PoolRight, MakeLeaf, Pow2, RangeMapped, Clear, LevelAt, Unit,
           Up, Down, Compatible, Linear, GoodFlags, Piece, On, Stopped, Drawn, Flagged;
      DrawnNone(pool, mem);
      Aligned(pbase);
      Aligned(vbase);
      Aligned(len);
      if pbase % 0x1000 != 0 || vbase % 0x1000 != 0 || len % 0x1000 != 0 {
        return Panic;
      }
      o := MapAligned(Range(pbase, len, Diff(vbase, pbase), flagsPt, flagsPd), vbase);
    }

    method MapAligned(r: Range, ghost vbase: nat) returns (o: Outcome)
      requires Valid() && r.Fits(width) && Clear(mem, root, r) && r.off == Diff(vbase, r.base)
      requires vbase % 0x1000 == 0
      modifies this
      ensures Valid()
      ensures o == Panic ==> !Compatible(r.base, r.Limit(), r.off)
      ensures o == Done ==> Compatible(r.base, r.Limit(), r.off) && Linear(old(mem), mem, root, width, r)
      ensures o == Done ==> RangeMapped(old(mem), mem, root, r, r.Limit()) && Flagged(mem, root, r)
      ensures o != Done ==> Stopped(old(mem), mem, pool, root, r, o)
      ensures Drawn(old(pool), pool, old(mem), mem) && (o == OutOfMemory ==> pool == [])
    {
      hide OneMapped, SameWalks, NoneAbove, WellFormed, PoolRight, MakeLeaf, Pow2, RangeMapped, Clear, LevelAt, Unit,
           Up, Down, On, Linear, Piece, GoodFlags, Stopped, Drawn, Missing, Flagged;
      ghost var m0, pool0 := mem, pool;
      DrawnNone(pool, mem);
      var limit := r.Limit();
      DiffAligned(r, vbase, width);
      Tiling(r.base, limit);
      NothingMapped(m0, root, r);
      var lo;
      lo, o := MapRun(r.base, End1(r.base, limit), 1, r, m0, pool0);
      if o == Done {
        lo, o := MapRun(lo, End2(lo, limit), 2, r, m0, pool0);
      }
      if o == Done {
        lo, o := MapRun(lo, Down(limit, 3), 3, r, m0, pool0);
      }
      if o == Done {
        lo, o := MapRun(lo, Down(limit, 2), 2, r, m0, pool0);
      }
      if o == Done {
        lo, o := MapRun(lo, limit, 1, r, m0, pool0);
      }
      if o == Done {
        if On(r.off, 3) {
          OnFiner(r.off, 3, 2);
        }
        RangeTranslates(m0, mem, root, r, width);
        RangeFlagged(m0, mem, root, r, width);
      } else {
        StoppedFrames(m0, mem, pool, root, r, o);
      }
    }

    /** mmu_walk_table: the table and index of the leaf for va, with the depth. */
    method WalkTable(va: nat) returns (table: Option<nat>, depth: nat, index: nat)
      requires Valid()
      ensures table.None? <==> WalkFrom(mem, root, 4, va % VA_LIMIT).None?
      ensures table.Some? ==> 1 <= depth <= 3 && table.value in mem && index < |mem[table.value]|
      ensures table.Some? ==>
                WalkFrom(mem, root, 4, va % VA_LIMIT) == Some(((4 - depth) as Level, mem[table.value][index]))
    {
      hide WellFormed, PoolRight, Index, IsPointer, IsLeaf, Target, WalkFrom;
      table, depth, index := None, 0, 0;
      ghost var v := va % VA_LIMIT;
      Bits48(va);
      RootOwns(mem, own, root, v);
      WalkSplit(mem, own, root, 4, v);
      var e4 := mem[root][Index(va, 4)];
      if !Present(e4) {
        return;
      }
      var pdpt := Target(e4);
      WalkSplit(mem, own, pdpt, 3, v);
      depth, index := 1, Index(va, 3);
      var e3 := mem[pdpt][index];
      if LargePage(e3) {
        return Some(pdpt), depth, index;
      }
      if !Present(e3) {
        return;
      }
      var pd := Target(e3);
      WalkSplit(mem, own, pd, 2, v);
      depth, index := 2, Index(va, 2);
      var e2 := mem[pd][index];
      if LargePage(e2) {
        return Some(pd), depth, index;
      }
      if !Present(e2) {
        return;
      }
      var pt := Target(e2);
      WalkSplit(mem, own, pt, 1, v);
      depth, index := 3, Index(va, 1);
      if Present(mem[pt][index]) {
        return Some(pt), depth, index;
      }
    }

    /** virt2phys: 0 for an unmapped address, else what the processor translates it to. */
    method VirtToPhys(virt: nat) returns (p: nat)
      requires Valid()
      ensures var t := Translate(mem, root, width, virt % VA_LIMIT); p == if t.None? then 0 else t.value
    {
      hide WellFormed, PoolRight, WalkFrom, PageOf;
      var table, depth, index := WalkTable(virt);
      if table.None? {
        return 0;
      }
      var l: Level := 4 - depth;
      SameLowBits(virt, l);
      p := PageOf(mem[table.value][index], l, width) + virt % Unit(l);
    }
  }

  lemma RootOwns(mem: Memory, own: map<nat, Owner>, root: nat, v: nat)
    requires root in own && own[root] == Owner(4, 0) && v < VA_LIMIT
    ensures own[root] == Owner(4, Prefix(v, 4))
  {
    TopPrefix(v);
  }

  /** One level of a walk, with the tests that mmu_walk_table makes: a set PS bit alone decides
      for a leaf, because no entry has it without being present. */
  lemma WalkSplit(mem: Memory, own: map<nat, Owner>, a: nat, l: Level, v: nat)
    requires WellFormed(mem, own) && a in mem && own[a] == Owner(l, Prefix(v, l))
    ensures |mem[a]| == 512
    ensures var e := mem[a][Index(v, l)]; var w := WalkFrom(mem, a, l, v);
            && (!Present(e) ==> w.None? && !LargePage(e))
            && (IsLeaf(e, l) ==> w == Some((l, e)))
            && (IsPointer(e, l) ==> Target(e) in mem && own[Target(e)] == Owner(l - 1, Prefix(v, l - 1))
                                    && w == WalkFrom(mem, Target(e), l - 1, v))
            && (IsLeaf(e, l) <==> Present(e) && (l == 1 || (l < 4 && LargePage(e))))
            && (IsPointer(e, l) <==> Present(e) && l > 1 && !IsLeaf(e, l))
  {
    assert TableRight(mem, own, a);
    assert EntryRight(own, own[a], Index(v, l), mem[a][Index(v, l)]);
    if l > 1 {
      PrefixStep(v, l);
    }
  }

  lemma SameLowBits(va: nat, l: Level)
    requires l <= 3
    ensures va % VA_LIMIT % Unit(l) == va % Unit(l)
  {
    hide Unit;
    var h := va / VA_LIMIT;
    OnHigh(h, l);
    ModOn(VA_LIMIT * h, va % VA_LIMIT, l);
  }

  /** The range starts at vbase exactly if vbase is not below pbase (or their distance is half
      the address space): DIFF drops the sign of the offset. */
  lemma RangeStartsAtBase(vbase: nat, pbase: nat)
    ensures (pbase + Diff(vbase, pbase)) % VA_LIMIT == vbase % VA_LIMIT
            <==> vbase >= pbase || 2 * (pbase - vbase) % VA_LIMIT == 0
  {
    if vbase < pbase {
      var d := 2 * (pbase - vbase);
      assert pbase + Diff(vbase, pbase) == vbase + d;
      SameResidue(vbase, d);
    }
  }

  lemma SameResidue(a: nat, d: nat)
    ensures (a + d) % VA_LIMIT == a % VA_LIMIT <==> d % VA_LIMIT == 0
  {
  }

  // ------------------------------------------------------------------- ranges

  /** The distance between two addresses (DIFF). */
  function Diff(a: nat, b: nat): (d: nat) {
    if a < b then b - a else a - b
  }

  /** The arguments of mmu_map_range_linear after its first lines: physical base, length,
      offset between the address spaces, flags. */
  datatype Range = Range(base: nat, len: nat, off: nat, flagsPt: Flags, flagsPd: Flags) {
    function Limit(): (e: nat) {
      base + len
    }

    /** The low 48 bits of the first virtual address that gets mapped. */
    function Start(): (v: nat) {
      (base + off) % VA_LIMIT
    }

    function FlagsFor(l: Level): (f: Flags) {
      if l == 1 then flagsPt else flagsPd
    }

    ghost predicate InReach(width: nat) {
      Start() + len <= VA_LIMIT && Limit() <= Pow2(width)
    }

    ghost predicate Fits(width: nat) {
      && InReach(width)
      && On(base, 1) && On(len, 1)
      && GoodFlags(flagsPt, 1) && GoodFlags(flagsPd, 2) && GoodFlags(flagsPd, 3)
    }

    /** The leaf that covers the physical address x. */
    function LeafFor(x: nat): (r: (Level, Entry)) {
      var l := LevelAt(base, Limit(), x);
      (l, MakeLeaf(Down(x, l), FlagsFor(l), l))
    }

    /** What a walk for u finds once the range is mapped up to hi, if it found w before. */
    function Found(w: Option<(Level, Entry)>, hi: nat, u: nat): (r: Option<(Level, Entry)>) {
      if Start() <= u && u - Start() + base < hi then Some(LeafFor(u - Start() + base)) else w
    }

    function LinearAt(p: Option<nat>, u: nat): (q: Option<nat>) {
      if Start() <= u < Start() + len then Some(base + (u - Start())) else p
    }
  }

  /** No leaf larger than the page size to be used is in the way. */
  ghost predicate Clear(mem: Memory, root: nat, r: Range) {
    forall u: nat | r.Start() <= u < r.Start() + r.len :: ClearAt(mem, root, r, u)
  }

  ghost predicate ClearAt(mem: Memory, root: nat, r: Range, u: nat)
    requires r.Start() <= u
  {
    NoneAbove(mem, root, u, LevelAt(r.base, r.Limit(), r.base + (u - r.Start())))
  }

  /** The range is mapped up to the physical address hi; everything else is as in m0. */
  ghost predicate RangeMapped(m0: Memory, mem: Memory, root: nat, r: Range, hi: nat) {
    forall u: nat | u < VA_LIMIT :: WalkFrom(mem, root, 4, u) == r.Found(WalkFrom(m0, root, 4, u), hi, u)
  }

  /** What the processor makes of an address. */
  ghost function Translate(mem: Memory, root: nat, width: nat, u: nat): (p: Option<nat>) {
    match WalkFrom(mem, root, 4, u)
    case None => None
    case Some(x) => Some(PageOf(x.1, x.0, width) + u % Unit(x.0))
  }

  /** The range translates linearly to its physical addresses; every other address translates
      as before. */
  ghost predicate Linear(m0: Memory, mem: Memory, root: nat, width: nat, r: Range) {
    forall u: nat | u < VA_LIMIT :: Translate(mem, root, width, u) == r.LinearAt(Translate(m0, root, width, u), u)
  }

  /** Every page of the range has the flags of its kind. */
  ghost predicate Flagged(mem: Memory, root: nat, r: Range) {
    forall u: nat | r.Start() <= u < r.Start() + r.len ::
      var w := WalkFrom(mem, root, 4, u);
      w.Some? && Carries(w.value.1, if w.value.0 == 1 then r.flagsPt else r.flagsPd, w.value.0)
  }

  lemma RangeFlagged(m0: Memory, mem: Memory, root: nat, r: Range, width: nat)
    requires 30 <= width <= 52 && r.Fits(width) && RangeMapped(m0, mem, root, r, r.Limit())
    ensures Flagged(mem, root, r)
  {
    hide WalkFrom, Pow2, GoodFlags, LevelAt, Unit, On, MakeLeaf, Down, Carries, Range.Start;
    forall u: nat | r.Start() <= u < r.Start() + r.len
      ensures var w := WalkFrom(mem, root, 4, u);
              w.Some? && Carries(w.value.1, if w.value.0 == 1 then r.flagsPt else r.flagsPd, w.value.0)
    {
      var x := r.base + (u - r.Start());
      var l := LevelAt(r.base, r.Limit(), x);
      LevelFits(r, x, width);
      DownAligned(x, l);
      LeafFlags(Down(x, l), r.FlagsFor(l), l, width);
    }
  }

  /** The range is mapped up to hi and no further: the page size there does not go with the offset, or
      the frames are used up and a table is missing. */
  ghost predicate StoppedAt(m0: Memory, mem: Memory, pool: seq<nat>, root: nat, r: Range, o: Outcome, hi: nat) {
    && r.base <= hi < r.Limit() && RangeMapped(m0, mem, root, r, hi)
    && var l := LevelAt(r.base, r.Limit(), hi);
       if o == Panic then !On(r.off, l) else Stuck(mem, pool, root, (hi + r.off) % VA_LIMIT, l)
  }

  ghost predicate Stopped(m0: Memory, mem: Memory, pool: seq<nat>, root: nat, r: Range, o: Outcome) {
    exists hi: nat :: StoppedAt(m0, mem, pool, root, r, o, hi)
  }

  lemma StoppedFrames(m0: Memory, mem: Memory, pool: seq<nat>, root: nat, r: Range, o: Outcome)
    requires Stopped(m0, mem, pool, root, r, o)
    ensures o != Panic ==> pool == []
  {
  }

  lemma SameMapped(m0: Memory, mem: Memory, mem': Memory, root: nat, r: Range, hi: nat)
    requires RangeMapped(m0, mem, root, r, hi) && SameWalks(mem, mem', root)
    ensures RangeMapped(m0, mem', root, r, hi)
  {
    hide WalkFrom;
  }

  lemma NothingMapped(m0: Memory, root: nat, r: Range)
    ensures RangeMapped(m0, m0, root, r, r.base)
  {
    hide WalkFrom;
  }

  lemma Aligned(x: nat)
    ensures On(x, 1) <==> x % 0x1000 == 0
  {
  }

  lemma DiffAligned(r: Range, vbase: nat, width: nat)
    requires r.Fits(width) && r.off == Diff(vbase, r.base) && vbase % 0x1000 == 0
    ensures On(r.off, 1) && On(r.Limit(), 1)
  {
    hide Pow2, GoodFlags, On, Unit;
    Aligned(vbase);
    var lo := if vbase < r.base then vbase else r.base;
    OnAdd(lo, r.off, 1);
    OnAdd(r.base, r.len, 1);
  }

  /** Before a page is mapped: its virtual address and what was there. */
  lemma RunStep(m0: Memory, mem: Memory, root: nat, r: Range, lo: nat, end: nat, l: Level, width: nat)
    requires r.Fits(width) && r.base <= lo < end && l <= 3 && On(lo, l) && On(end, l)
    requires LevelAt(r.base, r.Limit(), lo) == l && end <= r.Limit()
    requires Clear(m0, root, r) && RangeMapped(m0, mem, root, r, lo)
    ensures lo + Unit(l) <= end && lo < Pow2(width)
    ensures (lo + r.off) % VA_LIMIT == r.Start() + (lo - r.base) && NoneAbove(mem, root, (lo + r.off) % VA_LIMIT, l)
    ensures On(lo + r.off, l) <==> On(r.off, l)
  {
    hide WalkFrom, Pow2, GoodFlags, LevelAt, Unit, On, MakeLeaf;
    OnGap(lo, end, l);
    OnAdd(lo, r.off, l);
    LowPart(r.base + r.off, lo - r.base);
    assert ClearAt(m0, root, r, r.Start() + (lo - r.base));
  }

  lemma LowPart(a: nat, d: nat)
    requires a % VA_LIMIT + d < VA_LIMIT
    ensures (a + d) % VA_LIMIT == a % VA_LIMIT + d
  {
  }

  /** After it is mapped. */
  lemma RunStepDone(m0: Memory, mem: Memory, mem': Memory, root: nat, r: Range, lo: nat, l: Level)
    requires r.base <= lo && l <= 3 && On(lo, l) && On(lo + r.off, l)
    requires LevelOn(r.base, r.Limit(), lo, lo + Unit(l), l)
    requires (lo + r.off) % VA_LIMIT == r.Start() + (lo - r.base)
    requires RangeMapped(m0, mem, root, r, lo)
    requires OneMapped(mem, mem', root, (lo + r.off) % VA_LIMIT, l, MakeLeaf(lo, r.FlagsFor(l), l))
    ensures RangeMapped(m0, mem', root, r, lo + Unit(l)) && On(lo + Unit(l), l)
  {
    hide WalkFrom, Pow2, GoodFlags, LevelAt, LevelOn, Unit, On, MakeLeaf, Down, Range.Start, Range.Found;
    OnUnit(l);
    OnAdd(lo, Unit(l), l);
    OnLow(lo + r.off, l);
    forall u: nat | u < VA_LIMIT
      ensures WalkFrom(mem', root, 4, u) == r.Found(WalkFrom(m0, root, 4, u), lo + Unit(l), u)
    {
      FoundStep(r, WalkFrom(m0, root, 4, u), lo, l, u);
    }
  }

  lemma FoundStep(r: Range, w: Option<(Level, Entry)>, lo: nat, l: Level, u: nat)
    requires r.base <= lo && On(lo, l) && On(r.Start() + (lo - r.base), l)
    requires LevelOn(r.base, r.Limit(), lo, lo + Unit(l), l)
    ensures r.Found(w, lo + Unit(l), u) ==
            if u / Unit(l) == (r.Start() + (lo - r.base)) / Unit(l) then Some((l, MakeLeaf(lo, r.FlagsFor(l), l)))
            else r.Found(w, lo, u)
  {
    hide Unit, On, MakeLeaf, Down, LevelAt, Range.Start;
    var v := r.Start() + (lo - r.base);
    SamePage(v, u, l);
    if v <= u < v + Unit(l) {
      SamePage(lo, lo + (u - v), l);
    }
  }

  /** The finished range translates linearly. */
  lemma RangeTranslates(m0: Memory, mem: Memory, root: nat, r: Range, width: nat)
    requires 30 <= width <= 52 && r.Fits(width) && On(r.off, 1) && Compatible(r.base, r.Limit(), r.off)
    requires RangeMapped(m0, mem, root, r, r.Limit())
    ensures Linear(m0, mem, root, width, r)
  {
    hide WalkFrom, Pow2, GoodFlags, LevelAt, Unit, On, MakeLeaf, Down, Compatible, PageOf, Range.Start, Range.LeafFor,
         Range.Fits;
    forall u: nat | u < VA_LIMIT
      ensures Translate(mem, root, width, u) == r.LinearAt(Translate(m0, root, width, u), u)
    {
      if r.Start() <= u < r.Start() + r.len {
        LeafTranslates(r, u, width);
      }
    }
  }

  lemma LeafTranslates(r: Range, u: nat, width: nat)
    requires 30 <= width <= 52 && r.Fits(width) && On(r.off, 1) && Compatible(r.base, r.Limit(), r.off)
    requires r.Start() <= u < r.Start() + r.len
    ensures var x := r.base + (u - r.Start()); var e := r.LeafFor(x); PageOf(e.1, e.0, width) + u % Unit(e.0) == x
  {
    hide Pow2, GoodFlags, LevelAt, Unit, On, MakeLeaf, Down, Compatible, PageOf;
    var x := r.base + (u - r.Start());
    var l := LevelAt(r.base, r.Limit(), x);
    LevelFits(r, x, width);
    CompatibleAt(r.base, r.Limit(), r.off, x);
    var d := Down(x, l);
    LeafRoundTrip(d, r.FlagsFor(l), l, width) by { DownAligned(x, l); }
    SameOffset(r, u, l);
  }

  lemma LevelFits(r: Range, x: nat, width: nat)
    requires r.Fits(width)
    ensures LevelAt(r.base, r.Limit(), x) <= 3
    ensures GoodFlags(r.FlagsFor(LevelAt(r.base, r.Limit(), x)), LevelAt(r.base, r.Limit(), x))
  {
    hide Up, Down, Unit, GoodFlags, Pow2;
  }

  lemma DownAligned(x: nat, l: Level)
    ensures Down(x, l) % Unit(l) == 0 && Down(x, l) + x % Unit(l) == x
  {
  }

  /** The offset in the page is the same in both address spaces. */
  lemma SameOffset(r: Range, u: nat, l: Level)
    requires l <= 3 && On(r.off, l) && r.Start() <= u
    ensures var x := r.base + (u - r.Start()); Down(x, l) + u % Unit(l) == x
  {
    hide Unit, Down;
    var x := r.base + (u - r.Start());
    var h := (r.base + r.off) / VA_LIMIT;
    OnHigh(h, l);
    assert VA_LIMIT * h + u == x + r.off;
    ModOn(VA_LIMIT * h, u, l);
    ModOn(r.off, x, l);
    DownAligned(x, l);
  }

  /** No leaf of a larger size is in the way of a mapping of level l. */
  ghost predicate NoneAbove(mem: Memory, root: nat, v: nat, l: Level) {
    WalkFrom(mem, root, 4, v).None? || WalkFrom(mem, root, 4, v).value.0 <= l
  }

  lemma {:induction false} LeafBelow(mem: Memory, root: nat, v: nat)
    ensures WalkFrom(mem, root, 4, v).None? || WalkFrom(mem, root, 4, v).value.0 <= 3
  {
    WalkLevel(mem, root, 4, v);
  }

  lemma {:induction false} WalkLevel(mem: Memory, a: nat, l: Level, v: nat)
    ensures WalkFrom(mem, a, l, v).Some? ==>
              var r := WalkFrom(mem, a, l, v).value; r.0 <= l && r.0 <= 3 && IsLeaf(r.1, r.0)
    decreases l
  {
    if a in mem && |mem[a]| == 512 {
      var e := mem[a][Index(v, l)];
      if !IsLeaf(e, l) && IsPointer(e, l) {
        WalkLevel(mem, Target(e), l - 1, v);
      }
    }
  }

  lemma SameAt(mem: Memory, mem': Memory, root: nat, v: nat)
    requires SameWalks(mem, mem', root) && v < VA_LIMIT
    ensures WalkFrom(mem', root, 4, v) == WalkFrom(mem, root, 4, v)
  {
  }

  lemma RootReached(mem: Memory, own: map<nat, Owner>, root: nat, v: nat)
    requires WellFormed(mem, own) && root in mem
    ensures Reaches(mem, root, 4, root, 4, v)
  {
    assert TableRight(mem, own, root);
  }

  /** The indexes only look at the low 48 bits of an address. */
  lemma Bits48(va: nat)
    ensures forall l: Level :: Index(va % VA_LIMIT, l) == Index(va, l)
  {
    hide Unit;
    var h := va / VA_LIMIT;
    forall l: Level ensures Index(va % VA_LIMIT, l) == Index(va, l) {
      HighBits(h, va % VA_LIMIT, l);
    }
  }

  lemma HighBits(h: nat, v: nat, l: Level)
    ensures Index(VA_LIMIT * h + v, l) == Index(v, l)
  {
    var c := match l case 1 => 0x800_0000 case 2 => 0x4_0000 case 3 => 0x200 case 4 => 1;
    QuotientShift(h, v, l, c);
    Multiple512(v / Unit(l), c * h);
  }

  lemma QuotientShift(h: nat, v: nat, l: Level, c: nat)
    requires c == match l case 1 => 0x800_0000 case 2 => 0x4_0000 case 3 => 0x200 case 4 => 1
    ensures (VA_LIMIT * h + v) / Unit(l) == v / Unit(l) + 512 * (c * h)
  {
  }

  lemma Multiple512(a: nat, m: nat)
    ensures (a + 512 * m) % 512 == a % 512
  {
  }

  lemma PoolKept(pool: seq<nat>, mem: Memory)
    requires PoolRight(pool, mem)
    ensures forall mem': Memory | mem'.Keys == mem.Keys :: PoolRight(pool, mem')
  {
  }

  lemma LeafWritten(mem: Memory, own: map<nat, Owner>, root: nat, x: nat, l: Level, v: nat, e: Entry)
    requires WellFormed(mem, own) && root in mem && root in own && own[root] == Owner(4, 0) && v < VA_LIMIT
    requires Reaches(mem, root, 4, x, l, v) && IsLeaf(e, l)
    ensures x in mem && |mem[x]| == 512
    ensures var mem' := SetEntry(mem, x, Index(v, l), e);
            WellFormed(mem', own) && OneMapped(mem, mem', root, v, l, e)
  {
    TopPrefix(v);
    ReachedLevel(mem, own, root, 4, x, l, v);
    assert TableRight(mem, own, x);
    var i := Index(v, l);
    WriteKeepsWellFormed(mem, own, x, i, e);
    var mem' := SetEntry(mem, x, i, e);
    forall u: nat | u < VA_LIMIT
      ensures WalkFrom(mem', root, 4, u)
              == if u / Unit(l) == v / Unit(l) then Some((l, e)) else WalkFrom(mem, root, 4, u)
    {
      TopPrefix(u);
      if u / Unit(l) == v / Unit(l) {
        SameUnitReaches(mem, root, 4, x, l, v, u);
        WrittenIsFound(mem, own, root, 4, x, l, e, u);
      } else {
        OthersUnaffected(mem, own, root, 4, x, i, e, u);
      }
    }
  }

  /** Addresses in one unit of a level use the same tables down to that level. */
  lemma {:induction false} SameUnitReaches(mem: Memory, a: nat, l: Level, x: nat, lx: Level, v: nat, u: nat)
    requires Reaches(mem, a, l, x, lx, v) && u / Unit(lx) == v / Unit(lx)
    ensures Reaches(mem, a, l, x, lx, u)
    decreases l
  {
    if l != lx {
      SameUnitAbove(v, u, lx, l);
      SameUnitReaches(mem, Target(mem[a][Index(v, l)]), l - 1, x, lx, v, u);
    }
  }

  lemma {:induction false} SameUnitAbove(v: nat, u: nat, lx: Level, l: Level)
    requires lx <= l && u / Unit(lx) == v / Unit(lx)
    ensures u / Unit(l) == v / Unit(l)
    decreases l
  {
    if lx < l {
      SameUnitAbove(v, u, lx, l - 1);
      UnitStep(v, l);
      UnitStep(u, l);
    }
  }

  lemma UnitStep(v: nat, l: Level)
    requires l > 1
    ensures v / Unit(l) == v / Unit(l - 1) / 512
  {
  }

  ghost predicate PoolRight(pool: seq<nat>, mem: Memory) {
    && (forall i, j | 0 <= i < j < |pool| :: pool[i] != pool[j])
    && (forall n | n in pool :: n % 0x1000 == 0 && n < 0x10_0000_0000_0000 && n !in mem)
  }

  lemma PoolHead(pool: seq<nat>, mem: Memory)
    requires PoolRight(pool, mem) && pool != []
    ensures pool[0] % 0x1000 == 0 && pool[0] < 0x10_0000_0000_0000 && pool[0] !in mem
    ensures forall mem': Memory | mem'.Keys == mem.Keys + {pool[0]} :: PoolRight(pool[1..], mem')
  {
    assert pool[0] in pool;
    assert forall n | n in pool[1..] :: n in pool && n != pool[0];
  }

  lemma SameRefl(mem: Memory, root: nat)
    ensures SameWalks(mem, mem, root)
  {
  }

  /** What a forced walk finds at a table on the way to v. */
  lemma WalkStep(mem: Memory, own: map<nat, Owner>, root: nat, a: nat, l: Level, v: nat)
    requires WellFormed(mem, own) && root in mem && root in own && own[root] == Owner(4, 0) && v < VA_LIMIT && l > 1
    requires Reaches(mem, root, 4, a, l, v)
    requires WalkFrom(mem, root, 4, v).None? || WalkFrom(mem, root, 4, v).value.0 < l
    ensures a in mem && a in own && |mem[a]| == 512 && own[a] == Owner(l, Prefix(v, l))
    ensures var e := mem[a][Index(v, l)];
            && (if Present(e) then Reaches(mem, root, 4, Target(e), l - 1, v) else e == 0)
            && (IsPointer(e, l) <==> Present(e))
  {
    TopPrefix(v);
    NotALeafYet(mem, root, 4, a, l, v);
    ReachedLevel(mem, own, root, 4, a, l, v);
    assert TableRight(mem, own, a);
    var e := mem[a][Index(v, l)];
    assert EntryRight(own, own[a], Index(v, l), e);
    if Present(e) {
      assert TableRight(mem, own, Target(e));
      ReachesNext(mem, root, 4, a, l, v);
    }
  }

  lemma TopPrefix(v: nat)
    requires v < VA_LIMIT
    ensures Prefix(v, 4) == 0
  {
  }

  lemma AllMissing(mem: Memory, n: nat, l: Level, v: nat)
    requires n in mem && mem[n] == ZeroTable()
    ensures forall lx: Level | lx <= l :: Missing(mem, n, l, v, lx) == l - lx
  {
  }

  /** Linking the fresh table n below table a on the way to v. */
  lemma LinkTable(mem: Memory, own: map<nat, Owner>, root: nat, a: nat, l: Level, v: nat, n: nat)
    requires WellFormed(mem, own) && root in mem && own[root] == Owner(4, 0) && v < VA_LIMIT && l > 1
    requires Reaches(mem, root, 4, a, l, v) && a in mem && own[a] == Owner(l, Prefix(v, l)) && |mem[a]| == 512
    requires mem[a][Index(v, l)] == 0 && n !in mem && IsPointer(n + 3, l) && Writable(n + 3) && Target(n + 3) == n
    ensures var i := Index(v, l);
            var mem' := SetEntry(mem, a, i, n + 3)[n := ZeroTable()];
            && WellFormed(mem', own[n := Owner(l - 1, own[a].prefix * 512 + i)])
            && SameWalks(mem, mem', root) && Reaches(mem', root, 4, n, l - 1, v)
  {
    var i := Index(v, l);
    var mem' := SetEntry(mem, a, i, n + 3)[n := ZeroTable()];
    EmptyTableWellFormed(mem, own, a, i, n, n + 3);
    forall u: nat | u < VA_LIMIT ensures WalkFrom(mem', root, 4, u) == WalkFrom(mem, root, 4, u) {
      TopPrefix(u);
      EmptyTableInvisible(mem, own, root, 4, a, i, n, n + 3, u);
    }
    TopPrefix(v);
    forall b | b in mem ensures b in mem' && |mem'[b]| == 512 && (b != a ==> mem'[b] == mem[b]) {
      assert TableRight(mem, own, b);
    }
    ReachesKept(mem, mem', own, root, 4, a, l, v);
    ReachesNext(mem', root, 4, a, l, v);
  }
}
