/**
 * Mapping pages and ranges (kernel/src/arch/x86-64/mmu.c).
 */
module Mmu {
  import opened Arith
  import opened PageTable

  /** The low `w` bits of a number. */
  function LowBits(e: nat, w: nat): (r: nat) {
    if w == 0 then 0 else e % 2 + 2 * LowBits(e / 2, w - 1)
  }

  /** Bits above the kept ones do not matter. */
  lemma {:induction false} LowBitsDrop(x: nat, w: nat, k: nat, high: bool)
    requires x < Pow2(w) && w <= k
    ensures LowBits(x + (if high then Pow2(k) else 0), w) == x
    decreases w
  {
    if w > 0 {
      LowBitsDrop(x / 2, w - 1, k - 1, high);
      var e := x + (if high then Pow2(k) else 0);
      assert e / 2 == x / 2 + (if high then Pow2(k - 1) else 0);
      assert e % 2 == x % 2;
    }
  }

  /** Flag bits of a leaf: bits 0-11, bit 12 (PAT of a large page), bit 63 (no-execute). */
  datatype Flags = Flags(low: nat, pat: bool, nx: bool)

  /** Flags as callers pass them: present, and within their bit positions. */
  predicate GoodFlags(f: Flags, l: Level) {
    f.low < 0x1000 && f.low % 2 == 1 && (l == 1 ==> !f.pat)
  }

  /** flags | PDXX_COMMON_PS for the large sizes, bits 0-11. */
  function LowFlags(f: Flags, l: Level): (r: nat) {
    if l > 1 && !LargePage(f.low) then f.low + 0x80 else f.low
  }

  /** pa | flags, and | PDXX_COMMON_PS for the large sizes. */
  function MakeLeaf(pa: nat, f: Flags, l: Level): (e: Entry) {
    pa + LowFlags(f, l) + (if f.pat then 0x1000 else 0) + (if f.nx then Pow2(63) else 0)
  }

  /** The page address that virt2phys takes out of a leaf: physical address bits only, without
      the bits below the page size. */
  function PageOf(e: Entry, l: Level, width: nat): (a: nat) {
    LowBits(e, width) / Unit(l) * Unit(l)
  }

  lemma Pow2Values()
    ensures Pow2(30) == 0x4000_0000 && Pow2(63) == 0x8000_0000_0000_0000
  {
    assert Pow2(10) == 0x400;
    assert Pow2(20) == 0x10_0000;
    assert Pow2(30) == 0x4000_0000;
    assert Pow2(40) == 0x100_0000_0000;
    assert Pow2(50) == 0x4_0000_0000_0000;
    assert Pow2(60) == 0x1000_0000_0000_0000;
  }

  /** Alignment makes room for the flag bits below the physical width. */
  lemma {:induction false} RoomStep(w: nat)
    requires w >= 30
    ensures Pow2(w) % 0x4000_0000 == 0
  {
    Pow2Values();
    if w > 30 {
      RoomStep(w - 1);
    }
  }

  lemma RoomFor(pa: nat, l: Level, w: nat)
    requires w >= 30 && l <= 3 && pa < Pow2(w) && pa % Unit(l) == 0
    ensures pa + Unit(l) <= Pow2(w)
  {
    hide Pow2, Unit;
    RoomStep(w);
    var j := Multiple(pa, Unit(l));
    var k := Multiple(Pow2(w), 0x4000_0000);
    Room(j, k, l);
  }

  lemma Room(j: nat, k: nat, l: Level)
    requires l <= 3 && Unit(l) * j < 0x4000_0000 * k
    ensures Unit(l) * j + Unit(l) <= 0x4000_0000 * k
  {
  }

  /** The low flag bits are where the walk looks for them. */
  lemma FlagBits(pa: nat, low: nat, pat: bool, nx: bool)
    requires pa % 0x1000 == 0 && low < 0x1000 && low % 2 == 1
    ensures var e := pa + low + (if pat then 0x1000 else 0) + (if nx then 0x8000_0000_0000_0000 else 0);
            Present(e) && LargePage(e) == LargePage(low)
  {
    hide Present, LargePage;
    var q := Multiple(pa, 0x1000);
    var m := q + (if pat then 1 else 0) + (if nx then 0x8_0000_0000_0000 else 0);
    LowBit(low);
    LowBit(low + 0x1000 * m);
    SplitByte(low, m);
  }

  lemma LowBit(x: nat)
    ensures Present(x) <==> x % 2 == 1
  {
  }

  lemma SplitByte(low: nat, m: nat)
    requires low < 0x1000
    ensures LargePage(low + 0x1000 * m) == LargePage(low)
    ensures (low + 0x1000 * m) % 2 == low % 2
  {
    hide LargePage;
    Even(low, 0x800 * m);
    var a := Shift(low);
    SplitBits(a, low - 0x80 * a, m);
  }

  lemma Shift(low: nat) returns (a: nat)
    ensures 0x80 * a <= low < 0x80 * a + 0x80
  {
    a := low / 0x80;
  }

  lemma SplitBits(a: nat, b: nat, m: nat)
    requires b < 0x80
    ensures LargePage(0x80 * a + b + 0x1000 * m) == LargePage(0x80 * a + b)
  {
    Quotient(a, b);
    Quotient(a + 32 * m, b);
    assert 0x80 * a + b + 0x1000 * m == 0x80 * (a + 32 * m) + b;
    Even(a, 16 * m);
  }

  lemma Even(a: nat, m: nat)
    ensures (a + 2 * m) % 2 == a % 2
  {
  }

  lemma PageMultiple(pa: nat, l: Level)
    requires pa % Unit(l) == 0
    ensures pa % 0x1000 == 0
  {
    var q := Multiple(pa, Unit(l));
    match l {
      case 1 =>
      case 2 => assert pa == 0x1000 * (0x200 * q);
      case 3 => assert pa == 0x1000 * (0x4_0000 * q);
      case 4 => assert pa == 0x1000 * (0x800_0000 * q);
    }
  }

  lemma Quotient(a: nat, b: nat)
    requires b < 0x80
    ensures (0x80 * a + b) / 0x80 == a
  {
  }

  lemma Truncated(pa: nat, rest: nat, l: Level)
    requires pa % Unit(l) == 0 && rest < Unit(l)
    ensures (pa + rest) / Unit(l) * Unit(l) == pa
  {
    hide Unit;
    var q := Multiple(pa, Unit(l));
    TruncatedMultiple(q, rest, l);
  }

  lemma TruncatedMultiple(q: nat, rest: nat, l: Level)
    requires rest < Unit(l)
    ensures (Unit(l) * q + rest) / Unit(l) == q
  {
  }

  /** A leaf yields the page address it was made from, and it is a leaf. */
  lemma LeafRoundTrip(pa: nat, f: Flags, l: Level, width: nat)
    requires l <= 3 && 30 <= width <= 52 && pa < Pow2(width) && pa % Unit(l) == 0 && GoodFlags(f, l)
    ensures PageOf(MakeLeaf(pa, f, l), l, width) == pa && IsLeaf(MakeLeaf(pa, f, l), l)
  {
    hide Pow2, LowBits, Present, LargePage, Unit, GoodFlags, LowFlags;
    Pow2Values();
    RoomFor(pa, l, width);
    var rest := LowFlags(f, l) + (if f.pat then 0x1000 else 0);
    LowFlagsFit(f, l);
    PageMultiple(pa, l);
    FlagBits(pa, LowFlags(f, l), f.pat, f.nx);
    LowBitsDrop(pa + rest, width, 63, f.nx);
    Truncated(pa, rest, l);
  }

  /** The leaf has these flags: bits 0-11 but for the page size bit, bit 12 and bit 63. */
  ghost predicate Carries(e: Entry, f: Flags, l: Level) {
    && (e % 0x1000 == f.low || (l > 1 && !LargePage(f.low) && e % 0x1000 == f.low + 0x80))
    && (l > 1 ==> (e / 0x1000 % 2 == 1 <==> f.pat))
    && (e >= 0x8000_0000_0000_0000 <==> f.nx)
  }

  lemma LeafFlags(pa: nat, f: Flags, l: Level, width: nat)
    requires l <= 3 && 30 <= width <= 52 && pa < Pow2(width) && pa % Unit(l) == 0 && GoodFlags(f, l)
    ensures Carries(MakeLeaf(pa, f, l), f, l)
  {
    hide Pow2, LargePage, Unit;
    Pow2Values();
    LowFlagsFit(f, l);
    Pow2Below(width);
    PageMultiple(pa, l);
    var q := Multiple(pa, 0x1000);
    if l > 1 {
      LargeMultiple(pa, q, l);
    }
    LeafParts(q, LowFlags(f, l), f.pat, f.nx);
  }

  lemma Pow2Below(width: nat)
    requires width <= 52
    ensures Pow2(width) <= 0x10_0000_0000_0000
    decreases 52 - width
  {
    if width == 52 {
      assert Pow2(50) == 0x4_0000_0000_0000 by { Pow2Values(); }
    } else {
      Pow2Below(width + 1);
    }
  }

  lemma LargeMultiple(pa: nat, q: nat, l: Level)
    requires 1 < l <= 3 && pa == 0x1000 * q && pa % Unit(l) == 0
    ensures q % 2 == 0
  {
    var k := Multiple(pa, Unit(l));
    assert q == (if l == 2 then 0x200 else 0x4_0000) * k;
  }

  lemma LeafParts(q: nat, low: nat, pat: bool, nx: bool)
    requires low < 0x1000 && q < 0x100_0000_0000
    ensures var e := 0x1000 * q + low + (if pat then 0x1000 else 0) + (if nx then 0x8000_0000_0000_0000 else 0);
            && e % 0x1000 == low && (q % 2 == 0 ==> (e / 0x1000 % 2 == 1 <==> pat))
            && (e >= 0x8000_0000_0000_0000 <==> nx)
  {
    var m := q + (if pat then 1 else 0) + (if nx then 0x8_0000_0000_0000 else 0);
    Split4K(m, low);
  }

  lemma Split4K(m: nat, low: nat)
    requires low < 0x1000
    ensures (0x1000 * m + low) % 0x1000 == low && (0x1000 * m + low) / 0x1000 == m
  {
  }

  lemma LowFlagsFit(f: Flags, l: Level)
    requires l <= 3 && GoodFlags(f, l)
    ensures LowFlags(f, l) < 0x1000 && LowFlags(f, l) % 2 == 1 && (l > 1 ==> LargePage(LowFlags(f, l)))
    ensures LowFlags(f, l) + (if f.pat then 0x1000 else 0) < Unit(l)
  {
  }
}
