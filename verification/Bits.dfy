/**
 * Shifts, alignment, exclusive or and bitmaps, as the frame allocator uses them.
 */
module Bits {
  import opened Arith

  /** p >> o */
  function Shr(p: nat, o: nat): (r: nat) {
    if o == 0 then p else Shr(p, o - 1) / 2
  }

  /** k << o */
  function Shl(k: nat, o: nat): (r: nat)
    decreases o
  {
    if o == 0 then k else Shl(2 * k, o - 1)
  }

  /** The first page of the naturally aligned block of order o that holds page p. */
  function Head(p: nat, o: nat): (h: nat) {
    Shl(Shr(p, o), o)
  }

  lemma HeadZero(p: nat)
    ensures Head(p, 0) == p
  {
  }

  predicate Aligned(p: nat, o: nat) {
    Head(p, o) == p
  }

  lemma {:induction false} ShlAdd(j: nat, k: nat, o: nat)
    ensures Shl(j + k, o) == Shl(j, o) + Shl(k, o)
    decreases o
  {
    if o > 0 {
      ShlAdd(2 * j, 2 * k, o - 1);
    }
  }

  lemma {:induction false} ShlOne(o: nat)
    ensures Shl(1, o) == Pow2(o) && Shl(0, o) == 0
  {
    if o > 0 {
      ShlOne(o - 1);
      ShlAdd(1, 1, o - 1);
    }
  }

  /** Every page lies in exactly one block of each order, at the distance given by its
      low bits. */
  lemma {:induction false} HeadBounds(p: nat, o: nat)
    ensures Head(p, o) <= p < Head(p, o) + Pow2(o)
  {
    if o > 0 {
      HeadBounds(p, o - 1);
      var k := Shr(p, o - 1);
      ShlAdd(2 * (k / 2), k % 2, o - 1);
      ShlOne(o - 1);
    }
  }

  /** Distinct blocks of an order start at least Pow2(o) apart. */
  lemma {:induction false} ShlGap(j: nat, k: nat, o: nat)
    requires j < k
    ensures Shl(j, o) + Pow2(o) <= Shl(k, o)
  {
    ShlAdd(j + 1, k - j - 1, o);
    ShlAdd(j, 1, o);
    ShlOne(o);
  }

  lemma HeadUnique(p: nat, a: nat, o: nat)
    requires Aligned(a, o) && a <= p < a + Pow2(o)
    ensures Head(p, o) == a
  {
    HeadBounds(p, o);
    var j, k := Shr(p, o), Shr(a, o);
    if j < k {
      ShlGap(j, k, o);
    } else if k < j {
      ShlGap(k, j, o);
    }
  }

  /** A page belongs to the aligned block (a, o) exactly when it lies in its range. */
  lemma InBlock(p: nat, a: nat, o: nat)
    requires Aligned(a, o)
    ensures Head(p, o) == a <==> a <= p < a + Pow2(o)
  {
    HeadBounds(p, o);
    if a <= p < a + Pow2(o) {
      HeadUnique(p, a, o);
    }
  }

  lemma {:induction false} ShrShl(k: nat, o: nat)
    ensures Shr(Shl(k, o), o) == k && Aligned(Shl(k, o), o)
  {
    var p := Shl(k, o);
    HeadBounds(p, o);
    var j := Shr(p, o);
    if j < k {
      ShlGap(j, k, o);
    } else if k < j {
      ShlGap(k, j, o);
    }
  }

  lemma HeadAligned(p: nat, o: nat)
    ensures Aligned(Head(p, o), o)
  {
    ShrShl(Shr(p, o), o);
  }

  /** The lower and the upper half of an aligned block. */
  lemma Halves(a: nat, o: nat)
    requires Aligned(a, o + 1)
    ensures Aligned(a, o) && Aligned(a + Pow2(o), o) && !Aligned(a + Pow2(o), o + 1)
  {
    var k := Shr(a, o + 1);
    assert a == Shl(2 * k, o);
    ShrShl(2 * k, o);
    ShlAdd(2 * k, 1, o);
    ShlOne(o);
    ShrShl(2 * k + 1, o);
    if Aligned(a + Pow2(o), o + 1) {
      var j := Shr(a + Pow2(o), o + 1);
      if j < k { ShlGap(j, k, o + 1); } else if k < j { ShlGap(k, j, o + 1); }
    }
  }

  lemma AlignedDown(a: nat, o: nat)
    requires Aligned(a, o + 1)
    ensures Aligned(a, o)
  {
    Halves(a, o);
  }

  /** An aligned block is the lower or the upper half of the block above it. */
  lemma Sides(a: nat, o: nat)
    requires Aligned(a, o)
    ensures Head(a, o + 1) == (if Aligned(a, o + 1) then a else a - Pow2(o))
    ensures !Aligned(a, o + 1) ==> Pow2(o) <= a && Aligned(a - Pow2(o), o + 1)
    ensures Aligned(a, o + 1) <==> Shr(a, o) % 2 == 0
  {
    var k := Shr(a, o);
    assert Head(a, o + 1) == Shl(2 * (k / 2), o);
    ShlAdd(2 * (k / 2), k % 2, o);
    ShlOne(o);
    HeadAligned(a, o + 1);
  }

  // ------------------------------------------------------------- exclusive or

  /** Bitwise exclusive or. */
  function Xor(x: nat, y: nat): (r: nat) {
    if x == 0 && y == 0 then 0 else 2 * Xor(x / 2, y / 2) + (x % 2 + y % 2) % 2
  }

  lemma {:induction false} XorZero(x: nat)
    ensures Xor(x, 0) == x
  {
    if x > 0 {
      XorZero(x / 2);
    }
  }

  lemma {:induction false} XorDouble(x: nat, y: nat)
    ensures Xor(2 * x, 2 * y) == 2 * Xor(x, y)
  {
    if x != 0 || y != 0 {
      assert (2 * x) / 2 == x && (2 * y) / 2 == y;
    }
  }

  lemma {:induction false} ShlDouble(k: nat, o: nat)
    requires o > 0
    ensures Shl(k, o) == 2 * Shl(k, o - 1)
  {
    ShlAdd(k, k, o - 1);
  }

  /** Flipping bit o of an aligned page number moves to the other half of its pair. */
  lemma {:induction false} XorShl(k: nat, o: nat)
    ensures Xor(Shl(k, o), Pow2(o)) == Shl(if k % 2 == 0 then k + 1 else k - 1, o)
  {
    if o == 0 {
      XorZero(k / 2);
      assert Xor(k, 1) == 2 * Xor(k / 2, 0) + (k % 2 + 1) % 2;
    } else {
      XorShl(k, o - 1);
      ShlDouble(k, o);
      ShlDouble(if k % 2 == 0 then k + 1 else k - 1, o);
      XorDouble(Shl(k, o - 1), Pow2(o - 1));
    }
  }

  /** The other half of the pair that an aligned block belongs to. */
  function Buddy(a: nat, o: nat): (b: nat)
    requires Aligned(a, o)
  {
    if Aligned(a, o + 1) then a + Pow2(o) else Sides(a, o); a - Pow2(o)
  }

  lemma XorIsBuddy(a: nat, o: nat)
    requires Aligned(a, o)
    ensures Xor(a, Pow2(o)) == Buddy(a, o)
  {
    var k := Shr(a, o);
    XorShl(k, o);
    Sides(a, o);
    ShlOne(o);
    if k % 2 == 0 {
      ShlAdd(k, 1, o);
    } else {
      ShlAdd(k - 1, 1, o);
    }
  }

  lemma BuddyFacts(a: nat, o: nat)
    requires Aligned(a, o)
    ensures var b := Buddy(a, o);
            && Aligned(b, o) && b != a && Buddy(b, o) == a
            && Head(a, o + 1) == Head(b, o + 1) == (if a < b then a else b)
            && Shr(a, o + 1) == Shr(b, o + 1)
  {
    Sides(a, o);
    HeadAligned(a, o + 1);
    var h := Head(a, o + 1);
    Halves(h, o);
    Sides(Buddy(a, o), o);
    SameHead(a, Buddy(a, o), o + 1);
  }

  lemma SameHead(p: nat, q: nat, o: nat)
    requires Head(p, o) == Head(q, o)
    ensures Shr(p, o) == Shr(q, o)
  {
    ShrShl(Shr(p, o), o);
    ShrShl(Shr(q, o), o);
  }

  // ------------------------------------------------------------------ bitmaps

  function ByteStatus(b: bv8, k: nat): (r: bool)
    requires k < 8
  {
    (b & ((1 as bv8) << k)) >> k != 0
  }

  function ByteFlip(b: bv8, k: nat): (r: bv8)
    requires k < 8
  {
    b ^ ((1 as bv8) << k)
  }

  lemma FlipByte(b: bv8, i: nat, j: nat)
    requires i < 8 && j < 8
    ensures ByteStatus(ByteFlip(b, i), j) == (ByteStatus(b, j) != (i == j))
  {
    if i == 0 {} else if i == 1 {} else if i == 2 {} else if i == 3 {}
    else if i == 4 {} else if i == 5 {} else if i == 6 {} else {}
    if j == 0 {} else if j == 1 {} else if j == 2 {} else if j == 3 {}
    else if j == 4 {} else if j == 5 {} else if j == 6 {} else {}
  }

  /** _bitmap_status: bit n of a byte array. */
  function Status(n: nat, bitmap: seq<bv8>): (r: bool)
    requires n / 8 < |bitmap|
  {
    ByteStatus(bitmap[n / 8], n % 8)
  }

  /** _bitmap_flip. */
  function Flip(n: nat, bitmap: seq<bv8>): (r: seq<bv8>)
    requires n / 8 < |bitmap|
    ensures |r| == |bitmap|
  {
    bitmap[n / 8 := ByteFlip(bitmap[n / 8], n % 8)]
  }

  /** Flipping bit n changes bit n and no other. */
  lemma FlipStatus(n: nat, m: nat, bitmap: seq<bv8>)
    requires n / 8 < |bitmap| && m / 8 < |bitmap|
    ensures Status(m, Flip(n, bitmap)) == (Status(m, bitmap) != (m == n))
  {
    hide ByteStatus, ByteFlip;
    FlipByte(bitmap[n / 8], n % 8, m % 8);
  }

  lemma ZeroStatus(n: nat, bitmap: seq<bv8>)
    requires n / 8 < |bitmap| && bitmap[n / 8] == 0
    ensures !Status(n, bitmap)
  {
  }
}
