/**
 * How mmu_map_range_linear cuts a range into pages of three sizes: arithmetic of page
 * boundaries, and the size used at each address.
 */
module MmuRange {
  import opened Arith
  import opened PageTable

  /** x lies on a boundary of the page size of level l. */
  predicate On(x: nat, l: Level) {
    x % Unit(l) == 0
  }

  /** ALIGN_DOWN and ALIGN_UP to the page size of level l. */
  function Down(x: nat, l: Level): (y: nat)
    ensures On(y, l) && y <= x < y + Unit(l)
  {
    DownFacts(x, l);
    x / Unit(l) * Unit(l)
  }

  function Up(x: nat, l: Level): (y: nat)
    ensures On(y, l) && x <= y < x + Unit(l)
  {
    Down(x + Unit(l) - 1, l)
  }

  lemma DownFacts(x: nat, l: Level)
    ensures On(x / Unit(l) * Unit(l), l) && x / Unit(l) * Unit(l) <= x < x / Unit(l) * Unit(l) + Unit(l)
  {
  }

  /** Distinct boundaries are at least a page apart. */
  lemma OnGap(x: nat, y: nat, l: Level)
    requires On(x, l) && On(y, l) && x < y
    ensures x + Unit(l) <= y
  {
    hide Unit;
    var i := Multiple(x, Unit(l));
    var j := Multiple(y, Unit(l));
    Gap(i, j, Unit(l));
  }

  /** A boundary of a larger page size is one of every smaller size. */
  lemma OnFiner(x: nat, l: Level, k: Level)
    requires On(x, l) && k <= l <= 3
    ensures On(x, k)
  {
    var q := Multiple(x, Unit(l));
    if k < l {
      var f := if l == 2 then 0x200 else if k == 1 then 0x4_0000 else 0x200;
      OnMultiple(f * q, k);
    }
  }

  lemma OnMultiple(q: nat, l: Level)
    ensures On(Unit(l) * q, l)
  {
  }

  lemma ModOn(x: nat, y: nat, l: Level)
    requires On(x, l)
    ensures (x + y) % Unit(l) == y % Unit(l)
  {
    hide Unit;
    var q := Multiple(x, Unit(l));
    ModAdd(q, y, Unit(l));
  }

  lemma OnAdd(x: nat, y: nat, l: Level)
    requires On(x, l)
    ensures On(x + y, l) <==> On(y, l)
  {
    hide Unit;
    ModOn(x, y, l);
  }

  lemma OnUnit(l: Level)
    ensures On(Unit(l), l) && On(0, l)
  {
  }

  /** Page boundaries in the low 48 bits are those of the whole address. */
  lemma OnLow(va: nat, l: Level)
    requires l <= 3 && On(va, l)
    ensures On(va % VA_LIMIT, l)
  {
    hide Unit;
    var h := va / VA_LIMIT;
    OnHigh(h, l);
    OnAdd(VA_LIMIT * h, va % VA_LIMIT, l);
  }

  lemma OnHigh(h: nat, l: Level)
    requires l <= 3
    ensures On(VA_LIMIT * h, l)
  {
    var c := match l case 1 => 0x10_0000_0000 case 2 => 0x800_0000 case 3 => 0x4_0000;
    OnMultiple(c * h, l);
  }

  /** The addresses of the page that starts at v are those with its page number. */
  lemma SamePage(v: nat, u: nat, l: Level)
    requires On(v, l)
    ensures u / Unit(l) == v / Unit(l) <==> v <= u < v + Unit(l)
    ensures v <= u < v + Unit(l) ==> Down(u, l) == v && u % Unit(l) == u - v
  {
  }

  // -------------------------------------------------------------- the tiling

  /** The page size used at address x of the range [base, limit): as large as the range and
      the alignment of x's neighbourhood allow. */
  function LevelAt(base: nat, limit: nat, x: nat): (l: Level) {
    if Up(base, 3) <= x < Down(limit, 3) then 3
    else if Up(base, 2) <= x < Down(limit, 2) then 2
    else 1
  }

  /** LevelAt is the largest size of a page around x that lies in the range, and that page does. */
  lemma LargestPage(base: nat, limit: nat, x: nat, k: Level)
    requires On(base, 1) && On(limit, 1) && base <= x < limit && k <= 3
    ensures base <= Down(x, k) && Down(x, k) + Unit(k) <= limit ==> k <= LevelAt(base, limit, x)
    ensures k == LevelAt(base, limit, x) ==> base <= Down(x, k) && Down(x, k) + Unit(k) <= limit
  {
    hide Unit, Up, Down, On;
    var p, lo, hi := Down(x, k), Up(base, k), Down(limit, k);
    if p < lo && base <= p {
      OnGap(p, lo, k);
    }
    if hi < p + Unit(k) <= limit {
      OnUnit(k);
      OnAdd(p, Unit(k), k);
      OnGap(hi, p + Unit(k), k);
    }
    if lo <= x && p < lo {
      OnGap(p, lo, k);
    }
    if x < hi {
      OnGap(p, hi, k);
    }
    if k == 1 {
      if p < base {
        OnGap(p, base, 1);
      }
      OnGap(p, limit, 1);
    }
  }

  ghost predicate LevelOn(base: nat, limit: nat, from: nat, to: nat, l: Level) {
    forall x: nat | from <= x < to :: LevelAt(base, limit, x) == l
  }

  /** A piece of the range that the code covers with pages of one size. */
  ghost predicate Piece(base: nat, limit: nat, from: nat, to: nat, l: Level) {
    from < to ==> On(from, l) && On(to, l) && LevelOn(base, limit, from, to, l) && base <= from && to <= limit
  }

  /** Where the five loops stop. */
  function End1(base: nat, limit: nat): (e: nat) {
    if Up(base, 2) < limit then Up(base, 2) else limit
  }

  function End2(lo: nat, limit: nat): (e: nat) {
    if Up(lo, 3) < Down(limit, 2) then Up(lo, 3) else Down(limit, 2)
  }

  /** Where a loop that starts at lo leaves its counter. */
  function Max(lo: nat, end: nat): (e: nat) {
    if lo < end then end else lo
  }

  /** Rounding up in two steps is rounding up at once. */
  lemma UpTwice(base: nat)
    ensures Up(base, 2) <= Up(base, 3) && Up(Up(base, 2), 3) == Up(base, 3)
  {
    hide Unit, Up;
    OnFiner(Up(base, 3), 3, 2);
    var a, b := Up(base, 2), Up(base, 3);
    if b < a {
      OnGap(b, a, 2);
    }
    var c := Up(a, 3);
    if c < b {
      OnGap(c, b, 3);
    } else if b < c {
      OnGap(b, c, 3);
    }
  }

  lemma DownOrder(limit: nat)
    ensures Down(limit, 3) <= Down(limit, 2) <= limit && On(Down(limit, 3), 2)
  {
    hide Unit, Down;
    OnFiner(Down(limit, 3), 3, 2);
    if Down(limit, 2) < Down(limit, 3) {
      OnGap(Down(limit, 2), Down(limit, 3), 2);
    }
  }

  /** The five loops cover the range piece by piece with the sizes of LevelAt. */
  lemma Tiling(base: nat, limit: nat)
    requires On(base, 1) && On(limit, 1) && base <= limit
    ensures var a1 := End1(base, limit); var a2 := Max(a1, End2(a1, limit));
            var a3 := Max(a2, Down(limit, 3)); var a4 := Max(a3, Down(limit, 2));
            && base <= a1 <= a2 <= a3 <= a4 <= limit
            && Piece(base, limit, base, a1, 1) && Piece(base, limit, a1, End2(a1, limit), 2)
            && Piece(base, limit, a2, Down(limit, 3), 3) && Piece(base, limit, a3, Down(limit, 2), 2)
            && Piece(base, limit, a4, limit, 1)
            && (Up(base, 3) < Down(limit, 3) <==> a2 < Down(limit, 3))
            && (Up(base, 2) < Down(limit, 2) <==>
                  a1 < End2(a1, limit) || a2 < Down(limit, 3) || a3 < Down(limit, 2))
  {
    hide Unit, Up, Down, On;
    UpTwice(base);
    DownOrder(limit);
    OnFiner(Up(base, 2), 2, 1);
    OnFiner(Up(base, 3), 3, 2);
    OnFiner(Down(limit, 2), 2, 1);
    OnFiner(Down(limit, 3), 3, 2);
    FinerFour(base, limit);
  }

  lemma FinerFour(base: nat, limit: nat)
    ensures On(Up(base, 3), 1) && On(Down(limit, 3), 1)
  {
    hide Unit, Up, Down, On;
    OnFiner(Up(base, 3), 3, 1);
    OnFiner(Down(limit, 3), 3, 1);
  }

  /** The distance between the two bases allows every size that the tiling uses. */
  predicate Compatible(base: nat, limit: nat, off: nat) {
    && (Up(base, 2) < Down(limit, 2) ==> On(off, 2))
    && (Up(base, 3) < Down(limit, 3) ==> On(off, 3))
  }

  lemma CompatibleAt(base: nat, limit: nat, off: nat, x: nat)
    requires Compatible(base, limit, off) && On(off, 1)
    ensures On(off, LevelAt(base, limit, x))
  {
    hide Unit, Up, Down, On;
  }
}
