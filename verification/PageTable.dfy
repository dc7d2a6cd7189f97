/**
 * Four-level page tables in memory (kernel/src/arch/x86-64/mmu.c), after section 4.5 of the
 * Intel 64 and IA-32 Architectures Software Developer's Manual, volume 3A: what a walk
 * finds, and which addresses one write to one table entry can affect.
 */
module PageTable {
  import opened Options

  /** Table levels: 1 = PT (4 KiB leaves), 2 = PD (2 MiB), 3 = PDPT (1 GiB), 4 = PML4. */
  type Level = l: int | 1 <= l <= 4 witness 1

  const VA_LIMIT := 0x1_0000_0000_0000

  /** How many bytes one entry of a table of that level covers. */
  function Unit(l: Level): (n: nat)
    ensures n > 0
  {
    match l
    case 1 => 0x1000
    case 2 => 0x20_0000
    case 3 => 0x4000_0000
    case 4 => 0x80_0000_0000
  }

  /** The index of an address in a table of that level. */
  function Index(v: nat, l: Level): (i: nat)
    ensures i < 512
  {
    v / Unit(l) % 512
  }

  /** The part of an address above a table of that level. */
  function Prefix(v: nat, l: Level): (p: nat) {
    v / Unit(l) / 512
  }

  lemma PrefixStep(v: nat, l: Level)
    requires l > 1
    ensures Prefix(v, l - 1) == v / Unit(l) == Prefix(v, l) * 512 + Index(v, l)
  {
  }

  // ------------------------------------------------------------------- entries

  type Entry = nat

  /** PM_COMMON_PRESENT, PDXX_COMMON_PS, PML_LOWER_MASK */
  predicate Present(e: Entry) {
    e % 2 == 1
  }

  /** PM_COMMON_WRITE */
  predicate Writable(e: Entry) {
    e / 2 % 2 == 1
  }

  predicate LargePage(e: Entry) {
    e / 0x80 % 2 == 1
  }

  function Target(e: Entry): (a: nat) {
    e / 0x1000 % 0x100_0000_0000 * 0x1000
  }

  /** The entry ends the walk: it maps a page of the table's unit. */
  predicate IsLeaf(e: Entry, l: Level) {
    Present(e) && (l == 1 || (l < 4 && LargePage(e)))
  }

  /** The entry leads to a table one level down. */
  predicate IsPointer(e: Entry, l: Level) {
    Present(e) && l > 1 && !IsLeaf(e, l)
  }

  // ------------------------------------------------------------------- tables

  type Memory = map<nat, seq<Entry>>

  /** Which table of the radix tree a page of memory is. */
  datatype Owner = Owner(level: Level, prefix: nat)

  ghost predicate EntryRight(own: map<nat, Owner>, o: Owner, i: nat, e: Entry) {
    && (e == 0 || Present(e))
    && (IsPointer(e, o.level) ==>
          Writable(e) && Target(e) in own && own[Target(e)] == Owner(o.level - 1, o.prefix * 512 + i))
  }

  ghost predicate TableRight(mem: Memory, own: map<nat, Owner>, a: nat)
    requires a in mem && a in own
  {
    |mem[a]| == 512 && forall i | 0 <= i < 512 :: EntryRight(own, own[a], i, mem[a][i])
  }

  /** Every entry is empty, a leaf, or points to the table that belongs there and lets writes through. */
  ghost predicate WellFormed(mem: Memory, own: map<nat, Owner>) {
    mem.Keys == own.Keys && forall a | a in mem :: TableRight(mem, own, a)
  }

  /** The leaf that a walk from table a finds, with its level. */
  ghost function WalkFrom(mem: Memory, a: nat, l: Level, v: nat): (r: Option<(Level, Entry)>)
    decreases l
  {
    if a !in mem || |mem[a]| != 512 then None
    else
      var e := mem[a][Index(v, l)];
      if IsLeaf(e, l) then Some((l, e))
      else if IsPointer(e, l) then WalkFrom(mem, Target(e), l - 1, v)
      else None
  }

  /** A walk from table a reaches table x of level lx. */
  ghost predicate Reaches(mem: Memory, a: nat, l: Level, x: nat, lx: Level, v: nat)
    decreases l
  {
    a in mem && |mem[a]| == 512 &&
    if l == lx then a == x
    else l > lx && IsPointer(mem[a][Index(v, l)], l) && Reaches(mem, Target(mem[a][Index(v, l)]), l - 1, x, lx, v)
  }

  /** The processor lets a write to v through: every entry on the way allows it. */
  ghost predicate WriteAllowed(mem: Memory, a: nat, l: Level, v: nat)
    decreases l
  {
    a in mem && |mem[a]| == 512 &&
    var e := mem[a][Index(v, l)];
    Writable(e) && (IsLeaf(e, l) || (IsPointer(e, l) && WriteAllowed(mem, Target(e), l - 1, v)))
  }

  /** The leaf alone decides whether a page can be written to. */
  lemma {:induction false} LeafDecidesWriting(mem: Memory, own: map<nat, Owner>, a: nat, l: Level, v: nat)
    requires WellFormed(mem, own) && a in mem && own[a] == Owner(l, Prefix(v, l))
    ensures WriteAllowed(mem, a, l, v) <==> WalkFrom(mem, a, l, v).Some? && Writable(WalkFrom(mem, a, l, v).value.1)
    decreases l
  {
    assert TableRight(mem, own, a);
    var i := Index(v, l);
    var e := mem[a][i];
    assert EntryRight(own, own[a], i, e);
    if IsPointer(e, l) {
      PrefixStep(v, l);
      LeafDecidesWriting(mem, own, Target(e), l - 1, v);
    }
  }

  /** How many tables are missing below table a on the way of v to a table of level lx. */
  ghost function Missing(mem: Memory, a: nat, l: Level, v: nat, lx: Level): (n: nat)
    requires lx <= l
    ensures n <= l - lx
    decreases l
  {
    if l == lx then 0
    else if a in mem && |mem[a]| == 512 && IsPointer(mem[a][Index(v, l)], l)
    then Missing(mem, Target(mem[a][Index(v, l)]), l - 1, v, lx)
    else l - lx
  }

  /** Seen from any table on the way, the same ones are missing. */
  lemma {:induction false} MissingBelow(mem: Memory, a: nat, l: Level, x: nat, k: Level, v: nat, lx: Level)
    requires Reaches(mem, a, l, x, k, v) && lx <= k <= l
    ensures Missing(mem, a, l, v, lx) == Missing(mem, x, k, v, lx)
    decreases l
  {
    if l != k {
      MissingBelow(mem, Target(mem[a][Index(v, l)]), l - 1, x, k, v, lx);
    }
  }

  /** If none is missing the walk gets there; MissingBelow is the converse. */
  lemma {:induction false} NoneMissing(mem: Memory, own: map<nat, Owner>, a: nat, l: Level, v: nat, lx: Level)
    returns (x: nat)
    requires WellFormed(mem, own) && a in mem && own[a] == Owner(l, Prefix(v, l)) && lx <= l
    requires Missing(mem, a, l, v, lx) == 0
    ensures Reaches(mem, a, l, x, lx, v)
    decreases l
  {
    assert TableRight(mem, own, a);
    var e := mem[a][Index(v, l)];
    assert EntryRight(own, own[a], Index(v, l), e);
    if l == lx {
      x := a;
    } else {
      PrefixStep(v, l);
      x := NoneMissing(mem, own, Target(e), l - 1, v, lx);
    }
  }

  function SetEntry(mem: Memory, x: nat, j: nat, e: Entry): (m: Memory)
    requires x in mem && j < |mem[x]|
  {
    var t: seq<Entry> := mem[x][j := e];
    mem[x := t]
  }

  /** Writing one entry can only affect addresses that use it. */
  lemma {:induction false} OthersUnaffected(mem: Memory, own: map<nat, Owner>, a: nat, l: Level, x: nat, j: nat,
                                            e: Entry, v: nat)
    requires WellFormed(mem, own) && a in mem && own[a] == Owner(l, Prefix(v, l))
    requires x in mem && j < 512 && v / Unit(own[x].level) != own[x].prefix * 512 + j
    ensures |mem[x]| == 512 && WalkFrom(SetEntry(mem, x, j, e), a, l, v) == WalkFrom(mem, a, l, v)
    decreases l
  {
    assert TableRight(mem, own, x) && TableRight(mem, own, a);
    var i := Index(v, l);
    var f := mem[a][i];
    assert EntryRight(own, own[a], i, f);
    assert v / Unit(l) == Prefix(v, l) * 512 + i;
    if IsPointer(f, l) {
      PrefixStep(v, l);
      OthersUnaffected(mem, own, Target(f), l - 1, x, j, e, v);
    }
  }

  /** Writing a leaf makes the walks that reach its table end there. */
  lemma {:induction false} WrittenIsFound(mem: Memory, own: map<nat, Owner>, a: nat, l: Level, x: nat, lx: Level,
                                          e: Entry, v: nat)
    requires WellFormed(mem, own) && a in mem && own[a] == Owner(l, Prefix(v, l)) && Reaches(mem, a, l, x, lx, v)
    requires IsLeaf(e, lx)
    ensures x in mem && |mem[x]| == 512 && WalkFrom(SetEntry(mem, x, Index(v, lx), e), a, l, v) == Some((lx, e))
    decreases l
  {
    assert TableRight(mem, own, a);
    if l != lx {
      var i := Index(v, l);
      assert EntryRight(own, own[a], i, mem[a][i]);
      PrefixStep(v, l);
      WrittenIsFound(mem, own, Target(mem[a][i]), l - 1, x, lx, e, v);
      ReachedLevel(mem, own, Target(mem[a][i]), l - 1, x, lx, v);
    }
  }

  /** A table is only ever reached at its own level and prefix. */
  lemma {:induction false} ReachedLevel(mem: Memory, own: map<nat, Owner>, a: nat, l: Level, x: nat, lx: Level, v: nat)
    requires WellFormed(mem, own) && a in mem && own[a] == Owner(l, Prefix(v, l)) && Reaches(mem, a, l, x, lx, v)
    ensures x in mem && own[x] == Owner(lx, Prefix(v, lx)) && lx <= l
    decreases l
  {
    assert TableRight(mem, own, a);
    if l != lx {
      var i := Index(v, l);
      assert EntryRight(own, own[a], i, mem[a][i]);
      PrefixStep(v, l);
      ReachedLevel(mem, own, Target(mem[a][i]), l - 1, x, lx, v);
    }
  }

  lemma WriteKeepsWellFormed(mem: Memory, own: map<nat, Owner>, x: nat, j: nat, e: Entry)
    requires WellFormed(mem, own) && x in mem && j < 512 && EntryRight(own, own[x], j, e)
    ensures |mem[x]| == 512 && WellFormed(SetEntry(mem, x, j, e), own)
  {
    assert TableRight(mem, own, x);
    var m := SetEntry(mem, x, j, e);
    forall a | a in m ensures TableRight(m, own, a) {
      assert TableRight(mem, own, a);
    }
  }

  // ------------------------------------------------------- adding an empty table

  function ZeroTable(): (t: seq<Entry>)
    ensures |t| == 512
  {
    seq(512, _ => 0)
  }

  /** Linking a new empty table into an empty entry changes no walk. */
  lemma {:induction false} EmptyTableInvisible(mem: Memory, own: map<nat, Owner>, a: nat, l: Level, x: nat, j: nat,
                                               n: nat, e: Entry, v: nat)
    requires WellFormed(mem, own) && a in mem && own[a] == Owner(l, Prefix(v, l))
    requires x in mem && j < 512 && n !in mem && |mem[x]| == 512 && mem[x][j] == 0
    requires IsPointer(e, own[x].level) && Target(e) == n
    ensures WalkFrom(SetEntry(mem, x, j, e)[n := ZeroTable()], a, l, v) == WalkFrom(mem, a, l, v)
    decreases l
  {
    assert TableRight(mem, own, a);
    var m := SetEntry(mem, x, j, e)[n := ZeroTable()];
    var i := Index(v, l);
    var f := mem[a][i];
    assert EntryRight(own, own[a], i, f);
    if a == x && i == j {
      assert WalkFrom(m, a, l, v) == WalkFrom(m, n, l - 1, v);
      assert m[n][Index(v, l - 1)] == 0;
    } else if IsPointer(f, l) {
      PrefixStep(v, l);
      EmptyTableInvisible(mem, own, Target(f), l - 1, x, j, n, e, v);
    }
  }

  lemma EmptyTableWellFormed(mem: Memory, own: map<nat, Owner>, x: nat, j: nat, n: nat, e: Entry)
    requires WellFormed(mem, own) && x in mem && j < 512 && n !in mem && |mem[x]| == 512
    requires IsPointer(e, own[x].level) && Writable(e) && Target(e) == n
    ensures WellFormed(SetEntry(mem, x, j, e)[n := ZeroTable()],
                       own[n := Owner(own[x].level - 1, own[x].prefix * 512 + j)])
  {
    var m := SetEntry(mem, x, j, e)[n := ZeroTable()];
    var own' := own[n := Owner(own[x].level - 1, own[x].prefix * 512 + j)];
    forall a | a in m ensures TableRight(m, own', a) {
      if a != n {
        assert TableRight(mem, own, a);
        forall i | 0 <= i < 512 ensures EntryRight(own', own'[a], i, m[a][i]) {
          assert EntryRight(own, own[a], i, mem[a][i]);
        }
      }
    }
  }

  // ----------------------------------------------------------- reaching a table

  lemma {:induction false} ReachesNext(mem: Memory, a: nat, l: Level, x: nat, lx: Level, v: nat)
    requires Reaches(mem, a, l, x, lx, v) && lx > 1
    requires x in mem && |mem[x]| == 512 && IsPointer(mem[x][Index(v, lx)], lx)
    requires var t := Target(mem[x][Index(v, lx)]); t in mem && |mem[t]| == 512
    ensures Reaches(mem, a, l, Target(mem[x][Index(v, lx)]), lx - 1, v)
    decreases l
  {
    if l != lx {
      ReachesNext(mem, Target(mem[a][Index(v, l)]), l - 1, x, lx, v);
    }
  }

  /** A write inside table x, and new tables elsewhere, do not cut the way to x. */
  lemma {:induction false} ReachesKept(mem: Memory, mem': Memory, own: map<nat, Owner>, a: nat, l: Level, x: nat,
                                       lx: Level, v: nat)
    requires WellFormed(mem, own) && a in mem && own[a] == Owner(l, Prefix(v, l)) && Reaches(mem, a, l, x, lx, v)
    requires forall b | b in mem :: b in mem' && |mem'[b]| == 512 && (b != x ==> mem'[b] == mem[b])
    ensures Reaches(mem', a, l, x, lx, v)
    decreases l
  {
    assert TableRight(mem, own, a);
    if l != lx {
      var i := Index(v, l);
      assert EntryRight(own, own[a], i, mem[a][i]);
      PrefixStep(v, l);
      ReachedLevel(mem, own, a, l, x, lx, v);
      ReachesKept(mem, mem', own, Target(mem[a][i]), l - 1, x, lx, v);
    }
  }

  /** If the walk for v does not end above level lx, neither does the table on its way. */
  lemma {:induction false} NotALeafYet(mem: Memory, a: nat, l: Level, x: nat, lx: Level, v: nat)
    requires Reaches(mem, a, l, x, lx, v)
    ensures x in mem && |mem[x]| == 512 && WalkFrom(mem, a, l, v) == WalkFrom(mem, x, lx, v)
    decreases l
  {
    if l != lx {
      NotALeafYet(mem, Target(mem[a][Index(v, l)]), l - 1, x, lx, v);
    }
  }
}
