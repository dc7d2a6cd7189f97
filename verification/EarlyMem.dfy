/**
 * The boot-time allocator of kernel/src/mm/mem_init.c: first fit out of the memory map,
 * and the clean-up that hands the map over to the frame allocator.
 */
module EarlyMem {
  import opened Options
  import opened BuddyInit
  import opened BuddyModel

  /** sizeof(struct memmap_entry), sizeof(struct page) and the length of the mappings table. */
  const ENTRY_SIZE := 24
  const STRUCT_PAGE_SIZE := 48
  const MAX_ALLOCATIONS := 256

  /** A byte range that has been handed out. */
  datatype Range = Range(start: nat, length: nat)

  predicate Apart(a: Range, b: Range) {
    a.start + a.length <= b.start || b.start + b.length <= a.start || a.length == 0 || b.length == 0
  }

  /** What the boot loader promises of its memory map: usable entries are page aligned,
      non-empty and do not overlap. */
  ghost predicate BootMap(m: seq<Entry>) {
    && (forall i | 0 <= i < |m| && m[i].usable :: m[i].PageAligned() && m[i].length > 0)
    && (forall i | 0 <= i < |m| :: m[i].start + m[i].length < 0x1_0000_0000_0000_0000)
    && (forall i, j | 0 <= i < j < |m| && m[i].usable && m[j].usable ::
          Apart(Range(m[i].start, m[i].length), Range(m[j].start, m[j].length)))
  }

  /** m is o with a front part of some usable entries taken away. */
  ghost predicate Eaten(m: seq<Entry>, o: seq<Entry>) {
    && |m| == |o|
    && forall i | 0 <= i < |m| :: EatenAt(m, o, i)
  }

  ghost predicate EatenAt(m: seq<Entry>, o: seq<Entry>, i: int)
    requires 0 <= i < |m| == |o|
  {
    && m[i].usable == o[i].usable
    && (m[i].usable ==> o[i].start <= m[i].start && m[i].start + m[i].length == o[i].start + o[i].length)
  }

  /** Bytes taken from the usable entries so far. */
  ghost function Used(m: seq<Entry>, o: seq<Entry>): (n: int)
    requires |m| == |o|
  {
    if m == [] then 0
    else Used(m[..|m| - 1], o[..|m| - 1]) + if m[|m| - 1].usable then m[|m| - 1].start - o[|m| - 1].start else 0
  }

  /** Bytes left in the usable entries. */
  ghost function Left(m: seq<Entry>): (n: nat) {
    if m == [] then 0 else Left(m[..|m| - 1]) + if m[|m| - 1].usable then m[|m| - 1].length else 0
  }

  lemma {:induction false} UsedUpdate(m: seq<Entry>, o: seq<Entry>, i: int, e: Entry)
    requires |m| == |o| && 0 <= i < |m| && m[i].usable && e.usable
    ensures Used(m[i := e], o) == Used(m, o) + e.start - m[i].start
    ensures Left(m[i := e]) == Left(m) + e.length - m[i].length
  {
    var n := |m| - 1;
    if i < n {
      UsedUpdate(m[..n], o[..n], i, e);
      assert m[i := e][..n] == m[..n][i := e];
    } else {
      assert m[i := e][..n] == m[..n];
    }
  }

  lemma {:induction false} UsedNothing(m: seq<Entry>)
    ensures Used(m, m) == 0
  {
    if m != [] {
      UsedNothing(m[..|m| - 1]);
    }
  }

  /** Nothing is lost: taken plus left is what there was. */
  lemma {:induction false} UsedPlusLeft(m: seq<Entry>, o: seq<Entry>)
    requires Eaten(m, o)
    ensures Used(m, o) + Left(m) == Left(o)
  {
    if m != [] {
      var n := |m| - 1;
      assert EatenAt(m, o, n);
      assert Eaten(m[..n], o[..n]) by {
        forall i | 0 <= i < n ensures EatenAt(m[..n], o[..n], i) {
          assert EatenAt(m, o, i);
        }
      }
      UsedPlusLeft(m[..n], o[..n]);
    }
  }

  /** If every usable start is page aligned again, a whole number of pages was taken. */
  lemma {:induction false} UsedWholePages(m: seq<Entry>, o: seq<Entry>)
    requires Eaten(m, o)
    requires forall i | 0 <= i < |m| && m[i].usable :: m[i].start % PAGE_SIZE == 0 && o[i].start % PAGE_SIZE == 0
    ensures Used(m, o) % PAGE_SIZE == 0
  {
    if m != [] {
      var n := |m| - 1;
      assert Eaten(m[..n], o[..n]) by {
        forall i | 0 <= i < n ensures EatenAt(m[..n], o[..n], i) {
          assert EatenAt(m, o, i);
        }
      }
      UsedWholePages(m[..n], o[..n]);
    }
  }

  /** The range lies in the part taken from some usable entry. */
  ghost predicate Inside(r: Range, m: seq<Entry>, o: seq<Entry>, i: int)
    requires |m| == |o|
  {
    0 <= i < |m| && m[i].usable && o[i].start <= r.start && r.start + r.length <= m[i].start
  }

  ghost predicate InsideSome(r: Range, m: seq<Entry>, o: seq<Entry>)
    requires |m| == |o|
  {
    exists i :: Inside(r, m, o, i)
  }

  ghost predicate AllTaken(rs: seq<Range>, m: seq<Entry>, o: seq<Entry>)
    requires |m| == |o|
  {
    && (forall k | 0 <= k < |rs| :: InsideSome(rs[k], m, o))
    && (forall j, k | 0 <= j < k < |rs| :: Apart(rs[j], rs[k]))
  }

  /** A range cut from the front of entry i meets none of the earlier ones. */
  lemma FrontIsApart(rs: seq<Range>, m: seq<Entry>, o: seq<Entry>, i: int, size: nat)
    requires BootMap(o) && Eaten(m, o) && AllTaken(rs, m, o)
    requires 0 <= i < |m| && m[i].usable && size <= m[i].length
    ensures var m' := m[i := m[i].(start := m[i].start + size, length := m[i].length - size)];
            var rs' := rs + [Range(m[i].start, size)];
            Eaten(m', o) && AllTaken(rs', m', o)
  {
    var m' := m[i := m[i].(start := m[i].start + size, length := m[i].length - size)];
    var r := Range(m[i].start, size);
    var rs' := rs + [r];
    forall k | 0 <= k < |m'| ensures EatenAt(m', o, k) {
      assert EatenAt(m, o, k);
    }
    assert EatenAt(m, o, i);
    assert Inside(r, m', o, i);
    assert rs'[|rs|] == r;
    forall k | 0 <= k < |rs'| ensures InsideSome(rs'[k], m', o) && (k < |rs| ==> Apart(rs'[k], r)) {
      if k < |rs| {
        assert rs'[k] == rs[k];
        var j :| Inside(rs[k], m, o, j);
        assert EatenAt(m, o, j);
        assert Inside(rs'[k], m', o, j);
      }
    }
  }

  /** Entry j of the copied map. */
  ghost function CopyOf(m: seq<Entry>, at: int, space: nat, j: int): (e: Entry)
    requires 0 <= j < |m| && 0 <= at < |m| && space <= m[at].length
  {
    if j == at then m[j].(start := m[j].start + space, length := m[j].length - space) else m[j]
  }

  /** The map copied at entry `at`, up to entries that are not usable. */
  ghost predicate CopiedAt(m: seq<Entry>, mm: seq<Entry>, at: int, space: nat) {
    && |mm| == |m| && 0 <= at < |m| && space <= m[at].length
    && (forall j | 0 <= j < |m| && m[j].usable :: mm[j] == CopyOf(m, at, space, j))
    && (forall j | 0 <= j < |m| :: mm[j].usable == m[j].usable)
  }

  /** The end of the highest entry. */
  ghost function HighEnd(m: seq<Entry>): (n: nat) {
    if m == [] then 0
    else
      var h, e := HighEnd(m[..|m| - 1]), m[|m| - 1].start + m[|m| - 1].length;
      if h < e then e else h
  }

  /** high is where the highest entry ends. */
  ghost predicate IsHighEnd(m: seq<Entry>, high: nat) {
    && (exists j :: 0 <= j < |m| && high == m[j].start + m[j].length)
    && (forall j | 0 <= j < |m| :: m[j].start + m[j].length <= high)
  }

  lemma {:induction false} HighEndIs(m: seq<Entry>)
    requires m != []
    ensures IsHighEnd(m, HighEnd(m))
  {
    var n := |m| - 1;
    if n == 0 {
      assert HighEnd(m[..n]) == 0;
      assert HighEnd(m) == m[0].start + m[0].length;
    } else {
      HighEndIs(m[..n]);
      var j :| 0 <= j < n && HighEnd(m[..n]) == m[..n][j].start + m[..n][j].length;
      assert forall k | 0 <= k < n :: m[k] == m[..n][k];
      if HighEnd(m) == HighEnd(m[..n]) {
        assert HighEnd(m) == m[j].start + m[j].length;
      } else {
        assert HighEnd(m) == m[n].start + m[n].length;
      }
    }
  }

  /** Page p lies in a usable entry. */
  ghost predicate Usable(m: seq<Entry>, p: nat) {
    exists i :: 0 <= i < |m| && m[i].Holds(p)
  }

  ghost function UsablePages(m: seq<Entry>, n: nat): (s: set<nat>) {
    set p: nat | 0 <= p < n && Usable(m, p)
  }

  /** The bytes left are those of the pages in usable entries. */
  lemma {:induction false} LeftIsPages(m: seq<Entry>, n: nat)
    requires Regions(m, n)
    ensures Left(m) == PAGE_SIZE * |UsablePages(m, n)|
  {
    hide UsablePages;
    if m == [] {
      NoPages(n);
    } else {
      var k := |m| - 1;
      assert forall i | 0 <= i < k :: m[..k][i] == m[i];
      LeftIsPages(m[..k], n) by {
        assert Regions(m[..k], n);
      }
      LastPages(m, n);
    }
  }

  lemma NoPages(n: nat)
    ensures UsablePages([], n) == {}
  {
  }

  lemma LastPages(m: seq<Entry>, n: nat)
    requires m != [] && Regions(m, n)
    ensures var k := |m| - 1;
            PAGE_SIZE * |UsablePages(m, n)|
            == PAGE_SIZE * |UsablePages(m[..k], n)| + if m[k].usable then m[k].length else 0
  {
    hide Regions;
    var k := |m| - 1;
    var e := m[k];
    UsableStep(m);
    var s := if e.usable then Interval(e.Low(), e.High()) else {};
    assert forall p: nat :: Within(p, e.Low(), e.High()) && e.usable <==> e.Holds(p);
    LastApart(m, n);
    assert UsablePages(m, n) == UsablePages(m[..k], n) + s;
    assert UsablePages(m[..k], n) !! s;
    if e.usable {
      WholePages(e);
      IntervalSize(e.Low(), e.High());
    }
  }

  lemma UsableStep(m: seq<Entry>)
    requires m != []
    ensures forall p: nat :: Usable(m, p) <==> Usable(m[..|m| - 1], p) || m[|m| - 1].Holds(p)
  {
    var k := |m| - 1;
    forall p: nat
      ensures Usable(m, p) <==> Usable(m[..k], p) || m[k].Holds(p)
    {
      if i :| 0 <= i < |m| && m[i].Holds(p) {
        assert i < k ==> m[..k][i].Holds(p);
      }
      if i :| 0 <= i < k && m[..k][i].Holds(p) {
        assert m[i].Holds(p);
      }
    }
  }

  lemma LastApart(m: seq<Entry>, n: nat)
    requires m != [] && Regions(m, n)
    ensures var e := m[|m| - 1];
            && (e.usable ==> e.PageAligned() && e.High() <= n)
            && forall p: nat | e.Holds(p) :: !Usable(m[..|m| - 1], p)
  {
    var k := |m| - 1;
    forall p: nat | m[k].Holds(p)
      ensures !Usable(m[..k], p)
    {
      forall i | 0 <= i < k
        ensures !m[..k][i].Holds(p)
      {
        assert m[..k][i] == m[i];
      }
    }
  }

  lemma WholePages(e: Entry)
    requires e.PageAligned()
    ensures e.length == PAGE_SIZE * (e.High() - e.Low()) && e.Low() <= e.High()
  {
  }

  lemma PagesOfBytes(k: nat)
    ensures PAGE_SIZE * k / PAGE_SIZE == k
  {
  }

  lemma BootRegions(m: seq<Entry>, n: nat)
    requires BootMap(m) && forall i | 0 <= i < |m| :: m[i].start + m[i].length < (n + 1) * PAGE_SIZE
    ensures Regions(m, n)
  {
    hide BootMap;
    BootAligned(m);
    TrimmedRegions(m, m, n);
  }

  lemma BootAligned(m: seq<Entry>)
    requires BootMap(m)
    ensures Eaten(m, m) && forall i | 0 <= i < |m| && m[i].usable :: m[i].start % PAGE_SIZE == 0
  {
  }

  ghost predicate Fits(m: seq<Entry>, size: nat) {
    exists i :: FirstFit(m, size, i)
  }

  /** There is room for `space` bytes, and for `size` bytes once those have been taken. */
  ghost predicate FitsBoth(m: seq<Entry>, space: nat, size: nat) {
    exists at :: FirstFit(m, space, at) && Fits(m[at := CopyOf(m, at, space, at)], size)
  }

  /** First fit looks at usable entries only. */
  lemma FitInCopy(m: seq<Entry>, mm: seq<Entry>, at: int, space: nat, size: nat, i: int)
    requires CopiedAt(m, mm, at, space) && m[at].usable
    ensures FirstFit(mm, size, i) <==> FirstFit(m[at := CopyOf(m, at, space, at)], size, i)
  {
    var m' := m[at := CopyOf(m, at, space, at)];
    assert forall j | 0 <= j < |m| :: mm[j].usable == m'[j].usable && (m'[j].usable ==> mm[j] == m'[j]);
  }

  lemma OneFirst(m: seq<Entry>, size: nat, i: int, j: int)
    requires FirstFit(m, size, i) && FirstFit(m, size, j)
    ensures i == j
  {
  }

  lemma SameLength(m: seq<Entry>, o: seq<Entry>)
    requires Eaten(m, o)
    ensures |m| == |o|
  {
  }

  lemma CopyTaken(m: seq<Entry>, mm: seq<Entry>, at: int, space: nat)
    requires BootMap(m) && FirstFit(m, space, at) && CopiedAt(m, mm, at, space)
    ensures Eaten(mm, m) && AllTaken([Range(m[at].start, space)], mm, m) && Used(mm, m) == space
  {
    hide Used;
    assert Inside(Range(m[at].start, space), mm, m, at);
    forall k | 0 <= k < |m| ensures EatenAt(mm, m, k) {
    }
    var m' := m[at := CopyOf(m, at, space, at)];
    UsedUpdate(m, m, at, m'[at]);
    UsedNothing(m);
    UsedSame(mm, m', m);
  }

  lemma {:induction false} UsedSame(m: seq<Entry>, m': seq<Entry>, o: seq<Entry>)
    requires |m| == |m'| == |o|
    requires forall i | 0 <= i < |m| :: m[i].usable == m'[i].usable && (m[i].usable ==> m[i] == m'[i])
    ensures Used(m, o) == Used(m', o)
  {
    if m != [] {
      UsedSame(m[..|m| - 1], m'[..|m| - 1], o[..|m| - 1]);
    }
  }

  /** A usable entry moved up to its next page boundary. */
  function Trimmed(e: Entry): (r: Entry)
    ensures r.usable == e.usable && r.start + r.length == e.start + e.length && e.start <= r.start < e.start + PAGE_SIZE
  {
    var cut := AlignUp(e.start) - e.start;
    if e.usable && cut <= e.length then e.(start := e.start + cut, length := e.length - cut) else e
  }

  /** A usable entry always reaches at least to its next page boundary. */
  lemma CutFits(m: seq<Entry>, o: seq<Entry>, i: int)
    requires BootMap(o) && Eaten(m, o) && 0 <= i < |m| && m[i].usable
    ensures AlignUp(m[i].start) - m[i].start <= m[i].length
  {
    assert EatenAt(m, o, i) && o[i].PageAligned();
    var end, y := m[i].start + m[i].length, AlignUp(m[i].start);
    assert end % PAGE_SIZE == 0 && m[i].start <= end;
    assert y / PAGE_SIZE <= end / PAGE_SIZE;
    assert y <= end;
  }

  lemma TrimTaken(rs: seq<Range>, m: seq<Entry>, o: seq<Entry>, i: int)
    requires BootMap(o) && Eaten(m, o) && AllTaken(rs, m, o) && 0 <= i < |m| && m[i].usable
    ensures Eaten(m[i := Trimmed(m[i])], o) && AllTaken(rs, m[i := Trimmed(m[i])], o)
  {
    var m' := m[i := Trimmed(m[i])];
    forall k | 0 <= k < |m'| ensures EatenAt(m', o, k) {
      assert EatenAt(m, o, k);
    }
    forall k | 0 <= k < |rs| ensures InsideSome(rs[k], m', o) {
      var j :| Inside(rs[k], m, o, j);
      assert Inside(rs[k], m', o, j);
    }
  }

  /** The trimmed map is what the frame allocator expects. */
  lemma TrimmedRegions(m: seq<Entry>, o: seq<Entry>, n: nat)
    requires BootMap(o) && |m| == |o| && Eaten(m, o)
    requires forall i | 0 <= i < |m| && m[i].usable :: m[i].start % PAGE_SIZE == 0
    requires forall i | 0 <= i < |o| :: o[i].start + o[i].length < (n + 1) * PAGE_SIZE
    ensures Regions(m, n) && (NonTouching(o) ==> NonTouching(m))
    ensures Used(m, o) % PAGE_SIZE == 0
  {
    hide Used, BootMap, Eaten;
    forall i | 0 <= i < |m| && m[i].usable
      ensures m[i].PageAligned() && m[i].High() <= n && o[i].start % PAGE_SIZE == 0
    {
      EntryPages(m, o, n, i);
    }
    UsedWholePages(m, o);
    forall i, j, p: nat | 0 <= i < |m| && 0 <= j < |m| && m[i].Holds(p) && m[j].Holds(p) ensures i == j {
      EntryPages(m, o, n, i);
      EntryPages(m, o, n, j);
      EntriesApart(m, o, i, j);
    }
    forall i, j | 0 <= i < |m| && 0 <= j < |m| && i != j && m[i].usable && m[j].usable && NonTouching(o)
      ensures m[i].High() != m[j].Low()
    {
      EntryPages(m, o, n, i);
      EntryPages(m, o, n, j);
      EntriesApart(m, o, i, j);
      assert o[i].High() != o[j].Low() && o[j].High() != o[i].Low();
    }
  }

  lemma EntryPages(m: seq<Entry>, o: seq<Entry>, n: nat, i: int)
    requires BootMap(o) && Eaten(m, o) && 0 <= i < |m| && m[i].usable && m[i].start % PAGE_SIZE == 0
    requires o[i].start + o[i].length < (n + 1) * PAGE_SIZE
    ensures o[i].usable && o[i].start % PAGE_SIZE == 0 && o[i].Low() < o[i].High()
    ensures m[i].PageAligned() && m[i].High() <= n && m[i].High() == o[i].High() && o[i].Low() <= m[i].Low()
  {
    assert EatenAt(m, o, i) && o[i].PageAligned();
    NonEmpty(o[i]);
  }

  lemma EntriesApart(m: seq<Entry>, o: seq<Entry>, i: int, j: int)
    requires BootMap(o) && Eaten(m, o) && 0 <= i < |m| && 0 <= j < |m| && m[i].usable && m[j].usable
    ensures i == j || o[i].High() <= o[j].Low() || o[j].High() <= o[i].Low()
  {
    assert EatenAt(m, o, i) && EatenAt(m, o, j);
    if i < j {
      assert Apart(Range(o[i].start, o[i].length), Range(o[j].start, o[j].length));
    } else if j < i {
      assert Apart(Range(o[j].start, o[j].length), Range(o[i].start, o[i].length));
    }
  }

  lemma NonEmpty(e: Entry)
    requires e.PageAligned() && e.length > 0
    ensures e.Low() < e.High()
  {
    assert e.length >= PAGE_SIZE;
  }

  /** Usable entries start at different addresses. */
  lemma OneStart(m: seq<Entry>, i: int, j: int)
    requires BootMap(m) && 0 <= i < |m| && 0 <= j < |m| && m[i].usable && m[j].usable
    ensures m[i].start == m[j].start <==> i == j
  {
    if i < j {
      assert Apart(Range(m[i].start, m[i].length), Range(m[j].start, m[j].length));
    } else if j < i {
      assert Apart(Range(m[j].start, m[j].length), Range(m[i].start, m[i].length));
    }
  }

  lemma BothFit(m: seq<Entry>, mm: seq<Entry>, at: int, space: nat, size: nat)
    requires FirstFit(m, space, at) && CopiedAt(m, mm, at, space)
    ensures Fits(mm, size) <==> FitsBoth(m, space, size)
  {
    var m' := m[at := CopyOf(m, at, space, at)];
    assert Fits(mm, size) <==> Fits(m', size) by {
      forall i
        ensures FirstFit(mm, size, i) <==> FirstFit(m', size, i)
      {
        FitInCopy(m, mm, at, space, size, i);
      }
    }
    assert Fits(m', size) ==> FirstFit(m, space, at) && Fits(m', size);
    forall b | FirstFit(m, space, b)
      ensures b == at
    {
      OneFirst(m, space, at, b);
    }
  }

  lemma PairApart(copy: Range, mappings: seq<Range>, m: seq<Entry>, o: seq<Entry>)
    requires |m| == |o| && AllTaken([copy] + mappings, m, o) && |mappings| == 1
    ensures Apart(copy, mappings[0])
  {
    var rs := [copy] + mappings;
    assert Apart(rs[0], rs[1]);
  }

  class EarlyAllocator {
    var memmap: seq<Entry>
    /** early_mem_mappings[..early_mem_allocations] */
    var mappings: seq<Range>
    var bytesAllocated: nat
    var totalPages: nat
    var totalPagesUsable: int
    /** The boot loader's map, and the range the copied map occupies. */
    ghost var boot: seq<Entry>
    ghost var copy: Range

    ghost predicate Valid()
      reads this
    {
      && BootMap(boot) && Eaten(memmap, boot)
      && AllTaken([copy] + mappings, memmap, boot)
      && bytesAllocated == Used(memmap, boot)
      && (forall i | 0 <= i < |boot| :: boot[i].start + boot[i].length < (totalPages + 1) * PAGE_SIZE)
    }

    /** Everything handed out so far. */
    ghost function Taken(): (rs: seq<Range>)
      reads this
    {
      [copy] + mappings
    }

    /** The copying loop of early_mem_init: the entry that holds the copy loses its front. */
    static method CopyMap(m: seq<Entry>, at: nat, space: nat) returns (mm: seq<Entry>, high: nat, usable: nat)
      requires BootMap(m) && at < |m| && m[at].usable && space <= m[at].length
      ensures CopiedAt(m, mm, at, space) && usable == Left(m) && high == HighEnd(m)
      ensures IsHighEnd(m, high)
    {
      hide BootMap;
      var base := m[at].start;
      high, usable, mm := 0, 0, [];
      for i := 0 to |m|
        invariant |mm| == i && usable == Left(m[..i]) && high == HighEnd(m[..i])
        invariant forall j | 0 <= j < i && m[j].usable :: mm[j] == CopyOf(m, at, space, j)
        invariant forall j | 0 <= j < i :: mm[j].usable == m[j].usable
      {
        assert m[..i + 1][..i] == m[..i];
        var ent := m[i];
        if ent.usable {
          usable := usable + ent.length;
        }
        if high < ent.start + ent.length {
          high := ent.start + ent.length;
        }
        ent := CopyEntry(m, at, space, base, i);
        mm := mm + [ent];
      }
      assert m[..|m|] == m;
      HighEndIs(m);
    }

    /** One entry of the copy. */
    static method CopyEntry(m: seq<Entry>, ghost at: nat, space: nat, base: nat, i: nat) returns (ent: Entry)
      requires BootMap(m) && at < |m| && m[at].usable && space <= m[at].length && base == m[at].start && i < |m|
      ensures ent.usable == m[i].usable && (m[i].usable ==> ent == CopyOf(m, at, space, i))
    {
      ent := m[i];
      if ent.usable {
        OneStart(m, at, i);
      }
      if base == ent.start {
        ent := ent.(start := ent.start + space, length := (ent.length - space) % 0x1_0000_0000_0000_0000);
      }
    }

    /** early_mem_init, up to the allocation of the page array: put a copy of the boot
        loader's map at the front of the first usable entry that has room for it. */
    constructor (m: seq<Entry>)
      requires BootMap(m) && Fits(m, |m| * ENTRY_SIZE)
      ensures Valid() && boot == m && mappings == [] && bytesAllocated == |m| * ENTRY_SIZE
      ensures exists at :: && FirstFit(m, |m| * ENTRY_SIZE, at) && copy == Range(m[at].start, |m| * ENTRY_SIZE)
                           && CopiedAt(m, memmap, at, |m| * ENTRY_SIZE)
      ensures totalPagesUsable == Left(m) / PAGE_SIZE && totalPages == HighEnd(m) / PAGE_SIZE
      ensures exists high: nat :: IsHighEnd(m, high) && totalPages == high / PAGE_SIZE
      ensures totalPagesUsable == |UsablePages(m, totalPages)|
    {
      var space := |m| * ENTRY_SIZE;
      var at := 0;
      ghost var first :| FirstFit(m, space, first);
      while !(m[at].usable && m[at].length >= space)
        invariant 0 <= at <= first
        invariant forall j | 0 <= j < at :: !(m[j].usable && m[j].length >= space)
        decreases first - at
      {
        at := at + 1;
      }
      var base := m[at].start;
      var mm, high, usable := CopyMap(m, at, space);
      memmap, boot, copy := mm, m, Range(base, space);
      mappings, bytesAllocated := [], space;
      totalPages, totalPagesUsable := high / PAGE_SIZE, usable / PAGE_SIZE;
      new;
      CopyTaken(m, memmap, at, space);
      BootRegions(m, totalPages);
      LeftIsPages(m, totalPages);
      PagesOfBytes(|UsablePages(m, totalPages)|);
      assert [copy] + mappings == [copy];
      assert FirstFit(m, space, at);
    }

    /** early_mem_alloc: first fit.  None is the "allocation failed" or "too many
        allocations" panic; `overruns` says that the record goes past the mappings table. */
    method Alloc(size: nat) returns (r: Option<nat>, overruns: bool)
      requires Valid()
      modifies this`memmap, this`mappings, this`bytesAllocated
      ensures Valid()
      ensures overruns <==> r.Some? && |old(mappings)| == MAX_ALLOCATIONS
      ensures r.None? ==> memmap == old(memmap) && mappings == old(mappings) && bytesAllocated == old(bytesAllocated)
      ensures r.None? <==> |old(mappings)| > MAX_ALLOCATIONS || !Fits(old(memmap), size)
      ensures r.Some? ==>
                && mappings == old(mappings) + [Range(r.value, size)]
                && bytesAllocated == old(bytesAllocated) + size
                && exists i :: FirstFit(old(memmap), size, i) && r.value == old(memmap)[i].start
                     && memmap == old(memmap)[i := old(memmap)[i].(start := r.value + size,
                                                                   length := old(memmap)[i].length - size)]
    {
      hide BootMap, Eaten, AllTaken, Used;
      if |mappings| > MAX_ALLOCATIONS {
        return None, false;
      }
      for i := 0 to |memmap|
        invariant memmap == old(memmap) && mappings == old(mappings) && bytesAllocated == old(bytesAllocated)
        invariant forall j | 0 <= j < i :: !(memmap[j].usable && memmap[j].length >= size)
      {
        if memmap[i].usable && memmap[i].length >= size {
          assert FirstFit(memmap, size, i);
          overruns := |mappings| == MAX_ALLOCATIONS;
          var start := Cut(i, size);
          return Some(start), overruns;
        }
      }
      return None, false;
    }

    /** The loop body of early_mem_alloc for the entry that is found. */
    method Cut(i: nat, size: nat) returns (start: nat)
      requires Valid() && i < |memmap| && memmap[i].usable && memmap[i].length >= size
      modifies this`memmap, this`mappings, this`bytesAllocated
      ensures Valid() && start == old(memmap)[i].start && mappings == old(mappings) + [Range(start, size)]
      ensures memmap == old(memmap)[i := old(memmap)[i].(start := start + size, length := old(memmap)[i].length - size)]
      ensures bytesAllocated == old(bytesAllocated) + size
    {
      hide BootMap, Eaten, AllTaken, Used;
      SameLength(memmap, boot);
      FrontIsApart([copy] + mappings, memmap, boot, i, size);
      var ent := memmap[i];
      UsedUpdate(memmap, boot, i, ent.(start := ent.start + size, length := ent.length - size));
      mappings := mappings + [Range(ent.start, size)];
      memmap := memmap[i := ent.(start := ent.start + size, length := ent.length - size)];
      bytesAllocated := bytesAllocated + size;
      assert [copy] + mappings == [copy] + old(mappings) + [Range(ent.start, size)];
      start := ent.start;
    }

    /** early_mem_init as a whole: the copy of the map, and behind it the array of page structures.
        None is the panic of its allocation, when no usable entry has room for the array. */
    static method Init(m: seq<Entry>) returns (r: Option<EarlyAllocator>)
      requires BootMap(m) && Fits(m, |m| * ENTRY_SIZE)
      ensures r.Some? ==>
                var ea := r.value;
                && ea.Valid() && fresh(ea) && ea.boot == m && ea.totalPages == HighEnd(m) / PAGE_SIZE
                && (exists high: nat :: IsHighEnd(m, high) && ea.totalPages == high / PAGE_SIZE)
                && ea.totalPagesUsable == |UsablePages(m, ea.totalPages)|
                && |ea.mappings| == 1 && ea.mappings[0].length == ea.totalPages * STRUCT_PAGE_SIZE
                && Apart(ea.copy, ea.mappings[0])
                && ea.bytesAllocated == |m| * ENTRY_SIZE + ea.totalPages * STRUCT_PAGE_SIZE
      ensures r.Some? <==> FitsBoth(m, |m| * ENTRY_SIZE, HighEnd(m) / PAGE_SIZE * STRUCT_PAGE_SIZE)
    {
      hide Eaten, Used, AllTaken, FirstFit, Fits, FitsBoth, CopiedAt, IsHighEnd, UsablePages, BootMap;
      var ea := new EarlyAllocator(m);
      ghost var at :| FirstFit(m, |m| * ENTRY_SIZE, at) && CopiedAt(m, ea.memmap, at, |m| * ENTRY_SIZE);
      BothFit(m, ea.memmap, at, |m| * ENTRY_SIZE, HighEnd(m) / PAGE_SIZE * STRUCT_PAGE_SIZE);
      var got, _ := ea.Alloc(ea.totalPages * STRUCT_PAGE_SIZE);
      SameLength(ea.memmap, m);
      if got.None? {
        return None;
      }
      PairApart(ea.copy, ea.mappings, ea.memmap, m);
      return Some(ea);
    }

    /** The loop body of early_mem_exit for one usable entry. */
    method CutEntry(i: nat)
      requires Valid() && i < |memmap| && memmap[i].usable
      modifies this`memmap, this`bytesAllocated
      ensures Valid() && memmap == old(memmap)[i := Trimmed(old(memmap)[i])]
      ensures memmap[i].start % PAGE_SIZE == 0 && old(bytesAllocated) <= bytesAllocated
    {
      hide Used;
      var ent := memmap[i];
      var cut := AlignUp(ent.start) - ent.start;
      CutFits(memmap, boot, i);
      TrimTaken([copy] + mappings, memmap, boot, i);
      UsedUpdate(memmap, boot, i, Trimmed(ent));
      memmap := memmap[i := ent.(start := ent.start + cut, length := ent.length - cut)];
      bytesAllocated := bytesAllocated + cut;
    }

    /** early_mem_exit: page-align every usable entry.  `panics` is the sanity check on the
        byte count; it never fires, and no cut exceeds its entry. */
    method Exit() returns (panics: bool, bytes: nat)
      requires Valid()
      modifies this`memmap, this`bytesAllocated, this`totalPagesUsable
      ensures Valid() && !panics
      ensures bytes == bytesAllocated && bytes % PAGE_SIZE == 0 && old(bytesAllocated) <= bytes
      ensures bytes + Left(memmap) == Left(boot)
      ensures Regions(memmap, totalPages)
      ensures NonTouching(boot) ==> NonTouching(memmap)
      ensures |memmap| == |old(memmap)| && forall i | 0 <= i < |memmap| :: memmap[i] == Trimmed(old(memmap)[i])
      ensures forall i | 0 <= i < |memmap| && memmap[i].usable ::
                memmap[i].start % PAGE_SIZE == 0 && memmap[i].start - old(memmap)[i].start < PAGE_SIZE
      ensures totalPagesUsable == old(totalPagesUsable) - bytes / PAGE_SIZE
      ensures old(totalPagesUsable) == Left(boot) / PAGE_SIZE ==> totalPagesUsable == Left(memmap) / PAGE_SIZE
      ensures Left(memmap) == PAGE_SIZE * |UsablePages(memmap, totalPages)|
    {
      for i := 0 to |memmap|
        invariant Valid() && |memmap| == |old(memmap)| && old(bytesAllocated) <= bytesAllocated
        invariant totalPagesUsable == old(totalPagesUsable)
        invariant forall j | 0 <= j < i :: memmap[j] == Trimmed(old(memmap)[j])
        invariant forall j | 0 <= j < i && memmap[j].usable :: memmap[j].start % PAGE_SIZE == 0
        invariant forall j | i <= j < |memmap| :: memmap[j] == old(memmap)[j]
      {
        if memmap[i].usable {
          CutEntry(i);
        }
      }
      TrimmedRegions(memmap, boot, totalPages);
      UsedPlusLeft(memmap, boot);
      LeftIsPages(memmap, totalPages);
      panics := bytesAllocated % PAGE_SIZE != 0;
      totalPagesUsable := totalPagesUsable - bytesAllocated / PAGE_SIZE;
      bytes := bytesAllocated;
    }

    /** early_mem_statistics.  Once Exit has counted the taken pages out of `usable`, the
        reported `free` is short by those pages a second time. */
    method Statistics() returns (usable: int, free: int)
      requires Valid()
      ensures usable == totalPagesUsable && free == usable - bytesAllocated / PAGE_SIZE
      ensures totalPagesUsable == Left(memmap) / PAGE_SIZE ==>
                (free == Left(memmap) / PAGE_SIZE <==> bytesAllocated < PAGE_SIZE)
    {
      usable := totalPagesUsable;
      free := totalPagesUsable - bytesAllocated / PAGE_SIZE;
    }
  }

  /** A machine with one megabyte of memory. */
  function OneMegabyte(): (m: seq<Entry>) {
    [Entry(0, 256 * PAGE_SIZE, true)]
  }

  /** It has room for the copy of its map and for its 256 page structures. */
  lemma OneMegabyteFits()
    ensures var m := OneMegabyte();
            && BootMap(m) && Fits(m, ENTRY_SIZE) && HighEnd(m) / PAGE_SIZE == 256
            && FitsBoth(m, ENTRY_SIZE, 256 * STRUCT_PAGE_SIZE)
  {
    var m := OneMegabyte();
    assert FirstFit(m, ENTRY_SIZE, 0);
    assert HighEnd(m[..0]) == 0;
    assert FirstFit(m[0 := CopyOf(m, 0, ENTRY_SIZE, 0)], 256 * STRUCT_PAGE_SIZE, 0);
  }

  lemma RoomLeft(m: seq<Entry>, size: nat)
    requires Eaten(m, OneMegabyte()) && Used(m, OneMegabyte()) + size <= 256 * PAGE_SIZE
    ensures Fits(m, size)
  {
    var o := OneMegabyte();
    assert EatenAt(m, o, 0);
    assert Used(m[..0], o[..0]) == 0;
    assert FirstFit(m, size, 0);
  }

  /** After the page array, 255 allocations fill the table of mappings, and the check that should
      refuse the next one lets it write behind the end. */
  method TableOverrun() returns (overruns: bool)
    ensures overruns
  {
    hide BootMap, Eaten, AllTaken, Used, Fits, FitsBoth, FirstFit, HighEnd;
    OneMegabyteFits();
    var init := EarlyAllocator.Init(OneMegabyte());
    var ea := init.value;
    for i := 1 to MAX_ALLOCATIONS
      invariant ea.Valid() && ea.boot == OneMegabyte() && |ea.mappings| == i
      invariant ea.bytesAllocated == ENTRY_SIZE + 256 * STRUCT_PAGE_SIZE + i - 1
    {
      RoomLeft(ea.memmap, 1);
      var _, _ := ea.Alloc(1);
    }
    RoomLeft(ea.memmap, 1);
    var _, last := ea.Alloc(1);
    overruns := last;
  }

  function AlignUp(x: nat): (y: nat)
    ensures x <= y < x + PAGE_SIZE && y % PAGE_SIZE == 0
  {
    (x + PAGE_SIZE - 1) / PAGE_SIZE * PAGE_SIZE
  }

  /** Entry i is the first usable one that is large enough. */
  ghost predicate FirstFit(m: seq<Entry>, size: nat, i: int) {
    && 0 <= i < |m| && m[i].usable && m[i].length >= size
    && forall j | 0 <= j < i :: !(m[j].usable && m[j].length >= size)
  }
}
