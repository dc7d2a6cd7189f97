/**
 * The byte interface on top of the NVMe block cache (nvme_read and nvme_write of
 * kernel/src/driver/nvme.c): which bytes the blocks stand for, and how a byte range is cut into
 * a front part, whole blocks and a tail part.
 */
module NvmeBytes {
  import opened NvmeIndex
  import opened NvmeView
  import opened NvmeLru

  /** A block with a part replaced. */
  function Spliced(block: seq<Byte>, pos: nat, part: seq<Byte>): (r: seq<Byte>)
    requires pos + |part| <= |block|
    ensures |r| == |block|
  {
    block[..pos] + part + block[pos + |part|..]
  }

  lemma SplicedWhole(block: seq<Byte>, part: seq<Byte>)
    requires |part| == |block|
    ensures Spliced(block, 0, part) == part
  {
  }

  /** One byte of the view. */
  ghost function ByteOf(s: State, p: nat): (r: Byte) {
    var b := View(s, p / BLOCK);
    if p % BLOCK < |b| then b[p % BLOCK] else 0
  }

  // ------------------------------------------------------------------ reading

  /** What a read may return at p: what the view shows there, or, for a block that is not dirty,
      what the disk holds. */
  ghost predicate ByteShown(s: State, p: nat, x: Byte) {
    || (p % BLOCK < |View(s, p / BLOCK)| && x == View(s, p / BLOCK)[p % BLOCK])
    || (!DirtyAt(s, p / BLOCK) && OnDisk(s.disk, p / BLOCK) && x == DiskBlock(s.disk, p / BLOCK)[p % BLOCK])
  }

  ghost predicate Shown(s: State, off: nat, buf: seq<Byte>) {
    forall j | 0 <= j < |buf| :: ByteShown(s, off + j, buf[j])
  }

  /** The buffer holds the bytes of the view from `off` on. */
  ghost predicate Matches(s: State, off: nat, buf: seq<Byte>) {
    forall j | 0 <= j < |buf| :: buf[j] == ByteOf(s, off + j)
  }

  lemma ShownNothing(s: State, off: nat)
    ensures Shown(s, off, [])
  {
  }

  /** With every clean block equal to the disk there is only one thing to return. */
  lemma ShownMatches(s: State, off: nat, buf: seq<Byte>)
    requires Consistent(s) && Coherent(s) && Shown(s, off, buf)
    ensures Matches(s, off, buf)
  {
    hide View, Consistent, Coherent;
    forall j | 0 <= j < |buf|
      ensures buf[j] == ByteOf(s, off + j)
    {
      assert ByteShown(s, off + j, buf[j]);
      var b := (off + j) / BLOCK;
      if !DirtyAt(s, b) && OnDisk(s.disk, b) {
        CoherentView(s, b);
      }
    }
  }

  /** Nothing is returned from beyond the device while nothing is cached there. */
  lemma ShownResident(s: State, off: nat, buf: seq<Byte>)
    requires Resident(s) && Shown(s, off, buf) && buf != []
    ensures off + |buf| <= |s.disk| / BLOCK * BLOCK
  {
    assert ByteShown(s, off + (|buf| - 1), buf[|buf| - 1]);
    assert OnDisk(s.disk, (off + |buf| - 1) / BLOCK);
  }

  lemma AppendPart(s: State, t: State, off: nat, buf: seq<Byte>, b: nat, pos: nat, r: nat, blk: seq<Byte>)
    requires Shown(s, off, buf) && off + |buf| == BLOCK * b + pos && pos + r <= BLOCK
    requires Kept(s, t, b) && |blk| == BLOCK && blk == View(t, b)
    ensures Shown(s, off, buf + blk[pos..pos + r])
  {
    hide View, DirtyAt;
    var out := buf + blk[pos..pos + r];
    forall j | 0 <= j < |out|
      ensures ByteShown(s, off + j, out[j])
    {
      if j < |buf| {
        assert ByteShown(s, off + j, buf[j]);
      } else {
        var p := off + j;
        assert p == BLOCK * b + (pos + j - |buf|);
        assert p / BLOCK == b && p % BLOCK == pos + j - |buf|;
        assert out[j] == blk[p % BLOCK];
      }
    }
  }

  // ------------------------------------------------------------------ writing

  /** The view after writing `data` at `off`. */
  ghost predicate Overlaid(s: State, t: State, off: nat, data: seq<Byte>) {
    forall p: nat :: ByteOf(t, p) == if off <= p < off + |data| then data[p - off] else ByteOf(s, p)
  }

  lemma OverlaidSame(s: State, t: State, off: nat)
    requires SameView(s, t)
    ensures Overlaid(s, t, off, [])
  {
    hide View;
    forall p: nat
      ensures ByteOf(t, p) == ByteOf(s, p)
    {
      SameViewAt(s, t, p / BLOCK);
    }
  }

  /** Writing one more part, inside one block. */
  lemma OverlaidStep(s: State, t: State, u: State, off: nat, data: seq<Byte>, n: nat, b: nat, pos: nat, m: nat)
    requires n + m <= |data| && off + n == BLOCK * b + pos && pos + m <= BLOCK
    requires Overlaid(s, t, off, data[..n])
    requires |View(t, b)| == BLOCK || (pos == 0 && m == BLOCK)
    requires Patched(t, u, b, if m == BLOCK then data[n..n + m] else Spliced(View(t, b), pos, data[n..n + m]))
    ensures Overlaid(s, u, off, data[..n + m])
  {
    hide View, Patched, Spliced, ByteOf;
    forall p: nat
      ensures ByteOf(u, p) == if off <= p < off + n + m then data[..n + m][p - off] else ByteOf(s, p)
    {
      assert ByteOf(t, p) == if off <= p < off + n then data[..n][p - off] else ByteOf(s, p);
      PatchedByte(t, u, b, pos, data[n..n + m], p);
    }
  }

  lemma PatchedByte(t: State, u: State, b: nat, pos: nat, part: seq<Byte>, p: nat)
    requires pos + |part| <= BLOCK && (|View(t, b)| == BLOCK || (pos == 0 && |part| == BLOCK))
    requires Patched(t, u, b, if |part| == BLOCK then part else Spliced(View(t, b), pos, part))
    ensures var from := BLOCK * b + pos;
            ByteOf(u, p) == if from <= p < from + |part| then part[p - from] else ByteOf(t, p)
  {
    hide View, Patched;
    var block := if |part| == BLOCK then part else Spliced(View(t, b), pos, part);
    PatchedAt(t, u, b, block, p / BLOCK);
    if p / BLOCK == b {
      assert p % BLOCK == p - BLOCK * b;
    }
  }

  /** Nothing written in one more step. */
  lemma OverlaidStill(s: State, t: State, u: State, off: nat, data: seq<Byte>)
    requires Overlaid(s, t, off, data) && SameView(t, u)
    ensures Overlaid(s, u, off, data)
  {
    hide View;
    forall p: nat
      ensures ByteOf(u, p) == ByteOf(t, p)
    {
      SameViewAt(t, u, p / BLOCK);
    }
  }

  // ------------------------------------------------------- cutting the range into blocks

  /** The block range of nvme_read and nvme_write, with the 64-bit wrap of block_hi. */
  function BlockLo(off: nat): (b: nat) {
    (off + BLOCK - 1) / BLOCK
  }

  function BlockHi(off: nat, count: nat): (b: nat) {
    ((off + count) / BLOCK - 1) % 0x1_0000_0000_0000_0000
  }

  /** block_hi is the last whole block exactly when the range reaches the end of block 0. */
  lemma BlockHiExact(off: nat, count: nat)
    requires off + count < INV
    ensures BlockHi(off, count) + 1 == (off + count) / BLOCK <==> off + count >= BLOCK
    ensures off + count < BLOCK ==> BlockHi(off, count) == INV
  {
    hide BlockHi;
    WrapAround((off + count) / BLOCK);
    BlockHiIs(off, count);
  }

  lemma BlockHiIs(off: nat, count: nat)
    ensures BlockHi(off, count) == ((off + count) / BLOCK - 1) % 0x1_0000_0000_0000_0000
  {
  }

  lemma WrapAround(q: int)
    requires 0 <= q < 0x1_0000_0000_0000_0000
    ensures q > 0 ==> (q - 1) % 0x1_0000_0000_0000_0000 == q - 1
    ensures q == 0 ==> (q - 1) % 0x1_0000_0000_0000_0000 == 0xFFFF_FFFF_FFFF_FFFF
  {
  }

  /** How far nvme_read and nvme_write are when the loop is at `block`: either exactly at the
      start of that block, or finished inside the block they started in. */
  ghost predicate Progress(off: nat, count: nat, block: nat, n: nat) {
    || (off + n == BLOCK * block && block <= (off + count) / BLOCK && n <= count)
    || (n == count && off % BLOCK != 0 && block == off / BLOCK + 1 && block > (off + count) / BLOCK)
  }

  /** The part of the range in the block it starts in, if that is not the block's start. */
  function FrontSize(off: nat, count: nat): (r: nat)
    ensures r <= count && off % BLOCK + r <= BLOCK
  {
    if off % BLOCK == 0 then 0 else if count < BLOCK - off % BLOCK then count else BLOCK - off % BLOCK
  }

  lemma FrontProgress(off: nat, count: nat)
    requires off + count >= BLOCK
    ensures Progress(off, count, BlockLo(off), FrontSize(off, count))
    ensures BlockLo(off) == if off % BLOCK == 0 then off / BLOCK else off / BLOCK + 1
  {
  }

  /** When the loop is done and bytes are left, they are the first of the last block. */
  lemma TailProgress(off: nat, count: nat, block: nat, n: nat)
    requires Progress(off, count, block, n) && block >= (off + count) / BLOCK
    ensures if n < count then off + n == BLOCK * ((off + count) / BLOCK) && count - n == (off + count) % BLOCK
            else && n == count
                 && ((off + count) % BLOCK == 0 || (off % BLOCK != 0 && (off + count) / BLOCK == off / BLOCK))
  {
  }

  /** The end of the range of accessed blocks. */
  lemma EndOfRange(off: nat, count: nat, block: nat, n: nat)
    requires Progress(off, count, block, n) && block >= (off + count) / BLOCK
    ensures BlockLo(off + count) == if n < count then (off + count) / BLOCK + 1 else block
  {
  }

  /** What the first block shows afterwards. */
  lemma OverlaidFront(s: State, t: State, off: nat, data: seq<Byte>, n: nat)
    requires n <= |data| && Overlaid(s, t, off, data[..n]) && off % BLOCK != 0 && FrontSize(off, |data|) <= n
    requires |View(s, off / BLOCK)| == BLOCK && |View(t, off / BLOCK)| == BLOCK
    ensures View(t, off / BLOCK) == Spliced(View(s, off / BLOCK), off % BLOCK, data[..FrontSize(off, |data|)])
  {
    hide View;
    var b, pos, r := off / BLOCK, off % BLOCK, FrontSize(off, |data|);
    forall i | 0 <= i < BLOCK
      ensures View(t, b)[i] == Spliced(View(s, b), pos, data[..r])[i]
    {
      var p := BLOCK * b + i;
      assert p / BLOCK == b && p % BLOCK == i;
      assert ByteOf(t, p) == if off <= p < off + n then data[..n][p - off] else ByteOf(s, p);
    }
  }

  // -------------------------------------------- when a write survives the cache

  /** The bytes of a partial write reach the cache and not the mark of its slot: they are kept if
      the slot is marked dirty already, or if they are what the block holds anyway. */
  ghost predicate PartKept(s: State, b: nat, pos: nat, part: seq<Byte>, dirty: bool) {
    dirty || (pos + |part| <= |View(s, b)| && Spliced(View(s, b), pos, part) == View(s, b))
  }

  ghost predicate FrontKept(s: State, off: nat, data: seq<Byte>) {
    || off % BLOCK == 0
    || PartKept(s, off / BLOCK, off % BLOCK, data[..FrontSize(off, |data|)], DirtyAt(s, off / BLOCK))
  }

  /** The last block must in addition still be cached when the blocks before it have been
      accessed. */
  ghost predicate TailKept(s: State, ages: Ages, off: nat, data: seq<Byte>) {
    var b, m := (off + |data|) / BLOCK, (off + |data|) % BLOCK;
    || m == 0
    || (off % BLOCK != 0 && b == off / BLOCK)
    || (m <= |data| && PartKept(s, b, 0, data[|data| - m..], DirtyAt(s, b) && StaysCached(ages, off / BLOCK, b)))
  }

  /** Exactly the writes whose first n bytes the device keeps. */
  ghost predicate WriteKept(s: State, ages: Ages, off: nat, data: seq<Byte>, n: nat) {
    && (n > 0 ==> FrontKept(s, off, data))
    && (n == |data| ==> TailKept(s, ages, off, data))
  }

  /** Whole blocks are always kept. */
  lemma AlignedKept(s: State, ages: Ages, off: nat, data: seq<Byte>, n: nat)
    requires off % BLOCK == 0 && |data| % BLOCK == 0
    ensures WriteKept(s, ages, off, data, n)
  {
  }

  /** No block beyond the device has entered the cache. */
  ghost predicate Grown(s: State, t: State) {
    forall a | a in t.dict :: a in s.dict || OnDisk(t.disk, a)
  }

  lemma GrownStep(s: State, t: State, u: State, b: nat)
    requires Grown(s, t) && Marks(t, u, b) && |u.disk| == |t.disk|
    requires b in u.dict ==> OnDisk(u.disk, b) || b in t.dict
    ensures Grown(s, u)
  {
  }

  // ------------------------------------------------------- a write, step by step

  /** The blocks from off / BLOCK up to `block` have been accessed, and no others. */
  ghost predicate Written(s: State, t: State, ages: Ages, ages': Ages, off: nat, block: nat) {
    && ages' == AgedRange(ages, off / BLOCK, block) && |t.disk| == |s.disk|
    && forall a: nat | a < off / BLOCK || block <= a ::
         Kept(s, t, a) && (a in t.dict ==> a in s.dict && (DirtyAt(t, a) <==> DirtyAt(s, a)))
  }

  lemma WrittenNothing(s: State, ages: Ages, off: nat)
    ensures Written(s, s, ages, ages, off, off / BLOCK)
  {
    hide View, DiskBlock;
  }

  /** One more block, or a failed attempt at it. */
  lemma WrittenStep(s: State, t: State, u: State, ages: Ages, ages1: Ages, ages2: Ages, off: nat, b: nat, ok: bool)
    requires Written(s, t, ages, ages1, off, b) && off / BLOCK <= b && Marks(t, u, b)
    requires if ok then Others(t, u, b) && ages2 == Aged(ages1, b)
             else Settled(t, u) && ages2 == ages1 && b !in u.dict
    ensures Written(s, u, ages, ages2, off, if ok then b + 1 else b)
  {
    hide Kept, DirtyAt, Aged;
    forall a: nat | a < off / BLOCK || (if ok then b + 1 else b) <= a
      ensures Kept(s, u, a)
    {
      KeptTwice(s, t, u, a);
    }
  }

  /** Blocks outside the written range. */
  ghost predicate Untouched(s: State, t: State, off: nat, count: nat) {
    |t.disk| == |s.disk| && forall a: nat | a < off / BLOCK || (off + count) / BLOCK < a :: Kept(s, t, a)
  }

  lemma WrittenUntouched(s: State, t: State, ages: Ages, ages': Ages, off: nat, count: nat, block: nat)
    requires Written(s, t, ages, ages', off, block) && block <= (off + count) / BLOCK + 1
    ensures Untouched(s, t, off, count)
  {
    hide Kept;
  }

  /** What the first block should show after its part of the range has been written. */
  ghost function FrontBlock(s: State, off: nat, data: seq<Byte>): (x: seq<Byte>)
    requires |View(s, off / BLOCK)| == BLOCK
  {
    Spliced(View(s, off / BLOCK), off % BLOCK, data[..FrontSize(off, |data|)])
  }

  /** Nothing will bring the front part of the written range to the disk. */
  ghost predicate FrontStale(s: State, t: State, off: nat, data: seq<Byte>) {
    && off % BLOCK != 0 && |View(s, off / BLOCK)| == BLOCK
    && Stale(t, off / BLOCK, View(s, off / BLOCK), FrontBlock(s, off, data))
  }

  /** The first n bytes are written: the view shows them and every clean block equals the disk,
      unless the front part went into a clean slot; then nothing will bring it to the disk. */
  ghost predicate Going(s: State, t: State, off: nat, data: seq<Byte>, n: nat, kept: bool) {
    && n <= |data| && FrontSize(off, |data|) <= n
    && if kept then Coherent(t) && Overlaid(s, t, off, data[..n])
       else FrontStale(s, t, off, data)
  }

  lemma GoingNothing(s: State, off: nat, data: seq<Byte>)
    requires Coherent(s) && off % BLOCK == 0
    ensures Going(s, s, off, data, 0, FrontKept(s, off, data))
  {
    hide View, Coherent;
    SameViewRefl(s);
    OverlaidSame(s, s, off);
    assert data[..0] == [];
  }

  /** After the front part. */
  lemma GoingFront(s: State, t: State, off: nat, data: seq<Byte>)
    requires off % BLOCK != 0 && |View(s, off / BLOCK)| == BLOCK
    requires var b, pos, part := off / BLOCK, off % BLOCK, data[..FrontSize(off, |data|)];
             && Patched(s, t, b, Spliced(View(s, b), pos, part))
             && (Coherent(t) <==> PartKept(s, b, pos, part, DirtyAt(s, b)))
             && (!Coherent(t) ==> Stale(t, b, View(s, b), Spliced(View(s, b), pos, part)))
    ensures Going(s, t, off, data, FrontSize(off, |data|), FrontKept(s, off, data))
  {
    hide View, Coherent, Patched, Stale, PartKept, Overlaid, DirtyAt;
    var r := FrontSize(off, |data|);
    SameViewRefl(s);
    OverlaidSame(s, s, off);
    assert data[..0] == [] && data[0..0 + r] == data[..r];
    OverlaidStep(s, s, t, off, data, 0, off / BLOCK, off % BLOCK, r);
  }

  /** After one more whole block, or a failed attempt at it. */
  lemma GoingStep(s: State, t: State, u: State, off: nat, data: seq<Byte>, n: nat, kept: bool, b: nat, ok: bool)
    requires Going(s, t, off, data, n, kept) && Consistent(t) && (Coherent(t) ==> Coherent(u))
    requires off + n == BLOCK * b && n + BLOCK <= |data|
    requires if ok then Others(t, u, b) && View(u, b) == data[n..n + BLOCK] else Settled(t, u)
    ensures Going(s, u, off, data, if ok then n + BLOCK else n, kept)
  {
    hide View, Coherent, Consistent, Patched, Stale, Overlaid, Kept, Spliced;
    if !kept {
      assert off / BLOCK != b;
      StaleStays(t, u, off / BLOCK, View(s, off / BLOCK), FrontBlock(s, off, data));
    } else if ok {
      OthersPatched(t, u, b);
      OverlaidStep(s, t, u, off, data, n, b, 0, BLOCK);
    } else {
      SettledSame(t, u);
      OverlaidStill(s, t, u, off, data[..n]);
    }
  }

  lemma ViewLength(s: State, b: nat)
    requires Consistent(s) && OnDisk(s.disk, b)
    ensures |View(s, b)| == BLOCK
  {
    if b in s.dict {
      SlotOf(s, b);
    }
  }

  /** If no tail is written. */
  lemma GoingEnd(s: State, t: State, off: nat, data: seq<Byte>, n: nat, kept: bool)
    requires Going(s, t, off, data, n, kept) && Consistent(t)
    ensures Coherent(t) && Overlaid(s, t, off, data[..n]) <==> kept
  {
    hide View, Coherent, Consistent, Overlaid, Spliced;
    if !kept {
      ViewLength(t, off / BLOCK);
      StaleIsLost(t, off / BLOCK, View(s, off / BLOCK), FrontBlock(s, off, data));
      if Overlaid(s, t, off, data[..n]) {
        OverlaidFront(s, t, off, data, n);
      }
    }
  }

  /** After the tail. */
  lemma GoingTail(s: State, t: State, u: State, off: nat, data: seq<Byte>, n: nat, kept: bool, b: nat)
    requires Going(s, t, off, data, n, kept) && Consistent(t) && Consistent(u) && Others(t, u, b)
    requires off + n == BLOCK * b && |data| - n < BLOCK && |View(t, b)| == BLOCK
    requires Coherent(t) ==>
               && Patched(t, u, b, Spliced(View(t, b), 0, data[n..]))
               && (Coherent(u) <==> PartKept(t, b, 0, data[n..], DirtyAt(t, b)))
    ensures Coherent(u) && Overlaid(s, u, off, data[..|data|]) <==>
              kept && PartKept(t, b, 0, data[n..], DirtyAt(t, b))
  {
    hide View, Coherent, Consistent, Patched, Stale, Overlaid, Kept, Spliced, PartKept, DirtyAt;
    if kept {
      assert data[n..] == data[n..n + (|data| - n)];
      OverlaidStep(s, t, u, off, data, n, b, 0, |data| - n);
    } else {
      assert off / BLOCK != b;
      StaleStays(t, u, off / BLOCK, View(s, off / BLOCK), FrontBlock(s, off, data));
      GoingEnd(s, u, off, data, |data|, kept);
    }
  }

  /** What decides about the tail, told from the state before the write. */
  lemma TailDecided(s: State, t: State, ages: Ages, ages': Ages, off: nat, data: seq<Byte>, n: nat)
    requires Consistent(s) && Coherent(s) && off + n == BLOCK * ((off + |data|) / BLOCK) && n < |data|
    requires Written(s, t, ages, ages', off, (off + |data|) / BLOCK) && ages'.Keys == t.dict.Keys && Ranked(ages)
    ensures var b := (off + |data|) / BLOCK;
            PartKept(t, b, 0, data[n..], DirtyAt(t, b)) <==> TailKept(s, ages, off, data)
  {
    hide View, Coherent, Consistent, AgedRange, Spliced, StaysCached, Ranked;
    var b := (off + |data|) / BLOCK;
    StaysExactly(ages, off / BLOCK, b);
    assert |data| - (off + |data|) % BLOCK == n;
    assert Kept(s, t, b);
    CoherentKept(s, t, b);
  }

  lemma GoingStill(s: State, t: State, u: State, off: nat, data: seq<Byte>, n: nat, kept: bool)
    requires Going(s, t, off, data, n, kept) && Consistent(t) && Settled(t, u) && (Coherent(t) ==> Coherent(u))
    ensures Going(s, u, off, data, n, kept)
  {
    hide View, Coherent, Consistent, Stale, Overlaid, Kept, Spliced;
    if kept {
      SettledSame(t, u);
      OverlaidStill(s, t, u, off, data[..n]);
    } else {
      StaleStays(t, u, off / BLOCK, View(s, off / BLOCK), FrontBlock(s, off, data));
    }
  }

  /** If the very first transfer fails. */
  lemma NothingKept(s: State, t: State, ages: Ages, off: nat, data: seq<Byte>)
    requires Consistent(s) && Coherent(s) && Settled(s, t) && off % BLOCK != 0
    ensures Overlaid(s, t, off, data[..0]) && WriteKept(s, ages, off, data, 0)
  {
    hide View, Coherent, Consistent, Settled, Overlaid, PartKept;
    SettledSame(s, t);
    OverlaidSame(s, t, off);
    assert data[..0] == [];
  }

  /** Without a tail the front decides. */
  lemma NoTailKept(s: State, t: State, ages: Ages, off: nat, data: seq<Byte>, n: nat)
    requires Going(s, t, off, data, n, FrontKept(s, off, data))
    requires n == |data| ==> (off + |data|) % BLOCK == 0 || (off % BLOCK != 0 && (off + |data|) / BLOCK == off / BLOCK)
    ensures WriteKept(s, ages, off, data, n) <==> FrontKept(s, off, data)
  {
    hide View, DirtyAt, Coherent, Overlaid, Stale;
    if n == 0 && off % BLOCK != 0 && |View(s, off / BLOCK)| == BLOCK {
      assert Spliced(View(s, off / BLOCK), off % BLOCK, data[..0]) == View(s, off / BLOCK);
    }
  }

  lemma NonEmptyKept(s: State, ages: Ages, off: nat, data: seq<Byte>)
    requires data != []
    ensures WriteKept(s, ages, off, data, |data|) <==> FrontKept(s, off, data) && TailKept(s, ages, off, data)
  {
    hide FrontKept, TailKept;
  }

  lemma GoingStale(s: State, t: State, off: nat, data: seq<Byte>, n: nat)
    requires Going(s, t, off, data, n, FrontKept(s, off, data))
    ensures !FrontKept(s, off, data) ==> FrontStale(s, t, off, data)
  {
    hide View, Coherent, Overlaid, FrontStale, FrontKept;
  }

  lemma FrontStaleStays(s: State, t: State, u: State, off: nat, data: seq<Byte>, n: nat, b: nat)
    requires FrontStale(s, t, off, data) && Others(t, u, b) && off + n == BLOCK * b
    ensures FrontStale(s, u, off, data)
  {
    hide View, Stale, Kept, Spliced;
    assert off / BLOCK != b;
    StaleStays(t, u, off / BLOCK, View(s, off / BLOCK), FrontBlock(s, off, data));
  }

  /** The ages of the blocks when nvme_write is at `block`. */
  lemma DoingAges(s: State, t: State, ages: Ages, ages': Ages, off: nat, data: seq<Byte>, n: nat, block: nat)
    requires Doing(s, t, ages, ages', off, data, n, block)
    ensures ages' == AgedRange(ages, off / BLOCK, block)
  {
    hide Going, Coherent, Grown;
  }

  /** nvme_write is at `block` and has written n bytes. */
  ghost predicate Doing(s: State, t: State, ages: Ages, ages': Ages, off: nat, data: seq<Byte>, n: nat, block: nat) {
    && Written(s, t, ages, ages', off, block)
    && LastCached(t, off, n)
    && (off + |data| <= |t.disk| ==> Grown(s, t))
    && (Coherent(s) ==> Going(s, t, off, data, n, FrontKept(s, off, data)))
  }

  /** The block of the last written byte is cached. */
  ghost predicate LastCached(t: State, off: nat, n: nat) {
    n > 0 ==> (off + n - 1) / BLOCK in t.dict
  }

  /** nvme_write has returned n. */
  ghost predicate Done(s: State, t: State, ages: Ages, off: nat, data: seq<Byte>, n: nat) {
    && n <= |data| && Untouched(s, t, off, |data|) && LastCached(t, off, n)
    && (off + |data| <= |t.disk| ==> Grown(s, t))
    && (Coherent(s) ==> (Coherent(t) && Overlaid(s, t, off, data[..n]) <==> WriteKept(s, ages, off, data, n)))
    && (Coherent(s) && n > 0 && !FrontKept(s, off, data) ==> FrontStale(s, t, off, data))
  }

  /** Before the first whole block, after the front part if there is one. */
  lemma DoingFront(s: State, t: State, ages: Ages, ages': Ages, off: nat, data: seq<Byte>)
    requires Marks(s, t, off / BLOCK) && BLOCK <= off + |data|
    requires if off % BLOCK == 0 then t == s && ages' == ages
             else && Others(s, t, off / BLOCK) && ages' == Aged(ages, off / BLOCK)
                  && off / BLOCK in t.dict && (OnDisk(t.disk, off / BLOCK) || off / BLOCK in s.dict)
                  && |View(s, off / BLOCK)| == BLOCK
    requires var b, pos, part := off / BLOCK, off % BLOCK, data[..FrontSize(off, |data|)];
             off % BLOCK != 0 && Coherent(s) ==>
               && Patched(s, t, b, Spliced(View(s, b), pos, part))
               && (Coherent(t) <==> PartKept(s, b, pos, part, DirtyAt(s, b)))
               && (!Coherent(t) ==> Stale(t, b, View(s, b), Spliced(View(s, b), pos, part)))
    ensures Doing(s, t, ages, ages', off, data, FrontSize(off, |data|), BlockLo(off))
  {
    hide View, Coherent, Others, Marks, Patched, Stale, PartKept, DirtyAt, Written, Going, FrontKept, Aged, Spliced;
    WrittenNothing(s, ages, off);
    FrontProgress(off, |data|);
    if off % BLOCK == 0 {
      if Coherent(s) {
        GoingNothing(s, off, data);
      }
    } else {
      WrittenStep(s, s, t, ages, ages, ages', off, off / BLOCK, true);
      OthersLength(s, t, off / BLOCK);
      GrownStep(s, s, t, off / BLOCK);
      assert FrontSize(off, |data|) > 0 ==> (off + FrontSize(off, |data|) - 1) / BLOCK == off / BLOCK;
      if Coherent(s) {
        GoingFront(s, t, off, data);
      }
    }
  }

  /** One more whole block, or a failed attempt at it. */
  lemma DoingStep(s: State, t: State, u: State, ages: Ages, ages1: Ages, ages2: Ages, off: nat, data: seq<Byte>,
                  n: nat, b: nat, ok: bool)
    requires Doing(s, t, ages, ages1, off, data, n, b) && Consistent(t) && off / BLOCK <= b
    requires off + n == BLOCK * b && n + BLOCK <= |data|
    requires Marks(t, u, b) && Others(t, u, b) && (Coherent(t) ==> Coherent(u))
    requires if ok then View(u, b) == data[n..n + BLOCK] && ages2 == Aged(ages1, b) && b in u.dict
             else Settled(t, u) && ages2 == ages1 && u.dict == t.dict && b !in u.dict
    ensures Doing(s, u, ages, ages2, off, data, if ok then n + BLOCK else n, if ok then b + 1 else b)
  {
    hide View, Coherent, Consistent, Others, Settled, Marks, Written, Going, Aged, FrontKept;
    WrittenStep(s, t, u, ages, ages1, ages2, off, b, ok);
    OthersLength(t, u, b);
    if off + |data| <= |t.disk| {
      GrownStep(s, t, u, b);
    }
    assert (off + (n + BLOCK) - 1) / BLOCK == b;
    if Coherent(s) {
      GoingStep(s, t, u, off, data, n, FrontKept(s, off, data), b, ok);
    }
  }

  /** A failed attempt at the tail. */
  lemma DoingStill(s: State, t: State, u: State, ages: Ages, ages': Ages, off: nat, data: seq<Byte>, n: nat, b: nat)
    requires Doing(s, t, ages, ages', off, data, n, b) && Consistent(t) && off / BLOCK <= b
    requires Marks(t, u, b) && (Coherent(t) ==> Coherent(u)) && Settled(t, u) && u.dict == t.dict && b !in u.dict
    ensures Doing(s, u, ages, ages', off, data, n, b)
  {
    hide View, Coherent, Consistent, Settled, Marks, Written, Going, FrontKept;
    WrittenStep(s, t, u, ages, ages', ages', off, b, false);
    SettledLength(t, u);
    if off + |data| <= |t.disk| {
      GrownStep(s, t, u, b);
    }
    if Coherent(s) {
      GoingStill(s, t, u, off, data, n, FrontKept(s, off, data));
    }
  }

  /** Stopping without a tail. */
  lemma DoneWithoutTail(s: State, t: State, ages: Ages, ages': Ages, off: nat, data: seq<Byte>, n: nat, block: nat)
    requires Doing(s, t, ages, ages', off, data, n, block) && Consistent(t) && n <= |data|
    requires block <= (off + |data|) / BLOCK + 1
    requires n == |data| ==> (off + |data|) % BLOCK == 0 || (off % BLOCK != 0 && (off + |data|) / BLOCK == off / BLOCK)
    ensures Done(s, t, ages, off, data, n)
  {
    hide View, Coherent, Consistent, Written, Going, FrontKept, Grown, LastCached, Overlaid, WriteKept, Untouched,
         FrontStale;
    WrittenUntouched(s, t, ages, ages', off, |data|, block);
    if Coherent(s) {
      GoingEnd(s, t, off, data, n, FrontKept(s, off, data));
      GoingStale(s, t, off, data, n);
      NoTailKept(s, t, ages, off, data, n);
    }
  }

  /** Stopping after the tail. */
  lemma DoneWithTail(s: State, t: State, u: State, ages: Ages, ages1: Ages, ages2: Ages, off: nat, data: seq<Byte>,
                     n: nat, b: nat)
    requires b == (off + |data|) / BLOCK && off / BLOCK <= b && off + n == BLOCK * b && n < |data|
    requires Doing(s, t, ages, ages1, off, data, n, b) && ages1.Keys == t.dict.Keys && Ranked(ages)
    requires Consistent(s) && Consistent(t) && Consistent(u) && Others(t, u, b) && Marks(t, u, b)
    requires ages2 == Aged(ages1, b) && b in u.dict && (OnDisk(u.disk, b) || b in t.dict) && |View(t, b)| == BLOCK
    requires Coherent(t) ==>
               && Patched(t, u, b, Spliced(View(t, b), 0, data[n..]))
               && (Coherent(u) <==> PartKept(t, b, 0, data[n..], DirtyAt(t, b)))
    ensures Done(s, u, ages, off, data, |data|)
  {
    hide View, Coherent, Consistent, Others, Marks, Written, Going, Aged, FrontKept, TailKept, WriteKept, PartKept,
         DirtyAt, Patched, Spliced, Overlaid, Untouched, Ranked, FrontStale;
    WrittenStep(s, t, u, ages, ages1, ages2, off, b, true);
    WrittenUntouched(s, u, ages, ages2, off, |data|, b + 1);
    OthersLength(t, u, b);
    if off + |data| <= |t.disk| {
      GrownStep(s, t, u, b);
    }
    assert (off + |data| - 1) / BLOCK == b;
    if Coherent(s) {
      GoingTail(s, t, u, off, data, n, FrontKept(s, off, data), b);
      GoingStale(s, t, off, data, n);
      if !FrontKept(s, off, data) {
        FrontStaleStays(s, t, u, off, data, n, b);
      }
      TailDecided(s, t, ages, ages1, off, data, n);
      NonEmptyKept(s, ages, off, data);
    }
  }

  /** If the very first transfer fails. */
  lemma DoneNothing(s: State, t: State, ages: Ages, off: nat, data: seq<Byte>)
    requires Consistent(s) && Settled(s, t) && off % BLOCK != 0 && t.dict == s.dict && (Coherent(s) ==> Coherent(t))
    ensures Done(s, t, ages, off, data, 0)
  {
    hide View, Coherent, Consistent, Overlaid, WriteKept, Kept;
    if Coherent(s) {
      NothingKept(s, t, ages, off, data);
    }
  }

  // ----------------------------------------------------------- what can go wrong

  function Zeros(n: nat): (r: seq<Byte>) {
    seq(n, _ => 0)
  }

  /** A cache whose first slot holds `block` under id b, all other slots unused. */
  function OneSlot(b: nat, block: seq<Byte>, disk: seq<Byte>): (s: State) {
    State(map[b := 0], [Slot(0, Clean, b, block)] + seq(NCACHES - 1, i => Slot(i + 1, Empty, INV, [])), disk)
  }

  /** nvme_write of one byte at offset 511, the last of the cached clean block 0, and the slot then
      given to another block, as `CopyInto` and `Assign` do it: the byte shows at first, and
      afterwards the old one is back.  The write condition rules this write out. */
  lemma PartialWriteLost()
    ensures var before := OneSlot(0, Zeros(BLOCK), Zeros(2 * BLOCK));
            var written := OneSlot(0, Spliced(Zeros(BLOCK), 511, [1]), Zeros(2 * BLOCK));
            var evicted := OneSlot(1, Zeros(BLOCK), Zeros(2 * BLOCK));
            && BLOCK <= 511 + |[1]| && (forall ages: Ages :: !WriteKept(before, ages, 511, [1], 1))
            && |before.cache| == NCACHES && Consistent(before) && Coherent(before) && ByteOf(before, 511) == 0
            && Overlaid(before, written, 511, [1]) && Ready(written.cache[0], written.disk) && !Coherent(written)
            && evicted.dict == (written.dict - {written.cache[0].bid})[1 := 0]
            && evicted.cache == written.cache[0 := Slot(0, Clean, 1, DiskBlock(written.disk, 1))]
            && Coherent(evicted) && ByteOf(evicted, 511) == 0 && !Overlaid(before, evicted, 511, [1])
  {
    var zeros, disk := Zeros(BLOCK), Zeros(2 * BLOCK);
    var block := Spliced(zeros, 511, [1]);
    var before, written, evicted := OneSlot(0, zeros, disk), OneSlot(0, block, disk), OneSlot(1, zeros, disk);
    assert DiskBlock(disk, 0) == zeros && DiskBlock(disk, 1) == zeros;
    assert block[511] == 1 && zeros[511] == 0;
    assert SlotRight(before, 0, before.cache[0]);
    assert !CleanRight(written.cache[0], disk);
    LostIsNotKept(before, zeros);
    forall p: nat
      ensures ByteOf(written, p) == if 511 <= p < 512 then [1][p - 511] else ByteOf(before, p)
    {
    }
    assert ByteOf(evicted, 511) == 0;
  }

  lemma LostIsNotKept(s: State, zeros: seq<Byte>)
    requires View(s, 0) == zeros && |zeros| == BLOCK && zeros[511] == 0 && !DirtyAt(s, 0)
    ensures !FrontKept(s, 511, [1]) && forall ages: Ages :: !WriteKept(s, ages, 511, [1], 1)
  {
    hide View, DirtyAt;
    assert [1][..FrontSize(511, 1)] == [1];
    assert Spliced(zeros, 511, [1])[511] == 1;
  }

  /** A block written beyond the end of the device can never be written back: it keeps its slot
      and what it shows, whatever is read and written elsewhere. */
  lemma PastEndStays(s: State, t: State, a: nat)
    requires DirtyAt(s, a) && !OnDisk(s.disk, a) && |t.disk| == |s.disk| && Kept(s, t, a)
    ensures DirtyAt(t, a) && View(t, a) == View(s, a)
  {
    hide View;
  }

  lemma GrownResident(s: State, t: State)
    requires Resident(s) && Grown(s, t) && |t.disk| == |s.disk|
    ensures Resident(t)
  {
  }

  lemma UntouchedLength(s: State, t: State, off: nat, count: nat)
    requires Untouched(s, t, off, count)
    ensures |t.disk| == |s.disk|
  {
  }
}
