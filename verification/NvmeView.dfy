/**
 * The state of the NVMe block cache (kernel/src/driver/nvme.c) as a value, and what it stands
 * for.  What callers must not notice is the cache: `View` is the disk they see, wherever the
 * newest copy of a block happens to be.
 */
module NvmeView {
  import opened NvmeIndex

  /** NVME_NCACHES, NVME_BLOCK_SIZE */
  const NCACHES := 1000
  const BLOCK := 512

  type Byte = b: int | 0 <= b < 256

  datatype Status = Dirty | Clean | Empty

  /** struct nvme_cache_entry; Clean is NVME_CACHE_VALID. */
  datatype Slot = Slot(lruref: int, status: Status, bid: nat, block: seq<Byte>)

  /** The id-to-slot dictionary, the slots, and the device. */
  datatype State = State(dict: map<nat, nat>, cache: seq<Slot>, disk: seq<Byte>)

  // ------------------------------------------------------------- blocks of a disk

  predicate OnDisk(disk: seq<Byte>, b: nat) {
    BLOCK * b + BLOCK <= |disk|
  }

  function DiskBlock(disk: seq<Byte>, b: nat): (r: seq<Byte>)
    requires OnDisk(disk, b)
    ensures |r| == BLOCK
  {
    disk[BLOCK * b..BLOCK * b + BLOCK]
  }

  function WriteAt(disk: seq<Byte>, b: nat, data: seq<Byte>): (r: seq<Byte>)
    requires OnDisk(disk, b) && |data| == BLOCK
    ensures |r| == |disk|
  {
    disk[..BLOCK * b] + data + disk[BLOCK * b + BLOCK..]
  }

  lemma WriteAtBlock(disk: seq<Byte>, b: nat, data: seq<Byte>, c: nat)
    requires OnDisk(disk, b) && |data| == BLOCK && OnDisk(disk, c)
    ensures DiskBlock(WriteAt(disk, b, data), c) == if c == b then data else DiskBlock(disk, c)
  {
    var r := WriteAt(disk, b, data);
    assert forall i | 0 <= i < |disk| ::
        r[i] == if BLOCK * b <= i < BLOCK * b + BLOCK then data[i - BLOCK * b] else disk[i];
  }

  // ------------------------------------------------------------- slots and the view

  /** The slots and the dictionary agree; slots in use hold whole blocks.  A block beyond the end
      of the device can only be in a dirty slot. */
  ghost predicate Consistent(s: State) {
    && INV !in s.dict
    && (forall b | b in s.dict :: s.dict[b] < |s.cache| && s.cache[s.dict[b]].bid == b)
    && (forall i: nat | i < |s.cache| :: SlotRight(s, i, s.cache[i]))
  }

  ghost predicate SlotRight(s: State, i: nat, x: Slot) {
    && (x.bid != INV ==> x.bid in s.dict && s.dict[x.bid] == i && x.status != Empty)
    && (x.bid != INV && !OnDisk(s.disk, x.bid) ==> x.status == Dirty)
    && (x.status != Empty ==> |x.block| == BLOCK)
    && (x.status == Dirty ==> x.bid != INV)
  }

  /** No slot holds a block beyond the end of the device. */
  ghost predicate Resident(s: State) {
    forall b | b in s.dict :: OnDisk(s.disk, b)
  }

  /** Every block that is marked clean equals the block on disk. */
  ghost predicate Coherent(s: State) {
    forall i | 0 <= i < |s.cache| :: CleanRight(s.cache[i], s.disk)
  }

  ghost predicate CleanRight(x: Slot, disk: seq<Byte>) {
    x.status == Clean && x.bid != INV && OnDisk(disk, x.bid) ==> x.block == DiskBlock(disk, x.bid)
  }

  /** What the block is, for somebody who does not know about the cache. */
  ghost function View(s: State, b: nat): (r: seq<Byte>) {
    if b in s.dict && s.dict[b] < |s.cache| then s.cache[s.dict[b]].block
    else if OnDisk(s.disk, b) then DiskBlock(s.disk, b)
    else []
  }

  ghost predicate SameView(s: State, t: State) {
    forall b: nat :: View(t, b) == View(s, b)
  }

  /** The view changes at block b, to `data`, and nowhere else. */
  ghost predicate Patched(s: State, t: State, b: nat, data: seq<Byte>) {
    forall a: nat :: View(t, a) == if a == b then data else View(s, a)
  }

  lemma CachedView(s: State, b: nat)
    requires b in s.dict && s.dict[b] < |s.cache|
    ensures View(s, b) == s.cache[s.dict[b]].block
  {
  }

  lemma SameViewRefl(s: State)
    ensures SameView(s, s)
  {
  }

  lemma SameViewAt(s: State, t: State, b: nat)
    requires SameView(s, t)
    ensures View(t, b) == View(s, b)
  {
  }

  lemma PatchedAt(s: State, t: State, b: nat, data: seq<Byte>, a: nat)
    requires Patched(s, t, b, data)
    ensures View(t, a) == if a == b then data else View(s, a)
  {
  }

  lemma MappedBelow(s: State, b: nat)
    requires Consistent(s)
    ensures b in s.dict ==> s.dict[b] < |s.cache|
  {
  }

  /** The slot of a mapped block. */
  lemma SlotOf(s: State, b: nat)
    requires Consistent(s) && b in s.dict
    ensures s.dict[b] < |s.cache| && s.cache[s.dict[b]].bid == b && SlotRight(s, s.dict[b], s.cache[s.dict[b]])
    ensures b != INV && s.cache[s.dict[b]].block == View(s, b)
  {
  }

  /** Writing a block back changes the disk and not the view. */
  lemma WriteBackKeepsView(s: State, i: nat)
    requires Consistent(s) && i < |s.cache| && s.cache[i].bid != INV && OnDisk(s.disk, s.cache[i].bid)
    ensures |s.cache[i].block| == BLOCK
    ensures var t := s.(disk := WriteAt(s.disk, s.cache[i].bid, s.cache[i].block));
            && Consistent(t) && (Coherent(s) ==> Coherent(t)) && SameView(s, t)
            && DiskBlock(t.disk, s.cache[i].bid) == s.cache[i].block
  {
    var bid := s.cache[i].bid;
    assert SlotRight(s, i, s.cache[i]);
    var t := s.(disk := WriteAt(s.disk, bid, s.cache[i].block));
    WriteAtBlock(s.disk, bid, s.cache[i].block, bid);
    forall j: nat | j < |s.cache|
      ensures SlotRight(t, j, t.cache[j]) && (CleanRight(s.cache[j], s.disk) ==> CleanRight(t.cache[j], t.disk))
    {
      assert SlotRight(s, j, s.cache[j]);
      if s.cache[j].bid != INV && OnDisk(s.disk, s.cache[j].bid) {
        WriteAtBlock(s.disk, bid, s.cache[i].block, s.cache[j].bid);
      }
    }
    forall b: nat
      ensures View(t, b) == View(s, b)
    {
      if b !in s.dict && OnDisk(s.disk, b) {
        WriteAtBlock(s.disk, bid, s.cache[i].block, b);
      }
    }
  }

  /** Giving a slot to another block. */
  lemma Refilled(s: State, i: nat, x: Slot)
    requires Consistent(s) && i < |s.cache|
    requires x.bid != INV && x.bid !in s.dict && (OnDisk(s.disk, x.bid) || x.status == Dirty)
    requires x.status != Empty && |x.block| == BLOCK && CleanRight(x, s.disk)
    ensures var t := State((s.dict - {s.cache[i].bid})[x.bid := i], s.cache[i := x], s.disk);
            Consistent(t) && (Coherent(s) ==> Coherent(t))
  {
    var t := State((s.dict - {s.cache[i].bid})[x.bid := i], s.cache[i := x], s.disk);
    assert SlotRight(s, i, s.cache[i]);
    forall j: nat | j < |t.cache|
      ensures SlotRight(t, j, t.cache[j]) && (CleanRight(s.cache[j], s.disk) ==> CleanRight(t.cache[j], t.disk))
    {
      assert SlotRight(s, j, s.cache[j]);
    }
  }

  /** Replacing the contents of a slot: the marks still tell the truth exactly if the slot is
      marked dirty or the contents are what they were. */
  lemma Stored(s: State, i: nat, data: seq<Byte>)
    requires Consistent(s) && i < |s.cache| && s.cache[i].bid != INV && |data| == BLOCK
    ensures var t := s.(cache := s.cache[i := s.cache[i].(block := data)]);
            && Consistent(t)
            && (Coherent(s) ==> (Coherent(t) <==> s.cache[i].status == Dirty || data == s.cache[i].block))
  {
    var t := s.(cache := s.cache[i := s.cache[i].(block := data)]);
    assert SlotRight(s, i, s.cache[i]);
    forall j: nat | j < |t.cache|
      ensures SlotRight(t, j, t.cache[j])
    {
      assert SlotRight(s, j, s.cache[j]);
    }
    if Coherent(s) {
      assert CleanRight(s.cache[i], s.disk);
      forall j | 0 <= j < |t.cache| && j != i
        ensures CleanRight(t.cache[j], t.disk)
      {
        assert CleanRight(s.cache[j], s.disk);
      }
      assert Coherent(t) <==> CleanRight(t.cache[i], t.disk);
    }
  }

  /** Marking a block dirty. */
  lemma Marked(s: State, i: nat)
    requires Consistent(s) && i < |s.cache| && s.cache[i].bid != INV
    ensures var t := s.(cache := s.cache[i := s.cache[i].(status := Dirty)]);
            Consistent(t) && (Coherent(s) ==> Coherent(t))
  {
    var t := s.(cache := s.cache[i := s.cache[i].(status := Dirty)]);
    forall j: nat | j < |t.cache|
      ensures SlotRight(t, j, t.cache[j]) && (CleanRight(s.cache[j], s.disk) ==> CleanRight(t.cache[j], t.disk))
    {
      assert SlotRight(s, j, s.cache[j]);
    }
  }

  /** Preparing an empty slot. */
  lemma Prepared(s: State, i: nat, zeros: seq<Byte>)
    requires Consistent(s) && i < |s.cache| && s.cache[i].status == Empty && |zeros| == BLOCK
    ensures var t := s.(cache := s.cache[i := s.cache[i].(status := Clean, block := zeros)]);
            s.cache[i].bid == INV && Consistent(t) && (Coherent(s) ==> Coherent(t))
  {
    var t := s.(cache := s.cache[i := s.cache[i].(status := Clean, block := zeros)]);
    assert SlotRight(s, i, s.cache[i]);
    forall j: nat | j < |t.cache|
      ensures SlotRight(t, j, t.cache[j]) && (CleanRight(s.cache[j], s.disk) ==> CleanRight(t.cache[j], t.disk))
    {
      assert SlotRight(s, j, s.cache[j]);
    }
  }

  // ------------------------------------------------- which blocks will be written back

  /** The newest copy of block b is in the cache and marked as such. */
  ghost predicate DirtyAt(s: State, b: nat) {
    b in s.dict && s.dict[b] < |s.cache| && s.cache[s.dict[b]].status == Dirty
  }

  /** Block a from one state to a later one in which nobody has written to it, in any state of
      the cache: a dirty block shows what it showed, and is on disk when it is no longer dirty;
      any other block is still on disk as it was, and shows that or what it showed. */
  ghost predicate Kept(s: State, t: State, a: nat) {
    if DirtyAt(s, a) then
      View(t, a) == View(s, a) && (DirtyAt(t, a) || (OnDisk(t.disk, a) && DiskBlock(t.disk, a) == View(s, a)))
    else
      && !DirtyAt(t, a) && (OnDisk(s.disk, a) ==> OnDisk(t.disk, a) && DiskBlock(t.disk, a) == DiskBlock(s.disk, a))
      && (View(t, a) == View(s, a) || (OnDisk(s.disk, a) && View(t, a) == DiskBlock(s.disk, a)))
  }

  /** Nothing has been written. */
  ghost predicate Settled(s: State, t: State) {
    |t.disk| == |s.disk| && forall a: nat :: Kept(s, t, a)
  }

  /** At most block b has been written. */
  ghost predicate Others(s: State, t: State, b: nat) {
    |t.disk| == |s.disk| && forall a: nat | a != b :: Kept(s, t, a)
  }

  /** One access, to block b: no other block enters the cache or has its mark changed. */
  ghost predicate Marks(s: State, t: State, b: nat) {
    forall a: nat | a != b && a in t.dict :: a in s.dict && (DirtyAt(t, a) <==> DirtyAt(s, a))
  }

  lemma KeptTwice(s: State, t: State, u: State, a: nat)
    requires Kept(s, t, a) && Kept(t, u, a) && |u.disk| == |t.disk| == |s.disk|
    ensures Kept(s, u, a)
  {
    hide View, DiskBlock, DirtyAt;
  }

  lemma SettledRefl(s: State, b: nat)
    ensures Settled(s, s) && Marks(s, s, b)
  {
    hide View, DiskBlock;
  }

  lemma SettledTwice(s: State, t: State, u: State)
    requires Settled(s, t) && Settled(t, u)
    ensures Settled(s, u)
  {
    hide Kept;
    forall a: nat
      ensures Kept(s, u, a)
    {
      KeptTwice(s, t, u, a);
    }
  }

  lemma SettledAt(s: State, t: State, a: nat)
    requires Settled(s, t)
    ensures Kept(s, t, a)
  {
  }

  lemma SettledLength(s: State, t: State)
    requires Settled(s, t)
    ensures |t.disk| == |s.disk|
  {
  }

  lemma OthersLength(s: State, t: State, b: nat)
    requires Others(s, t, b)
    ensures |t.disk| == |s.disk|
  {
  }

  lemma SettledIsOthers(s: State, t: State, b: nat)
    requires Settled(s, t)
    ensures Others(s, t, b)
  {
    hide Kept;
  }

  lemma OthersTwice(s: State, t: State, u: State, b: nat)
    requires Others(s, t, b) && Others(t, u, b)
    ensures Others(s, u, b)
  {
    hide Kept;
    forall a: nat | a != b
      ensures Kept(s, u, a)
    {
      KeptTwice(s, t, u, a);
    }
  }

  lemma SettledThenOthers(s: State, t: State, u: State, b: nat)
    requires Settled(s, t) && Others(t, u, b)
    ensures Others(s, u, b)
  {
    hide Kept;
    OthersTwice(s, t, u, b);
  }

  lemma MarksTwice(s: State, t: State, u: State, b: nat)
    requires Marks(s, t, b) && Marks(t, u, b)
    ensures Marks(s, u, b)
  {
    hide DirtyAt;
  }

  /** A block that is not dirty is what the disk holds, if every clean block is. */
  lemma CoherentView(s: State, a: nat)
    requires Consistent(s) && Coherent(s) && !DirtyAt(s, a) && OnDisk(s.disk, a)
    ensures View(s, a) == DiskBlock(s.disk, a)
  {
    if a in s.dict {
      SlotOf(s, a);
      assert CleanRight(s.cache[s.dict[a]], s.disk);
    }
  }

  /** A block that is not cached is the disk's block, before and after. */
  lemma MissView(s: State, t: State, b: nat)
    requires Settled(s, t) && b !in s.dict && OnDisk(t.disk, b)
    ensures View(s, b) == DiskBlock(t.disk, b)
  {
    assert Kept(s, t, b);
  }

  /** From a state in which every clean block equals the disk, what is kept is what was shown. */
  lemma CoherentKept(s: State, t: State, a: nat)
    requires Consistent(s) && Coherent(s) && Kept(s, t, a)
    ensures View(t, a) == View(s, a)
  {
    if !DirtyAt(s, a) && OnDisk(s.disk, a) {
      CoherentView(s, a);
    }
  }

  lemma SettledSame(s: State, t: State)
    requires Consistent(s) && Coherent(s) && Settled(s, t)
    ensures SameView(s, t)
  {
    hide Kept, View;
    forall a: nat
      ensures View(t, a) == View(s, a)
    {
      CoherentKept(s, t, a);
    }
  }

  lemma OthersPatched(s: State, t: State, b: nat)
    requires Consistent(s) && Coherent(s) && Others(s, t, b)
    ensures Patched(s, t, b, View(t, b))
  {
    hide Kept, View;
    forall a: nat | a != b
      ensures View(t, a) == View(s, a)
    {
      CoherentKept(s, t, a);
    }
  }

  /** Block a is `was` on disk, not x, and nothing in the cache will bring x there. */
  ghost predicate Stale(s: State, a: nat, was: seq<Byte>, x: seq<Byte>) {
    OnDisk(s.disk, a) && DiskBlock(s.disk, a) == was != x && !DirtyAt(s, a)
  }

  /** New bytes in a clean slot are stale at once. */
  lemma ChangedIsStale(s: State, t: State, b: nat)
    requires Consistent(s) && Coherent(s) && b in s.dict && !DirtyAt(s, b) && !DirtyAt(t, b)
    requires t.disk == s.disk && View(t, b) != View(s, b)
    ensures Stale(t, b, View(s, b), View(t, b))
  {
    SlotOf(s, b);
    CoherentView(s, b);
  }

  /** While nobody writes to the block, it stays that way ... */
  lemma StaleStays(s: State, t: State, a: nat, was: seq<Byte>, x: seq<Byte>)
    requires Kept(s, t, a) && Stale(s, a, was, x)
    ensures Stale(t, a, was, x)
  {
    hide DiskBlock, View;
  }

  /** ... and then the block cannot show these bytes with every clean block equal to the disk; once
      it has left the cache it shows the old ones. */
  lemma StaleIsLost(s: State, a: nat, was: seq<Byte>, x: seq<Byte>)
    requires Consistent(s) && Stale(s, a, was, x)
    ensures !(Coherent(s) && View(s, a) == x)
    ensures a !in s.dict ==> View(s, a) == was
  {
    hide DiskBlock;
    if Coherent(s) {
      CoherentView(s, a);
    }
  }

  // --------------------------------------------------- the steps of the cache, in these terms

  /** Writing a dirty block back, or preparing an empty slot, writes nothing. */
  lemma WriteBackSettles(s: State, i: nat, b: nat)
    requires Consistent(s) && i < |s.cache| && s.cache[i].status == Dirty && OnDisk(s.disk, s.cache[i].bid)
    ensures |s.cache[i].block| == BLOCK
    ensures var t := s.(disk := WriteAt(s.disk, s.cache[i].bid, s.cache[i].block));
            Settled(s, t) && Marks(s, t, b)
  {
    assert SlotRight(s, i, s.cache[i]);
    var t := s.(disk := WriteAt(s.disk, s.cache[i].bid, s.cache[i].block));
    WriteBackKeepsView(s, i);
    forall a: nat
      ensures Kept(s, t, a)
    {
      SameViewAt(s, t, a);
      if OnDisk(s.disk, a) {
        WriteAtBlock(s.disk, s.cache[i].bid, s.cache[i].block, a);
      }
    }
  }

  lemma PreparedSettles(s: State, i: nat, zeros: seq<Byte>, b: nat)
    requires Consistent(s) && i < |s.cache| && s.cache[i].status == Empty && |zeros| == BLOCK
    ensures var t := s.(cache := s.cache[i := s.cache[i].(status := Clean, block := zeros)]);
            Settled(s, t) && Marks(s, t, b)
  {
    hide DiskBlock;
    var t := s.(cache := s.cache[i := s.cache[i].(status := Clean, block := zeros)]);
    assert SlotRight(s, i, s.cache[i]);
    forall a: nat
      ensures Kept(s, t, a)
    {
      assert a in s.dict ==> s.dict[a] != i;
    }
  }

  /** The slot can be given away: what it holds, if marked dirty, is on disk. */
  ghost predicate Ready(x: Slot, disk: seq<Byte>) {
    x.status == Dirty ==> OnDisk(disk, x.bid) && x.block == DiskBlock(disk, x.bid)
  }

  /** Giving such a slot to another block concerns that block only; with the bytes that are on
      disk it writes nothing. */
  lemma RefilledOthers(s: State, i: nat, x: Slot)
    requires Consistent(s) && i < |s.cache| && Ready(s.cache[i], s.disk)
    requires x.bid != INV && x.bid !in s.dict && x.status != Empty
    ensures var t := State((s.dict - {s.cache[i].bid})[x.bid := i], s.cache[i := x], s.disk);
            && Others(s, t, x.bid) && Marks(s, t, x.bid)
            && (x.status == Clean && OnDisk(s.disk, x.bid) && x.block == DiskBlock(s.disk, x.bid) ==> Settled(s, t))
  {
    hide DiskBlock;
    var t := State((s.dict - {s.cache[i].bid})[x.bid := i], s.cache[i := x], s.disk);
    forall a: nat | a != x.bid
      ensures Kept(s, t, a)
    {
      RefilledKept(s, t, i, x, a);
    }
    forall a: nat | a != x.bid && a in t.dict
      ensures DirtyAt(t, a) <==> DirtyAt(s, a)
    {
      assert t.dict[a] != i by {
        assert SlotRight(s, i, s.cache[i]);
      }
    }
  }

  lemma RefilledKept(s: State, t: State, i: nat, x: Slot, a: nat)
    requires Consistent(s) && i < |s.cache| && Ready(s.cache[i], s.disk) && x.bid !in s.dict && a != x.bid
    requires t == State((s.dict - {s.cache[i].bid})[x.bid := i], s.cache[i := x], s.disk)
    ensures Kept(s, t, a)
  {
    hide DiskBlock;
    assert SlotRight(s, i, s.cache[i]);
    if a in s.dict {
      SlotOf(s, a);
    }
  }

  /** Changing the contents or the mark of a slot concerns its block only. */
  lemma ChangedOthers(s: State, i: nat, x: Slot)
    requires Consistent(s) && i < |s.cache| && s.cache[i].bid != INV && x.bid == s.cache[i].bid
    ensures var t := s.(cache := s.cache[i := x]);
            Others(s, t, x.bid) && Marks(s, t, x.bid)
  {
    hide DiskBlock;
    var t := s.(cache := s.cache[i := x]);
    assert SlotRight(s, i, s.cache[i]);
    forall a: nat | a != x.bid
      ensures Kept(s, t, a)
    {
      assert a in s.dict ==> s.dict[a] != i;
    }
  }

  // --------------------------------------------------------------- how many blocks fit

  /** The slots of n consecutive cached blocks. */
  ghost function SlotsOf(s: State, from: nat, n: nat): (r: set<nat>)
    requires forall b: nat | from <= b < from + n :: b in s.dict
  {
    if n == 0 then {} else SlotsOf(s, from, n - 1) + {s.dict[from + n - 1]}
  }

  lemma {:induction false} SlotsCount(s: State, from: nat, n: nat)
    requires Consistent(s) && forall b: nat | from <= b < from + n :: b in s.dict
    ensures |SlotsOf(s, from, n)| == n
    ensures forall x | x in SlotsOf(s, from, n) ::
              x < |s.cache| && from <= s.cache[x].bid < from + n && s.dict[s.cache[x].bid] == x
  {
    hide Consistent, View, SlotRight;
    if n > 0 {
      SlotsCount(s, from, n - 1);
      SlotOf(s, from + n - 1);
      assert s.dict[from + n - 1] !in SlotsOf(s, from, n - 1);
    }
  }

  lemma {:induction false} BelowCount(r: set<nat>, n: nat)
    requires forall x | x in r :: x < n
    ensures |r| <= n
  {
    if n == 0 {
      assert r == {};
    } else {
      BelowCount(r - {n - 1}, n - 1);
    }
  }

  /** No more consecutive blocks are cached than there are slots. */
  lemma CrowdFits(s: State, from: nat, n: nat)
    requires Consistent(s) && forall b: nat | from <= b < from + n :: b in s.dict
    ensures n <= |s.cache|
  {
    SlotsCount(s, from, n);
    BelowCount(SlotsOf(s, from, n), |s.cache|);
  }
}
