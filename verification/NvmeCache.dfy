/**
 * The write-back block cache of the NVMe driver (kernel/src/driver/nvme.c): finding, loading,
 * evicting and marking blocks, and the reads and writes of byte ranges built on it.
 */
module NvmeCache {
  import opened Links
  import opened NvmeBytes
  import opened NvmeIndex
  import opened NvmeLru
  import opened NvmeView

  /** Blocks per LBA unit times LBA size is the block size, for every LBA size that divides
      it. */
  lemma LbaArithmetic(lba: nat, b: nat)
    requires lba > 0 && BLOCK % lba == 0
    ensures (BLOCK / lba) * lba == BLOCK && ((BLOCK / lba) * b) * lba == BLOCK * b
  {
    var q := BLOCK / lba;
    assert q * lba == BLOCK;
    calc {
      (q * b) * lba;
      (q * lba) * b;
      BLOCK * b;
    }
  }

  /** With all cached blocks on the device, the least recently used one is. */
  lemma NotStuck(ns: Namespace, s: State)
    requires ns.Indexed() && Grown(s, ns.St()) && |s.disk| == |ns.disk| && Resident(s)
    ensures !ns.Stuck()
  {
    hide Threaded;
    forall i: nat | i < |ns.cache|
      ensures ns.cache[i].bid != INV ==> OnDisk(ns.disk, ns.cache[i].bid)
    {
      assert SlotRight(ns.St(), i, ns.cache[i]);
    }
  }

  lemma AtBlock(off: nat, count: nat, block: nat, n: nat, hi: nat)
    requires Progress(off, count, block, n) && block <= hi && hi + 1 == (off + count) / BLOCK
    ensures (off + n) / BLOCK == block
  {
  }

  lemma AtEnd(off: nat, count: nat, block: nat, n: nat)
    requires Progress(off, count, block, n) && n < count && block >= (off + count) / BLOCK
    ensures (off + n) / BLOCK == (off + count) / BLOCK
  {
  }

  lemma SameOnDisk(disk: seq<Byte>, disk': seq<Byte>)
    requires |disk'| == |disk|
    ensures forall b: nat :: OnDisk(disk', b) <==> OnDisk(disk, b)
  {
  }

  /** Why the front part of a write can fail. */
  lemma FrontReason(ns: Namespace, s: State, off: nat, count: nat)
    requires ns.Indexed() && s == ns.St()
    ensures Resident(s) && Inside(s.disk, off, count) && count > 0 ==> !ns.Stuck() && OnDisk(s.disk, off / BLOCK)
  {
    if Resident(s) && Inside(s.disk, off, count) && count > 0 {
      NotStuck(ns, s);
      InsideBlock(s.disk, off, count, off / BLOCK);
    }
  }

  /** Why a later part can fail. */
  lemma LaterReason(ns: Namespace, s: State, ages: Ages, off: nat, data: seq<Byte>, n: nat, b: nat)
    requires ns.Indexed() && Doing(s, ns.St(), ages, ns.Recency(), off, data, n, b)
    ensures |ns.disk| == |s.disk|
    ensures Resident(s) && Inside(s.disk, off, |data|) && data != [] ==> !ns.Stuck()
  {
    hide Going, Threaded, Consistent, AgesOf, FrontKept;
    if Resident(s) && Inside(s.disk, off, |data|) && data != [] {
      InsideEnd(s.disk, off, |data|);
      NotStuck(ns, s);
    }
  }

  lemma InsideEnd(disk: seq<Byte>, off: nat, count: nat)
    requires Inside(disk, off, count) && count > 0
    ensures off + count <= |disk|
  {
  }

  lemma GrownRefl(s: State)
    ensures Grown(s, s)
  {
  }

  lemma InsideBlock(disk: seq<Byte>, off: nat, count: nat, b: nat)
    requires Inside(disk, off, count) && BLOCK * b < off + count && count > 0
    ensures OnDisk(disk, b)
  {
  }

  /** A run of accessed blocks cannot leave the device for longer than the cache is large. */
  lemma RunEnds(s: State, lo: nat, block: nat)
    requires Consistent(s) && |s.cache| == NCACHES && lo <= block
    requires forall b: nat | lo <= b < block :: OnDisk(s.disk, b) || b in s.dict
    ensures block <= lo + |s.disk| + NCACHES
  {
    var from := lo + |s.disk|;
    if block > from + NCACHES {
      CrowdFits(s, from, block - from);
    }
  }

  /** None of these transfers is refused. */
  ghost predicate Quiet(refuses: nat -> bool, before: nat, after: nat) {
    forall k: nat | before <= k < after :: !refuses(k)
  }

  /** A failure is put down to the device: it has refused one of the transfers, or there is another
      reason why one could not succeed. */
  ghost predicate Excused(failed: bool, refuses: nat -> bool, before: nat, after: nat, reason: bool) {
    before <= after && (failed && Quiet(refuses, before, after) ==> reason)
  }

  /** Every block of the byte range is on the device. */
  predicate Inside(disk: seq<Byte>, off: nat, count: nat) {
    count > 0 ==> OnDisk(disk, (off + count - 1) / BLOCK)
  }

  class Namespace {
    /** lba_size, the device contents, and the cache. */
    const lbaSize: nat
    /** Which transfers the device refuses, whatever they ask for. */
    const refuses: nat -> bool
    var disk: seq<Byte>
    var cache: seq<Slot>
    const lru: LruList
    const hashmap: HashMap
    /** How many transfers there have been, and how many of them have failed. */
    var transfers: nat
    ghost var faults: nat

    /** The state as a value, and the ages of the cached blocks. */
    ghost function St(): (s: State)
      reads this, hashmap
    {
      State(hashmap.dict, cache, disk)
    }

    ghost function Recency(): (ages: Ages)
      reads this, lru, hashmap
    {
      AgesOf(St(), lru.order)
    }

    ghost predicate Indexed()
      reads this, lru, hashmap
    {
      && lbaSize > 0 && BLOCK % lbaSize == 0
      && lru.Valid() && hashmap.Valid()
      && |cache| == NCACHES
      && Threaded(cache, lru.order, lru.index)
      && Consistent(St())
    }

    /** The least recently used slot holds a block beyond the end of the device. */
    ghost predicate Stuck()
      reads this, lru
    {
      && lru.tail in lru.index && 0 <= lru.index[lru.tail] < |cache|
      && var x := cache[lru.index[lru.tail]];
         x.bid != INV && !OnDisk(disk, x.bid)
    }

    /** nvme_cache_container_init. */
    constructor (lbaSize: nat, disk: seq<Byte>, refuses: nat -> bool, hash: nat -> nat, nodes: seq<int>)
      requires lbaSize > 0 && BLOCK % lbaSize == 0
      requires forall b: nat :: hash(b) < NCACHES
      requires |nodes| == NCACHES && Distinct(nodes) && forall i | 0 <= i < |nodes| :: 0 <= nodes[i]
      ensures Indexed() && Coherent(St()) && Resident(St()) && this.disk == disk && fresh(lru) && fresh(hashmap)
      ensures faults == transfers == 0 && this.refuses == refuses && hashmap.dict == map[]
      ensures forall b: nat | OnDisk(disk, b) :: View(St(), b) == DiskBlock(disk, b)
    {
      this.refuses := refuses;
      this.lbaSize, this.disk, faults, transfers := lbaSize, disk, 0, 0;
      cache := seq(NCACHES, i requires 0 <= i < NCACHES => Slot(nodes[i], Empty, INV, []));
      lru := new LruList(nodes);
      hashmap := new HashMap(hash, NCACHES);
      new;
      forall a | a in lru.order
        ensures a in lru.index && 0 <= lru.index[a] < NCACHES && cache[lru.index[a]].lruref == a
      {
        var k := IndexOf(lru.order, a);
        assert lru.order[NCACHES - 1 - (NCACHES - 1 - k)] == nodes[NCACHES - 1 - k];
      }
      forall i | 0 <= i < NCACHES
        ensures cache[i].lruref in lru.order
      {
        assert lru.order[NCACHES - 1 - i] == nodes[i];
      }
    }

    // ------------------------------------------------------------ transfers

    /** nvme_rw_blocking with NVME_OPC_IO_READ: fails if the device refuses it, and beyond the
        device.  A failed transfer leaves the buffer as it was. */
    method ReadLbas(lba: nat, count: nat, buffer: seq<Byte>) returns (ok: bool, data: seq<Byte>)
      modifies this`faults, this`transfers
      ensures ok ==> (lba + count) * lbaSize <= |disk| && data == disk[lba * lbaSize..(lba + count) * lbaSize]
      ensures ok ==> faults == old(faults)
      ensures !ok ==> data == buffer && faults == old(faults) + 1
      ensures ok <==> (lba + count) * lbaSize <= |disk| && !refuses(old(transfers))
      ensures transfers == old(transfers) + 1
    {
      ok := !refuses(transfers);
      transfers := transfers + 1;
      var inside := (lba + count) * lbaSize <= |disk|;
      if ok && inside {
        assert lba * lbaSize <= (lba + count) * lbaSize;
        data := disk[lba * lbaSize..(lba + count) * lbaSize];
      } else {
        ok, data := false, buffer;
        faults := faults + 1;
      }
    }

    /** nvme_rw_blocking with NVME_OPC_IO_WRITE.  A failed transfer leaves the disk as it was. */
    method WriteLbas(lba: nat, count: nat, data: seq<Byte>) returns (ok: bool)
      requires |data| == count * lbaSize
      modifies this`disk, this`faults, this`transfers
      ensures ok ==> (lba + count) * lbaSize <= |disk| && |disk| == |old(disk)|
      ensures ok ==> disk == old(disk)[..lba * lbaSize] + data + old(disk)[(lba + count) * lbaSize..]
      ensures ok ==> faults == old(faults)
      ensures !ok ==> disk == old(disk) && faults == old(faults) + 1
      ensures ok <==> (lba + count) * lbaSize <= |disk| && !refuses(old(transfers))
      ensures transfers == old(transfers) + 1
    {
      ok := !refuses(transfers);
      transfers := transfers + 1;
      var inside := (lba + count) * lbaSize <= |disk|;
      if ok && inside {
        assert (lba + count) * lbaSize == lba * lbaSize + count * lbaSize;
        disk := disk[..lba * lbaSize] + data + disk[(lba + count) * lbaSize..];
      } else {
        ok := false;
        faults := faults + 1;
      }
    }

    /** Read one cache block from the device. */
    method LoadBlock(b: nat, buffer: seq<Byte>) returns (ok: bool, data: seq<Byte>)
      requires lbaSize > 0 && BLOCK % lbaSize == 0
      modifies this`faults, this`transfers
      ensures ok ==> OnDisk(disk, b) && data == DiskBlock(disk, b) && faults == old(faults)
      ensures !ok ==> data == buffer && faults == old(faults) + 1
      ensures ok <==> OnDisk(disk, b) && !refuses(old(transfers))
      ensures transfers == old(transfers) + 1
    {
      LbaArithmetic(lbaSize, b);
      var q := BLOCK / lbaSize;
      assert (q * b + q) * lbaSize == BLOCK * b + BLOCK;
      ok, data := ReadLbas(q * b, q, buffer);
    }

    /** Write one cache block to the device. */
    method StoreBlock(b: nat, data: seq<Byte>) returns (ok: bool)
      requires lbaSize > 0 && BLOCK % lbaSize == 0 && |data| == BLOCK
      modifies this`disk, this`faults, this`transfers
      ensures ok ==> OnDisk(old(disk), b) && disk == WriteAt(old(disk), b, data) && faults == old(faults)
      ensures !ok ==> disk == old(disk) && faults == old(faults) + 1
      ensures ok <==> OnDisk(old(disk), b) && !refuses(old(transfers))
      ensures transfers == old(transfers) + 1
    {
      LbaArithmetic(lbaSize, b);
      var q := BLOCK / lbaSize;
      assert (q * b + q) * lbaSize == BLOCK * b + BLOCK;
      ok := WriteLbas(q * b, q, data);
    }

    // ------------------------------------------------------------ slots

    /** Mark a slot as just used. */
    method Touch(i: nat)
      requires Indexed() && i < NCACHES
      modifies lru
      ensures Indexed() && cache[i].lruref in old(lru.order)
      ensures lru.order == [cache[i].lruref] + Without(old(lru.order), IndexOf(old(lru.order), cache[i].lruref))
    {
      hide Consistent;
      ListDistinct(lru.next, lru.prev, lru.order);
      ThreadedMoved(cache, lru.order, lru.index, IndexOf(lru.order, cache[i].lruref));
      lru.InformUsage(cache[i].lruref);
    }

    /** A hit: the slot of a cached block becomes the youngest. */
    method Hit(b: nat, i: nat)
      requires Indexed() && b in hashmap.dict && i == hashmap.dict[b]
      modifies lru
      ensures Indexed() && Recency() == Aged(old(Recency()), b)
    {
      hide Consistent, Threaded, AgesOf, Aged;
      MappedBelow(St(), b);
      ListDistinct(lru.next, lru.prev, lru.order);
      HitAges(St(), lru.order, lru.index, b);
      Touch(i);
    }

    /** nvme_cache_lru_evict, and the write-back that its callers do first: the least recently
        used slot, ready to be given away.  A slot that holds a block beyond the device can
        never be written back: then every attempt fails and changes nothing. */
    method Evict(ghost b: nat) returns (i: nat)
      requires Indexed()
      modifies this`cache, this`disk, this`faults, this`transfers
      ensures Indexed() && Settled(old(St()), St()) && Marks(old(St()), St(), b) && Recency() == old(Recency())
      ensures old(Coherent(St())) ==> Coherent(St())
      ensures i == INV ==> faults > old(faults)
      ensures i != INV ==> i < NCACHES && faults == old(faults) && |cache[i].block| == BLOCK
      ensures i != INV ==> Ready(cache[i], disk) && cache[i].lruref == lru.order[NCACHES - 1]
      ensures old(Stuck()) ==> i == INV && St() == old(St())
      ensures Excused(i == INV, refuses, old(transfers), transfers, old(Stuck()))
      ensures old(transfers) <= transfers <= old(transfers) + 1
    {
      hide Settled, Marks, Coherent, AgesOf, View, WriteAt;
      i := lru.Oldest();
      ghost var s, slot := St(), i;
      SettledRefl(s, b);
      assert SlotRight(s, i, cache[i]);
      if cache[i].status == Empty {
        Prepare(i, b);
      } else if cache[i].status == Dirty {
        if OnDisk(disk, cache[i].bid) {
          WriteBackKeepsView(s, i);
          WriteBackSettles(s, i, b);
        }
        var ok := StoreBlock(cache[i].bid, cache[i].block);
        TagsAges(s, St(), lru.order);
        if !ok {
          i := INV;
        }
      }
    }

    /** The first use of a slot: a zeroed block. */
    method Prepare(i: nat, ghost b: nat)
      requires Indexed() && i < NCACHES && cache[i].status == Empty
      modifies this`cache
      ensures Indexed() && Settled(old(St()), St()) && Marks(old(St()), St(), b) && Recency() == old(Recency())
      ensures old(Coherent(St())) ==> Coherent(St())
      ensures old(cache[i].bid) == INV && cache[i].lruref == old(cache[i].lruref)
      ensures cache[i].status == Clean && |cache[i].block| == BLOCK
    {
      hide Settled, Marks, Coherent, AgesOf, View, Consistent;
      ghost var s := St();
      var zeros: seq<Byte> := seq(BLOCK, _ => 0);
      Prepared(s, i, zeros);
      PreparedSettles(s, i, zeros, b);
      ThreadedUpdate(cache, lru.order, lru.index, i, cache[i].(status := Clean, block := zeros));
      cache := cache[i := cache[i].(status := Clean, block := zeros)];
      TagsAges(s, St(), lru.order);
    }

    /** Hand slot i, the least recently used one, to block b. */
    method Assign(i: nat, b: nat, status: Status, data: seq<Byte>)
      requires Indexed() && i < NCACHES && Ready(cache[i], disk) && cache[i].lruref == lru.order[NCACHES - 1]
      requires b != INV && b !in hashmap.dict && status != Empty && |data| == BLOCK
      requires status == Clean ==> OnDisk(disk, b) && data == DiskBlock(disk, b)
      modifies this`cache, lru, hashmap
      ensures Indexed() && b in hashmap.dict && hashmap.dict[b] == i
      ensures cache[i].bid == b && cache[i].status == status && cache[i].block == data
      ensures Others(old(St()), St(), b) && Marks(old(St()), St(), b)
      ensures status == Clean ==> Settled(old(St()), St())
      ensures old(Coherent(St())) ==> Coherent(St())
      ensures Recency() == Aged(old(Recency()), b)
    {
      hide Settled, Others, Marks, Coherent, AgesOf, Aged, View, Patched, Threaded, DiskBlock;
      ghost var s, x := St(), Slot(cache[i].lruref, status, b, data);
      ghost var t := State((s.dict - {cache[i].bid})[b := i], cache[i := x], disk);
      Refilled(s, i, x);
      RefilledOthers(s, i, x);
      ThreadedUpdate(cache, lru.order, lru.index, i, x);
      ListDistinct(lru.next, lru.prev, lru.order);
      ThreadedLength(cache, lru.order, lru.index);
      MissAges(s, t, lru.order, lru.index, i, b) by {
        assert Replaced(s, t, i, b);
      }
      assert SlotRight(s, i, cache[i]);
      hashmap.Update(cache[i].bid, b, i);
      cache := cache[i := cache[i].(bid := b, status := status, block := data)];
      assert St() == t;
      Touch(i);
    }

    // ------------------------------------------------------------ blocks

    /** nvme_read_block: the slot that holds block b, INV if a transfer failed.  In any state
        nothing is written and no mark changes. */
    method ReadBlock(b: nat) returns (index: nat)
      requires Indexed() && b < INV
      modifies this`cache, this`disk, this`faults, this`transfers, lru, hashmap
      ensures Indexed() && Settled(old(St()), St()) && Marks(old(St()), St(), b)
      ensures DirtyAt(St(), b) <==> old(DirtyAt(St(), b))
      ensures Recency() == if index == INV then old(Recency()) else Aged(old(Recency()), b)
      ensures old(Coherent(St())) ==> Coherent(St())
      ensures index == INV ==> faults > old(faults) && hashmap.dict == old(hashmap.dict) && b !in hashmap.dict
      ensures index != INV ==> faults == old(faults) && (OnDisk(disk, b) || b in old(hashmap.dict))
      ensures index != INV ==> index < NCACHES && b in hashmap.dict && hashmap.dict[b] == index
      ensures index != INV ==> cache[index].bid == b && |cache[index].block| == BLOCK
      ensures index != INV ==> cache[index].block == View(old(St()), b) == View(St(), b)
      ensures old(Stuck()) && b !in old(hashmap.dict) ==> index == INV && St() == old(St())
      ensures Excused(index == INV, refuses, old(transfers), transfers, old(Stuck()) || !OnDisk(disk, b))
      ensures old(transfers) <= transfers <= old(transfers) + if b in old(hashmap.dict) then 0 else 2
    {
      hide View, Settled, Marks, Coherent, Consistent, AgesOf, Aged, Threaded, DiskBlock;
      ghost var s := St();
      MappedBelow(s, b);
      index := hashmap.Find(b);
      if index != INV {
        SlotOf(s, b);
        SettledRefl(s, b);
        Hit(b, index);
      } else {
        index := ReadMiss(b);
      }
    }

    /** The miss of nvme_read_block. */
    method ReadMiss(b: nat) returns (index: nat)
      requires Indexed() && b < INV && b !in hashmap.dict
      modifies this`cache, this`disk, this`faults, this`transfers, lru, hashmap
      ensures Indexed() && Settled(old(St()), St()) && Marks(old(St()), St(), b) && !DirtyAt(St(), b)
      ensures Recency() == if index == INV then old(Recency()) else Aged(old(Recency()), b)
      ensures old(Coherent(St())) ==> Coherent(St())
      ensures index == INV ==> faults > old(faults) && hashmap.dict == old(hashmap.dict)
      ensures index != INV ==> faults == old(faults) && OnDisk(disk, b)
      ensures index != INV ==> index < NCACHES && b in hashmap.dict && hashmap.dict[b] == index
      ensures index != INV ==> cache[index].bid == b && |cache[index].block| == BLOCK
      ensures index != INV ==> cache[index].block == View(old(St()), b) == View(St(), b)
      ensures old(Stuck()) ==> index == INV && St() == old(St())
      ensures Excused(index == INV, refuses, old(transfers), transfers, old(Stuck()) || !OnDisk(disk, b))
      ensures old(transfers) <= transfers <= old(transfers) + if b in old(hashmap.dict) then 0 else 2
    {
      hide View, Settled, Marks, Coherent, Consistent, AgesOf, Aged, Threaded, DiskBlock, Others, Ready;
      ghost var s := St();
      index := Evict(b);
      ghost var t := St();
      if index == INV {
        return;
      }
      var ok, data := LoadBlock(b, cache[index].block);
      if !ok {
        return INV;
      }
      MissView(s, t, b);
      Assign(index, b, Clean, data);
      SettledTwice(s, t, St());
      MarksTwice(s, t, St(), b);
      CachedView(St(), b);
    }

    /** nvme_prep_write_full_block: a slot marked dirty for block b, whose old contents are
        about to be replaced; INV if a transfer failed.  The block need not be on the device. */
    method PrepWrite(b: nat) returns (index: nat)
      requires Indexed() && b < INV
      modifies this`cache, this`disk, this`faults, this`transfers, lru, hashmap
      ensures Indexed() && Others(old(St()), St(), b) && Marks(old(St()), St(), b)
      ensures Recency() == if index == INV then old(Recency()) else Aged(old(Recency()), b)
      ensures old(Coherent(St())) ==> Coherent(St())
      ensures index == INV ==> faults > old(faults) && Settled(old(St()), St())
      ensures index == INV ==> hashmap.dict == old(hashmap.dict) && b !in hashmap.dict
      ensures index != INV ==> faults == old(faults) && index < NCACHES
      ensures index != INV ==> b in hashmap.dict && hashmap.dict[b] == index && cache[index].bid == b
      ensures index != INV ==> cache[index].status == Dirty && |cache[index].block| == BLOCK
      ensures old(Stuck()) && b !in old(hashmap.dict) ==> index == INV && St() == old(St())
      ensures Excused(index == INV, refuses, old(transfers), transfers, old(Stuck()))
      ensures old(transfers) <= transfers <= old(transfers) + if b in old(hashmap.dict) then 0 else 1
    {
      hide View, Settled, Others, Marks, Coherent, Consistent, AgesOf, Aged, Threaded, DiskBlock, Ready;
      ghost var s := St();
      MappedBelow(s, b);
      index := hashmap.Find(b);
      if index != INV {
        SlotOf(s, b);
        SettledRefl(s, b);
        if cache[index].status == Clean {
          MarkDirty(index);
        }
        if St() == s {
          SettledIsOthers(s, s, b);
        }
        Hit(b, index);
      } else {
        index := Evict(b);
        ghost var t := St();
        if index == INV {
          SettledIsOthers(s, t, b);
          return;
        }
        Assign(index, b, Dirty, cache[index].block);
        SettledThenOthers(s, t, St(), b);
        MarksTwice(s, t, St(), b);
      }
    }

    method MarkDirty(i: nat)
      requires Indexed() && i < NCACHES && cache[i].bid != INV
      modifies this`cache
      ensures Indexed() && Others(old(St()), St(), cache[i].bid) && Marks(old(St()), St(), cache[i].bid)
      ensures Recency() == old(Recency()) && (old(Coherent(St())) ==> Coherent(St()))
      ensures cache[i] == old(cache[i]).(status := Dirty)
    {
      hide Settled, Others, Marks, Coherent, AgesOf, Consistent, View;
      ghost var s := St();
      Marked(s, i);
      ChangedOthers(s, i, cache[i].(status := Dirty));
      ThreadedUpdate(cache, lru.order, lru.index, i, cache[i].(status := Dirty));
      cache := cache[i := cache[i].(status := Dirty)];
      TagsAges(s, St(), lru.order);
    }

    /** memcpy into part of a cached block.  The status is not touched, so unless the slot is
        dirty already (or nothing changes) it no longer tells the truth. */
    method CopyInto(i: nat, pos: nat, part: seq<Byte>)
      requires Indexed() && i < NCACHES && cache[i].bid != INV && pos + |part| <= BLOCK
      modifies this`cache
      ensures Indexed() && Others(old(St()), St(), cache[i].bid) && Marks(old(St()), St(), cache[i].bid)
      ensures |old(cache[i].block)| == BLOCK
      ensures cache[i] == old(cache[i]).(block := Spliced(old(cache[i].block), pos, part))
      ensures View(St(), cache[i].bid) == cache[i].block && (DirtyAt(St(), cache[i].bid) <==> cache[i].status == Dirty)
      ensures old(Coherent(St())) ==>
                (Coherent(St()) <==> cache[i].status == Dirty || cache[i].block == old(cache[i].block))
      ensures Recency() == old(Recency())
    {
      hide Settled, Others, Marks, Coherent, AgesOf, Patched;
      ghost var s := St();
      assert SlotRight(s, i, cache[i]);
      var data := Spliced(cache[i].block, pos, part);
      Stored(s, i, data);
      ChangedOthers(s, i, cache[i].(block := data));
      ThreadedUpdate(cache, lru.order, lru.index, i, cache[i].(block := data));
      cache := cache[i := cache[i].(block := data)];
      TagsAges(s, St(), lru.order);
    }

    /** One block of a run of reads that has started in state s. */
    method ReadNext(b: nat, ghost s: State) returns (ok: bool)
      requires Indexed() && b < INV && Settled(s, St()) && Grown(s, St())
      modifies this`cache, this`disk, this`faults, this`transfers, lru, hashmap
      ensures Indexed() && Settled(s, St()) && Grown(s, St())
      ensures if ok then faults == old(faults) && Recency() == Aged(old(Recency()), b) else faults > old(faults)
      ensures Excused(!ok, refuses, old(transfers), transfers, !Resident(s) || !OnDisk(s.disk, b))
    {
      hide Consistent, Threaded, AgesOf, Aged, Settled, Marks, View, DirtyAt, Coherent, DiskBlock, Resident, Grown;
      ghost var t := St();
      SettledLength(s, t);
      if Resident(s) {
        NotStuck(this, s);
      }
      var i := ReadBlock(b);
      SettledLength(t, St());
      SettledTwice(s, t, St());
      GrownStep(s, t, St(), b);
      ok := i != INV;
    }

    /** Reading the blocks from, from + 1, ..., upTo - 1, until a transfer fails. */
    method ReadBlocks(from: nat, upTo: nat)
      requires Indexed() && from <= upTo <= INV
      modifies this`cache, this`disk, this`faults, this`transfers, lru, hashmap
      ensures Indexed() && Settled(old(St()), St()) && faults >= old(faults)
      ensures faults == old(faults) ==> Recency() == AgedRange(old(Recency()), from, upTo)
      ensures Excused(faults > old(faults), refuses, old(transfers), transfers,
                      !Resident(old(St())) || (upTo > 0 && !OnDisk(old(disk), upTo - 1)))
    {
      hide Consistent, Threaded, AgesOf, Aged, AgedRange, Settled, Marks, View, DirtyAt, Coherent, DiskBlock, Resident,
           Grown;
      ghost var s, ages := St(), Recency();
      SettledRefl(s, 0);
      GrownRefl(s);
      RangeStart(ages, from);
      var b := from;
      while b < upTo
        invariant from <= b <= upTo && Indexed() && Settled(s, St()) && Grown(s, St()) && faults == old(faults)
        invariant transfers >= old(transfers)
        invariant Recency() == AgedRange(ages, from, b)
      {
        RangeStep(ages, from, b);
        var ok := ReadNext(b, s);
        if !ok {
          return;
        }
        b := b + 1;
      }
    }

    // ------------------------------------------------------------ nvme_read

    /** One memcpy of nvme_read: r bytes of block b from position pos on, appended to buf. */
    method ReadPart(b: nat, pos: nat, r: nat, buf: seq<Byte>, ghost off: nat, ghost s: State)
      returns (ok: bool, out: seq<Byte>)
      requires Indexed() && b < INV && pos + r <= BLOCK && Settled(s, St()) && Grown(s, St())
      modifies this`cache, this`disk, this`faults, this`transfers, lru, hashmap
      ensures Indexed() && Settled(s, St()) && Grown(s, St()) && (old(Coherent(St())) ==> Coherent(St()))
      ensures ok ==> faults == old(faults) && |out| == |buf| + r && (OnDisk(disk, b) || b in s.dict)
      ensures ok && Shown(s, off, buf) && off + |buf| == BLOCK * b + pos ==> Shown(s, off, out)
      ensures !ok ==> faults > old(faults) && out == buf
      ensures Excused(!ok, refuses, old(transfers), transfers, !Resident(s) || !OnDisk(s.disk, b))
    {
      hide View, Settled, Marks, Coherent, Consistent, Shown, AgesOf, Aged, Threaded, DiskBlock, Kept, Resident, Grown;
      ghost var t := St();
      SettledLength(s, t);
      if Resident(s) {
        NotStuck(this, s);
      }
      var i := ReadBlock(b);
      SettledLength(t, St());
      SettledTwice(s, t, St());
      GrownStep(s, t, St(), b);
      if i == INV {
        return false, buf;
      }
      ok, out := true, buf + cache[i].block[pos..pos + r];
      if Shown(s, off, buf) && off + |buf| == BLOCK * b + pos {
        SettledAt(s, St(), b);
        AppendPart(s, St(), off, buf, b, pos, r, cache[i].block);
      }
    }

    /** The first part of nvme_read, if it does not start at a block. */
    method ReadFront(off: nat, count: nat) returns (ok: bool, buf: seq<Byte>)
      requires Indexed() && off + count < INV
      modifies this`cache, this`disk, this`faults, this`transfers, lru, hashmap
      ensures Indexed() && Settled(old(St()), St()) && Grown(old(St()), St())
      ensures old(Coherent(St())) ==> Coherent(St())
      ensures if ok then faults == old(faults) && |buf| == FrontSize(off, count) else faults > old(faults) && buf == []
      ensures Shown(old(St()), off, buf)
      ensures Excused(!ok, refuses, old(transfers), transfers, !Resident(old(St())) || !OnDisk(disk, off / BLOCK))
    {
      hide View, Settled, Coherent, Consistent, Shown, Threaded, DiskBlock, Resident;
      ghost var s := St();
      SettledRefl(s, 0);
      ShownNothing(s, off);
      ok, buf := true, [];
      if off % BLOCK != 0 {
        ok, buf := ReadPart(off / BLOCK, off % BLOCK, FrontSize(off, count), buf, off, s);
        SettledLength(s, St());
      }
    }

    /** The loop of nvme_read over whole blocks. */
    method ReadMiddle(off: nat, count: nat, lo: nat, hi: nat, start: seq<Byte>, ghost s: State)
      returns (ok: bool, buf: seq<Byte>)
      requires Indexed() && Consistent(s) && |s.cache| == NCACHES && off + count < INV && hi <= INV
      requires Settled(s, St()) && Grown(s, St()) && (off + count < BLOCK ==> lo + |s.disk| + NCACHES < INV)
      requires off + count >= BLOCK ==> hi + 1 == (off + count) / BLOCK && Progress(off, count, lo, |start|)
      requires Shown(s, off, start)
      requires off + count < BLOCK ==> hi == INV
      modifies this`cache, this`disk, this`faults, this`transfers, lru, hashmap
      ensures Indexed() && Settled(s, St()) && Grown(s, St()) && (old(Coherent(St())) ==> Coherent(St()))
      ensures if ok then faults == old(faults) && off + count >= BLOCK else faults > old(faults)
      ensures off + count >= BLOCK ==> Shown(s, off, buf) && |buf| <= count
      ensures off + count >= BLOCK && ok ==> Progress(off, count, if lo <= hi then hi + 1 else lo, |buf|)
      ensures off + count >= BLOCK ==>
                Excused(!ok, refuses, old(transfers), transfers, !Resident(s) || !OnDisk(s.disk, (off + |buf|) / BLOCK))
    {
      hide View, Settled, Coherent, Consistent, Shown, Threaded, DiskBlock, Grown, Resident, OnDisk;
      ok, buf := true, start;
      var block := lo;
      while block <= hi
        invariant Indexed() && Settled(s, St()) && Grown(s, St()) && (old(Coherent(St())) ==> Coherent(St()))
        invariant lo <= block && (block == lo || block <= hi + 1) && faults == old(faults) && ok
        invariant transfers >= old(transfers)
        invariant forall b: nat | lo <= b < block :: OnDisk(s.disk, b) || b in s.dict
        invariant off + count >= BLOCK ==> Shown(s, off, buf) && Progress(off, count, block, |buf|)
        decreases hi + 1 - block
      {
        RunEnds(s, lo, block);
        SettledLength(s, St());
        ok, buf := ReadPart(block, 0, BLOCK, buf, off, s);
        if !ok {
          if off + count >= BLOCK {
            AtBlock(off, count, block, |buf|, hi);
          }
          return;
        }
        SettledLength(s, St());
        SameOnDisk(s.disk, disk);
        block := block + 1;
      }
      RunEnds(s, lo, block);
    }

    /** nvme_read, in any state.  With off + count >= BLOCK the bytes are those that the blocks
        show, all of them unless a transfer failed.  Otherwise block_hi wraps: the loop runs on
        until a transfer fails. */
    method Read(off: nat, count: nat) returns (buf: seq<Byte>)
      requires Indexed() && off + count < INV && |disk| + NCACHES + 1 < INV
      modifies this`cache, this`disk, this`faults, this`transfers, lru, hashmap
      ensures Indexed() && Settled(old(St()), St()) && Grown(old(St()), St())
      ensures off + count >= BLOCK ==> |buf| <= count && (|buf| < count ==> faults > old(faults))
      ensures off + count >= BLOCK ==> Shown(old(St()), off, buf)
      ensures off + count < BLOCK ==> faults > old(faults)
      ensures old(Coherent(St())) ==> Coherent(St()) && SameView(old(St()), St())
      ensures old(Coherent(St())) && off + count >= BLOCK ==> Matches(old(St()), off, buf)
      ensures off + count >= BLOCK ==>
                Excused(|buf| < count, refuses, old(transfers), transfers,
                        !Resident(old(St())) || !OnDisk(disk, (off + |buf|) / BLOCK))
    {
      hide View, SameView, Settled, Coherent, Consistent, Shown, Matches, Threaded, DiskBlock, Grown, Resident, OnDisk;
      ghost var s := St();
      var lo, hi := BlockLo(off), BlockHi(off, count);
      BlockHiExact(off, count);
      var ok;
      ok, buf := ReadFront(off, count);
      if ok {
        if off + count >= BLOCK {
          FrontProgress(off, count);
        }
        ok, buf := ReadMiddle(off, count, lo, hi, buf, s);
        if ok && |buf| < count {
          TailProgress(off, count, if lo <= hi then hi + 1 else lo, |buf|);
          AtEnd(off, count, if lo <= hi then hi + 1 else lo, |buf|);
          ok, buf := ReadPart(hi + 1, 0, count - |buf|, buf, off, s);
        }
      }
      SettledLength(s, St());
      SameOnDisk(s.disk, disk);
      if Coherent(s) {
        SettledSame(s, St());
        if off + count >= BLOCK {
          ShownMatches(s, off, buf);
        }
      }
    }

    // ------------------------------------------------------------ nvme_write

    /** One whole block of nvme_write. */
    method WriteWhole(b: nat, chunk: seq<Byte>) returns (ok: bool)
      requires Indexed() && b < INV && |chunk| == BLOCK
      modifies this`cache, this`disk, this`faults, this`transfers, lru, hashmap
      ensures Indexed() && Others(old(St()), St(), b) && Marks(old(St()), St(), b)
      ensures Recency() == if ok then Aged(old(Recency()), b) else old(Recency())
      ensures if ok then faults == old(faults) else faults > old(faults) && Settled(old(St()), St())
      ensures ok ==> DirtyAt(St(), b) && View(St(), b) == chunk
      ensures if ok then b in hashmap.dict else hashmap.dict == old(hashmap.dict) && b !in hashmap.dict
      ensures old(Coherent(St())) ==> Coherent(St())
      ensures Excused(!ok, refuses, old(transfers), transfers, old(Stuck()))
    {
      hide View, Settled, Others, Marks, Coherent, Consistent, AgesOf, Aged, Threaded, DiskBlock;
      ghost var s := St();
      var i := PrepWrite(b);
      if i == INV {
        return false;
      }
      ghost var t := St();
      CopyInto(i, 0, chunk);
      SplicedWhole(t.cache[i].block, chunk);
      OthersTwice(s, t, St(), b);
      MarksTwice(s, t, St(), b);
      return true;
    }

    /** A partial block of nvme_write: read the block in, then copy into it.  Every clean block
        still equals the disk exactly if the block was dirty before, or nothing has changed;
        otherwise nothing will ever bring the new bytes to the disk. */
    method WritePartial(b: nat, pos: nat, part: seq<Byte>) returns (ok: bool)
      requires Indexed() && b < INV && pos + |part| <= BLOCK
      modifies this`cache, this`disk, this`faults, this`transfers, lru, hashmap
      ensures Indexed() && Others(old(St()), St(), b) && Marks(old(St()), St(), b)
      ensures DirtyAt(St(), b) <==> old(DirtyAt(St(), b))
      ensures Recency() == if ok then Aged(old(Recency()), b) else old(Recency())
      ensures if ok then faults == old(faults) else faults > old(faults) && Settled(old(St()), St())
      ensures ok ==> (OnDisk(disk, b) || b in old(hashmap.dict)) && |View(old(St()), b)| == BLOCK
      ensures ok ==> View(St(), b) == Spliced(View(old(St()), b), pos, part)
      ensures if ok then b in hashmap.dict else hashmap.dict == old(hashmap.dict) && b !in hashmap.dict
      ensures old(Coherent(St())) && !ok ==> Coherent(St())
      ensures old(Coherent(St())) && ok ==>
                && Patched(old(St()), St(), b, Spliced(View(old(St()), b), pos, part))
                && (Coherent(St()) <==> PartKept(old(St()), b, pos, part, old(DirtyAt(St(), b))))
                && (!Coherent(St()) ==> Stale(St(), b, View(old(St()), b), Spliced(View(old(St()), b), pos, part)))
      ensures Excused(!ok, refuses, old(transfers), transfers, old(Stuck()) || !OnDisk(disk, b))
    {
      hide View, Settled, Others, Marks, Coherent, Consistent, AgesOf, Aged, Threaded, DiskBlock, Patched, Stale;
      ghost var s := St();
      var i := ReadBlock(b);
      ghost var t := St();
      if i == INV {
        SettledIsOthers(s, t, b);
        return false;
      }
      CopyInto(i, pos, part);
      SettledThenOthers(s, t, St(), b);
      MarksTwice(s, t, St(), b);
      if Coherent(s) {
        OthersPatched(s, St(), b);
        if !DirtyAt(s, b) && View(St(), b) != View(t, b) {
          ChangedIsStale(t, St(), b);
        }
      }
      return true;
    }

    /** The first part of nvme_write, if it does not start at a block. */
    method WriteFront(off: nat, data: seq<Byte>) returns (ok: bool)
      requires Indexed() && BLOCK <= off + |data| < INV
      modifies this`cache, this`disk, this`faults, this`transfers, lru, hashmap
      ensures Indexed()
      ensures ok ==> faults == old(faults)
      ensures ok ==> Doing(old(St()), St(), old(Recency()), Recency(), off, data, FrontSize(off, |data|), BlockLo(off))
      ensures !ok ==> faults > old(faults) && Done(old(St()), St(), old(Recency()), off, data, 0)
      ensures Excused(!ok && data != [], refuses, old(transfers), transfers,
                      !Resident(old(St())) || !Inside(old(disk), off, |data|))
    {
      hide View, Settled, Others, Marks, Coherent, Consistent, AgesOf, Aged, Threaded, DiskBlock, Patched, Stale,
           PartKept, DirtyAt, Doing, Done, Resident, Grown, OnDisk, Inside;
      ghost var s, ages := St(), Recency();
      FrontReason(this, s, off, |data|);
      ok := true;
      if off % BLOCK == 0 {
        SettledRefl(s, off / BLOCK);
        DoingFront(s, s, ages, ages, off, data);
      } else {
        ok := WritePartial(off / BLOCK, off % BLOCK, data[..FrontSize(off, |data|)]);
        OthersLength(s, St(), off / BLOCK);
        SameOnDisk(s.disk, disk);
        if ok {
          DoingFront(s, St(), ages, Recency(), off, data);
        } else {
          DoneNothing(s, St(), ages, off, data);
        }
      }
    }

    /** The loop of nvme_write over whole blocks. */
    method WriteMiddle(off: nat, data: seq<Byte>, start: nat, lo: nat, hi: nat, ghost s: State, ghost ages: Ages)
      returns (ok: bool, n: nat)
      requires Indexed() && off + |data| < INV && hi + 1 == (off + |data|) / BLOCK
      requires Progress(off, |data|, lo, start) && off / BLOCK <= lo
      requires Doing(s, St(), ages, Recency(), off, data, start, lo)
      modifies this`cache, this`disk, this`faults, this`transfers, lru, hashmap
      ensures Indexed() && n <= |data|
      ensures ok ==> faults == old(faults) && Progress(off, |data|, if lo <= hi then hi + 1 else lo, n)
      ensures ok ==> Doing(s, St(), ages, Recency(), off, data, n, if lo <= hi then hi + 1 else lo)
      ensures !ok ==> faults > old(faults) && n < |data| && Done(s, St(), ages, off, data, n)
      ensures Excused(!ok, refuses, old(transfers), transfers, !Resident(s) || !Inside(s.disk, off, |data|))
    {
      hide View, Settled, Others, Marks, Coherent, Consistent, AgesOf, Aged, Threaded, DiskBlock, DirtyAt, Doing, Done,
           Resident, Grown, OnDisk, Inside;
      ok, n := true, start;
      var block := lo;
      while block <= hi
        invariant Indexed() && n <= |data| && faults == old(faults) && ok && transfers >= old(transfers)
        invariant lo <= block && (block == lo || block <= hi + 1) && Progress(off, |data|, block, n)
        invariant Doing(s, St(), ages, Recency(), off, data, n, block)
        decreases hi + 1 - block
      {
        ghost var t, ages1 := St(), Recency();
        LaterReason(this, s, ages, off, data, n, block);
        ok := WriteWhole(block, data[n..n + BLOCK]);
        DoingStep(s, t, St(), ages, ages1, Recency(), off, data, n, block, ok);
        if !ok {
          DoneWithoutTail(s, St(), ages, Recency(), off, data, n, block);
          return;
        }
        n := n + BLOCK;
        block := block + 1;
      }
    }

    /** The last part of nvme_write, if it does not end at a block. */
    method WriteTail(off: nat, data: seq<Byte>, start: nat, b: nat, ghost s: State, ghost ages: Ages)
      returns (n: nat)
      requires Indexed() && off + |data| < INV && Consistent(s) && off / BLOCK <= b == (off + |data|) / BLOCK
      requires start < |data| && off + start == BLOCK * b && Ranked(ages)
      requires Doing(s, St(), ages, Recency(), off, data, start, b)
      modifies this`cache, this`disk, this`faults, this`transfers, lru, hashmap
      ensures Indexed() && (if n < |data| then faults > old(faults) else faults == old(faults))
      ensures Done(s, St(), ages, off, data, n)
      ensures faults == old(faults) ==> Recency() == AgedRange(ages, off / BLOCK, b + 1)
      ensures Excused(n < |data|, refuses, old(transfers), transfers, !Resident(s) || !Inside(s.disk, off, |data|))
    {
      hide View, Settled, Others, Marks, Coherent, Consistent, AgesOf, Aged, Threaded, DiskBlock, DirtyAt, Doing, Done,
           PartKept, Patched, Stale, Spliced, Ranked, Resident, Grown, OnDisk, Inside;
      ghost var t, ages1 := St(), Recency();
      LaterReason(this, s, ages, off, data, start, b);
      if Inside(s.disk, off, |data|) {
        InsideBlock(s.disk, off, |data|, b);
      }
      DoingAges(s, t, ages, ages1, off, data, start, b);
      AgesAreKeys(t, lru.order, lru.index);
      var ok := WritePartial(b, 0, data[start..]);
      OthersLength(t, St(), b);
      SameOnDisk(s.disk, disk);
      if ok {
        n := |data|;
        DoneWithTail(s, t, St(), ages, ages1, Recency(), off, data, start, b);
      } else {
        n := start;
        DoingStill(s, t, St(), ages, ages1, off, data, start, b);
        DoneWithoutTail(s, St(), ages, ages1, off, data, start, b);
      }
    }

    /** nvme_write, in any state.  Blocks outside the range are kept.  If every clean block equals
        the disk before, then the written bytes are kept, and nothing else changes, exactly under
        the condition of `WriteKept`; if a transfer fails, the bytes before it are written. */
    method Write(off: nat, data: seq<Byte>) returns (n: nat)
      requires Indexed() && BLOCK <= off + |data| < INV
      modifies this`cache, this`disk, this`faults, this`transfers, lru, hashmap
      ensures Indexed() && Untouched(old(St()), St(), off, |data|)
      ensures n <= |data| && (n < |data| ==> faults > old(faults)) && LastCached(St(), off, n)
      ensures n == |data| > 0 ==> faults == old(faults)
      ensures off + |data| <= |disk| ==> Grown(old(St()), St())
      ensures old(Coherent(St())) ==>
                (Coherent(St()) && Overlaid(old(St()), St(), off, data[..n]) <==>
                   WriteKept(old(St()), old(Recency()), off, data, n))
      ensures old(Coherent(St())) && n > 0 && !FrontKept(old(St()), off, data) ==>
                FrontStale(old(St()), St(), off, data)
      ensures faults == old(faults) ==> Recency() == AgedRange(old(Recency()), off / BLOCK, BlockLo(off + |data|))
      ensures Excused(n < |data|, refuses, old(transfers), transfers,
                      !Resident(old(St())) || !Inside(old(disk), off, |data|))
    {
      hide View, Coherent, Consistent, AgesOf, Threaded, Doing, Untouched, Grown, Overlaid, WriteKept, LastCached,
           Ranked, FrontKept, FrontStale, AgedRange, Progress, BlockLo, FrontSize, Resident, Inside;
      ghost var s, ages := St(), Recency();
      ThreadedLength(cache, lru.order, lru.index);
      AgesRanked(s, lru.order, lru.index);
      var ok := WriteFront(off, data);
      if !ok {
        return 0;
      }
      n := WriteRest(off, data, s, ages);
    }

    /** nvme_write after its front part. */
    method WriteRest(off: nat, data: seq<Byte>, ghost s: State, ghost ages: Ages) returns (n: nat)
      requires Indexed() && BLOCK <= off + |data| < INV && Consistent(s) && Ranked(ages)
      requires Doing(s, St(), ages, Recency(), off, data, FrontSize(off, |data|), BlockLo(off))
      modifies this`cache, this`disk, this`faults, this`transfers, lru, hashmap
      ensures Indexed() && (if n < |data| then faults > old(faults) else faults == old(faults))
      ensures Done(s, St(), ages, off, data, n)
      ensures faults == old(faults) ==> Recency() == AgedRange(ages, off / BLOCK, BlockLo(off + |data|))
      ensures Excused(n < |data|, refuses, old(transfers), transfers, !Resident(s) || !Inside(s.disk, off, |data|))
    {
      hide View, Coherent, Consistent, AgesOf, Threaded, Doing, Done, Ranked, AgedRange, Progress, BlockLo, BlockHi,
           FrontSize, Resident, Inside;
      var lo, hi := BlockLo(off), BlockHi(off, |data|);
      BlockHiExact(off, |data|);
      FrontProgress(off, |data|);
      var ok;
      ok, n := WriteMiddle(off, data, FrontSize(off, |data|), lo, hi, s, ages);
      if !ok {
        return;
      }
      ghost var block := if lo <= hi then hi + 1 else lo;
      TailProgress(off, |data|, block, n);
      EndOfRange(off, |data|, block, n);
      if n < |data| {
        n := WriteTail(off, data, n, hi + 1, s, ages);
      } else {
        DoingAges(s, St(), ages, Recency(), off, data, n, block);
        DoneWithoutTail(s, St(), ages, Recency(), off, data, n, block);
      }
    }
  }

  lemma ZeroDevice(s: State, blocks: nat)
    requires s.dict == map[] && s.disk == Zeros(BLOCK * blocks) && blocks > 0
    ensures View(s, 0) == Zeros(BLOCK) && !DirtyAt(s, 0)
  {
    assert DiskBlock(s.disk, 0) == Zeros(BLOCK);
  }

  lemma ZeroByte(s: State)
    requires View(s, 0) == Zeros(BLOCK)
    ensures ByteOf(s, 511) == 0
  {
  }

  /** A partial write that is lost, as a run: on a fresh device of 1001 zero blocks one byte is
      written at offset 511, and then the blocks 1 to 1000 are read.  If the device refuses nothing, the
      write has been acknowledged and the byte is 0 again. */
  method LoseByte(refuses: nat -> bool, hash: nat -> nat, nodes: seq<int>) returns (ns: Namespace, n: nat)
    requires forall b: nat :: hash(b) < NCACHES
    requires |nodes| == NCACHES && Distinct(nodes) && forall i | 0 <= i < |nodes| :: 0 <= nodes[i]
    ensures fresh(ns) && ns.Indexed()
    ensures Quiet(refuses, 0, ns.transfers) ==> n == 1 && ns.faults == 0 && ByteOf(ns.St(), 511) == 0
  {
    hide Consistent, Coherent, Threaded, AgesOf, Aged, AgedRange, Settled, Stale, FrontKept, Untouched, WriteKept,
         Overlaid, Ranked, Kept, View, FrontStale, Grown, LastCached, Resident;
    ns := new Namespace(BLOCK, Zeros(BLOCK * (NCACHES + 1)), refuses, hash, nodes);
    ghost var s, ages := ns.St(), ns.Recency();
    ZeroDevice(s, NCACHES + 1);
    LostIsNotKept(s, Zeros(BLOCK));
    n := ns.Write(511, [1]);
    ghost var t, ages1 := ns.St(), ns.Recency();
    UntouchedLength(s, t, 511, 1);
    GrownResident(s, t);
    ThreadedLength(ns.cache, ns.lru.order, ns.lru.index);
    AgesRanked(t, ns.lru.order, ns.lru.index);
    ns.ReadBlocks(1, NCACHES + 1);
    AgesAreKeys(ns.St(), ns.lru.order, ns.lru.index);
    if Quiet(refuses, 0, ns.transfers) {
      ByteGone(s, t, ns.St(), ages, ages1);
    }
  }

  /** Why the byte is gone: stale after the write, and out of the cache after the reads. */
  lemma ByteGone(s: State, t: State, u: State, ages: Ages, ages1: Ages)
    requires FrontStale(s, t, 511, [1]) && Settled(t, u) && Consistent(u) && View(s, 0) == Zeros(BLOCK)
    requires Ranked(ages1) && ages1 == AgedRange(ages, 0, BlockLo(512))
    requires u.dict.Keys == AgedRange(ages1, 1, NCACHES + 1).Keys
    ensures ByteOf(u, 511) == 0
  {
    hide Consistent, Settled, Kept, View, Ranked, AgedRange, Stale;
    SettledAt(t, u, 0);
    StaleStays(t, u, 0, Zeros(BLOCK), FrontBlock(s, 511, [1]));
    YoungestNow(ages, 0);
    assert BlockLo(512) == 1;
    YoungestLeaves(ages1, 1, 0);
    StaleIsLost(u, 0, Zeros(BLOCK), FrontBlock(s, 511, [1]));
    ZeroByte(u);
  }
}
