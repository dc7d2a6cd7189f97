/**
 * The cached device against a plain one: whatever the cache does in between, a run of reads and
 * of writes that the cache keeps returns what an uncached disk would return, and which writes
 * those are can be told beforehand.
 */
module NvmeTransparency {
  import opened NvmeBytes
  import opened NvmeCache
  import opened NvmeIndex
  import opened NvmeLru
  import opened NvmeView

  /** A call and what came of it: the bytes that were read, or how many were written. */
  datatype Event = ReadEvent(off: nat, buf: seq<Byte>) | WriteEvent(off: nat, data: seq<Byte>, n: nat)

  /** The contracts of Namespace.Read and Namespace.Write about one call in a state in which every
      clean block equals the disk; `ages` are those of the cached blocks before it. */
  ghost predicate CachedStep(s: State, ages: Ages, e: Event, s': State) {
    && |s'.disk| == |s.disk|
    && match e
       case ReadEvent(off, buf) =>
         && (buf != [] ==> off + |buf| <= Whole(|s.disk|))
         && (Coherent(s) ==> Coherent(s') && Matches(s, off, buf) && SameView(s, s'))
       case WriteEvent(off, data, n) =>
         && n <= |data| && (n > 0 ==> off + n <= Whole(|s.disk|))
         && (Coherent(s) ==> (Coherent(s') && Overlaid(s, s', off, data[..n]) <==> WriteKept(s, ages, off, data, n)))
  }

  /** The write condition, for the calls that write. */
  ghost predicate EventKept(s: State, ages: Ages, e: Event) {
    e.WriteEvent? ==> WriteKept(s, ages, e.off, e.data, e.n)
  }

  /** Bytes in whole blocks. */
  function Whole(n: nat): (m: nat)
    ensures m <= n
  {
    n / BLOCK * BLOCK
  }

  /** The same calls on a disk without a cache. */
  function PlainStep(plain: seq<Byte>, e: Event): (r: seq<Byte>)
    ensures |r| == |plain|
  {
    if e.WriteEvent? && e.n <= |e.data| && e.off + e.n <= |plain|
    then plain[..e.off] + e.data[..e.n] + plain[e.off + e.n..]
    else plain
  }

  function PlainRun(plain: seq<Byte>, es: seq<Event>): (r: seq<Byte>)
    ensures |r| == |plain|
  {
    if es == [] then plain else PlainStep(PlainRun(plain, es[..|es| - 1]), es[|es| - 1])
  }

  /** The plain disk holds exactly the bytes that the cached device shows. */
  ghost predicate Agrees(s: State, plain: seq<Byte>) {
    |plain| == |s.disk| && forall p: nat | p < Whole(|plain|) :: plain[p] == ByteOf(s, p)
  }

  ghost predicate Trace(ss: seq<State>, ages: seq<Ages>, es: seq<Event>) {
    |ss| == |es| + 1 && |ages| == |es| && forall i | 0 <= i < |es| :: CachedStep(ss[i], ages[i], es[i], ss[i + 1])
  }

  lemma StepAgrees(s: State, ages: Ages, e: Event, s': State, plain: seq<Byte>)
    requires CachedStep(s, ages, e, s') && Coherent(s) && Agrees(s, plain)
    ensures EventKept(s, ages, e) ==> Coherent(s') && Agrees(s', PlainStep(plain, e))
    ensures e.ReadEvent? && e.buf != [] ==> e.off + |e.buf| <= |plain| && e.buf == plain[e.off..e.off + |e.buf|]
  {
    hide View, Coherent, WriteKept;
    var r := PlainStep(plain, e);
    if EventKept(s, ages, e) {
      forall p: nat | p < Whole(|r|)
        ensures r[p] == ByteOf(s', p)
      {
        assert plain[p] == ByteOf(s, p);
        assert e.ReadEvent? ==> View(s', p / BLOCK) == View(s, p / BLOCK);
      }
    }
    if e.ReadEvent? && e.buf != [] {
      forall j | 0 <= j < |e.buf|
        ensures e.buf[j] == plain[e.off + j]
      {
        assert e.buf[j] == ByteOf(s, e.off + j);
      }
    }
  }

  /** Every run: as long as every write so far met the write condition, the cached device agrees with
      the plain disk, and every read returns the plain disk's bytes of that moment. */
  lemma {:induction false} CacheIsTransparent(ss: seq<State>, ages: seq<Ages>, es: seq<Event>, plain: seq<Byte>,
                                              i: nat)
    requires Trace(ss, ages, es) && Coherent(ss[0]) && Agrees(ss[0], plain) && i <= |es|
    requires forall j | 0 <= j < i :: EventKept(ss[j], ages[j], es[j])
    ensures Coherent(ss[i]) && Agrees(ss[i], PlainRun(plain, es[..i]))
    ensures i < |es| && es[i].ReadEvent? && es[i].buf != [] ==>
              var now := PlainRun(plain, es[..i]);
              es[i].off + |es[i].buf| <= |now| && es[i].buf == now[es[i].off..es[i].off + |es[i].buf|]
  {
    hide Coherent, Agrees, CachedStep, EventKept, PlainStep;
    if i > 0 {
      CacheIsTransparent(ss, ages, es, plain, i - 1);
      assert es[..i][..i - 1] == es[..i - 1];
      assert CachedStep(ss[i - 1], ages[i - 1], es[i - 1], ss[i - 1 + 1]);
      StepAgrees(ss[i - 1], ages[i - 1], es[i - 1], ss[i], PlainRun(plain, es[..i - 1]));
    }
    if i < |es| {
      assert CachedStep(ss[i], ages[i], es[i], ss[i + 1]);
      StepAgrees(ss[i], ages[i], es[i], ss[i + 1], PlainRun(plain, es[..i]));
    }
  }

  /** The first write that does not meet the condition ends the agreement: after a write that follows
      kept ones, the device agrees with the plain disk, every clean block equal to the disk, exactly
      if the condition holds of it too. */
  lemma TransparentExactly(ss: seq<State>, ages: seq<Ages>, es: seq<Event>, plain: seq<Byte>, i: nat)
    requires Trace(ss, ages, es) && Coherent(ss[0]) && Agrees(ss[0], plain) && i < |es| && es[i].WriteEvent?
    requires forall j | 0 <= j < i :: EventKept(ss[j], ages[j], es[j])
    requires Resident(ss[i]) && Resident(ss[i + 1]) && es[i].off + es[i].n <= |plain|
    ensures Coherent(ss[i + 1]) && Agrees(ss[i + 1], PlainRun(plain, es[..i + 1])) <==>
              EventKept(ss[i], ages[i], es[i])
  {
    hide Coherent, Agrees, Resident, WriteKept, Overlaid;
    CacheIsTransparent(ss, ages, es, plain, i);
    assert es[..i + 1][..i] == es[..i];
    var e, now := es[i], PlainRun(plain, es[..i]);
    assert CachedStep(ss[i], ages[i], e, ss[i + 1]);
    AgreesLength(ss[i], now);
    WriteAgreesExactly(ss[i], ss[i + 1], now, e);
  }

  lemma AgreesLength(s: State, plain: seq<Byte>)
    requires Agrees(s, plain)
    ensures |plain| == |s.disk|
  {
  }

  /** After a write inside the device, agreeing with the plain disk is the same as showing exactly
      the written bytes. */
  lemma WriteAgreesExactly(s: State, s': State, plain: seq<Byte>, e: Event)
    requires Agrees(s, plain) && Resident(s) && Resident(s') && |s'.disk| == |s.disk|
    requires e.WriteEvent? && e.n <= |e.data| && e.off + e.n <= |plain|
    requires e.n > 0 ==> e.off + e.n <= Whole(|plain|)
    ensures Agrees(s', PlainStep(plain, e)) <==> Overlaid(s, s', e.off, e.data[..e.n])
  {
    hide View;
    var r, off, data := PlainStep(plain, e), e.off, e.data[..e.n];
    if Overlaid(s, s', off, data) {
      forall p: nat | p < Whole(|r|)
        ensures r[p] == ByteOf(s', p)
      {
        assert plain[p] == ByteOf(s, p);
      }
    } else if Agrees(s', r) {
      forall p: nat
        ensures ByteOf(s', p) == if off <= p < off + |data| then data[p - off] else ByteOf(s, p)
      {
        if p < Whole(|plain|) {
          assert r[p] == ByteOf(s', p);
          assert plain[p] == ByteOf(s, p);
        } else {
          BeyondEmpty(s, p);
          BeyondEmpty(s', p);
        }
      }
      assert false;
    }
  }

  /** Nothing is shown beyond the device while nothing is cached there. */
  lemma BeyondEmpty(s: State, p: nat)
    requires Resident(s) && Whole(|s.disk|) <= p
    ensures ByteOf(s, p) == 0
  {
  }

  // ------------------------------------------------- the device and its plain twin

  /** A namespace next to the plain disk that it must be indistinguishable from. */
  class CachedDisk {
    const ns: Namespace
    ghost var plain: seq<Byte>

    ghost predicate Sound()
      reads this, ns, ns.lru, ns.hashmap
    {
      ns.Indexed() && Resident(ns.St()) && |plain| == |ns.disk| && |plain| + NCACHES + 1 < INV
    }

    ghost predicate Valid()
      reads this, ns, ns.lru, ns.hashmap
    {
      Sound() && Coherent(ns.St()) && Agrees(ns.St(), plain)
    }

    constructor (device: Namespace)
      requires device.Indexed() && Coherent(device.St()) && Resident(device.St())
      requires |device.disk| + NCACHES + 1 < INV
      requires forall b: nat | OnDisk(device.disk, b) :: View(device.St(), b) == DiskBlock(device.disk, b)
      ensures Valid() && ns == device && plain == device.disk
    {
      ns, plain := device, device.disk;
      new;
      forall p: nat | p < Whole(|plain|)
        ensures plain[p] == ByteOf(ns.St(), p)
      {
        PlainByte(ns.disk, p);
        assert View(device.St(), p / BLOCK) == DiskBlock(device.disk, p / BLOCK);
      }
    }

    /** nvme_read: a prefix of what the plain disk holds there, shorter only if the device has refused a
        transfer or ends before the next block.  A range that ends below byte 512 runs into a failing
        transfer. */
    method Read(off: nat, count: nat) returns (buf: seq<Byte>)
      requires Valid() && off + count < INV
      modifies ns`cache, ns`disk, ns`faults, ns`transfers, ns.lru, ns.hashmap
      ensures Valid()
      ensures off + count < BLOCK ==> ns.faults > old(ns.faults)
      ensures off + count >= BLOCK ==>
                && |buf| <= count && (|buf| < count ==> ns.faults > old(ns.faults))
                && (buf != [] ==> off + |buf| <= |plain| && buf == plain[off..off + |buf|])
                && Excused(|buf| < count, ns.refuses, old(ns.transfers), ns.transfers,
                           !OnDisk(plain, (off + |buf|) / BLOCK))
    {
      hide Agrees, Namespace.Indexed, SameView, Matches, Coherent, Resident, Grown, Settled, Shown, View;
      ghost var s := ns.St();
      buf := ns.Read(off, count);
      SettledLength(s, ns.St());
      GrownResident(s, ns.St());
      if off + count >= BLOCK {
        if buf != [] {
          ShownResident(s, off, buf);
        }
        StepAgrees(s, map[], ReadEvent(off, buf), ns.St(), plain);
      } else {
        MatchesNothing(s);
        StepAgrees(s, map[], ReadEvent(0, []), ns.St(), plain);
      }
    }

    /** nvme_write inside the device: the plain disk gets the bytes that were written, all of them
        unless the device has refused a transfer or its last block is cut off; the cached device
        follows exactly if the cache keeps them. */
    method Write(off: nat, data: seq<Byte>) returns (n: nat)
      requires Valid() && BLOCK <= off + |data| <= |plain|
      modifies this`plain, ns`cache, ns`disk, ns`faults, ns`transfers, ns.lru, ns.hashmap
      ensures Sound() && n <= |data| && (n < |data| ==> ns.faults > old(ns.faults))
      ensures plain == PlainStep(old(plain), WriteEvent(off, data, n))
      ensures Excused(n < |data|, ns.refuses, old(ns.transfers), ns.transfers, !Inside(plain, off, |data|))
      ensures Valid() <==> WriteKept(old(ns.St()), old(ns.Recency()), off, data, n)
    {
      hide Agrees, Namespace.Indexed, Overlaid, Coherent, Resident, Grown, WriteKept, View, Untouched, LastCached,
           FrontKept, FrontStale, AgedRange, Inside;
      ghost var s := ns.St();
      SameInside(s.disk, plain, off, |data|);
      n := ns.Write(off, data);
      UntouchedLength(s, ns.St(), off, |data|);
      GrownResident(s, ns.St());
      if n > 0 {
        CachedOnDisk(ns.St(), off, n);
      }
      WriteAgreesExactly(s, ns.St(), plain, WriteEvent(off, data, n));
      plain := PlainStep(plain, WriteEvent(off, data, n));
      SameInside(s.disk, plain, off, |data|);
    }

    /** Any sequence of reads and of writes of whole blocks: the plain disk ends as a disk without a
        cache would, and the device still agrees with it; `es` says what every call did.  If the device
        refuses nothing, every call has done all that it was asked for. */
    method RunAll(calls: seq<Call>) returns (es: seq<Event>)
      requires Valid() && forall i | 0 <= i < |calls| :: calls[i].Fits(|plain|)
      modifies this`plain, ns`cache, ns`disk, ns`faults, ns`transfers, ns.lru, ns.hashmap
      ensures Valid() && |es| == |calls| && plain == PlainRun(old(plain), es)
      ensures forall i | 0 <= i < |calls| :: Answers(calls[i], es[i], PlainRun(old(plain), es[..i]))
      ensures Quiet(ns.refuses, old(ns.transfers), ns.transfers) ==>
                forall i | 0 <= i < |calls| :: Fulfilled(calls[i], es[i], |plain|)
    {
      hide CachedDisk.Valid, Answers, PlainStep, Fulfilled;
      es := [];
      ghost var before := plain;
      for i := 0 to |calls|
        invariant Valid() && |es| == i && |plain| == |before| && plain == PlainRun(before, es)
        invariant forall j | 0 <= j < i :: Answers(calls[j], es[j], PlainRun(before, es[..j]))
        invariant ns.transfers >= old(ns.transfers)
        invariant Quiet(ns.refuses, old(ns.transfers), ns.transfers) ==>
                    forall j | 0 <= j < i :: Fulfilled(calls[j], es[j], |plain|)
      {
        var e := RunOne(calls[i]);
        assert (es + [e])[..|es + [e]| - 1] == es;
        assert forall j | 0 <= j < i :: (es + [e])[..j] == es[..j];
        es := es + [e];
      }
    }

    /** One of these calls. */
    method RunOne(call: Call) returns (e: Event)
      requires Valid() && call.Fits(|plain|)
      modifies this`plain, ns`cache, ns`disk, ns`faults, ns`transfers, ns.lru, ns.hashmap
      ensures Valid() && plain == PlainStep(old(plain), e) && Answers(call, e, old(plain))
      ensures Excused(!Fulfilled(call, e, |plain|), ns.refuses, old(ns.transfers), ns.transfers, false)
    {
      hide Agrees, Namespace.Indexed, Coherent, Resident, WriteKept;
      match call {
        case ReadCall(off, count) =>
          var buf := Read(off, count);
          e := ReadEvent(off, buf);
        case WriteCall(off, data) =>
          ghost var s, ages := ns.St(), ns.Recency();
          AlignedInside(plain, off, |data|);
          var n := Write(off, data);
          AlignedKept(s, ages, off, data, n);
          SameInside(old(plain), plain, off, |data|);
          e := WriteEvent(off, data, n);
      }
    }
  }

  /** A read, or a write of whole blocks. */
  datatype Call = ReadCall(off: nat, count: nat) | WriteCall(off: nat, data: seq<Byte>) {
    /** Ranges that reach the end of block 0; writes lie inside a disk of that size. */
    predicate Fits(size: nat) {
      match this
      case ReadCall(off, count) => BLOCK <= off + count < INV
      case WriteCall(off, data) =>
        off % BLOCK == 0 && |data| % BLOCK == 0 && BLOCK <= off + |data| <= size
    }
  }

  /** What a call returned, against the plain disk of that moment. */
  predicate Answers(call: Call, e: Event, plain: seq<Byte>) {
    match call
    case ReadCall(off, count) =>
      && e.ReadEvent? && e.off == off && |e.buf| <= count
      && (e.buf != [] ==> off + |e.buf| <= |plain| && e.buf == plain[off..off + |e.buf|])
    case WriteCall(off, data) => e.WriteEvent? && e.off == off && e.data == data && e.n <= |data|
  }

  /** The call has done all that it was asked for: a read stops only where the device does. */
  predicate Fulfilled(call: Call, e: Event, size: nat) {
    match call
    case ReadCall(off, count) =>
      e.ReadEvent? && (|e.buf| == count || size < BLOCK * ((off + |e.buf|) / BLOCK) + BLOCK)
    case WriteCall(off, data) => e.WriteEvent? && e.n == |data|
  }

  lemma AlignedInside(disk: seq<Byte>, off: nat, count: nat)
    requires off % BLOCK == 0 && count % BLOCK == 0 && off + count <= |disk|
    ensures Inside(disk, off, count)
  {
    if count > 0 {
      LastBlock((off + count) / BLOCK);
    }
  }

  lemma LastBlock(k: nat)
    requires k > 0
    ensures (BLOCK * k - 1) / BLOCK == k - 1
  {
  }

  lemma SameInside(disk: seq<Byte>, disk': seq<Byte>, off: nat, count: nat)
    requires |disk'| == |disk|
    ensures Inside(disk', off, count) <==> Inside(disk, off, count)
  {
  }

  lemma MatchesNothing(s: State)
    ensures Matches(s, 0, [])
  {
  }

  lemma CachedOnDisk(s: State, off: nat, n: nat)
    requires Resident(s) && n > 0 && LastCached(s, off, n)
    ensures off + n <= Whole(|s.disk|)
  {
  }

  lemma PlainByte(disk: seq<Byte>, p: nat)
    requires p < Whole(|disk|)
    ensures OnDisk(disk, p / BLOCK) && DiskBlock(disk, p / BLOCK)[p % BLOCK] == disk[p]
  {
  }
}
