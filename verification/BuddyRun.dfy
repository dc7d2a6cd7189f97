/**
 * Whole runs of the buddy allocator: any sequence of allocations and of releases of
 * blocks that are out.
 */
module BuddyRun {
  import opened Arith
  import opened Bits
  import opened BuddyModel

  datatype Block = Block(order: Order, page: nat)

  /** The free lists, and the blocks that callers hold. */
  datatype State = State(lists: Lists, live: set<Block>)

  datatype Op = AllocOp(order: nat) | FreeOp(block: Block)

  predicate Inside(p: nat, b: Block) {
    Head(p, b.order) == b.page
  }

  ghost predicate Legal(s: State, op: Op) {
    |s.lists| == HIGH + 1 && (op.FreeOp? ==> op.block in s.live && Aligned(op.block.page, op.block.order))
  }

  /** What an allocation of the given order hands out. */
  function Granted(l: Lists, order: nat): (r: seq<Block>)
    requires |l| == HIGH + 1
  {
    if order > HIGH then []
    else
      var q := FirstNonEmpty(l, order);
      if q > HIGH || l[q][0] < 0 then [] else [Block(order, l[q][0])]
  }

  ghost function Step(s: State, op: Op): (s': State)
    requires Legal(s, op)
  {
    match op
    case AllocOp(order) =>
      var g := Granted(s.lists, order);
      if g == [] then s
      else State(Carve(s.lists, order, FirstNonEmpty(s.lists, order)), s.live + {g[0]})
    case FreeOp(b) =>
      State(Merge(s.lists, b.order, b.page), s.live - {b})
  }

  /** A run: every release names a block that is out at that moment. */
  ghost predicate LegalRun(s: State, ops: seq<Op>)
    decreases |ops|
  {
    ops == [] || (Legal(s, ops[0]) && LegalRun(Step(s, ops[0]), ops[1..]))
  }

  ghost function Run(s: State, ops: seq<Op>): (s': State)
    requires LegalRun(s, ops)
    decreases |ops|
  {
    if ops == [] then s else Run(Step(s, ops[0]), ops[1..])
  }

  /** The pages that the allocator was given are, at every moment, either free or inside
      exactly one block that is out. */
  ghost predicate Sound(s: State, n: nat, given: Lists) {
    && |given| == HIGH + 1
    && Good(s.lists, n)
    && (forall b | b in s.live :: Aligned(b.page, b.order) && b.page + Pow2(b.order) <= n)
    && (forall b, p: nat | b in s.live && Inside(p, b) :: !Free(s.lists, p) && Free(given, p))
    && (forall b, b', p: nat | b in s.live && b' in s.live && Inside(p, b) && Inside(p, b') :: b == b')
    && (forall p: nat | Free(s.lists, p) :: Free(given, p))
    && (forall p: nat | Free(given, p) && !Free(s.lists, p) :: exists b :: b in s.live && Inside(p, b))
  }

  lemma AllocKeepsSound(s: State, n: nat, given: Lists, order: nat)
    requires Sound(s, n, given)
    ensures Sound(Step(s, AllocOp(order)), n, given)
    ensures NoPair(s.lists) ==> NoPair(Step(s, AllocOp(order)).lists)
  {
    hide Shr, Shl, Pow2;
    var g := Granted(s.lists, order);
    if g != [] {
      var b := g[0];
      var q := FirstNonEmpty(s.lists, order);
      var s' := Step(s, AllocOp(order));
      CarveTakesBlock(s.lists, n, order, q);
      assert forall p: nat | Inside(p, b) :: Free(s.lists, p) && !Free(s'.lists, p);
      forall p: nat | Free(given, p) && !Free(s'.lists, p) ensures exists c :: c in s'.live && Inside(p, c) {
        if Inside(p, b) {
          assert b in s'.live;
        } else {
          var c :| c in s.live && Inside(p, c);
          assert c in s'.live;
        }
      }
    }
  }

  lemma FreeKeepsSound(s: State, n: nat, given: Lists, b: Block)
    requires Sound(s, n, given) && b in s.live
    ensures Sound(Step(s, FreeOp(b)), n, given)
    ensures NoPair(s.lists) ==> NoPair(Step(s, FreeOp(b)).lists)
  {
    hide Shr, Shl, Pow2;
    var s' := Step(s, FreeOp(b));
    assert forall p: nat :: Inside(p, b) <==> Head(p, b.order) == b.page;
    MergeReturnsBlock(s.lists, n, b.order, b.page);
    forall p: nat | Free(given, p) && !Free(s'.lists, p) ensures exists c :: c in s'.live && Inside(p, c) {
      var c :| c in s.live && Inside(p, c);
      assert c in s'.live;
    }
  }

  /** Every legal run keeps the partition and the alignment, and lists without pairs stay so. */
  lemma {:induction false} RunKeepsSound(s: State, n: nat, given: Lists, ops: seq<Op>)
    requires Sound(s, n, given) && LegalRun(s, ops)
    ensures Sound(Run(s, ops), n, given)
    ensures NoPair(s.lists) ==> NoPair(Run(s, ops).lists)
    decreases |ops|
  {
    if ops != [] {
      match ops[0] {
        case AllocOp(order) => AllocKeepsSound(s, n, given, order);
        case FreeOp(b) => FreeKeepsSound(s, n, given, b);
      }
      hide Sound, Step, NoPair;
      RunKeepsSound(Step(s, ops[0]), n, given, ops[1..]);
    }
  }

  /** Whatever happened before, the lists are the maximal blocks of the free pages, if they were
      at the start. */
  lemma RunListsAreMaximal(s: State, n: nat, ops: seq<Op>, o: Order, a: nat)
    requires Good(s.lists, n) && NoPair(s.lists) && s.live == {} && LegalRun(s, ops)
    ensures var l := Run(s, ops).lists;
            |l| == HIGH + 1 && (a in l[o] <==> Maximal(l, o, a))
  {
    RunKeepsSound(s, n, s.lists, ops);
    ListedIsMaximal(Run(s, ops).lists, n, o, a);
  }

  /** Releasing everything restores the initial lists, as sets. */
  lemma ReleasingAllRestores(s: State, n: nat, ops: seq<Op>)
    requires Good(s.lists, n) && NoPair(s.lists) && s.live == {}
    requires LegalRun(s, ops) && Run(s, ops).live == {}
    ensures |Run(s, ops).lists| == HIGH + 1
    ensures forall o: Order, a: nat :: a in Run(s, ops).lists[o] <==> a in s.lists[o]
  {
    RunKeepsSound(s, n, s.lists, ops);
    var e := Run(s, ops);
    forall p: nat ensures Free(e.lists, p) <==> Free(s.lists, p) {
    }
    ListsDependOnFreePages(e.lists, s.lists, n, n);
  }

  /** In every reachable state a block that is handed out is aligned, was free, and meets no block
      that is out; and if the lists had no pairs at the start, an allocation fails exactly when no
      aligned run of that many pages is free. */
  lemma AllocationIsCompleteAndSound(s: State, n: nat, ops: seq<Op>, o: Order)
    requires Good(s.lists, n) && s.live == {} && LegalRun(s, ops)
    ensures var e := Run(s, ops);
            && |e.lists| == HIGH + 1
            && (NoPair(s.lists) ==>
                  (Granted(e.lists, o) == [] <==>
                     !exists a: nat :: Aligned(a, o) && WhollyFree(e.lists, o, a)))
            && (Granted(e.lists, o) != [] ==>
                  var b := Granted(e.lists, o)[0];
                  && b.order == o && Aligned(b.page, o) && b.page + Pow2(o) <= n
                  && WhollyFree(e.lists, o, b.page)
                  && forall c, p: nat | c in e.live && Inside(p, c) :: !Inside(p, b))
  {
    hide Shr, Shl, Pow2;
    RunKeepsSound(s, n, s.lists, ops);
    var e := Run(s, ops);
    if NoPair(s.lists) {
      SearchIsComplete(e.lists, n, o);
    }
    var q := FirstNonEmpty(e.lists, o);
    if q <= HIGH {
      assert e.lists[q][0] in e.lists[q];
      CarveTakesBlock(e.lists, n, o, q);
    } else {
      assert forall j: Order | o <= j :: e.lists[j] == [];
    }
  }
}
