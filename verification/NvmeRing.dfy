/**
 * The submission and completion rings of an NVMe I/O queue pair (kernel/src/driver/nvme.c)
 * as a protocol between two parties that run at their own pace: the host (the driver) and
 * the controller, as described in sections 4.1 and 4.6 of the NVM Express 1.4 base
 * specification.
 */
module NvmeRing {
  import opened Options

  /** nvme_scmd_t: its command id, and the rest of it. */
  datatype Command = Command(cid: nat, body: int)

  /** A completion queue entry: bit 0 of its status is the phase tag. */
  datatype Cqe = Cqe(phase: bool, sqhd: nat, cid: nat)

  /** The rings, the two parties' private fields, and the full history. */
  datatype State = State(
    entries: nat,
    // written by the host
    sq: seq<Command>, tail: nat, sqHead: nat, freeEntries: int, cqHead: nat, phase: bool,
    // the doorbell registers, written by the host and read by the controller
    sqt: nat, cqh: nat,
    // written by the controller
    cq: seq<Cqe>, fetch: nat, cqTail: nat, tag: bool,
    // history
    submitted: seq<Command>, fetched: seq<Command>, posted: seq<Cqe>, consumed: seq<Cqe>)

  // ------------------------------------------------------- positions around the ring

  /** The slot that the i-th event uses, and the lap it belongs to. */
  function Slot(i: nat, n: nat): (r: nat)
    requires n > 0
    ensures r < n
  {
    if i < n then i else Slot(i - n, n)
  }

  function Lap(i: nat, n: nat): (r: nat)
    requires n > 0
  {
    if i < n then 0 else Lap(i - n, n) + 1
  }

  /** One step around the ring. */
  lemma {:induction false} Advance(i: nat, n: nat)
    requires n > 0
    ensures Slot(i + 1, n) == Next(Slot(i, n), n)
    ensures Lap(i + 1, n) == Lap(i, n) + if Slot(i, n) + 1 == n then 1 else 0
  {
    if i >= n {
      Advance(i - n, n);
    }
  }

  lemma FirstLap(i: nat, n: nat)
    requires i < n
    ensures Slot(i, n) == i
  {
  }

  function Next(p: nat, n: nat): (r: nat)
    requires p < n
    ensures r < n
  {
    if p + 1 == n then 0 else p + 1
  }

  /** The driver writes `(tail + 1) % entries`. */
  lemma NextIsModulo(p: nat, n: nat)
    requires p < n
    ensures (p + 1) % n == Next(p, n)
  {
  }

  /** Positions less than one lap apart use different slots. */
  lemma {:induction false} SlotsDiffer(i: nat, j: nat, n: nat)
    requires n > 0 && i < j < i + n
    ensures Slot(i, n) != Slot(j, n)
  {
    if i >= n {
      SlotsDiffer(i - n, j - n, n);
    }
  }

  /** The phase tag of the completion at position i. */
  function PhaseOf(i: nat, n: nat): (p: bool)
    requires n > 0
  {
    Lap(i, n) % 2 == 0
  }

  // ------------------------------------------------------------------ the invariant

  /** Each party's position is its event count, modulo the ring size, and the doorbells are rung. */
  ghost predicate Positions(s: State) {
    var n := s.entries;
    && n > 0 && |s.sq| == n && |s.cq| == n
    && s.tail == Slot(|s.submitted|, n) && s.fetch == Slot(|s.fetched|, n)
    && s.cqTail == Slot(|s.posted|, n) && s.cqHead == Slot(|s.consumed|, n)
    && s.phase == PhaseOf(|s.consumed|, n) && s.tag == PhaseOf(|s.posted|, n)
    && s.sqt == s.tail && s.cqh == s.cqHead
  }

  /** Free entries and outstanding commands always make up the ring size less one. */
  ghost predicate Counts(s: State) {
    && |s.consumed| <= |s.posted| <= |s.fetched| <= |s.submitted|
    && s.freeEntries >= 0 && s.freeEntries + (|s.submitted| - |s.consumed|) == s.entries - 1
  }

  /** Every command that the controller has not fetched is still in its slot. */
  ghost predicate SqIntact(s: State)
    requires Positions(s)
  {
    forall i: nat | |s.fetched| <= i < |s.submitted| :: s.sq[Slot(i, s.entries)] == s.submitted[i]
  }

  /** The last lap of completions is still in place with the right tags; slots that were
      never written carry tag 0. */
  ghost predicate CqIntact(s: State)
    requires Positions(s)
  {
    && (forall i: nat | i < |s.posted| :: s.posted[i].phase == PhaseOf(i, s.entries))
    && (forall i: nat | i < |s.posted| < i + s.entries + 1 :: s.cq[Slot(i, s.entries)] == s.posted[i])
    && (forall i: nat | |s.posted| <= i < s.entries :: !s.cq[i].phase)
  }

  /** Nothing is lost, duplicated or reordered. */
  ghost predicate InOrder(s: State) {
    && |s.fetched| <= |s.submitted| && s.fetched == s.submitted[..|s.fetched|]
    && |s.consumed| <= |s.posted| && s.consumed == s.posted[..|s.consumed|]
  }

  ghost predicate Inv(s: State) {
    Positions(s) && Counts(s) && SqIntact(s) && CqIntact(s) && InOrder(s)
  }

  // ---------------------------------------------------------------------- the steps

  /** nvme_init_queue: zeroed rings, expected phase 1. */
  function Start(entries: nat): (s: State)
    requires entries > 0
  {
    State(entries, seq(entries, _ => Command(0, 0)), 0, 0, entries - 1, 0, true, 0, 0,
          seq(entries, _ => Cqe(false, 0, 0)), 0, 0, true, [], [], [], [])
  }

  predicate Sized(s: State) {
    && s.entries > 0 && |s.sq| == s.entries && |s.cq| == s.entries
    && s.tail < s.entries && s.fetch < s.entries && s.cqTail < s.entries && s.cqHead < s.entries
    && s.sqt < s.entries && s.cqh < s.entries
  }

  /** nvme_queue_submit_single_cmd. */
  function Submit(s: State, cmd: Command): (s': State)
    requires Sized(s)
  {
    if s.freeEntries == 0 then s
    else s.(sq := s.sq[s.tail := cmd], tail := (s.tail + 1) % s.entries, sqt := (s.tail + 1) % s.entries,
            freeEntries := s.freeEntries - 1, submitted := s.submitted + [cmd])
  }

  /** The controller takes the next command, if the doorbell says there is one. */
  function Fetch(s: State): (s': State)
    requires Sized(s)
  {
    if s.fetch == s.sqt then s
    else s.(fetch := Next(s.fetch, s.entries), fetched := s.fetched + [s.sq[s.fetch]])
  }

  /** The controller posts the completion of some fetched command, if the doorbell says that the
      completion queue has room. */
  function Post(s: State, cid: nat): (s': State)
    requires Sized(s)
  {
    if |s.posted| >= |s.fetched| || Next(s.cqTail, s.entries) == s.cqh then s
    else
      var e := Cqe(s.tag, s.fetch, cid);
      s.(cq := s.cq[s.cqTail := e], cqTail := Next(s.cqTail, s.entries),
         tag := if s.cqTail + 1 == s.entries then !s.tag else s.tag, posted := s.posted + [e])
  }

  /** One look of nvme_queue_poll_single_cqe at the head slot. */
  function Poll(s: State): (s': State)
    requires Sized(s)
  {
    var e := s.cq[s.cqHead];
    if e.phase != s.phase then s
    else
      var wraps := s.cqHead + 1 == s.entries;
      s.(sqHead := e.sqhd, cqHead := if wraps then 0 else s.cqHead + 1, cqh := if wraps then 0 else s.cqHead + 1,
         phase := if wraps then !s.phase else s.phase,
         freeEntries := s.freeEntries + 1, consumed := s.consumed + [e])
  }

  datatype Action = SubmitAction(cmd: Command) | FetchAction | PostAction(cid: nat) | PollAction

  function Step(s: State, a: Action): (s': State)
    requires Sized(s)
  {
    match a
    case SubmitAction(cmd) => Submit(s, cmd)
    case FetchAction => Fetch(s)
    case PostAction(cid) => Post(s, cid)
    case PollAction => Poll(s)
  }

  lemma InvSized(s: State)
    requires Inv(s)
    ensures Sized(s)
  {
  }

  lemma InvCounts(s: State)
    requires Inv(s)
    ensures Counts(s) && Sized(s)
  {
  }

  lemma StartInv(entries: nat)
    requires entries > 0
    ensures Inv(Start(entries))
  {
  }

  lemma SubmitInv(s: State, cmd: Command)
    requires Inv(s)
    ensures Sized(s) && Inv(Submit(s, cmd))
  {
    hide Slot, Lap;
    InvSized(s);
    if s.freeEntries > 0 {
      var s', n := Submit(s, cmd), s.entries;
      Advance(|s.submitted|, n);
      NextIsModulo(s.tail, n);
      forall i: nat | |s'.fetched| <= i < |s'.submitted| ensures s'.sq[Slot(i, n)] == s'.submitted[i] {
        if i < |s.submitted| {
          SlotsDiffer(i, |s.submitted|, n);
        }
      }
    }
  }

  /** The doorbell comparison tells the controller exactly whether a command is waiting. */
  lemma DoorbellIsExact(s: State)
    requires Inv(s)
    ensures s.fetch == s.sqt <==> |s.fetched| == |s.submitted|
    ensures s.fetch != s.sqt ==> s.sq[s.fetch] == s.submitted[|s.fetched|]
  {
    if |s.fetched| < |s.submitted| {
      SlotsDiffer(|s.fetched|, |s.submitted|, s.entries);
    }
  }

  lemma FetchInv(s: State)
    requires Inv(s)
    ensures Sized(s) && Inv(Fetch(s))
  {
    hide Slot, Lap;
    InvSized(s);
    DoorbellIsExact(s);
    if s.fetch != s.sqt {
      Advance(|s.fetched|, s.entries);
      assert s.submitted[..|s.fetched| + 1] == s.submitted[..|s.fetched|] + [s.submitted[|s.fetched|]];
    }
  }

  /** While a command is outstanding, the completion queue has room for its completion. */
  lemma RoomToPost(s: State)
    requires Inv(s) && |s.posted| < |s.fetched|
    ensures Sized(s) && Next(s.cqTail, s.entries) != s.cqh
  {
    hide Slot, Lap;
    InvSized(s);
    Advance(|s.posted|, s.entries);
    SlotsDiffer(|s.consumed|, |s.posted| + 1, s.entries);
  }

  lemma PostInv(s: State, cid: nat)
    requires Inv(s)
    ensures Sized(s) && Inv(Post(s, cid))
  {
    InvSized(s);
    if |s.posted| < |s.fetched| {
      RoomToPost(s);
      PostPositions(s, cid);
      PostCq(s, cid);
      assert Post(s, cid).posted[..|s.consumed|] == s.posted[..|s.consumed|];
    }
  }

  lemma PostPositions(s: State, cid: nat)
    requires Sized(s) && Positions(s) && |s.posted| < |s.fetched| && Next(s.cqTail, s.entries) != s.cqh
    ensures Positions(Post(s, cid)) && Post(s, cid).posted == s.posted + [Cqe(s.tag, s.fetch, cid)]
  {
    hide Slot, Lap;
    Advance(|s.posted|, s.entries);
  }

  lemma PostCq(s: State, cid: nat)
    requires Sized(s) && Positions(s) && CqIntact(s) && |s.posted| < |s.fetched| && Positions(Post(s, cid))
    requires Next(s.cqTail, s.entries) != s.cqh
    ensures CqIntact(Post(s, cid))
  {
    hide Slot, Lap;
    var s', n, p := Post(s, cid), s.entries, |s.posted|;
    if p < n {
      FirstLap(p, n);
    }
    forall i: nat | i < |s'.posted| ensures s'.posted[i].phase == PhaseOf(i, n) {
      assert i < p ==> s'.posted[i] == s.posted[i];
    }
    forall i: nat | i < |s'.posted| < i + n + 1 ensures s'.cq[Slot(i, n)] == s'.posted[i] {
      if i < p {
        SlotsDiffer(i, p, n);
        assert s.cq[Slot(i, n)] == s.posted[i];
      }
    }
  }

  /** The phase test accepts exactly when a completion is waiting, and it is the next one. */
  lemma PhaseTestIsExact(s: State)
    requires Inv(s)
    ensures |s.consumed| <= |s.posted|
    ensures s.cq[s.cqHead].phase == s.phase <==> |s.consumed| < |s.posted|
    ensures |s.consumed| < |s.posted| ==> s.cq[s.cqHead] == s.posted[|s.consumed|]
  {
    var i, n := |s.consumed|, s.entries;
    if i == |s.posted| && i >= n {
      assert s.cq[Slot(i - n, n)] == s.posted[i - n];
    }
  }

  lemma PollInv(s: State)
    requires Inv(s)
    ensures Sized(s) && Inv(Poll(s))
  {
    hide Slot, Lap;
    InvSized(s);
    PhaseTestIsExact(s);
    if |s.consumed| < |s.posted| {
      Advance(|s.consumed|, s.entries);
      assert s.posted[..|s.consumed| + 1] == s.posted[..|s.consumed|] + [s.posted[|s.consumed|]];
    }
  }

  // ------------------------------------------------------------------------- runs

  ghost function Run(s: State, actions: seq<Action>): (s': State)
    requires Inv(s)
    ensures Inv(s') && s'.entries == s.entries
    decreases |actions|
  {
    if actions == [] then s
    else
      var a := actions[0];
      InvSized(s);
      StepInv(s, a);
      Run(Step(s, a), actions[1..])
  }

  lemma StepInv(s: State, a: Action)
    requires Inv(s)
    ensures Sized(s) && Inv(Step(s, a)) && Step(s, a).entries == s.entries
  {
    hide Inv;
    match a {
      case SubmitAction(cmd) => SubmitInv(s, cmd);
      case FetchAction => FetchInv(s);
      case PostAction(cid) => PostInv(s, cid);
      case PollAction => PollInv(s);
    }
  }

  /** Any interleaving of host and controller, over any number of laps: the counts add up, the
      next submission never hits an unfetched command, the next completion never hits an
      unread one, and the host has read exactly the completions posted first, in order. */
  lemma ProtocolIsSafe(entries: nat, actions: seq<Action>)
    requires entries > 0
    ensures Inv(Start(entries))
    ensures var s := Run(Start(entries), actions);
            && s.entries == entries && |s.consumed| <= |s.submitted|
            && s.freeEntries + (|s.submitted| - |s.consumed|) == entries - 1
            && (s.freeEntries > 0 ==> forall i: nat | |s.fetched| <= i < |s.submitted| :: Slot(i, entries) != s.tail)
            && (|s.posted| < |s.fetched| ==>
                  forall i: nat | |s.consumed| <= i < |s.posted| :: Slot(i, entries) != s.cqTail)
            && s.fetched <= s.submitted && s.consumed <= s.posted
            && (s.cq[s.cqHead].phase == s.phase <==> s.consumed < s.posted)
  {
    StartInv(entries);
    var s := Run(Start(entries), actions);
    PhaseTestIsExact(s);
    forall i: nat | |s.fetched| <= i < |s.submitted| && s.freeEntries > 0 ensures Slot(i, entries) != s.tail {
      SlotsDiffer(i, |s.submitted|, entries);
    }
    forall i: nat | |s.consumed| <= i < |s.posted| < |s.fetched| ensures Slot(i, entries) != s.cqTail {
      SlotsDiffer(i, |s.posted|, entries);
    }
  }

  // ----------------------------------------------------------------- the reference

  /** What the queue pair is for, without rings: commands that wait, the number that the controller
      works on, the ids of those that are done, and how many more are accepted. */
  datatype Fifo = Fifo(room: int, waiting: seq<Command>, running: nat, done: seq<nat>)

  /** What a step tells the party that takes it. */
  datatype Reply = Accepted(ok: bool) | Fetched(cmd: Option<Command>) | Posted(ok: bool) | Read(cid: Option<nat>)

  function FifoStep(f: Fifo, a: Action): (r: (Fifo, Reply)) {
    match a
    case SubmitAction(cmd) =>
      if f.room == 0 then (f, Accepted(false))
      else (f.(room := f.room - 1, waiting := f.waiting + [cmd]), Accepted(true))
    case FetchAction =>
      if f.waiting == [] then (f, Fetched(None))
      else (f.(waiting := f.waiting[1..], running := f.running + 1), Fetched(Some(f.waiting[0])))
    case PostAction(cid) =>
      if f.running == 0 then (f, Posted(false))
      else (f.(running := f.running - 1, done := f.done + [cid]), Posted(true))
    case PollAction =>
      if f.done == [] then (f, Read(None)) else (f.(room := f.room + 1, done := f.done[1..]), Read(Some(f.done[0])))
  }

  function FifoReplies(f: Fifo, actions: seq<Action>): (r: seq<Reply>)
    decreases |actions|
  {
    if actions == [] then []
    else var (g, reply) := FifoStep(f, actions[0]); [reply] + FifoReplies(g, actions[1..])
  }

  /** The same from the rings. */
  function RingReply(s: State, a: Action): (r: Reply)
    requires Sized(s)
  {
    match a
    case SubmitAction(_) => Accepted(s.freeEntries != 0)
    case FetchAction => Fetched(if s.fetch == s.sqt then None else Some(s.sq[s.fetch]))
    case PostAction(_) => Posted(|s.posted| < |s.fetched| && Next(s.cqTail, s.entries) != s.cqh)
    case PollAction => Read(if s.cq[s.cqHead].phase != s.phase then None else Some(s.cq[s.cqHead].cid))
  }

  ghost function RingReplies(s: State, actions: seq<Action>): (r: seq<Reply>)
    requires Inv(s)
    decreases |actions|
  {
    if actions == [] then []
    else
      var a := actions[0];
      InvSized(s);
      StepInv(s, a);
      [RingReply(s, a)] + RingReplies(Step(s, a), actions[1..])
  }

  function Ids(cs: seq<Cqe>): (r: seq<nat>)
    ensures |r| == |cs| && forall i | 0 <= i < |cs| :: r[i] == cs[i].cid
  {
    seq(|cs|, i requires 0 <= i < |cs| => cs[i].cid)
  }

  ghost function Contents(s: State): (f: Fifo)
    requires Counts(s)
  {
    Fifo(s.freeEntries, s.submitted[|s.fetched|..], |s.fetched| - |s.posted|, Ids(s.posted[|s.consumed|..]))
  }

  /** One step of either party on the rings is one step of the reference. */
  lemma StepIsFifo(s: State, a: Action)
    requires Inv(s)
    ensures Sized(s) && Inv(Step(s, a)) && (Contents(Step(s, a)), RingReply(s, a)) == FifoStep(Contents(s), a)
  {
    hide Inv, Contents, FifoStep, RingReply, Step;
    StepInv(s, a);
    match a {
      case SubmitAction(cmd) => SubmitIsFifo(s, cmd);
      case FetchAction => FetchIsFifo(s);
      case PostAction(cid) => PostIsFifo(s, cid);
      case PollAction => PollIsFifo(s);
    }
  }

  lemma SubmitIsFifo(s: State, cmd: Command)
    requires Inv(s)
    ensures var a := SubmitAction(cmd);
            Sized(s) && Counts(Step(s, a)) && (Contents(Step(s, a)), RingReply(s, a)) == FifoStep(Contents(s), a)
  {
    hide Inv, Sized;
    InvCounts(s);
    assert s.freeEntries != 0 ==> (s.submitted + [cmd])[|s.fetched|..] == s.submitted[|s.fetched|..] + [cmd];
  }

  lemma FetchIsFifo(s: State)
    requires Inv(s)
    ensures Sized(s) && Counts(Step(s, FetchAction))
    ensures (Contents(Step(s, FetchAction)), RingReply(s, FetchAction)) == FifoStep(Contents(s), FetchAction)
  {
    hide Inv, Sized;
    InvCounts(s);
    DoorbellIsExact(s);
  }

  lemma PostIsFifo(s: State, cid: nat)
    requires Inv(s)
    ensures var a := PostAction(cid);
            Sized(s) && Counts(Step(s, a)) && (Contents(Step(s, a)), RingReply(s, a)) == FifoStep(Contents(s), a)
  {
    hide Inv, Sized;
    InvCounts(s);
    if |s.posted| < |s.fetched| {
      RoomToPost(s);
      var e := Cqe(s.tag, s.fetch, cid);
      assert (s.posted + [e])[|s.consumed|..] == s.posted[|s.consumed|..] + [e];
      assert Ids(s.posted[|s.consumed|..] + [e]) == Ids(s.posted[|s.consumed|..]) + [cid];
    }
  }

  lemma PollIsFifo(s: State)
    requires Inv(s)
    ensures Sized(s) && Counts(Step(s, PollAction))
    ensures (Contents(Step(s, PollAction)), RingReply(s, PollAction)) == FifoStep(Contents(s), PollAction)
  {
    hide Inv, Sized;
    InvCounts(s);
    PhaseTestIsExact(s);
    if |s.consumed| < |s.posted| {
      assert Ids(s.posted[|s.consumed| + 1..]) == Ids(s.posted[|s.consumed|..])[1..];
    }
  }

  /** Over every interleaving, and any number of laps, the rings answer as the reference does: every
      command that is accepted is fetched once, in order, unless n - 1 are outstanding none is
      refused, and every completion is read once, in order. */
  lemma RingsAreFifo(entries: nat, actions: seq<Action>)
    requires entries > 0
    ensures Inv(Start(entries))
    ensures RingReplies(Start(entries), actions) == FifoReplies(Fifo(entries - 1, [], 0, []), actions)
  {
    hide Slot, Lap;
    StartInv(entries);
    RepliesAgree(Start(entries), actions);
  }

  lemma {:induction false} RepliesAgree(s: State, actions: seq<Action>)
    requires Inv(s)
    ensures Counts(s) && RingReplies(s, actions) == FifoReplies(Contents(s), actions)
    decreases |actions|
  {
    hide Slot, Lap, Inv, FifoStep, RingReply, Step, Contents;
    InvCounts(s);
    if actions != [] {
      StepInv(s, actions[0]);
      StepIsFifo(s, actions[0]);
      RepliesAgree(Step(s, actions[0]), actions[1..]);
    }
  }

  // -------------------------------------------------------------------- the driver

  /** Command ids are 16 bits wide. */
  const CIDS := 0x1_0000

  lemma NextCid(n: nat)
    ensures (n % CIDS + 1) % CIDS == (n + 1) % CIDS
  {
  }

  /** struct nvme_queue_ctx, with the controller's side and the history as ghost fields. */
  class QueuePair {
    const entries: nat
    var sq: seq<Command>
    var cq: seq<Cqe>
    var tail: nat
    var sqHead: nat
    var freeEntries: int
    var cqHead: nat
    var phase: bool
    var cidCounter: nat
    /** The doorbell registers. */
    var sqt: nat
    var cqh: nat
    ghost var fetch: nat
    ghost var cqTail: nat
    ghost var tag: bool
    ghost var submitted: seq<Command>
    ghost var fetched: seq<Command>
    ghost var posted: seq<Cqe>
    ghost var consumed: seq<Cqe>

    ghost function Abs(): (s: State)
      reads this
    {
      State(entries, sq, tail, sqHead, freeEntries, cqHead, phase, sqt, cqh, cq, fetch, cqTail, tag,
            submitted, fetched, posted, consumed)
    }

    ghost predicate Valid()
      reads this
    {
      Inv(Abs()) && cidCounter == |submitted| % CIDS
    }

    /** nvme_init_queue. */
    constructor (entries: nat)
      requires entries > 0
      ensures Valid() && Abs() == Start(entries)
    {
      this.entries := entries;
      sq := seq(entries, _ => Command(0, 0));
      cq := seq(entries, _ => Cqe(false, 0, 0));
      tail, sqHead, cqHead, sqt, cqh := 0, 0, 0, 0, 0;
      phase := true;
      freeEntries, cidCounter := entries - 1, 0;
      fetch, cqTail, tag := 0, 0, true;
      submitted, fetched, posted, consumed := [], [], [], [];
      new;
      StartInv(entries);
      assert sq == seq(entries, _ => Command(0, 0)) && cq == seq(entries, _ => Cqe(false, 0, 0));
    }

    /** nvme_queue_submit_single_cmd: refused exactly when entries - 1 commands are
        outstanding.  The next command id goes into the caller's copy, after the command has been
        put into the ring as it was. */
    method SubmitCommand(cmd: Command) returns (ok: bool, numbered: Command)
      requires Valid()
      modifies this`sq, this`tail, this`sqt, this`freeEntries, this`cidCounter, this`submitted
      ensures Valid() && Sized(old(Abs())) && Abs() == Submit(old(Abs()), cmd)
      ensures ok <==> |old(submitted)| - |consumed| < entries - 1
      ensures ok ==>
                && submitted == old(submitted) + [cmd] && old(tail) < |old(sq)| && sq == old(sq)[old(tail) := cmd]
                && freeEntries == old(freeEntries) - 1 && sqt == tail
                && tail == if old(tail) + 1 == entries then 0 else old(tail) + 1
      ensures !ok ==> Abs() == old(Abs())
      ensures numbered == if ok then cmd.(cid := |old(submitted)| % CIDS) else cmd
    {
      hide Inv, Slot, Lap, Positions, SqIntact, CqIntact, InOrder;
      SubmitInv(Abs(), cmd);
      InvCounts(Abs());
      NextCid(|submitted|);
      NextIsModulo(tail, entries);
      numbered := cmd;
      if freeEntries == 0 {
        return false, numbered;
      }
      numbered := Put(cmd);
      return true, numbered;
    }

    /** The writes of a submission. */
    method Put(cmd: Command) returns (numbered: Command)
      requires tail < entries == |sq|
      modifies this`sq, this`tail, this`sqt, this`freeEntries, this`cidCounter, this`submitted
      ensures sq == old(sq)[old(tail) := cmd] && tail == sqt == (old(tail) + 1) % entries
      ensures freeEntries == old(freeEntries) - 1 && submitted == old(submitted) + [cmd]
      ensures cidCounter == (old(cidCounter) + 1) % CIDS && numbered == cmd.(cid := old(cidCounter))
    {
      sq := sq[tail := cmd];
      tail := tail + 1;
      tail := tail % entries;
      numbered := cmd.(cid := cidCounter);
      cidCounter := (cidCounter + 1) % CIDS;
      sqt := tail;
      freeEntries := freeEntries - 1;
      submitted := submitted + [cmd];
    }

    /** One look of nvme_queue_poll_single_cqe: None while no completion is waiting, else the
        oldest one that has not been read. */
    method PollOnce() returns (r: Option<Cqe>)
      requires Valid()
      modifies this`sqHead, this`cqHead, this`cqh, this`phase, this`freeEntries, this`consumed
      ensures Valid() && Sized(old(Abs())) && Abs() == Poll(old(Abs()))
      ensures r.None? <==> |old(consumed)| == |posted|
      ensures r.None? ==> Abs() == old(Abs())
      ensures r.Some? ==>
                && |old(consumed)| < |posted| && r.value == posted[|old(consumed)|]
                && consumed == old(consumed) + [r.value] && freeEntries == old(freeEntries) + 1
                && sqHead == r.value.sqhd && cqh == cqHead
                && cqHead == (if old(cqHead) + 1 == entries then 0 else old(cqHead) + 1)
                && (phase != old(phase) <==> cqHead == 0)
    {
      hide Inv, Slot, Lap, Counts, Positions, SqIntact, CqIntact, InOrder;
      PollInv(Abs());
      PhaseTestIsExact(Abs());
      var out := cq[cqHead];
      if out.phase != phase {
        return None;
      }
      Take(out);
      return Some(out);
    }

    /** The writes of a poll that has found a completion. */
    method Take(out: Cqe)
      requires cqHead < entries
      modifies this`sqHead, this`cqHead, this`cqh, this`phase, this`freeEntries, this`consumed
      ensures sqHead == out.sqhd && freeEntries == old(freeEntries) + 1 && consumed == old(consumed) + [out]
      ensures cqHead == cqh == if old(cqHead) + 1 == entries then 0 else old(cqHead) + 1
      ensures phase == if old(cqHead) + 1 == entries then !old(phase) else old(phase)
    {
      sqHead := out.sqhd;
      cqHead := cqHead + 1;
      if cqHead == entries {
        cqHead := 0;
        phase := !phase;
      }
      cqh := cqHead;
      freeEntries := freeEntries + 1;
      consumed := consumed + [out];
    }
  }
}
