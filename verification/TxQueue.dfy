/** The transmit virtqueue: round-robin slots against a device that runs between the driver's accesses.

    `Tx` is the shared memory, the device's private state and ghost counters, as a value. The driver's
    slot discipline is sound only for a device that returns descriptors in the order they were posted. */
module TxQueue {
  import opened Arithmetic
  import opened Bytes
  import opened Rings

  const QUEUE_DEPTH := 8
  const MAX_SPINS := 4096

  type Block = seq<Byte>   // an assembled transmit block

  datatype Tx = Tx(
    depth: nat,
    availRing: seq<nat>, availIdx: nat,
    usedIdx: nat,
    buffers: seq<Block>,
    seen: nat, devAvail: nat,          // the avail index as the device last loaded it, and its cursor
    held: seq<nat>, sent: seq<nat>,    // the descriptors it has still to send, and those to return
    nAvail: nat, nSeen: nat, nFetched: nat, nSent: nat, nUsed: nat,
    posted: seq<Block>,    // the blocks the driver has posted
    wire: seq<Block>)      // the blocks the device has sent
  {
    ghost predicate Shape() {
      && IsDepth(depth) && |availRing| == |buffers| == QUEUE_DEPTH
      && nUsed <= nSent <= nFetched <= nSeen <= nAvail <= nUsed + depth && |posted| == nAvail
    }

    /** The device owns the descriptors of the posts numbered `nUsed` to `nAvail - 1`, which are their slots
        in turn; their buffers still hold what was posted, and what was sent before is what was posted. */
    ghost predicate Inv() {
      && Shape()
      && availIdx == Wrap(nAvail) && usedIdx == Wrap(nUsed) && devAvail == Wrap(nFetched) && seen == Wrap(nSeen)
      && |held| == nFetched - nSent && |sent| == nSent - nUsed
      && InTurn(held, nSent, depth) && InTurn(sent, nUsed, depth)
      && (forall n :: nFetched <= n < nAvail ==> availRing[Slot(n, depth)] == Slot(n, depth))
      && (forall n :: nUsed <= n < nAvail ==> buffers[Slot(n, depth)] == posted[n])
      && wire == posted[..nSent]
    }

    /** The device has descriptor `id`, or will find it in the avail ring. */
    ghost predicate Owned(id: nat)
      requires Shape()
    {
      id in held || id in sent || exists n :: nFetched <= n < nAvail && availRing[Slot(n, depth)] == id
    }

    /** The count that `wait_tx_ring_slot` compares with the depth. */
    function Inflight(): nat { (availIdx - usedIdx) % U16 }
  }

  /** The ids are the slots of consecutive posts. */
  ghost predicate InTurn(held: seq<nat>, first: nat, depth: nat) {
    depth > 0 && forall i :: 0 <= i < |held| ==> held[i] == Slot(first + i, depth)
  }

  lemma InTurnTail(held: seq<nat>, first: nat, depth: nat)
    requires InTurn(held, first, depth) && held != []
    ensures held[0] == Slot(first, depth) && InTurn(held[1..], first + 1, depth)
  {
    hide Slot;
    forall i | 0 <= i < |held| - 1 ensures held[1..][i] == Slot(first + 1 + i, depth) {
      assert held[i + 1] == Slot(first + (i + 1), depth);
    }
    assert held[0] == Slot(first + 0, depth);
  }

  lemma InTurnPush(held: seq<nat>, first: nat, depth: nat)
    requires InTurn(held, first, depth)
    ensures InTurn(held + [Slot(first + |held|, depth)], first, depth)
  {
    hide Slot;
  }

  function Initial(depth: nat): Tx {
    Tx(depth, seq(QUEUE_DEPTH, _ => 0), 0, 0, seq(QUEUE_DEPTH, _ => []), 0, 0, [], [], 0, 0, 0, 0, 0, [], [])
  }

  // ---------- the device ----------

  /** The accesses of a device that sends and returns descriptors in order: it loads the avail index, takes the
      next descriptor up to it, reads the buffer of the next descriptor and sends it, and returns one that it has
      sent. */
  datatype DevStep = LoadIndex | Fetch | Transmit | Return

  function DeviceLoadIndex(q: Tx): Tx { q.(seen := q.availIdx, nSeen := q.nAvail) }

  function DeviceFetch(q: Tx): Tx
    requires q.Shape()
  {
    if q.devAvail == q.seen then q
    else
      q.(held := q.held + [q.availRing[RingPos(q.devAvail, q.depth)]],
         devAvail := Wrap(q.devAvail + 1), nFetched := q.nFetched + 1)
  }

  /** Sends the buffer of the `k`-th descriptor it holds. */
  function DeviceTransmit(q: Tx, k: nat): Tx
    requires q.Shape()
  {
    if k >= |q.held| || q.held[k] >= QUEUE_DEPTH then q
    else
      q.(wire := q.wire + [q.buffers[q.held[k]]], held := Drop(q.held, k), sent := q.sent + [q.held[k]],
         nSent := q.nSent + 1)
  }

  /** Returns the `k`-th descriptor it has sent. */
  function DeviceReturn(q: Tx, k: nat): Tx
    requires q.Shape()
  {
    if k >= |q.sent| then q
    else q.(sent := Drop(q.sent, k), usedIdx := Wrap(q.usedIdx + 1), nUsed := q.nUsed + 1)
  }

  function DeviceStep(q: Tx, s: DevStep): Tx
    requires q.Shape()
  {
    match s
    case LoadIndex => DeviceLoadIndex(q)
    case Fetch => DeviceFetch(q)
    case Transmit => DeviceTransmit(q, 0)
    case Return => DeviceReturn(q, 0)
  }

  /** What the device leaves alone. */
  ghost predicate Extends(q: Tx, r: Tx) {
    && r.depth == q.depth && r.availRing == q.availRing && r.availIdx == q.availIdx && r.buffers == q.buffers
    && r.nAvail == q.nAvail && r.posted == q.posted && q.nUsed <= r.nUsed && q.wire <= r.wire
  }

  lemma LoadIndexKeepsInv(q: Tx)
    requires q.Inv()
    ensures DeviceLoadIndex(q).Inv() && Extends(q, DeviceLoadIndex(q))
  {
    hide Slot, Wrap, RingPos, InTurn;
  }

  lemma FetchKeepsInv(q: Tx)
    requires q.Inv()
    ensures DeviceFetch(q).Shape() && DeviceFetch(q).Inv() && Extends(q, DeviceFetch(q))
    ensures DeviceFetch(q) == if q.nFetched < q.nSeen
                              then q.(held := q.held + [Slot(q.nFetched, q.depth)], devAvail := Wrap(q.nFetched + 1),
                                      nFetched := q.nFetched + 1)
                              else q
  {
    hide Slot, Wrap, RingPos;
    RingPosOf(q.nFetched, q.depth);
    if q.devAvail == q.seen { WrapInjective(q.nFetched, q.nSeen); }
  }

  /** In-order transmission sends the oldest post that has not been sent. */
  lemma TransmitsOldest(q: Tx)
    requires q.Inv() && q.held != []
    ensures DeviceTransmit(q, 0) == q.(wire := q.posted[..q.nSent + 1], held := q.held[1..],
                                       sent := q.sent + [Slot(q.nSent, q.depth)], nSent := q.nSent + 1)
  {
    hide Slot, Wrap, RingPos, InTurn;
    InTurnTail(q.held, q.nSent, q.depth);
    assert q.buffers[q.held[0]] == q.posted[q.nSent];
    assert q.posted[..q.nSent + 1] == q.posted[..q.nSent] + [q.posted[q.nSent]];
  }

  lemma TransmitKeepsInv(q: Tx)
    requires q.Inv()
    ensures DeviceTransmit(q, 0).Inv() && Extends(q, DeviceTransmit(q, 0))
  {
    hide Slot, Wrap, RingPos, IsDepth, InTurn;
    if q.held != [] {
      TransmitsOldest(q);
      InTurnTail(q.held, q.nSent, q.depth);
      InTurnPush(q.sent, q.nUsed, q.depth);
      hide DeviceTransmit;
    }
  }

  lemma ReturnKeepsInv(q: Tx)
    requires q.Inv()
    ensures DeviceReturn(q, 0).Inv() && Extends(q, DeviceReturn(q, 0))
  {
    hide Slot, Wrap, RingPos, IsDepth, InTurn;
    if q.sent != [] {
      WrapStep(q.nUsed);
      InTurnTail(q.sent, q.nUsed, q.depth);
      assert Drop(q.sent, 0) == q.sent[1..];
      hide Drop;
    }
  }

  lemma DeviceStepKeepsInv(q: Tx, s: DevStep)
    requires q.Inv()
    ensures DeviceStep(q, s).Inv() && Extends(q, DeviceStep(q, s))
  {
    match s
    case LoadIndex => LoadIndexKeepsInv(q);
    case Fetch => FetchKeepsInv(q);
    case Transmit => TransmitKeepsInv(q);
    case Return => ReturnKeepsInv(q);
  }

  /** Several accesses of the device. */
  ghost function RunSteps(q: Tx, steps: seq<DevStep>): (r: Tx)
    requires q.Inv()
    ensures r.Inv() && Extends(q, r)
    decreases |steps|
  {
    if steps == [] then q
    else
      DeviceStepKeepsInv(q, steps[0]);
      RunSteps(DeviceStep(q, steps[0]), steps[1..])
  }

  lemma RunNoSteps(q: Tx)
    requires q.Inv()
    ensures RunSteps(q, []) == q
  {
  }

  lemma RunStepsCons(q: Tx, steps: seq<DevStep>)
    requires q.Inv() && steps != []
    ensures DeviceStep(q, steps[0]).Inv() && RunSteps(q, steps) == RunSteps(DeviceStep(q, steps[0]), steps[1..])
  {
    DeviceStepKeepsInv(q, steps[0]);
    hide Tx.Inv;
  }

  /** The state after the first `k` batches of a schedule; when it is used up, nothing happens any more. */
  ghost function After(q: Tx, schedule: seq<seq<DevStep>>, k: nat): (r: Tx)
    requires q.Inv()
    ensures r.Inv() && Extends(q, r)
  {
    if k == 0 then q else RunSteps(After(q, schedule, k - 1), if k - 1 < |schedule| then schedule[k - 1] else [])
  }

  lemma AfterNext(q: Tx, schedule: seq<seq<DevStep>>, k: nat)
    requires q.Inv()
    ensures After(q, schedule, 0) == q
    ensures After(q, schedule, k + 1) == RunSteps(After(q, schedule, k), if k < |schedule| then schedule[k] else [])
  {
    hide Tx.Inv, RunSteps;
  }

  /** The driver finds a full ring after the first `k` batches. */
  ghost predicate FullAfter(q: Tx, schedule: seq<seq<DevStep>>, k: nat)
    requires q.Inv()
  {
    var r := After(q, schedule, k);
    r.nAvail == r.nUsed + r.depth
  }

  /** From every state the device can send all that was posted and return every descriptor. */
  lemma {:induction false} DeviceCanFinish(q: Tx) returns (steps: seq<DevStep>)
    requires q.Inv()
    ensures RunSteps(q, steps).wire == q.posted && RunSteps(q, steps).nUsed == q.nAvail
    decreases 4 * q.nAvail - q.nSeen - q.nFetched - q.nSent - q.nUsed
  {
    if q.nUsed == q.nAvail {
      steps := [];
      RunNoSteps(q);
      AllSent(q);
    } else {
      var s := NextStep(q);
      var rest := DeviceCanFinish(DeviceStep(q, s));
      steps := [s] + rest;
      assert steps[1..] == rest;
      DeviceStepKeepsInv(q, s);
      hide Tx.Inv, DeviceStep;
      RunStepsCons(q, steps);
    }
  }

  lemma AllSent(q: Tx)
    requires q.Inv() && q.nUsed == q.nAvail
    ensures q.wire == q.posted
  {
    assert q.posted[..q.nSent] == q.posted;
  }

  /** While something is left to return, some access of the device gets on with it. */
  lemma NextStep(q: Tx) returns (s: DevStep)
    requires q.Inv() && q.nUsed < q.nAvail
    ensures var r := DeviceStep(q, s);
            && r.Inv() && r.nAvail == q.nAvail && r.posted == q.posted
            && r.nSeen >= q.nSeen && r.nFetched >= q.nFetched && r.nSent >= q.nSent && r.nUsed >= q.nUsed
            && r.nSeen + r.nFetched + r.nSent + r.nUsed > q.nSeen + q.nFetched + q.nSent + q.nUsed
  {
    s := if q.nSeen < q.nAvail then LoadIndex
         else if q.nFetched < q.nSeen then Fetch
         else if q.held != [] then Transmit
         else Return;
    DeviceStepKeepsInv(q, s);
    FetchKeepsInv(q);
    if q.held != [] { TransmitsOldest(q); }
    hide Slot, Wrap, RingPos, InTurn;
  }

  // ---------- the driver ----------

  function FillBuffer(q: Tx, slot: nat, block: Block): Tx
    requires q.Shape() && slot < QUEUE_DEPTH
  {
    q.(buffers := q.buffers[slot := block])
  }

  function StoreAvailSlot(q: Tx, slot: nat): Tx
    requires q.Shape()
  {
    q.(availRing := q.availRing[RingPos(q.availIdx, q.depth) := slot])
  }

  function PublishAvail(q: Tx, block: Block): Tx {
    q.(availIdx := Wrap(q.availIdx + 1), nAvail := q.nAvail + 1, posted := q.posted + [block])
  }

  /** The slot the driver uses next is owned by the device exactly when the ring is full, which is when the
      in-flight count it computes from the two wrapped indices has reached the depth. */
  lemma NextSlotOwnedIffFull(q: Tx)
    requires q.Inv()
    ensures q.Inflight() == (q.availIdx - q.usedIdx) % 65536 == q.nAvail - q.nUsed
    ensures q.Owned(Slot(q.nAvail, q.depth)) <==> q.Inflight() >= q.depth
  {
    WrapDistance(q.nUsed, q.nAvail - q.nUsed);
    if q.nAvail - q.nUsed < q.depth { RoomNotOwned(q); } else { FullOwned(q); }
    hide Slot, Wrap, InTurn;
  }

  lemma RoomNotOwned(q: Tx)
    requires q.Inv() && q.nAvail < q.nUsed + q.depth
    ensures !q.Owned(Slot(q.nAvail, q.depth))
  {
    hide Slot, Wrap;
    forall n: nat | q.nUsed <= n < q.nAvail ensures Slot(n, q.depth) != Slot(q.nAvail, q.depth) {
      SlotsApart(n, q.nAvail, q.depth);
    }
    assert forall i :: 0 <= i < |q.held| ==> q.held[i] == Slot(q.nSent + i, q.depth);
    assert forall i :: 0 <= i < |q.sent| ==> q.sent[i] == Slot(q.nUsed + i, q.depth);
  }

  lemma FullOwned(q: Tx)
    requires q.Inv() && q.nAvail == q.nUsed + q.depth
    ensures q.Owned(Slot(q.nAvail, q.depth))
  {
    SlotPeriod(q.nUsed, q.depth);
    hide Slot, Wrap;
    var id := Slot(q.nUsed, q.depth);
    if q.nUsed < q.nSent {
      assert q.sent[0] == id;
    } else if q.nUsed < q.nFetched {
      assert q.held[0] == id;
    } else {
      assert q.availRing[Slot(q.nUsed, q.depth)] == id;
    }
  }

  lemma FillKeepsInv(q: Tx, block: Block)
    requires q.Inv() && q.nAvail < q.nUsed + q.depth
    ensures FillBuffer(q, Slot(q.nAvail, q.depth), block).Inv()
  {
    hide Slot, Wrap, RingPos;
    forall n: nat | q.nUsed <= n < q.nAvail ensures Slot(n, q.depth) != Slot(q.nAvail, q.depth) {
      SlotsApart(n, q.nAvail, q.depth);
    }
  }

  lemma StoreKeepsInv(q: Tx)
    requires q.Inv() && q.nAvail < q.nUsed + q.depth
    ensures var r := StoreAvailSlot(q, Slot(q.nAvail, q.depth));
            r.Inv() && r.availRing[Slot(q.nAvail, q.depth)] == Slot(q.nAvail, q.depth)
  {
    hide Slot, Wrap, RingPos;
    RingPosOf(q.nAvail, q.depth);
    forall n: nat | q.nUsed <= n < q.nAvail ensures Slot(n, q.depth) != Slot(q.nAvail, q.depth) {
      SlotsApart(n, q.nAvail, q.depth);
    }
  }

  lemma PublishKeepsInv(q: Tx, block: Block)
    requires q.Inv() && q.nAvail < q.nUsed + q.depth
    requires q.availRing[Slot(q.nAvail, q.depth)] == Slot(q.nAvail, q.depth)
    requires q.buffers[Slot(q.nAvail, q.depth)] == block
    ensures PublishAvail(q, block).Inv()
  {
    hide Slot, Wrap, RingPos;
    RingPosOf(q.nAvail, q.depth);
    assert (q.posted + [block])[..q.nSent] == q.posted[..q.nSent];
  }

  /** One post on a ring that is not full, without the device in between. */
  function Post(q: Tx, block: Block): Tx
    requires q.Shape()
  {
    var slot := Slot(q.nAvail, q.depth);
    PublishAvail(StoreAvailSlot(FillBuffer(q, slot, block), slot), block)
  }

  lemma PostKeepsInv(q: Tx, block: Block)
    requires q.Inv() && q.nAvail < q.nUsed + q.depth
    ensures var r := Post(q, block);
            r.Shape() && r.Inv() && r.depth == q.depth && r.nAvail == q.nAvail + 1 && r.nFetched == q.nFetched && r.nUsed == q.nUsed
  {
    hide Slot, Wrap, RingPos;
    FillKeepsInv(q, block);
    var r := FillBuffer(q, Slot(q.nAvail, q.depth), block);
    StoreKeepsInv(r);
    PublishKeepsInv(StoreAvailSlot(r, Slot(q.nAvail, q.depth)), block);
  }

  lemma InitialInv(depth: nat)
    requires IsDepth(depth)
    ensures Initial(depth).Inv()
  {
  }

  /** What the exit after the last spin leads to: the ring is full, the slot the driver goes on to fill is that
      of the oldest post the device still owns, and the block of that post is overwritten. */
  lemma SpinExitOverwrites(q: Tx, block: Block)
    requires q.Inv() && q.Inflight() >= q.depth
    ensures q.nAvail == q.nUsed + q.depth && q.Owned(Slot(q.nAvail, q.depth))
    ensures var r := FillBuffer(q, Slot(q.nAvail, q.depth), block);
            r.buffers[Slot(q.nUsed, q.depth)] == block && (r.Inv() <==> block == q.posted[q.nUsed])
  {
    NextSlotOwnedIffFull(q);
    SlotPeriod(q.nUsed, q.depth);
    hide Slot, Wrap;
    var r := FillBuffer(q, Slot(q.nAvail, q.depth), block);
    if block == q.posted[q.nUsed] {
      assert r.buffers == q.buffers;
    }
  }

  // ---------- devices that return descriptors in any order ----------

  /** Where the driver is in `send_frame`: before the guard, with the buffer filled, or with the slot stored. */
  datatype Pc = Idle | Filled(block: Block) | Stored(block: Block)

  datatype System = System(q: Tx, pc: Pc)

  datatype Event =
    | LoadsIndex
    | Fetches
    | Transmits(which: nat)
    | Returns(which: nat)
    | Begins(block: Block)
    | Stores
    | Publishes

  /** What survives a device that returns descriptors in any order: the counters. */
  ghost predicate Counts(s: System) {
    && s.q.Shape() && |s.q.held| == s.q.nFetched - s.q.nSent && |s.q.sent| == s.q.nSent - s.q.nUsed
    && s.q.availIdx == Wrap(s.q.nAvail) && s.q.usedIdx == Wrap(s.q.nUsed)
    && s.q.devAvail == Wrap(s.q.nFetched) && s.q.seen == Wrap(s.q.nSeen)
    && (s.pc != Idle ==> s.q.nAvail < s.q.nUsed + s.q.depth)
  }

  /** One step of the device or one store of the driver. The driver begins when the guard lets it. */
  function Act(s: System, e: Event): System
    requires Counts(s)
  {
    var slot := Slot(s.q.nAvail, s.q.depth);
    match e
    case LoadsIndex => s.(q := DeviceLoadIndex(s.q))
    case Fetches => s.(q := DeviceFetch(s.q))
    case Transmits(k) => s.(q := DeviceTransmit(s.q, k))
    case Returns(k) => s.(q := DeviceReturn(s.q, k))
    case Begins(block) =>
      if s.pc == Idle && s.q.Inflight() < s.q.depth then System(FillBuffer(s.q, slot, block), Filled(block)) else s
    case Stores => if s.pc.Filled? then System(StoreAvailSlot(s.q, slot), Stored(s.pc.block)) else s
    case Publishes => if s.pc.Stored? then System(PublishAvail(s.q, s.pc.block), Idle) else s
  }

  lemma ActCounts(s: System, e: Event)
    requires Counts(s)
    ensures Counts(Act(s, e)) && Act(s, e).q.depth == s.q.depth
  {
    match e
    case LoadsIndex =>
    case Fetches => FetchCounts(s);
    case Transmits(k) => TransmitCounts(s, k);
    case Returns(k) => ReturnCounts(s, k);
    case _ => DriverCounts(s, e);
  }

  lemma FetchCounts(s: System)
    requires Counts(s)
    ensures Counts(s.(q := DeviceFetch(s.q)))
  {
    assert s.q.depth <= 8;
    hide Wrap, RingPos, IsDepth;
    WrapStep(s.q.nFetched);
    if s.q.devAvail == s.q.seen { WrapInjective(s.q.nFetched, s.q.nSeen); }
  }

  lemma TransmitCounts(s: System, k: nat)
    requires Counts(s)
    ensures Counts(s.(q := DeviceTransmit(s.q, k)))
  {
    hide Wrap, RingPos, IsDepth;
  }

  lemma ReturnCounts(s: System, k: nat)
    requires Counts(s)
    ensures Counts(s.(q := DeviceReturn(s.q, k)))
  {
    hide Wrap, RingPos, IsDepth;
    WrapStep(s.q.nUsed);
  }

  lemma DriverCounts(s: System, e: Event)
    requires Counts(s) && (e.Begins? || e.Stores? || e.Publishes?)
    ensures Counts(Act(s, e)) && Act(s, e).q.depth == s.q.depth
  {
    assert s.q.depth <= 8;
    hide Wrap, RingPos, Slot, IsDepth;
    WrapDistance(s.q.nUsed, s.q.nAvail - s.q.nUsed);
    WrapStep(s.q.nAvail);
  }

  function Run(depth: nat, events: seq<Event>): (s: System)
    requires IsDepth(depth)
    ensures Counts(s) && s.q.depth == depth
  {
    if events == [] then System(Initial(depth), Idle)
    else
      var before := Run(depth, events[..|events| - 1]);
      ActCounts(before, events[|events| - 1]);
      Act(before, events[|events| - 1])
  }

  /** The device takes its descriptors in order in this event. */
  predicate InOrder(e: Event) { (e.Transmits? || e.Returns?) ==> e.which == 0 }

  /** If the guard lets the driver begin, the slot it fills is not the device's. */
  ghost predicate Protects(q: Tx)
    requires q.Shape()
  {
    q.Inflight() < q.depth ==> !q.Owned(Slot(q.nAvail, q.depth))
  }

  /** The guard protects the next slot in every run, whatever order the device returns descriptors in. */
  ghost predicate GuardSound(depth: nat)
    requires IsDepth(depth)
  {
    forall events :: Run(depth, events).pc == Idle ==> Protects(Run(depth, events).q)
  }

  /** The invariant of in-order runs, with what the driver has stored so far. */
  ghost predicate InOrderInv(s: System) {
    && s.q.Inv()
    && (s.pc != Idle ==>
          && s.q.nAvail < s.q.nUsed + s.q.depth && s.q.buffers[Slot(s.q.nAvail, s.q.depth)] == s.pc.block
          && (s.pc.Stored? ==> s.q.availRing[Slot(s.q.nAvail, s.q.depth)] == Slot(s.q.nAvail, s.q.depth)))
  }

  /** A step of an in-order device, or of any device on a ring of one. */
  lemma ActInOrder(s: System, e: Event)
    requires Counts(s) && InOrderInv(s)
    requires InOrder(e) || s.q.depth == 1
    ensures InOrderInv(Act(s, e))
  {
    NextSlotOwnedIffFull(s.q);
    hide Slot, Wrap, RingPos, Tx.Inv, DeviceFetch, DeviceTransmit, DeviceReturn;
    match e
    case LoadsIndex => LoadIndexKeepsInv(s.q);
    case Fetches => FetchKeepsInv(s.q);
    case Transmits(k) =>
      if k == 0 { TransmitKeepsInv(s.q); } else { NothingSecond(s.q, k); }
    case Returns(k) =>
      if k == 0 { ReturnKeepsInv(s.q); } else { NothingSecond(s.q, k); }
    case Begins(block) =>
      if s.pc == Idle && s.q.Inflight() < s.q.depth { FillKeepsInv(s.q, block); }
    case Stores =>
      if s.pc.Filled? { StoreKeepsInv(s.q); }
    case Publishes =>
      if s.pc.Stored? { PublishKeepsInv(s.q, s.pc.block); }
  }

  lemma NothingSecond(q: Tx, k: nat)
    requires q.Inv() && q.depth == 1 && k > 0
    ensures DeviceTransmit(q, k) == q && DeviceReturn(q, k) == q
  {
  }

  lemma {:induction false} RunInOrder(depth: nat, events: seq<Event>)
    requires IsDepth(depth) && (depth == 1 || forall e :: e in events ==> InOrder(e))
    ensures InOrderInv(Run(depth, events))
    decreases |events|
  {
    hide Act, Counts, InOrderInv;
    if events == [] {
      StartInOrder(depth);
    } else {
      RunInOrder(depth, events[..|events| - 1]);
      ActInOrder(Run(depth, events[..|events| - 1]), events[|events| - 1]);
    }
  }

  lemma StartInOrder(depth: nat)
    requires IsDepth(depth)
    ensures InOrderInv(System(Initial(depth), Idle))
  {
    InitialInv(depth);
  }

  /** For a device that returns in order the guard is sound at every depth. */
  lemma InOrderGuardSound(depth: nat, events: seq<Event>)
    requires IsDepth(depth) && (depth == 1 || forall e :: e in events ==> InOrder(e))
    ensures Protects(Run(depth, events).q)
  {
    RunInOrder(depth, events);
    NextSlotOwnedIffFull(Run(depth, events).q);
  }

  /** `n` blocks posted one after the other. */
  function Posts(n: nat): seq<Event> { if n == 0 then [] else Posts(n - 1) + [Begins([]), Stores, Publishes] }

  lemma RunSnoc(depth: nat, events: seq<Event>, e: Event)
    requires IsDepth(depth)
    ensures Run(depth, events + [e]) == Act(Run(depth, events), e)
  {
    assert (events + [e])[..|events|] == events;
  }

  lemma {:induction false} PostsRun(depth: nat, n: nat)
    requires IsDepth(depth) && n <= depth
    ensures var s := Run(depth, Posts(n));
            s.pc == Idle && s.q.nAvail == n && s.q.nFetched == s.q.nSent == s.q.nUsed == 0
    ensures forall e :: e in Posts(n) ==> InOrder(e)
    decreases n
  {
    hide Run, Wrap, Slot, RingPos;
    if n == 0 {
      RunNothing(depth);
    } else {
      PostsRun(depth, n - 1);
      var events := Posts(n - 1);
      assert Posts(n) == events + [Begins([])] + [Stores] + [Publishes];
      hide Act, Counts;
      RunSnoc(depth, events, Begins([]));
      RunSnoc(depth, events + [Begins([])], Stores);
      RunSnoc(depth, events + [Begins([])] + [Stores], Publishes);
      OnePost(Run(depth, events));
    }
  }

  lemma OnePost(s: System)
    requires Counts(s) && s.pc == Idle && s.q.nAvail < s.q.depth && s.q.nFetched == s.q.nSent == s.q.nUsed == 0
    ensures Counts(Act(s, Begins([]))) && Counts(Act(Act(s, Begins([])), Stores))
    ensures var t := Act(Act(Act(s, Begins([])), Stores), Publishes);
            t.pc == Idle && t.q.nAvail == s.q.nAvail + 1 && t.q.nFetched == t.q.nSent == t.q.nUsed == 0
  {
    ActCounts(s, Begins([]));
    ActCounts(Act(s, Begins([])), Stores);
    assert s.q.depth <= 8;
    hide Wrap, Slot, RingPos, IsDepth;
    WrapDistance(s.q.nUsed, s.q.nAvail - s.q.nUsed);
  }

  lemma RunNothing(depth: nat)
    requires IsDepth(depth)
    ensures Run(depth, []) == System(Initial(depth), Idle)
  {
  }

  function Taken(n: nat): seq<Event> { if n == 0 then [LoadsIndex] else Taken(n - 1) + [Fetches] }

  /** The ring filled and taken by the device. */
  lemma {:induction false} FullRun(depth: nat, n: nat)
    requires IsDepth(depth) && n <= depth
    ensures var events := Posts(depth) + Taken(n);
            var s := Run(depth, events);
            && s.pc == Idle && s.q.Inv() && s.q.nAvail == s.q.nSeen == depth && s.q.nFetched == n && s.q.nSent == s.q.nUsed == 0
    decreases n
  {
    hide Run, Act, Tx.Inv, Counts;
    if n == 0 {
      PostsRun(depth, depth);
      RunInOrder(depth, Posts(depth));
      RunSnoc(depth, Posts(depth), LoadsIndex);
      Loaded(Run(depth, Posts(depth)));
    } else {
      FullRun(depth, n - 1);
      var events := Posts(depth) + Taken(n - 1);
      assert Posts(depth) + Taken(n) == events + [Fetches];
      RunSnoc(depth, events, Fetches);
      Fetched(Run(depth, events));
    }
  }

  lemma Loaded(s: System)
    requires Counts(s) && s.q.Inv()
    ensures var t := Act(s, LoadsIndex);
            t == s.(q := s.q.(seen := s.q.availIdx, nSeen := s.q.nAvail)) && t.q.Inv()
  {
    hide Tx.Inv;
    LoadIndexKeepsInv(s.q);
  }

  lemma Fetched(s: System)
    requires Counts(s) && s.q.Inv() && s.q.nFetched < s.q.nSeen
    ensures var t := Act(s, Fetches);
            && t.pc == s.pc && t.q.Inv() && t.q.nAvail == s.q.nAvail && t.q.nSeen == s.q.nSeen && t.q.nSent == s.q.nSent
            && t.q.nUsed == s.q.nUsed && t.q.nFetched == s.q.nFetched + 1
  {
    hide Tx.Inv;
    FetchKeepsInv(s.q);
  }

  /** On a full ring of at least two, a device that sends and returns its second descriptor first gets the guard
      to pass while the next slot is still its own. */
  lemma OutOfOrderDefeatsGuard(q: Tx)
    requires q.Inv() && q.depth >= 2 && q.nSent == q.nUsed == 0 && q.nFetched == q.nAvail == q.depth
    ensures DeviceTransmit(q, 1).Shape()
    ensures var r := DeviceReturn(DeviceTransmit(q, 1), 0); r.Shape() && !Protects(r)
  {
    var r := DeviceReturn(DeviceTransmit(q, 1), 0);
    assert q.held[0] == Slot(0 + 0, q.depth) && q.held[1] == Slot(0 + 1, q.depth) < QUEUE_DEPTH;
    assert r.held[0] == q.held[0];
    SlotPeriod(0, q.depth);
    assert Slot(0, q.depth) in r.held;
    WrapDistance(1, q.depth - 1);
    WrapStep(0);
  }

  /** Against a conforming device that sends and returns descriptors in any order, the guard protects the next
      slot in every run exactly when the ring has depth 1. The driver asks for depth 8. */
  lemma GuardSoundIff(depth: nat)
    requires IsDepth(depth)
    ensures GuardSound(depth) <==> depth == 1
  {
    hide Run, Protects, Tx.Inv, Act, DeviceTransmit, DeviceReturn;
    if depth == 1 {
      forall events | Run(depth, events).pc == Idle ensures Protects(Run(depth, events).q) {
        InOrderGuardSound(depth, events);
      }
    } else {
      var events := Posts(depth) + Taken(depth);
      FullRun(depth, depth);
      OutOfOrderDefeatsGuard(Run(depth, events).q);
      RunSnoc(depth, events, Transmits(1));
      RunSnoc(depth, events + [Transmits(1)], Returns(0));
      Completed(Run(depth, events), 1);
      assert !Protects(Run(depth, events + [Transmits(1)] + [Returns(0)]).q);
    }
  }

  lemma Completed(s: System, k: nat)
    requires Counts(s)
    ensures Act(s, Transmits(k)) == s.(q := DeviceTransmit(s.q, k)) && Counts(Act(s, Transmits(k)))
    ensures Act(Act(s, Transmits(k)), Returns(0)) == s.(q := DeviceReturn(DeviceTransmit(s.q, k), 0))
  {
    TransmitCounts(s, k);
  }

  datatype SendResult =
    | Sent
    | DeviceNotReady
    | SpinLimit   // the wait gave up on a full ring; `SpinExitOverwrites` says what the driver then overwrites

  class TxVirtqueue {
    const depth: nat
    const availRing: array<nat>
    const buffers: array<Block>
    var availIdx: nat
    var usedIdx: nat
    var slot: nat
    var seen: nat
    var devAvail: nat
    var held: seq<nat>
    var sent: seq<nat>
    var wire: seq<Block>
    ghost var q: Tx

    ghost predicate Mirrors()
      reads `availIdx, `usedIdx, `seen, `devAvail, `held, `sent, `wire, `q, availRing, buffers
    {
      && q.depth == depth && q.Shape()
      && q.availRing == availRing[..] && q.buffers == buffers[..] && q.availIdx == availIdx && q.usedIdx == usedIdx
      && q.seen == seen && q.devAvail == devAvail && q.held == held && q.sent == sent && q.wire == wire
    }

    ghost predicate Shared()
      reads `availIdx, `usedIdx, `seen, `devAvail, `held, `sent, `wire, `q, availRing, buffers
    {
      Mirrors() && q.Inv()
    }

    /** The slot counter is the avail counter modulo the depth. */
    ghost predicate Valid()
      reads this, availRing, buffers
    {
      Shared() && slot == Slot(q.nAvail, depth)
    }

    constructor (depth: nat)
      requires IsDepth(depth)
      ensures Valid() && fresh(availRing) && fresh(buffers) && this.depth == depth && q == Initial(depth)
    {
      this.depth := depth;
      availRing := new nat[QUEUE_DEPTH](_ => 0);
      buffers := new Block[QUEUE_DEPTH](_ => []);
      availIdx, usedIdx, slot, seen, devAvail, held, sent, wire := 0, 0, 0, 0, 0, [], [], [];
      q := Initial(depth);
    }

    method LoadsIndex()
      requires Mirrors() && DeviceLoadIndex(q).Shape()
      modifies `seen, `q
      ensures Mirrors() && q == DeviceLoadIndex(old(q))
    {
      q := DeviceLoadIndex(q);
      seen := availIdx;
    }

    method Fetches()
      requires Mirrors() && DeviceFetch(q).Shape()
      modifies `devAvail, `held, `q
      ensures Mirrors() && q == DeviceFetch(old(q))
    {
      q := DeviceFetch(q);
      if devAvail != seen {
        held := held + [availRing[RingPos(devAvail, depth)]];
        devAvail := Wrap(devAvail + 1);
      }
    }

    method Transmits()
      requires Mirrors() && DeviceTransmit(q, 0).Shape()
      modifies `held, `sent, `wire, `q
      ensures Mirrors() && q == DeviceTransmit(old(q), 0)
    {
      q := DeviceTransmit(q, 0);
      if held != [] && held[0] < QUEUE_DEPTH {
        wire := wire + [buffers[held[0]]];
        sent := sent + [held[0]];
        held := Drop(held, 0);
      }
    }

    method Returns()
      requires Mirrors() && DeviceReturn(q, 0).Shape()
      modifies `usedIdx, `sent, `q
      ensures Mirrors() && q == DeviceReturn(old(q), 0)
    {
      q := DeviceReturn(q, 0);
      if sent != [] {
        sent := Drop(sent, 0);
        usedIdx := Wrap(usedIdx + 1);
      }
    }

    /** Lets the device take the next batch of its schedule. */
    method Interleave(schedule: seq<seq<DevStep>>) returns (rest: seq<seq<DevStep>>)
      requires Shared()
      modifies `usedIdx, `seen, `devAvail, `held, `sent, `wire, `q
      ensures Shared() && Extends(old(q), q) && q == RunSteps(old(q), if schedule == [] then [] else schedule[0])
      ensures rest == (if schedule == [] then [] else schedule[1..])
    {
      hide Tx.Inv;
      rest := schedule;
      RunNoSteps(q);
      if schedule != [] {
        var batch := schedule[0];
        rest := schedule[1..];
        for i := 0 to |batch|
          invariant Shared() && Extends(old(q), q)
          invariant RunSteps(q, batch[i..]) == RunSteps(old(q), batch)
        {
          RunStepsCons(q, batch[i..]);
          assert batch[i..][0] == batch[i] && batch[i..][1..] == batch[i + 1..];
          DeviceActs(batch[i]);
        }
        RunNoSteps(q);
      }
    }

    method DeviceActs(s: DevStep)
      requires Shared()
      modifies `usedIdx, `seen, `devAvail, `held, `sent, `wire, `q
      ensures Shared() && q == DeviceStep(old(q), s) && Extends(old(q), q)
    {
      DeviceStepKeepsInv(q, s);
      assert DeviceStep(q, s).Shape();
      hide Tx.Inv;
      match s
      case LoadIndex => LoadsIndex();
      case Fetch => Fetches();
      case Transmit => Transmits();
      case Return => Returns();
    }

    /** `wait_tx_ring_slot`: looks until the in-flight count is below the depth. It gives up only after 4097 looks,
        each at a full ring. */
    method WaitTxRingSlot(schedule: seq<seq<DevStep>>) returns (free: bool, rest: seq<seq<DevStep>>, ghost looks: nat)
      requires Shared()
      modifies `usedIdx, `seen, `devAvail, `held, `sent, `wire, `q
      ensures Shared() && Extends(old(q), q)
      ensures 1 <= looks <= 4097 && q == After(old(q), schedule, looks)
      ensures forall k :: 1 <= k < looks ==> FullAfter(old(q), schedule, k)
      ensures if free then q.nAvail < q.nUsed + depth else looks == 4097 && q.nAvail == q.nUsed + depth
    {
      hide Slot, Wrap, Tx.Inv, RunSteps, After;
      rest := schedule;
      var spins := 0;
      AfterNext(q, schedule, 0);
      while true
        invariant Shared() && Extends(old(q), q) && spins <= MAX_SPINS
        invariant q == After(old(q), schedule, spins) && rest == (if spins <= |schedule| then schedule[spins..] else [])
        invariant forall k :: 1 <= k <= spins ==> FullAfter(old(q), schedule, k)
        decreases MAX_SPINS - spins
      {
        AfterNext(old(q), schedule, spins);
        rest := Interleave(rest);
        NextSlotOwnedIffFull(q);
        var inflight := (availIdx - usedIdx) % U16;
        if inflight < depth {
          return true, rest, spins + 1;
        }
        spins := spins + 1;
        if spins > MAX_SPINS {
          return false, rest, spins;
        }
      }
    }

    /** The ring part of `send_frame`. The block joins the posted ones, unless each of 4097 looks finds a full ring;
        no block still owned by the device is touched, so what the device has sent is at every moment a prefix of
        what was posted. */
    method SendFrame(ready: bool, block: Block, schedule: seq<seq<DevStep>>) returns (r: SendResult)
      requires Valid()
      modifies this, availRing, buffers
      ensures Valid() && (!ready <==> r == DeviceNotReady) && (!ready ==> q == old(q))
      ensures q.posted == old(q).posted + (if r == Sent then [block] else [])
      ensures old(q).wire <= q.wire <= q.posted
      ensures ready ==> (r == SpinLimit <==> forall k :: 1 <= k <= 4097 ==> FullAfter(old(q), schedule, k))
      ensures r == SpinLimit ==> q.nAvail == q.nUsed + depth
    {
      hide Slot, Wrap, After;
      if !ready {
        return DeviceNotReady;
      }
      ghost var before := q;
      var free, rest, looks := WaitTxRingSlot(schedule);
      assert free <==> !FullAfter(before, schedule, looks);
      if !free {
        return SpinLimit;
      }
      rest := PostBlock(block, rest);
      r := Sent;
    }

    method PostBlock(block: Block, schedule: seq<seq<DevStep>>) returns (rest: seq<seq<DevStep>>)
      requires Valid() && q.nAvail < q.nUsed + depth
      modifies this, availRing, buffers
      ensures Valid() && q.posted == old(q).posted + [block] && old(q).wire <= q.wire
    {
      var idx;
      idx, rest := Assemble(block, schedule);
      rest := FillSlot(idx, block, rest);
      rest := Publish(block, rest);
    }

    /** Takes the slot and writes its buffer. */
    method Assemble(block: Block, schedule: seq<seq<DevStep>>) returns (idx: nat, rest: seq<seq<DevStep>>)
      requires Valid() && q.nAvail < q.nUsed + depth
      modifies `slot, buffers, `usedIdx, `seen, `devAvail, `held, `sent, `wire, `q
      ensures Shared() && slot == Slot(q.nAvail + 1, depth) && idx == Slot(q.nAvail, depth)
      ensures q.posted == old(q).posted && q.nAvail == old(q).nAvail < q.nUsed + depth && old(q).wire <= q.wire
      ensures q.buffers[Slot(q.nAvail, depth)] == block
    {
      hide Slot, Wrap, RingPos, Tx.Inv;
      SlotStep(q.nAvail, depth);
      FillKeepsInv(q, block);
      idx := RingPos(slot, depth);
      slot := RingPos(slot + 1, depth);
      q := FillBuffer(q, idx, block);
      buffers[idx] := block;
      rest := Interleave(schedule);
    }

    method FillSlot(idx: nat, block: Block, schedule: seq<seq<DevStep>>) returns (rest: seq<seq<DevStep>>)
      requires Shared() && q.nAvail < q.nUsed + depth && idx == Slot(q.nAvail, depth) && q.buffers[Slot(q.nAvail, depth)] == block
      modifies availRing, `usedIdx, `seen, `devAvail, `held, `sent, `wire, `q
      ensures Shared() && q.availRing[Slot(q.nAvail, depth)] == Slot(q.nAvail, depth)
      ensures q.posted == old(q).posted && q.nAvail == old(q).nAvail < q.nUsed + depth && old(q).wire <= q.wire
      ensures q.buffers[Slot(q.nAvail, depth)] == block
    {
      StoreKeepsInv(q);
      hide Slot, Wrap, RingPos, Tx.Inv;
      q := StoreAvailSlot(q, idx);
      availRing[RingPos(availIdx, depth)] := idx;
      rest := Interleave(schedule);
    }

    method Publish(block: Block, schedule: seq<seq<DevStep>>) returns (rest: seq<seq<DevStep>>)
      requires Shared() && q.nAvail < q.nUsed + depth && q.buffers[Slot(q.nAvail, depth)] == block
      requires q.availRing[Slot(q.nAvail, depth)] == Slot(q.nAvail, depth)
      modifies `availIdx, `usedIdx, `seen, `devAvail, `held, `sent, `wire, `q
      ensures Shared() && q.nAvail == old(q).nAvail + 1
      ensures q.posted == old(q).posted + [block] && old(q).wire <= q.wire
    {
      PublishKeepsInv(q, block);
      assert PublishAvail(q, block).Shape();
      hide Slot, Wrap, Tx.Inv;
      q := PublishAvail(q, block);
      availIdx := Wrap(availIdx + 1);
      rest := Interleave(schedule);
    }
  }

  lemma SlotStep(n: nat, depth: nat)
    requires IsDepth(depth)
    ensures RingPos(Slot(n, depth), depth) == Slot(n, depth)
    ensures RingPos(Slot(n, depth) + 1, depth) == Slot(n + 1, depth)
  {
    hide And;
    SlotOfIndex(Slot(n, depth), depth);
    SlotOfIndex(Slot(n, depth) + 1, depth);
    var s := Slot(n, depth);
    assert Wrap(s) == s && Wrap(s + 1) == s + 1;
    assert s % depth == s by { DivModUnique(s, depth, 0, s); }
    assert n + 1 == s + 1 + depth * (n / depth);
    ModAdd(s + 1, depth, n / depth);
  }

  lemma SlotPeriod(n: nat, depth: nat)
    requires depth > 0
    ensures Slot(n + depth, depth) == Slot(n, depth)
  {
    ModAdd(n, depth, 1);
  }
}
