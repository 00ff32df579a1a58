/** The receive virtqueue: the driver's drain loop against a device that runs between any two of the
    driver's memory accesses.

    `Rx` is the memory both sides share, the device's private state, and ghost counters that never wrap.
    Its transitions are functions on values; the class performs them on arrays. */
module RxQueue {
  import opened Arithmetic
  import opened Bytes
  import opened Rings
  import opened Wrappers

  const QUEUE_DEPTH := 8
  const RX_BUF_LEN := 1526

  datatype UsedElem = UsedElem(id: nat, len: nat)

  /** One buffer returned by the device: what it left in the buffer and the length it reported. */
  datatype Completion = Completion(id: nat, data: seq<Byte>, len: nat) {
    function Frame(): seq<Byte> { data[..if len < |data| then len else |data|] }
  }

  /** What the handler must see of a run of completions: the frames that are not empty, in order. */
  function Frames(cs: seq<Completion>): (fs: seq<seq<Byte>>)
    ensures |fs| <= |cs|
  {
    if cs == [] then []
    else
      var c := cs[|cs| - 1];
      Frames(cs[..|cs| - 1]) + if c.len > 0 then [c.Frame()] else []
  }

  lemma {:induction false} FramesPrefix(cs: seq<Completion>, n: nat)
    requires n <= |cs|
    ensures Frames(cs[..n]) <= Frames(cs)
    decreases |cs|
  {
    if n < |cs| {
      FramesPrefix(cs[..|cs| - 1], n);
      assert cs[..|cs| - 1][..n] == cs[..n];
    } else {
      assert cs[..n] == cs;
    }
  }

  /** `at` lists the completions that are not empty, in order. */
  ghost predicate NonEmptyAt(at: seq<nat>, cs: seq<Completion>) {
    && (forall j, k :: 0 <= j < k < |at| ==> at[j] < at[k])
    && (forall i: nat :: i in at <==> i < |cs| && cs[i].len > 0)
  }

  /** The start of the buffer, as long as the device reported, and at most 1526 bytes. */
  ghost predicate Reported(f: seq<Byte>, c: Completion) { f <= c.data && |f| == if c.len < 1526 then c.len else 1526 }

  /** There is one frame for each completion that is not empty, in their order: what the device reported. */
  ghost predicate HandsOver(frames: seq<seq<Byte>>, cs: seq<Completion>) {
    exists at :: NonEmptyAt(at, cs) && Picks(frames, at, cs)
  }

  ghost predicate Picks(frames: seq<seq<Byte>>, at: seq<nat>, cs: seq<Completion>) {
    |frames| == |at| && forall k :: 0 <= k < |at| ==> at[k] < |cs| && Reported(frames[k], cs[at[k]])
  }

  function Nonempty(cs: seq<Completion>): (at: seq<nat>)
    ensures forall k :: 0 <= k < |at| ==> at[k] < |cs|
  {
    if cs == [] then [] else Nonempty(cs[..|cs| - 1]) + if cs[|cs| - 1].len > 0 then [|cs| - 1] else []
  }

  lemma {:induction false} NonemptyIs(cs: seq<Completion>)
    ensures NonEmptyAt(Nonempty(cs), cs)
    decreases |cs|
  {
    if cs != [] {
      var front := cs[..|cs| - 1];
      NonemptyIs(front);
      assert Nonempty(cs) == Nonempty(front) + if cs[|cs| - 1].len > 0 then [|cs| - 1] else [];
      hide Nonempty;
      NonEmptySnoc(Nonempty(front), front, cs[|cs| - 1]);
      assert front + [cs[|cs| - 1]] == cs;
    }
  }

  lemma NonEmptySnoc(at: seq<nat>, cs: seq<Completion>, c: Completion)
    requires NonEmptyAt(at, cs)
    ensures NonEmptyAt(at + (if c.len > 0 then [|cs|] else []), cs + [c])
  {
    assert forall k :: 0 <= k < |at| ==> at[k] in at;
    assert forall i: nat :: i in at ==> i < |cs|;
  }

  lemma FrameReported(c: Completion)
    requires |c.data| == RX_BUF_LEN
    ensures Reported(c.Frame(), c)
  {
  }

  lemma {:induction false} FramesAt(cs: seq<Completion>)
    requires forall i :: 0 <= i < |cs| ==> |cs[i].data| == RX_BUF_LEN
    ensures Picks(Frames(cs), Nonempty(cs), cs)
    decreases |cs|
  {
    hide Reported, Completion.Frame;
    if cs != [] {
      var front, c := cs[..|cs| - 1], cs[|cs| - 1];
      FramesAt(front);
      FrameReported(c);
      hide Frames, Nonempty;
      FramesUnfold(cs);
    }
  }

  lemma FramesUnfold(cs: seq<Completion>)
    requires cs != []
    ensures var front, c := cs[..|cs| - 1], cs[|cs| - 1];
            && Frames(cs) == Frames(front) + (if c.len > 0 then [c.Frame()] else [])
            && Nonempty(cs) == Nonempty(front) + if c.len > 0 then [|cs| - 1] else []
  {
  }

  lemma FramesHandOver(cs: seq<Completion>)
    requires forall i :: 0 <= i < |cs| ==> |cs[i].data| == RX_BUF_LEN
    ensures HandsOver(Frames(cs), cs)
  {
    NonemptyIs(cs);
    FramesAt(cs);
    hide Nonempty, Frames, NonEmptyAt, Picks;
  }

  /** A step of a conforming device, each one access to the shared memory. It loads the avail index; it takes
      the next descriptor up to the index it has loaded; it writes a buffer that it holds, as often as it likes; it
      writes the id or the length of a used entry past those published, several ahead if it likes, in any order; and it
      publishes the next used entry, which must name a descriptor it holds. A step that is not possible
      changes nothing. */
  datatype DevStep =
    | LoadIndex
    | Fetch
    | Fill(which: nat, data: seq<Byte>)
    | StoreId(ahead: nat, which: nat)
    | StoreLen(ahead: nat, len: nat)
    | Return(which: nat)

  predicate Conforming(s: DevStep) { s.Fill? ==> |s.data| == RX_BUF_LEN }

  datatype Rx = Rx(
    depth: nat,
    availRing: seq<nat>, availIdx: nat,
    usedRing: seq<UsedElem>, usedIdx: nat,
    buffers: seq<seq<Byte>>,
    seen: nat, devAvail: nat, held: seq<nat>,    // the avail index as last loaded, the cursor, the descriptors held
    nAvail: nat, nSeen: nat, nFetched: nat, nUsed: nat, nRead: nat,
    completions: seq<Completion>)
  {
    ghost predicate Shape() {
      && IsDepth(depth) && |availRing| == |usedRing| == |buffers| == QUEUE_DEPTH
      && nRead <= nUsed <= nFetched <= nSeen <= nAvail == nRead + depth
    }

    /** The ids waiting in the avail ring, and those waiting in the used ring. */
    function Avail(): seq<nat> requires Shape() { Window(availRing, nFetched, nAvail, depth) }
    function Used(): seq<UsedElem> requires Shape() { Window(usedRing, nRead, nUsed, depth) }

    /** The 16-bit indices are the counters, wrapped; descriptor ids are conserved; every unread used entry
        and the buffer it names still hold what the device wrote when it returned that buffer. */
    ghost predicate Inv() {
      && Shape()
      && availIdx == Wrap(nAvail) && usedIdx == Wrap(nUsed) && devAvail == Wrap(nFetched) && seen == Wrap(nSeen)
      && |held| == nFetched - nUsed && |completions| == nUsed
      && Conserved(Avail(), held, UsedIds(Used()), depth)
      && (forall b :: b in buffers ==> |b| == RX_BUF_LEN)
      && (forall c :: c in completions ==> |c.data| == RX_BUF_LEN)
      && (forall n :: nRead <= n < nUsed ==> Unread(n))
    }

    ghost predicate Unread(n: nat)
      requires Shape() && n < |completions|
    {
      var c := completions[n];
      c.id < QUEUE_DEPTH && usedRing[Slot(n, depth)] == UsedElem(c.id, c.len) && buffers[c.id] == c.data
    }
  }

  function UsedIds(used: seq<UsedElem>): (ids: seq<nat>)
    ensures |ids| == |used|
  {
    seq(|used|, i requires 0 <= i < |used| => used[i].id)
  }

  // ---------- the device ----------

  function DeviceLoadIndex(q: Rx): Rx { q.(seen := q.availIdx, nSeen := q.nAvail) }

  function DeviceFetch(q: Rx): Rx
    requires q.Shape()
  {
    if q.devAvail == q.seen then q
    else
      var id := q.availRing[RingPos(q.devAvail, q.depth)];
      q.(devAvail := Wrap(q.devAvail + 1), held := q.held + [id], nFetched := q.nFetched + 1)
  }

  function DeviceFill(q: Rx, k: nat, data: seq<Byte>): Rx
    requires q.Shape()
  {
    if k >= |q.held| || q.held[k] >= QUEUE_DEPTH then q else q.(buffers := q.buffers[q.held[k] := data])
  }

  /** The used entry `ahead` of the published ones. */
  function Entry(q: Rx, ahead: nat): UsedElem
    requires q.Shape()
  {
    q.usedRing[RingPos(Wrap(q.usedIdx + ahead), q.depth)]
  }

  function StoreEntry(q: Rx, ahead: nat, e: UsedElem): Rx
    requires q.Shape()
  {
    q.(usedRing := q.usedRing[RingPos(Wrap(q.usedIdx + ahead), q.depth) := e])
  }

  function DeviceStoreId(q: Rx, ahead: nat, k: nat): Rx
    requires q.Shape()
  {
    if k >= |q.held| || ahead >= |q.held| then q else StoreEntry(q, ahead, Entry(q, ahead).(id := q.held[k]))
  }

  function DeviceStoreLen(q: Rx, ahead: nat, len: nat): Rx
    requires q.Shape()
  {
    if ahead >= |q.held| then q else StoreEntry(q, ahead, Entry(q, ahead).(len := len))
  }

  function DeviceReturn(q: Rx, k: nat): Rx
    requires q.Shape()
  {
    var e := q.usedRing[RingPos(q.usedIdx, q.depth)];
    if k >= |q.held| || q.held[k] != e.id || e.id >= QUEUE_DEPTH then q
    else
      q.(usedIdx := Wrap(q.usedIdx + 1), held := Drop(q.held, k), nUsed := q.nUsed + 1,
         completions := q.completions + [Completion(e.id, q.buffers[e.id], e.len)])
  }

  /** What the device may change: it adds completions and leaves the driver's side alone. */
  ghost predicate Extends(q: Rx, r: Rx) {
    && r.depth == q.depth && r.availRing == q.availRing && r.availIdx == q.availIdx
    && r.nAvail == q.nAvail && r.nRead == q.nRead
    && q.completions <= r.completions && q.nUsed <= r.nUsed
  }

  lemma FetchKeepsInv(q: Rx)
    requires q.Inv()
    ensures DeviceFetch(q).Inv() && Extends(q, DeviceFetch(q))
  {
    hide Slot, Wrap, RingPos, Window, Conserved, UsedIds;
    var r := DeviceFetch(q);
    if q.nFetched < q.nSeen {
      if q.devAvail == q.seen { WrapInjective(q.nFetched, q.nSeen); }
      RingPosOf(q.nFetched, q.depth);
      WindowPop(q.availRing, q.nFetched, q.nAvail, q.depth);
      FetchConserves(q.Avail(), q.held, UsedIds(q.Used()), q.depth);
      assert q.Avail()[0] == q.availRing[Slot(q.nFetched, q.depth)] && r.Avail() == q.Avail()[1..];
      assert r.Used() == q.Used();
      assert Conserved(r.Avail(), r.held, UsedIds(r.Used()), r.depth);
      assert r.Shape();
      assert r.devAvail == Wrap(r.nFetched);
      forall n | r.nRead <= n < r.nUsed ensures r.Unread(n) { assert q.Unread(n); }
    }
  }

  /** An id the device holds names no unread used entry. */
  lemma HeldIsNotUnread(q: Rx, k: nat, n: nat)
    requires q.Inv() && k < |q.held| && q.nRead <= n < q.nUsed
    ensures q.held[k] < q.depth && q.completions[n].id != q.held[k]
  {
    hide Slot, Wrap, RingPos, Conserved, UsedIds;
    assert q.Unread(n);
    UsedIdAt(q, n);
    ThreePlaces(q.Avail(), q.held, UsedIds(q.Used()), q.depth, k, n - q.nRead);
  }

  lemma UsedIdAt(q: Rx, n: nat)
    requires q.Shape() && q.nRead <= n < q.nUsed
    ensures UsedIds(q.Used())[n - q.nRead] == q.usedRing[Slot(n, q.depth)].id
  {
    hide Slot;
  }

  lemma ThreePlaces(avail: seq<nat>, held: seq<nat>, used: seq<nat>, depth: nat, i: nat, j: nat)
    requires Conserved(avail, held, used, depth) && i < |held| && j < |used|
    ensures held[i] < depth && held[i] != used[j]
  {
    var all := avail + held + used;
    PermutationOfIds(all, depth);
    assert all[|avail| + i] == held[i] && held[i] in all;
    assert all[|avail| + |held| + j] == used[j];
  }

  lemma HeldInRange(q: Rx, k: nat)
    requires q.Inv() && k < |q.held|
    ensures q.held[k] < q.depth
  {
    var all := q.Avail() + q.held + UsedIds(q.Used());
    PermutationOfIds(all, q.depth);
    assert all[|q.Avail()| + k] == q.held[k];
    assert q.held[k] in all;
  }

  lemma UsedIdsPush(u: seq<UsedElem>, e: UsedElem)
    ensures UsedIds(u + [e]) == UsedIds(u) + [e.id]
  {
  }

  /** Writing a held buffer, however often, disturbs no unread one. */
  lemma FillKeepsInv(q: Rx, k: nat, data: seq<Byte>)
    requires q.Inv() && |data| == RX_BUF_LEN
    ensures DeviceFill(q, k, data).Inv() && Extends(q, DeviceFill(q, k, data))
  {
    hide Slot, Wrap, RingPos, Window, Conserved, UsedIds;
    if k < |q.held| {
      HeldInRange(q, k);
      forall n | q.nRead <= n < q.nUsed ensures DeviceFill(q, k, data).Unread(n) {
        assert q.Unread(n);
        HeldIsNotUnread(q, k, n);
      }
    }
  }

  /** Writing used entries past the published ones, as far ahead as descriptors are held, disturbs no
      unread entry. */
  lemma StoreEntryKeepsInv(q: Rx, ahead: nat, e: UsedElem)
    requires q.Inv() && ahead < |q.held|
    ensures StoreEntry(q, ahead, e).Inv() && Extends(q, StoreEntry(q, ahead, e))
  {
    hide Slot, Wrap, RingPos, Window, Conserved, UsedIds;
    WrapAhead(q.nUsed, ahead);
    RingPosOf(q.nUsed + ahead, q.depth);
    WindowElsewhere(q.usedRing, q.nRead, q.nUsed, q.depth, q.nUsed + ahead, e);
    forall n | q.nRead <= n < q.nUsed ensures StoreEntry(q, ahead, e).Unread(n) {
      assert q.Unread(n);
      SlotsApart(n, q.nUsed + ahead, q.depth);
    }
  }

  lemma ReturnMovesId(q: Rx, k: nat)
    requires q.Inv() && k < |q.held| && q.held[k] == q.usedRing[Slot(q.nUsed, q.depth)].id
    ensures var used := Window(q.usedRing, q.nRead, q.nUsed + 1, q.depth);
            Conserved(q.Avail(), Drop(q.held, k), UsedIds(used), q.depth)
  {
    hide Slot, Wrap, RingPos, Window, Conserved, UsedIds;
    WindowGrows(q.usedRing, q.nRead, q.nUsed, q.depth);
    CompleteConserves(q.Avail(), q.held, UsedIds(q.Used()), q.depth, k);
    UsedIdsPush(q.Used(), q.usedRing[Slot(q.nUsed, q.depth)]);
  }

  /** Publishing a used entry that names a held descriptor. */
  lemma ReturnKeepsInv(q: Rx, k: nat)
    requires q.Inv()
    ensures DeviceReturn(q, k).Inv() && Extends(q, DeviceReturn(q, k))
  {
    hide Slot, Wrap, RingPos, Window, Conserved, UsedIds;
    RingPosOf(q.nUsed, q.depth);
    if k < |q.held| && q.held[k] == q.usedRing[Slot(q.nUsed, q.depth)].id {
      HeldInRange(q, k);
      ReturnMovesId(q, k);
      forall n | q.nRead <= n <= q.nUsed ensures DeviceReturn(q, k).Unread(n) {
        if n < q.nUsed { assert q.Unread(n); }
      }
    }
  }

  function DeviceStep(q: Rx, s: DevStep): Rx
    requires q.Shape()
  {
    match s
    case LoadIndex => DeviceLoadIndex(q)
    case Fetch => DeviceFetch(q)
    case Fill(k, data) => DeviceFill(q, k, data)
    case StoreId(ahead, k) => DeviceStoreId(q, ahead, k)
    case StoreLen(ahead, len) => DeviceStoreLen(q, ahead, len)
    case Return(k) => DeviceReturn(q, k)
  }

  /** Whatever access a conforming device makes next, descriptors are conserved and nothing unread is
      overwritten. */
  lemma DeviceStepKeepsInv(q: Rx, s: DevStep)
    requires q.Inv() && Conforming(s)
    ensures DeviceStep(q, s).Inv() && Extends(q, DeviceStep(q, s))
  {
    assert q.Shape();
    hide Rx.Inv, Extends, DeviceLoadIndex, DeviceFetch, DeviceFill, DeviceStoreId, DeviceStoreLen, DeviceReturn;
    match s
    case LoadIndex => LoadIndexKeepsInv(q);
    case Fetch => FetchKeepsInv(q);
    case Fill(k, data) => FillKeepsInv(q, k, data);
    case StoreId(ahead, k) => StoreIdKeepsInv(q, ahead, k);
    case StoreLen(ahead, len) => StoreLenKeepsInv(q, ahead, len);
    case Return(k) => ReturnKeepsInv(q, k);
  }

  ghost predicate Conform(steps: seq<DevStep>) { forall i :: 0 <= i < |steps| ==> Conforming(steps[i]) }

  /** Several accesses of the device. */
  ghost function RunSteps(q: Rx, steps: seq<DevStep>): (r: Rx)
    requires q.Inv() && Conform(steps)
    ensures r.Inv()
    decreases |steps|
  {
    if steps == [] then q
    else
      DeviceStepKeepsInv(q, steps[0]);
      RunSteps(DeviceStep(q, steps[0]), steps[1..])
  }

  lemma RunNoSteps(q: Rx)
    requires q.Inv()
    ensures RunSteps(q, []) == q
  {
  }

  lemma RunStepsCons(q: Rx, steps: seq<DevStep>)
    requires q.Inv() && Conform(steps) && steps != []
    ensures q.Shape() && Conforming(steps[0]) && Conform(steps[1..]) && DeviceStep(q, steps[0]).Inv()
    ensures RunSteps(q, steps) == RunSteps(DeviceStep(q, steps[0]), steps[1..])
  {
    DeviceStepKeepsInv(q, steps[0]);
    InvShape(q);
    hide Rx.Inv, DeviceStep, Conforming;
  }

  lemma BuffersWhole(q: Rx)
    requires q.Inv()
    ensures forall i :: 0 <= i < |q.completions| ==> |q.completions[i].data| == RX_BUF_LEN
  {
  }

  lemma InvShape(q: Rx)
    requires q.Inv()
    ensures q.Shape()
  {
  }

  lemma StoreIdKeepsInv(q: Rx, ahead: nat, k: nat)
    requires q.Inv()
    ensures DeviceStoreId(q, ahead, k).Inv() && Extends(q, DeviceStoreId(q, ahead, k))
  {
    assert q.Shape();
    hide Rx.Inv, Entry, StoreEntry;
    if k < |q.held| && ahead < |q.held| {
      StoreEntryKeepsInv(q, ahead, Entry(q, ahead).(id := q.held[k]));
    } else {
      assert Extends(q, q);
    }
  }

  lemma StoreLenKeepsInv(q: Rx, ahead: nat, len: nat)
    requires q.Inv()
    ensures DeviceStoreLen(q, ahead, len).Inv() && Extends(q, DeviceStoreLen(q, ahead, len))
  {
    assert q.Shape();
    hide Rx.Inv, Entry, StoreEntry;
    if ahead < |q.held| {
      StoreEntryKeepsInv(q, ahead, Entry(q, ahead).(len := len));
    } else {
      assert Extends(q, q);
    }
  }

  lemma LoadIndexKeepsInv(q: Rx)
    requires q.Inv()
    ensures DeviceLoadIndex(q).Inv() && Extends(q, DeviceLoadIndex(q))
  {
    hide Slot, Wrap, RingPos, Window, Conserved, UsedIds;
    forall n | q.nRead <= n < q.nUsed ensures DeviceLoadIndex(q).Unread(n) { assert q.Unread(n); }
  }

  // ---------- the driver's stores ----------

  /** Writing the avail slot past the window, before the index is published. */
  function StoreAvailSlot(q: Rx, id: nat): Rx
    requires q.Shape()
  {
    q.(availRing := q.availRing[RingPos(q.availIdx, q.depth) := id])
  }

  /** Publishing the avail index hands the oldest unread entry's buffer back to the device. */
  function PublishAvail(q: Rx): Rx
    requires q.Shape()
  {
    q.(availIdx := Wrap(q.availIdx + 1), nAvail := q.nAvail + 1, nRead := q.nRead + 1)
  }

  lemma StoreSlotKeepsInv(q: Rx, id: nat)
    requires q.Inv() && q.nRead < q.nUsed
    ensures StoreAvailSlot(q, id).Inv()
    ensures StoreAvailSlot(q, id).availRing[Slot(q.nAvail, q.depth)] == id
  {
    hide Slot, Wrap, RingPos, Window, Conserved, UsedIds;
    RingPosOf(q.nAvail, q.depth);
    WindowPush(q.availRing, q.nFetched, q.nAvail, q.depth, id);
    forall n | q.nRead <= n < q.nUsed ensures StoreAvailSlot(q, id).Unread(n) { assert q.Unread(n); }
  }

  /** Between two rounds of the loop the ids in the three places are again a permutation. */
  lemma PublishKeepsInv(q: Rx)
    requires q.Inv() && q.nRead < q.nUsed
    requires q.availRing[Slot(q.nAvail, q.depth)] == q.completions[q.nRead].id
    ensures PublishAvail(q).Inv() && PublishAvail(q).Shape()
  {
    hide Slot, Wrap, RingPos, Window, Conserved, UsedIds;
    var r := PublishAvail(q);
    var id := q.completions[q.nRead].id;
    RingPosOf(q.nAvail, q.depth);
    assert q.Unread(q.nRead);
    WindowPush(q.availRing, q.nFetched, q.nAvail, q.depth, id);
    assert q.availRing[Slot(q.nAvail, q.depth) := id] == q.availRing;
    WindowPop(q.usedRing, q.nRead, q.nUsed, q.depth);
    UsedIdsPop(q.Used());
    RecycleConserves(q.Avail(), q.held, UsedIds(q.Used()), q.depth);
    assert r.Avail() == q.Avail() + [id] && r.Used() == q.Used()[1..];
    forall n | r.nRead <= n < r.nUsed ensures r.Unread(n) { assert q.Unread(n); }
  }

  lemma UsedIdsPop(u: seq<UsedElem>)
    requires u != []
    ensures UsedIds(u) != [] && UsedIds(u)[0] == u[0].id && UsedIds(u)[1..] == UsedIds(u[1..])
  {
  }

  /** What the invariant says to the driver: ids in the avail window, held by the device and in the used
      window are a permutation of the ids below the depth, and the two driver indices stay `depth` apart. */
  lemma InvMeans(q: Rx)
    requires q.Inv()
    ensures var all := q.Avail() + q.held + UsedIds(q.Used());
            && |all| == q.depth && (forall x: nat :: x in all <==> x < q.depth)
            && (forall i, j :: 0 <= i < j < |all| ==> all[i] != all[j])
    ensures (q.availIdx - Wrap(q.nRead)) % 65536 == q.depth
    ensures q.usedIdx == Wrap(q.nRead) <==> q.nUsed == q.nRead
  {
    hide Slot, RingPos, Window, Rx.Unread;
    PermutationOfIds(q.Avail() + q.held + UsedIds(q.Used()), q.depth);
    WrapDistance(q.nRead, q.depth);
    if q.usedIdx == Wrap(q.nRead) { WrapInjective(q.nRead, q.nUsed); }
  }

  // ---------- the driver ----------

  datatype PollError = DeviceNotReady

  class RxVirtqueue {
    const availRing: array<nat>
    const usedRing: array<UsedElem>
    const buffers: array<seq<Byte>>
    const depth: nat
    var availIdx: nat
    var usedIdx: nat
    var lastUsed: nat
    var seen: nat                        // the avail index as the device last loaded it
    var devAvail: nat                    // the device's cursor into the avail ring
    var held: seq<nat>                   // the descriptors the device owns
    var handled: seq<seq<Byte>>          // the frames passed to the handler
    var notifies: nat                    // the kicks sent to the device
    ghost var q: Rx                      // the same state as a value, with its counters

    ghost predicate Mirrors()
      reads `availIdx, `usedIdx, `seen, `devAvail, `held, `q, availRing, usedRing, buffers
    {
      && q.depth == depth && q.Shape() && |q.completions| == q.nUsed
      && q.availRing == availRing[..] && q.usedRing == usedRing[..] && q.buffers == buffers[..]
      && q.availIdx == availIdx && q.usedIdx == usedIdx && q.seen == seen && q.devAvail == devAvail && q.held == held
    }

    ghost predicate Shared()
      reads `availIdx, `usedIdx, `seen, `devAvail, `held, `q, availRing, usedRing, buffers
    {
      Mirrors() && q.Inv()
    }

    ghost predicate Valid()
      reads this, availRing, usedRing, buffers
    {
      Shared() && lastUsed == Wrap(q.nRead) && handled == Frames(q.completions[..q.nRead])
    }

    lemma ValidMeans()
      requires Valid()
      ensures q.Inv() && q.depth == depth && lastUsed == Wrap(q.nRead) && availIdx == q.availIdx && |q.completions| == q.nUsed
    {
    }

    /** `setup_rx_queue`: every descriptor starts out available. */
    constructor (depth: nat)
      requires IsDepth(depth)
      ensures Valid() && fresh(availRing) && fresh(usedRing) && fresh(buffers)
      ensures this.depth == depth && q.nRead == q.nUsed == q.nSeen == 0 && q.completions == [] && handled == [] && notifies == 0
    {
      hide Rx.Inv, Window, Wrap;
      this.depth := depth;
      availRing := new nat[QUEUE_DEPTH](_ => 0);
      usedRing := new UsedElem[QUEUE_DEPTH](_ => UsedElem(0, 0));
      buffers := new seq<Byte>[QUEUE_DEPTH](_ => Zeros(RX_BUF_LEN));
      availIdx, usedIdx, lastUsed, seen, devAvail, held := 0, 0, 0, 0, 0, [];
      handled, notifies := [], 0;
      new;
      for i := 0 to depth
        modifies availRing
        invariant forall j :: 0 <= j < i ==> availRing[j] == j
      {
        availRing[i] := i;
      }
      availIdx := depth;
      q := Rx(depth, availRing[..], depth, usedRing[..], 0, buffers[..], 0, 0, [], depth, 0, 0, 0, 0, []);
      InitialInv(q);
    }

    // ---------- the device's side ----------

    method LoadsIndex()
      requires Mirrors()
      modifies `seen, `q
      ensures Mirrors() && q == DeviceLoadIndex(old(q))
    {
      q := DeviceLoadIndex(q);
      seen := availIdx;
    }

    method Fetches()
      requires Mirrors() && DeviceFetch(q).Shape()
      modifies `devAvail, `held, `q
      ensures Mirrors() && q == DeviceFetch(old(q))
    {
      q := DeviceFetch(q);
      if devAvail != seen {
        held := held + [availRing[RingPos(devAvail, depth)]];
        devAvail := Wrap(devAvail + 1);
      }
    }

    method Fills(k: nat, data: seq<Byte>)
      requires Mirrors()
      modifies buffers, `q
      ensures Mirrors() && q == DeviceFill(old(q), k, data)
    {
      q := DeviceFill(q, k, data);
      if k < |held| && held[k] < QUEUE_DEPTH {
        buffers[held[k]] := data;
      }
    }

    method StoresId(ahead: nat, k: nat)
      requires Mirrors()
      modifies usedRing, `q
      ensures Mirrors() && q == DeviceStoreId(old(q), ahead, k)
    {
      hide Wrap;
      q := DeviceStoreId(q, ahead, k);
      if k < |held| && ahead < |held| {
        var pos := RingPos(Wrap(usedIdx + ahead), depth);
        usedRing[pos] := usedRing[pos].(id := held[k]);
      }
    }

    method StoresLen(ahead: nat, len: nat)
      requires Mirrors()
      modifies usedRing, `q
      ensures Mirrors() && q == DeviceStoreLen(old(q), ahead, len)
    {
      hide Wrap;
      q := DeviceStoreLen(q, ahead, len);
      if ahead < |held| {
        var pos := RingPos(Wrap(usedIdx + ahead), depth);
        usedRing[pos] := usedRing[pos].(len := len);
      }
    }

    method Returns(k: nat)
      requires Mirrors() && DeviceReturn(q, k).Shape()
      modifies `usedIdx, `held, `q
      ensures Mirrors() && q == DeviceReturn(old(q), k)
    {
      hide Wrap;
      q := DeviceReturn(q, k);
      var id := usedRing[RingPos(usedIdx, depth)].id;
      if k < |held| && held[k] == id && id < QUEUE_DEPTH {
        usedIdx := Wrap(usedIdx + 1);
        held := Drop(held, k);
      }
    }

    method DeviceActs(s: DevStep)
      requires Shared() && Conforming(s)
      modifies usedRing, buffers, `usedIdx, `seen, `devAvail, `held, `q
      ensures Shared() && q == DeviceStep(old(q), s) && Extends(old(q), q)
    {
      hide Rx.Inv, Conforming, Extends, DeviceLoadIndex, DeviceFetch, DeviceFill, DeviceStoreId, DeviceStoreLen, DeviceReturn;
      DeviceStepKeepsInv(q, s);
      InvShape(DeviceStep(q, s));
      match s
      case LoadIndex => LoadsIndex();
      case Fetch => Fetches();
      case Fill(k, data) => Fills(k, data);
      case StoreId(ahead, k) => StoresId(ahead, k);
      case StoreLen(ahead, len) => StoresLen(ahead, len);
      case Return(k) => Returns(k);
    }

    /** Lets the device take the next batch of its schedule. */
    method Interleave(schedule: seq<seq<DevStep>>) returns (rest: seq<seq<DevStep>>)
      requires Shared() && AllConform(schedule)
      modifies usedRing, buffers, `usedIdx, `seen, `devAvail, `held, `q
      ensures Shared() && Extends(old(q), q) && AllConform(rest)
      ensures rest == (if schedule == [] then [] else schedule[1..])
      ensures schedule == [] ==> q == old(q)
      ensures schedule != [] ==> Conform(schedule[0]) && q == RunSteps(old(q), schedule[0])
    {
      hide Rx.Inv, Conform, Conforming, AllConform, RunSteps, DeviceStep, Extends, Shared, Mirrors;
      rest := schedule;
      ExtendsSelf(q);
      if schedule != [] {
        FirstConforms(schedule);
        rest := schedule[1..];
        RunBatch(schedule[0]);
      }
    }

    method RunBatch(batch: seq<DevStep>)
      requires Shared() && Conform(batch)
      modifies usedRing, buffers, `usedIdx, `seen, `devAvail, `held, `q
      ensures Shared() && Extends(old(q), q) && old(q).Inv() && q == RunSteps(old(q), batch)
    {
      hide Rx.Inv, Conform, Conforming, RunSteps, DeviceStep, Extends, Shared, Mirrors;
      SharedInv();
      ghost var start := q;
      ExtendsSelf(q);
      for i := 0 to |batch|
        invariant Shared() && q.Inv() && Extends(start, q) && Conform(batch[i..])
        invariant RunSteps(q, batch[i..]) == RunSteps(start, batch)
      {
        ghost var before := q;
        RunStepsCons(q, batch[i..]);
        assert batch[i..][0] == batch[i] && batch[i..][1..] == batch[i + 1..];
        DeviceActs(batch[i]);
        SharedInv();
        ExtendsTrans(start, before, q);
      }
      RunNoSteps(q);
    }

    lemma SharedInv()
      requires Shared()
      ensures q.Inv()
    {
    }

    // ---------- the driver's side ----------

    /** `drain_rx_queue`. The device acts between any two accesses to the shared memory, as often as the
        schedule says. At the end nothing is unread; every completion that was not empty has reached the
        handler once, in the order of the used ring. */
    method DrainRxQueue(schedule: seq<seq<DevStep>>) returns (delivered: nat)
      requires Valid() && AllConform(schedule)
      modifies this, availRing, usedRing, buffers
      ensures Valid() && q.nRead == q.nUsed && notifies == old(notifies)
      ensures old(q).completions <= q.completions && handled == Frames(q.completions) && HandsOver(handled, q.completions)
      ensures old(handled) <= handled && delivered == |handled| - |old(handled)|
      ensures schedule == [] ==> q.nUsed == old(q).nUsed
    {
      hide HandsOver, Rx.Inv, Slot, Wrap, RingPos, Window, Conserved, UsedIds, Rx.Unread, AllConform, Frames;
      delivered := 0;
      var rest := schedule;
      while true
        invariant Valid() && AllConform(rest) && notifies == old(notifies)
        invariant old(q).completions <= q.completions
        invariant schedule == [] ==> rest == [] && q.nUsed == old(q).nUsed
        invariant old(handled) <= handled && delivered == |handled| - |old(handled)|
        decreases |rest|, q.nUsed - q.nRead
      {
        ghost var before := q;
        rest := Interleave(rest);
        SamePrefix(before.completions, q.completions, q.nRead);
        InvMeans(q);
        if lastUsed == usedIdx {
          assert q.completions[..q.nRead] == q.completions;
          BuffersWhole(q);
          FramesHandOver(q.completions);
          break;
        }
        var count;
        count, rest := Round(rest);
        delivered := delivered + count;
      }
    }

    /** One round of the loop, from the loads of the used entry to the step of `last_used`. */
    method Round(schedule: seq<seq<DevStep>>) returns (count: nat, rest: seq<seq<DevStep>>)
      requires Valid() && AllConform(schedule) && q.nRead < q.nUsed
      modifies this, availRing, usedRing, buffers
      ensures Valid() && AllConform(rest) && Advances(old(q), q, schedule, rest) && notifies == old(notifies)
      ensures old(handled) <= handled && count == |handled| - |old(handled)|
    {
      hide Rx.Inv, Wrap, AllConform, Frames, Conforming;
      FramesStep(q.completions, q.nRead);
      ghost var before := q;
      var id;
      id, count, rest := ReadAndDeliver(schedule);
      ghost var mid := q;
      rest := Repost(id, rest);
      SamePrefix(before.completions, mid.completions, q.nRead);
      SamePrefix(mid.completions, q.completions, q.nRead);
    }

    method ReadAndDeliver(schedule: seq<seq<DevStep>>) returns (id: nat, count: nat, rest: seq<seq<DevStep>>)
      requires Shared() && AllConform(schedule) && lastUsed == Wrap(q.nRead) && q.nRead < q.nUsed
      modifies usedRing, buffers, `usedIdx, `seen, `devAvail, `held, `q, `handled
      ensures Shared() && Extends(old(q), q) && AllConform(rest) && Consumes(old(q), q, schedule, rest)
      ensures q.nRead < |q.completions| && id == q.completions[q.nRead].id
      ensures var c := old(q).completions[q.nRead];
              handled == old(handled) + (if c.len > 0 then [c.Frame()] else []) && count == (if c.len > 0 then 1 else 0)
    {
      hide Wrap, AllConform, Rx.Inv;
      var len;
      id, len, rest := ReadEntry(schedule);
      rest := Interleave(rest);
      count := Deliver(id, len);
      rest := Interleave(rest);
    }

    /** Loads the two words of the oldest unread used entry. */
    method ReadEntry(schedule: seq<seq<DevStep>>) returns (id: nat, len: nat, rest: seq<seq<DevStep>>)
      requires Shared() && AllConform(schedule) && lastUsed == Wrap(q.nRead) && q.nRead < q.nUsed
      modifies usedRing, buffers, `usedIdx, `seen, `devAvail, `held, `q
      ensures Shared() && Extends(old(q), q) && AllConform(rest) && Consumes(old(q), q, schedule, rest)
      ensures id == old(q).completions[q.nRead].id && len == old(q).completions[q.nRead].len
    {
      hide Slot, Wrap, RingPos, Window, Conserved, UsedIds;
      RingPosOf(q.nRead, depth);
      rest := Interleave(schedule);
      var pos := RingPos(lastUsed, depth);
      assert q.Unread(q.nRead);
      id := usedRing[pos].id;
      rest := Interleave(rest);
      assert q.Unread(q.nRead);
      len := usedRing[pos].len;
    }

    /** Passes the frame to the handler unless it is empty: as much of the buffer as the device reported, at
        most 1526 bytes. */
    method Deliver(id: nat, len: nat) returns (count: nat)
      requires Shared() && q.nRead < q.nUsed
      requires id == q.completions[q.nRead].id && len == q.completions[q.nRead].len
      modifies `handled
      ensures var c := q.completions[q.nRead];
              handled == old(handled) + (if c.len > 0 then [c.Frame()] else []) && count == (if c.len > 0 then 1 else 0)
      ensures var c := q.completions[q.nRead];
              c.len > 0 ==> var f := handled[|handled| - 1]; f <= c.data && |f| == if c.len < 1526 then c.len else 1526
    {
      hide Slot, Wrap, RingPos, Window, Conserved, UsedIds;
      assert q.Unread(q.nRead);
      count := 0;
      if id < QUEUE_DEPTH {
        assert buffers[id] in q.buffers;
        var n := if len < RX_BUF_LEN then len else RX_BUF_LEN;
        if n > 0 {
          handled := handled + [buffers[id][..n]];
          count := 1;
        }
      }
    }

    /** Puts the descriptor back on the avail ring and steps the two indices. */
    method Repost(id: nat, schedule: seq<seq<DevStep>>) returns (rest: seq<seq<DevStep>>)
      requires Shared() && AllConform(schedule) && lastUsed == Wrap(q.nRead) && q.nRead < q.nUsed
      requires id == q.completions[q.nRead].id
      modifies availRing, usedRing, buffers, `availIdx, `lastUsed, `usedIdx, `seen, `devAvail, `held, `q
      ensures Shared() && AllConform(rest) && Advances(old(q), q, schedule, rest) && lastUsed == Wrap(q.nRead)
    {
      hide Wrap, AllConform, Rx.Unread, Window, Conserved;
      rest := FillSlot(id, schedule);
      rest := StepIndices(id, rest);
    }

    method FillSlot(id: nat, schedule: seq<seq<DevStep>>) returns (rest: seq<seq<DevStep>>)
      requires Shared() && AllConform(schedule) && q.nRead < q.nUsed
      modifies availRing, usedRing, buffers, `usedIdx, `seen, `devAvail, `held, `q
      ensures Shared() && AllConform(rest) && Consumes(old(q), q, schedule, rest)
      ensures q.nRead == old(q).nRead && q.availRing[Slot(q.nAvail, depth)] == id
    {
      StoreSlotKeepsInv(q, id);
      hide Rx.Unread, Window, Conserved, Wrap, AllConform, RingPos, Slot;
      q := StoreAvailSlot(q, id);
      availRing[RingPos(availIdx, depth)] := id;
      rest := Interleave(schedule);
    }

    method StepIndices(ghost id: nat, schedule: seq<seq<DevStep>>) returns (rest: seq<seq<DevStep>>)
      requires Shared() && AllConform(schedule) && lastUsed == Wrap(q.nRead) && q.nRead < q.nUsed
      requires id == q.completions[q.nRead].id && q.availRing[Slot(q.nAvail, depth)] == id
      modifies usedRing, buffers, `availIdx, `lastUsed, `usedIdx, `seen, `devAvail, `held, `q
      ensures Shared() && AllConform(rest) && Advances(old(q), q, schedule, rest) && lastUsed == Wrap(q.nRead)
    {
      hide Rx.Inv, Wrap, AllConform, RingPos, Slot, Advances, Extends;
      PublishKeepsInv(q);
      WrapStep(q.nRead);
      ghost var before := q;
      Publish();
      rest := Interleave(schedule);
      Advanced(before, q, schedule, rest);
      lastUsed := Wrap(lastUsed + 1);
    }

    method Publish()
      requires Mirrors() && PublishAvail(q).Shape()
      modifies `availIdx, `q
      ensures Mirrors() && q == PublishAvail(old(q))
    {
      q := PublishAvail(q);
      availIdx := Wrap(availIdx + 1);
    }

    /** `poll_rx_inner`: the device is kicked when one of the completions consumed was not empty, and only
        then, although the buffers of the empty ones are back on the avail ring as well. */
    method PollRx(ready: bool, schedule: seq<seq<DevStep>>) returns (r: Result<nat, PollError>)
      requires Valid() && AllConform(schedule)
      modifies this, availRing, usedRing, buffers
      ensures Valid() && r.Ok? == ready
      ensures !ready ==> q == old(q) && handled == old(handled) && notifies == old(notifies)
      ensures r.Ok? ==> && q.nRead == q.nUsed && handled == Frames(q.completions) && HandsOver(handled, q.completions)
                        && old(q).completions <= q.completions
                        && old(handled) <= handled && r.value == |handled| - |old(handled)|
                        && notifies == old(notifies) + if SomeFrame(q.completions, old(q).nRead) then 1 else 0
      ensures schedule == [] ==> q.nUsed == old(q).nUsed
    {
      hide Rx.Inv, Wrap, AllConform, Frames, SomeFrame, HandsOver;
      if !ready {
        return Err(DeviceNotReady);
      }
      ghost var from := q.nRead;
      ghost var before := q.completions;
      var delivered := DrainRxQueue(schedule);
      SamePrefix(before, q.completions, from);
      FramesDelivered(q.completions, from);
      if delivered > 0 {
        notifies := notifies + 1;
      }
      r := Ok(delivered);
    }
  }

  /** Some completion from the `n`-th on was not empty. */
  ghost predicate SomeFrame(cs: seq<Completion>, n: nat) { exists i :: n <= i < |cs| && cs[i].len > 0 }

  lemma {:induction false} FramesDelivered(cs: seq<Completion>, n: nat)
    requires n <= |cs|
    ensures |Frames(cs)| >= |Frames(cs[..n])|
    ensures |Frames(cs)| > |Frames(cs[..n])| <==> SomeFrame(cs, n)
    decreases |cs|
  {
    if n < |cs| {
      var front := cs[..|cs| - 1];
      FramesDelivered(front, n);
      assert front[..n] == cs[..n];
      assert SomeFrame(front, n) ==> SomeFrame(cs, n);
      assert SomeFrame(cs, n) ==> SomeFrame(front, n) || cs[|cs| - 1].len > 0;
    } else {
      assert cs[..n] == cs;
    }
  }

  /** One poll of a fresh ring of one, after its device has filled the buffer with `data`, reported `len` and
      returned it: the handler sees what was reported, the buffer is back on the avail ring, and the device is
      kicked unless the frame was empty. */
  method OnePoll(data: seq<Byte>, len: nat) returns (handled: seq<seq<Byte>>, lastUsed: nat, availIdx: nat, kicks: nat)
    requires |data| == 1526
    ensures handled == if len == 0 then [] else [data[..if len < 1526 then len else 1526]]
    ensures lastUsed == 1 && availIdx == 2 && kicks == if len > 0 then 1 else 0
  {
    hide Rx.Inv, Rx.Shape, Frames, HandsOver, SomeFrame, AllConform, Wrap, RxVirtqueue.Valid, RxVirtqueue.Shared,
         RxVirtqueue.Mirrors;
    var rx := new RxVirtqueue(1);
    ReturnOne(rx, data, len);
    ghost var c := Completion(0, data, len);
    NothingConforms();
    var r := rx.PollRx(true, []);
    rx.ValidMeans();
    handled, lastUsed, availIdx, kicks := rx.handled, rx.lastUsed, rx.availIdx, rx.notifies;
    PolledOnce(rx.q, c);
  }

  /** The device of a fresh ring of one takes, fills and returns its descriptor. */
  method ReturnOne(rx: RxVirtqueue, data: seq<Byte>, len: nat)
    requires rx.Valid() && rx.depth == 1 && rx.q.nSeen == rx.q.nUsed == rx.q.nRead == 0 && rx.q.completions == []
    requires |data| == RX_BUF_LEN
    modifies rx, rx.usedRing, rx.buffers
    ensures rx.Valid() && rx.q.nRead == 0 && rx.q.nUsed == 1 && rx.q.completions == [Completion(0, data, len)]
    ensures rx.notifies == old(rx.notifies)
  {
    hide Rx.Inv, DeviceStep, Frames, Wrap;
    ghost var q0 := rx.q;
    rx.DeviceActs(LoadIndex);
    rx.DeviceActs(Fetch);
    ghost var q1 := rx.q;
    TakesNext(q0);
    FirstId(q0);
    rx.DeviceActs(Fill(0, data));
    rx.DeviceActs(StoreId(0, 0));
    rx.DeviceActs(StoreLen(0, len));
    rx.DeviceActs(Return(0));
    ReturnsFilled(q1, 0, data, len);
    assert rx.q.completions[..0] == q0.completions[..0];
  }

  /** A device can take the oldest descriptor that waits. */
  lemma TakesNext(q: Rx)
    requires q.Inv() && q.nFetched < q.nAvail
    ensures DeviceStep(q, LoadIndex).Shape()
    ensures var r := DeviceStep(DeviceStep(q, LoadIndex), Fetch);
            && r.Inv() && Extends(q, r) && r.held == q.held + [q.Avail()[0]] && r.nUsed == q.nUsed && r.completions == q.completions
  {
    hide Conserved, UsedIds, RingPos, Slot, Wrap;
    LoadIndexKeepsInv(q);
    var s := DeviceStep(q, LoadIndex);
    FetchKeepsInv(s);
    WrapDiffers(s.nFetched, s.nSeen);
    RingPosOf(s.nFetched, s.depth);
  }

  lemma WrapDiffers(m: nat, n: nat)
    requires m < n < m + 65536
    ensures Wrap(m) != Wrap(n)
  {
    if Wrap(m) == Wrap(n) { WrapInjective(m, n); }
  }

  lemma FirstId(q: Rx)
    requires q.Inv() && q.depth == 1 && q.nFetched == 0
    ensures q.Avail() == [0] && q.held == []
  {
    hide Slot, RingPos, Wrap;
    var all := q.Avail() + q.held + UsedIds(q.Used());
    OneId(all);
    assert all == q.Avail();
  }

  /** A device can fill any descriptor it holds with any data and return it with any length. */
  lemma ReturnsFilled(q: Rx, k: nat, data: seq<Byte>, len: nat)
    requires q.Inv() && k < |q.held| && |data| == RX_BUF_LEN
    ensures DeviceStep(q, Fill(k, data)).Shape() && DeviceStep(DeviceStep(q, Fill(k, data)), StoreId(0, k)).Shape()
    ensures DeviceStep(DeviceStep(DeviceStep(q, Fill(k, data)), StoreId(0, k)), StoreLen(0, len)).Shape()
    ensures var t := DeviceStep(DeviceStep(DeviceStep(q, Fill(k, data)), StoreId(0, k)), StoreLen(0, len));
            var r := DeviceStep(t, Return(k));
            && r.Inv() && Extends(q, r) && r.nUsed == q.nUsed + 1 && r.held == Drop(q.held, k)
            && r.completions == q.completions + [Completion(q.held[k], data, len)]
  {
    hide Rx.Inv, Window, Conserved, UsedIds, Slot, RingPos;
    InvShape(q);
    HeldInRange(q, k);
    WrapOfIndex(q);
    FillKeepsInv(q, k, data);
    var s := DeviceStep(q, Fill(k, data));
    StoreIdKeepsInv(s, 0, k);
    var t := DeviceStep(s, StoreId(0, k));
    StoreLenKeepsInv(t, 0, len);
    var u := DeviceStep(t, StoreLen(0, len));
    InvShape(s);
    InvShape(t);
    InvShape(u);
    ReturnKeepsInv(u, k);
  }

  lemma WrapOfIndex(q: Rx)
    requires q.Inv()
    ensures Wrap(q.usedIdx + 0) == q.usedIdx
  {
    hide Window, Conserved, UsedIds, Slot, RingPos;
  }

  lemma OneId(all: seq<nat>)
    requires multiset(all) == multiset(Ids(1))
    ensures all == [0]
  {
    PermutationOfIds(all, 1);
    assert all[0] in all;
  }

  lemma NothingConforms()
    ensures AllConform([])
  {
  }

  lemma PolledOnce(q: Rx, c: Completion)
    requires q.Inv() && q.depth == 1 && q.nRead == q.nUsed == 1 && [c] <= q.completions && |c.data| == 1526
    ensures q.availIdx == 2 && Wrap(q.nRead) == 1
    ensures Frames(q.completions) == if c.len == 0 then [] else [c.data[..if c.len < 1526 then c.len else 1526]]
    ensures SomeFrame(q.completions, 0) <==> c.len > 0
  {
    assert q.completions == [c] && [c][..0] == [];
  }

  /** Device steps were taken from the schedule; completions may have been added. */
  ghost predicate Consumes(before: Rx, after: Rx, schedule: seq<seq<DevStep>>, rest: seq<seq<DevStep>>) {
    && before.completions <= after.completions && before.nUsed <= after.nUsed
    && |rest| <= |schedule| && (schedule == [] ==> rest == [] && after.nUsed == before.nUsed)
  }

  /** The same, with one entry of the used ring consumed by the driver. */
  ghost predicate Advances(before: Rx, after: Rx, schedule: seq<seq<DevStep>>, rest: seq<seq<DevStep>>) {
    Consumes(before, after, schedule, rest) && after.nRead == before.nRead + 1 && after.nRead <= after.nUsed
  }

  lemma Advanced(before: Rx, after: Rx, schedule: seq<seq<DevStep>>, rest: seq<seq<DevStep>>)
    requires before.Shape() && before.nRead < before.nUsed && Extends(PublishAvail(before), after)
    requires rest == (if schedule == [] then [] else schedule[1..])
    requires schedule == [] ==> after == PublishAvail(before)
    ensures Advances(before, after, schedule, rest) && after.nRead == before.nRead + 1
  {
  }

  ghost predicate AllConform(schedule: seq<seq<DevStep>>) {
    forall i, j :: 0 <= i < |schedule| && 0 <= j < |schedule[i]| ==> Conforming(schedule[i][j])
  }

  lemma FirstConforms(schedule: seq<seq<DevStep>>)
    requires AllConform(schedule) && schedule != []
    ensures Conform(schedule[0]) && AllConform(schedule[1..])
  {
    hide Conforming;
  }

  lemma ExtendsSelf(q: Rx)
    ensures Extends(q, q)
  {
  }

  lemma ExtendsTrans(a: Rx, b: Rx, c: Rx)
    requires Extends(a, b) && Extends(b, c)
    ensures Extends(a, c)
  {
  }

  lemma SamePrefix<T>(a: seq<T>, b: seq<T>, n: nat)
    requires a <= b && n <= |a|
    ensures a[..n] == b[..n]
  {
  }

  lemma FramesStep(cs: seq<Completion>, n: nat)
    requires n < |cs|
    ensures Frames(cs[..n + 1]) == Frames(cs[..n]) + if cs[n].len > 0 then [cs[n].Frame()] else []
  {
    assert cs[..n + 1][..n] == cs[..n];
  }

  lemma InitialInv(q: Rx)
    requires q.Shape() && q.nRead == 0 && q.nUsed == 0 && q.nFetched == 0 && q.nSeen == 0 && q.held == [] && q.completions == []
    requires q.availIdx == q.depth && q.usedIdx == 0 && q.devAvail == 0 && q.seen == 0
    requires forall i :: 0 <= i < q.depth ==> q.availRing[i] == i
    requires forall b :: b in q.buffers ==> |b| == RX_BUF_LEN
    ensures q.Inv()
  {
    forall i | 0 <= i < q.depth ensures q.Avail()[i] == i { assert Slot(i, q.depth) == i; }
    assert q.Avail() + q.held + UsedIds(q.Used()) == Ids(q.depth);
  }
}
