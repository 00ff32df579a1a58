# Verified models of the Sovereign stack

Dafny models of the stateful core of the repository, with proofs about every call and about whole runs.
`dafny verify dfyconfig.toml` checks all of it. Each file starts with a short description of what it models.

| files | component |
|---|---|
| `BuddyBlocks.dfy`, `BuddyAllocator.dfy` | the buddy allocator with its intrusive free lists |
| `Rings.dfy`, `RxQueue.dfy`, `TxQueue.dfy` | the split virtqueues of the network driver (VIRTIO 1.1, section 2.6), against a device that runs at the same time |
| `Seqlock.dfy` | the telemetry page: one writer, any number of readers, every atomic access a step |
| `CausalBuffer.dfy` | the causal reorder buffer |
| `Metronome.dfy` | the daemon's constant-rate egress with partial writes and cover frames |
| `Vault.dfy` | the ZipPIR vault and the nearest-node search |
| `Dht.dfy` | the trust-gated k-bucket table |
| `EpochSweep.dfy` | the epoch sweeper |
| `Aead.dfy`, `Stream.dfy`, `MixPacket.dfy` | the chunk stream and the three-layer mix packet over an abstract AEAD (RFC 8439, section 2.8) |
| `GroupTree.dfy` | the 3-ary distribution tree |
| `Arithmetic.dfy`, `Bytes.dfy`, `Wrappers.dfy` | powers of two, exclusive or, big-endian numbers, `Option` and `Result` |

The pattern is the same everywhere. A datatype or a pure function gives the meaning of a call; a class with
the source's fields performs it in place, and its contract equates the new state with that meaning; lemmas
about the meaning give what holds over all runs. The classes of the virtqueues and of the telemetry page take
a schedule: the steps of the device, or of the other threads, that happen between any two accesses to shared
memory. All results hold for every schedule. Memory is sequentially consistent.

Clocks, random numbers, hashes, signatures, the socket's answers, readiness flags and reputation scores are
parameters.

## What the proofs show about the code

- The allocator aligns blocks relative to the base of the pool, so the alignment of a request is met exactly
  when the base itself has it (`Buddy.MisalignedRequest` shows one that is not). The comment at
  `pq-core/crates/sovereign-alloc/src/buddy.rs:14` gives 16 MiB as the largest block; the code's limit is 2^16
  units of 512 bytes, which is the whole 32 MiB pool. For a pool of more than 2^16 units `new` indexes past the
  array of heads, and panics.
- A poll that consumed only empty completions does not notify the device, although their buffers are back on
  the avail ring (`RxQueue.OnePoll`).
- The TX guard protects the next slot from a device that returns buffers in order. From one that returns them
  in any order it does so only on a ring of depth 1; the driver asks for 8.
- The reorder buffer never holds more than 49 entries. So its throttle, documented to act at 90 percent
  (`pq-core/crates/pq-daemon/src/causal_buffer.rs:45-47`), never acts with the default capacity of 10000, nor
  with any capacity of 55 or more; and its eviction never meets the entry after `committed_tick`, so the branch
  at lines 84-86 is dead. With a capacity below 50 accepted packets can be lost and the result depends on the
  arrival order.
- A connection that breaks in the middle of a frame leaves the next frames off the 512-byte grid, and a socket
  that keeps reporting zero bytes written keeps `drain_pending` in its loop. Both take a stream socket. The
  daemon passes a connected UDP socket (`pq-core/crates/pq-daemon/src/main.rs:298-320`), whose writes are whole
  datagrams; for such answers `Metronome.DatagramsStayAligned` holds, and one answer ends a
  drain (`Metronome.DrainWhole`).
- Inserting a shard id that is still indexed orphans the row it had: the purge, which goes through the index,
  never empties that row (`Vault.ReuseOrphansRow`).
- The sweep is documented to look at no more than 4 epochs back; it queries those and the current one, so at most
  5. Coverage is complete for a first step of at most 4 and later steps of at most 5.
- A DID that is not on the member list becomes the originator, like the first of the list. The originator's
  own schedule is empty, so no member sends to indices 1 to 3.
- The mix packet starts with 4 bytes of epoch, which the description at
  `pq-core/crates/pq-onion/src/lib.rs:251` does not mention. What the exit hop gets is the payload followed by
  noise; the packet does not say where the payload ends.

## Model

| member | source | states |
|---|---|---|
| BuddyBlocks.RegionInOneBlock | pq-core/crates/sovereign-alloc/src/buddy.rs:79-129 | Completeness: in every canonical tiling, an aligned region whose units are all free lies inside a single free block of at least its order; it is never hidden as fragments |
| BuddyBlocks.FreeRegionExists | pq-core/crates/sovereign-alloc/src/buddy.rs:85-95 | A wholly free aligned region of order t exists if and only if some free block has order at least t, which is what the search over the list heads decides |
| BuddyBlocks.FreeSetDeterminedByLive | pq-core/crates/sovereign-alloc/src/buddy.rs:97-129 | Canonical form: two states with the same live blocks have the same free blocks, whatever calls led to them |
| BuddyBlocks.NothingLive | pq-core/crates/sovereign-alloc/src/buddy.rs:107-129 | With nothing live the free set is the one block of the whole pool |
| BuddyBlocks.SplitKeepsTiling | pq-core/crates/sovereign-alloc/src/buddy.rs:97-104 | Replacing a block by its halves keeps an aligned, disjoint, exact cover of the pool |
| BuddyBlocks.MergeKeepsTiling | pq-core/crates/sovereign-alloc/src/buddy.rs:119-126 | Replacing two buddies by their parent keeps an aligned, disjoint, exact cover of the pool |
| BuddyBlocks.GiveFree | pq-core/crates/sovereign-alloc/src/buddy.rs:119-128 | When merging stops, freeing the block in hand restores tiling and canonical form: no two buddies are both free |
| BuddyBlocks.BuddyIsOtherHalf | pq-core/crates/sovereign-alloc/src/buddy.rs:131-136 | Flipping the size bit of an aligned offset gives the other half of a parent block inside the pool, and doing it twice gives the offset back |
| BuddyBlocks.BuddyInBytes | pq-core/crates/sovereign-alloc/src/buddy.rs:131-136 | The buddy computed on byte offsets is the buddy computed on 512-byte units |
| Buddy.OrderForLayoutExact | pq-core/crates/sovereign-alloc/src/buddy.rs:48-58 | A layout has an order if and only if the largest of its size, its alignment and 512 is a power of two; the block of the order then covers size and alignment and is as large as one of the three |
| Buddy.GlobalRequestOrder | pq-core/crates/sovereign-alloc/src/buddy.rs:162-169 | After rounding, a request gets the least order whose block of 512 * 2^k bytes covers its size and its alignment; it gets none if and only if its size is above 2^62 |
| Buddy.BlockCoversLayout | pq-core/crates/sovereign-alloc/src/buddy.rs:48-105 | A block of the order of a layout passed to alloc is large enough, and its address has the alignment of the layout if and only if the base of the pool has it |
| Buddy.GlobalAddressAligned | pq-core/crates/sovereign-alloc/src/lib.rs:57-73 | A request to the global allocator, whose layout is rounded to an alignment of 512 first, gets a block that is large enough and whose address has the alignment asked for if and only if the base of the pool has it |
| Buddy.MisalignedRequest | pq-core/crates/sovereign-alloc/src/buddy.rs:31-105 | A run: a pool of 8192 bytes at address 4096, asked for 8192 bytes aligned to 8192, hands out its first byte |
| Buddy.PoolFits | pq-core/crates/sovereign-alloc/src/buddy.rs:31-45 | The order of the pool is an index of the array of heads if and only if the pool has at most 2^16 minimum blocks |
| Buddy.BuddyAllocator.New | pq-core/crates/sovereign-alloc/src/buddy.rs:31-46 | Fails exactly for a pool that is not a power of two of at least 512 bytes or has more than 2^16 minimum blocks; otherwise the pool is one free block, nothing live, lists well formed |
| Buddy.BuddyAllocator.PushFree | pq-core/crates/sovereign-alloc/src/buddy.rs:60-66 | The linked list in memory gains the offset at its head; the other lists and their separation are undisturbed |
| Buddy.BuddyAllocator.PopFree | pq-core/crates/sovereign-alloc/src/buddy.rs:68-77 | Returns and unlinks the head of the list, or nothing if the list is empty |
| Buddy.BuddyAllocator.TakeBuddy | pq-core/crates/sovereign-alloc/src/buddy.rs:138-160 | Returns true if and only if the buddy is on the list, and then exactly that node is unlinked, whether head or inner node |
| Buddy.BuddyAllocator.SplitDown | pq-core/crates/sovereign-alloc/src/buddy.rs:97-103 | From the block in hand down to the target order, each upper half is put on its own list; the tiling is kept |
| Buddy.BuddyAllocator.Alloc | pq-core/crates/sovereign-alloc/src/buddy.rs:79-105 | Returns null if and only if the layout has no order or no aligned region of that order is wholly free; otherwise a block that was not live becomes live, and the lists are the carved ones; the invariant holds |
| Buddy.BuddyAllocator.MergeUp | pq-core/crates/sovereign-alloc/src/buddy.rs:116-128 | Merges with the free buddy order by order and frees the result; the invariant, canonical form included, holds again |
| Buddy.BuddyAllocator.Dealloc | pq-core/crates/sovereign-alloc/src/buddy.rs:107-129 | Null and layouts without an order change nothing; otherwise exactly this block stops being live and is coalesced |
| Buddy.BuddyAllocator.ClientWrite | pq-core/crates/sovereign-alloc/src/buddy.rs:16-19 | The owner of a live block may overwrite any of its words: no list runs through a live block, so the links survive |
| Buddy.BuddyAllocator.AllocThenDealloc | pq-core/crates/sovereign-alloc/src/buddy.rs:79-129 | For every layout, freeing what was just allocated restores the same set of free blocks |
| Buddy.BuddyAllocator.FreeAll | pq-core/crates/sovereign-alloc/src/buddy.rs:107-129 | Freeing every live block, in any order, leaves the whole pool as one free block |
| RxQueue.DeviceStepKeepsInv | pq-core/crates/sovereign-kernel/src/virtio/net.rs:619-659 | Whatever single access a conforming device makes next (loading the avail index, taking a descriptor, writing a buffer, writing either word of a used entry, publishing one), descriptor ids stay a permutation over avail window, device and used window, and no unread used entry or its buffer is overwritten |
| RxQueue.FillKeepsInv | pq-core/crates/sovereign-kernel/src/virtio/net.rs:629-643 | A device may write a buffer it holds any number of times without disturbing one the driver has not read |
| RxQueue.StoreEntryKeepsInv | pq-core/crates/sovereign-kernel/src/virtio/net.rs:629-631 | A device may write used entries ahead of its index, as many as it holds descriptors, without disturbing one the driver has not read |
| RxQueue.ReturnKeepsInv | pq-core/crates/sovereign-kernel/src/virtio/net.rs:625-648 | Publishing a used entry that names a held descriptor moves just that id to the used window |
| RxQueue.StoreSlotKeepsInv | pq-core/crates/sovereign-kernel/src/virtio/net.rs:645-647 | The driver's store before the index is published touches no entry of the unread avail window, across 16-bit wrap-around |
| RxQueue.PublishKeepsInv | pq-core/crates/sovereign-kernel/src/virtio/net.rs:648-649 | Publishing the index moves the oldest used id back to the avail window and conserves the permutation |
| RxQueue.InvMeans | pq-core/crates/sovereign-kernel/src/virtio/net.rs:619-659 | Between rounds the ids in the three places are each id below the depth exactly once, avail.idx minus last_used is the depth modulo 2^16, and equal 16-bit used indices mean that nothing is unread |
| RxQueue.FramesHandOver | pq-core/crates/sovereign-kernel/src/virtio/net.rs:633-643 | The frames of a run of completions are one for each that is not empty, in their order, each the start of the buffer, as long as the device reported and at most 1526 bytes |
| RxQueue.TakesNext | pq-core/crates/sovereign-kernel/src/virtio/net.rs:619-659 | The modelled device can always take the oldest descriptor that waits |
| RxQueue.ReturnsFilled | pq-core/crates/sovereign-kernel/src/virtio/net.rs:619-659 | It can fill any descriptor it holds with any data and return it with any length, and this is then the next completion |
| Rings.WrapsAt16Bits | pq-core/crates/sovereign-kernel/src/virtio/net.rs:648-649 | The indices wrap at 65536 |
| Rings.SlotOfIndex | pq-core/crates/sovereign-kernel/src/virtio/net.rs:629-646 | Masking the wrapped 16-bit index with depth minus 1 finds the slot of the counter that never wraps |
| Rings.WindowPush | pq-core/crates/sovereign-kernel/src/virtio/net.rs:645-648 | Writing the slot after a window that is not full extends the window and disturbs no entry of it |
| RxQueue.RxVirtqueue.constructor | pq-core/crates/sovereign-kernel/src/virtio/net.rs:340-384 | All depth descriptors start in the avail window, with nothing held or used |
| RxQueue.RxVirtqueue.DrainRxQueue | pq-core/crates/sovereign-kernel/src/virtio/net.rs:619-659 | For every schedule of single accesses by a conforming device between any two shared accesses of the driver: at the end nothing is unread, and the handler has been given, in used-ring order, exactly one slice for each non-empty completion: the first min(len, 1526) bytes of what the device returned; the count returned is the number handed over |
| RxQueue.RxVirtqueue.Deliver | pq-core/crates/sovereign-kernel/src/virtio/net.rs:633-643 | The handler gets a prefix of the buffer the device filled, of min(len, 1526) bytes, and nothing for an empty frame |
| RxQueue.RxVirtqueue.PollRx | pq-core/crates/sovereign-kernel/src/virtio/net.rs:661-688 | Fails without effect when not ready; otherwise drains, and kicks the device once if and only if one of the completions it consumed was not empty |
| RxQueue.OnePoll | pq-core/crates/sovereign-kernel/src/virtio/net.rs:619-688 | One poll of a ring of one whose device has returned its buffer with any data and length: the handler sees what was reported, the buffer is back on the avail ring, and the device is kicked if and only if the frame was not empty |
| TxQueue.NextSlotOwnedIffFull | pq-core/crates/sovereign-kernel/src/virtio/net.rs:691-705 | The in-flight count from two wrapped indices is the true number in flight, and the next slot is still owned by the device if and only if that count has reached the depth |
| TxQueue.GuardSoundIff | pq-core/crates/sovereign-kernel/src/virtio/net.rs:691-738 | Against a conforming device that sends and returns descriptors in any order, its single accesses interleaved with the single stores of the driver, the guard protects the next slot in every run if and only if the depth is 1 |
| TxQueue.InOrderGuardSound | pq-core/crates/sovereign-kernel/src/virtio/net.rs:691-738 | Against one that returns in order, in every run at every depth |
| TxQueue.OutOfOrderDefeatsGuard | pq-core/crates/sovereign-kernel/src/virtio/net.rs:691-720 | On every full ring of depth at least 2, sending and returning the second descriptor first makes the guard pass while the device still owns the next slot |
| TxQueue.SpinExitOverwrites | pq-core/crates/sovereign-kernel/src/virtio/net.rs:699-722 | What the exit after 4096 spins leads to: the slot filled next is that of the oldest post the device still owns, and the queue stays consistent if and only if the new block equals the one it overwrites |
| TxQueue.DeviceStepKeepsInv | pq-core/crates/sovereign-kernel/src/virtio/net.rs:691-738 | Whatever single access an in-order device makes next (loading the avail index, taking, sending or returning a descriptor), every posted block is intact until its descriptor is returned, and the wire is a prefix of what was posted |
| TxQueue.PostKeepsInv | pq-core/crates/sovereign-kernel/src/virtio/net.rs:719-738 | A post on a ring that is not full rewrites nothing the device owns |
| TxQueue.TxVirtqueue.WaitTxRingSlot | pq-core/crates/sovereign-kernel/src/virtio/net.rs:691-705 | It ends at the first look that finds fewer than depth posts unreturned, or after exactly 4097 looks, with a batch of device accesses before each, that all found the ring full |
| TxQueue.TxVirtqueue.SendFrame | pq-core/crates/sovereign-kernel/src/virtio/net.rs:708-738 | slot stays congruent to avail.idx modulo the depth; the block joins the posted ones exactly once, unless each of 4097 looks finds a full ring; what the device has sent is always a prefix of what was posted; not ready means no effect |
| TxQueue.DeviceCanFinish | pq-core/crates/sovereign-kernel/src/virtio/net.rs:691-738 | From every reachable state the modelled device can send everything that was posted and return every descriptor |
| Seqlock.SnapshotsLinearizable | pq-core/crates/pq-dashboard/src-tauri/src/metrics.rs:80-137 | In every run of one writer and any readers, step by step, each returned snapshot with seq 2n is the whole n-th published sample (zeros for n = 0), n lies between the publications completed at call and at return, and one reader's snapshots never go backwards |
| Seqlock.WriterKeepsReader | pq-core/crates/pq-dashboard/src-tauri/src/metrics.rs:80-95 | A half-made copy is either still one publication or marked stale by the sequence number, whatever the writer does next |
| Seqlock.StepKeepsInv | pq-core/crates/pq-dashboard/src-tauri/src/metrics.rs:80-137 | Every single atomic step of any thread keeps the invariant |
| Seqlock.UndisturbedReaderReturns | pq-core/crates/pq-dashboard/src-tauri/src/metrics.rs:101-131 | A reader that runs alone while no publication is in progress returns the latest sample in one pass |
| Seqlock.AtomicTelemetry.PublishFromMetronome | pq-core/crates/pq-dashboard/src-tauri/src/metrics.rs:80-95 | With readers between any two stores, the sample becomes the one next publication, seq grows by two and the fields hold the sample |
| Seqlock.AtomicTelemetry.Snapshot | pq-core/crates/pq-dashboard/src-tauri/src/metrics.rs:101-137 | With the writer and other readers between any two loads, what is returned is one whole publication made between call and return; there is no result only if the other threads have done all that was scheduled and left seq odd; if the writer is idle and stays so, the latest sample is returned |
| Causal.DeliveryIsGapFree | pq-core/crates/pq-daemon/src/causal_buffer.rs:48-107 | For any capacity and any run: buffered ticks lie in committed+2 .. committed+50, and the total output is ticks 1..committed in order, each once, with the last payload accepted for it |
| Causal.EvictOnlyRemoves | pq-core/crates/pq-daemon/src/causal_buffer.rs:73-90 | Eviction in a reachable state only removes entries; its branch that advances committed_tick never acts |
| Causal.ExtractCommits | pq-core/crates/pq-daemon/src/causal_buffer.rs:95-100 | Extraction commits exactly the consecutive run after committed_tick, removes exactly that run and leaves no committable entry |
| Causal.CommittedAtMostCalls | pq-core/crates/pq-daemon/src/causal_buffer.rs:48-107 | Committed ticks plus buffered entries never exceed the number of calls |
| Causal.AcceptsIff | pq-core/crates/pq-daemon/src/causal_buffer.rs:49-71 | A packet is accepted if and only if its tick is after the committed one and at most 50 ahead, and not both of low priority and met by a buffer more than 0.90 full; what is not accepted changes nothing |
| Causal.EvictsOldest | pq-core/crates/pq-daemon/src/causal_buffer.rs:76-90 | Eviction takes the oldest entries, just so many that there is room for one more |
| Causal.DefaultNeverActs | pq-core/crates/pq-daemon/src/causal_buffer.rs:6 | With the default capacity of 10000 no run evicts or throttles, and the buffer holds at most 49 entries |
| Causal.NeverEvictsIff | pq-core/crates/pq-daemon/src/causal_buffer.rs:76-90 | No entry is evicted in any run if and only if the capacity is at least 50 |
| Causal.ThrottleReachableIff | pq-core/crates/pq-daemon/src/causal_buffer.rs:55-59 | Some run reaches a state in which the throttle drops a packet if and only if the capacity is below 55; with the default of 10000 it never acts |
| Causal.CommittedIsLargestPrefix | pq-core/crates/pq-daemon/src/causal_buffer.rs:61-106 | With capacity at least 50, committed_tick is always the largest n with all of 1..n accepted, and nothing accepted is lost |
| Causal.Confluence | pq-core/crates/pq-daemon/src/causal_buffer.rs:48-107 | With capacity at least 50, two arrival orders of the same ticks, one payload per tick, neither throttled nor beyond the horizon, give the same state and the same total output |
| Causal.ConfluentIff | pq-core/crates/pq-daemon/src/causal_buffer.rs:48-107 | This confluence holds if and only if the capacity is at least 50 |
| Causal.PermutedTicks | pq-core/crates/pq-daemon/src/causal_buffer.rs:48-107 | Every permutation of a list of packets is such an arrival order of the same ticks |
| Causal.CausalBuffer.ProcessPacket | pq-core/crates/pq-daemon/src/causal_buffer.rs:48-107 | The new state and the output are those of the specification function the run theorems are about: throttle, horizon, late check, eviction, insertion, extraction in that order |
| Metronome.WireIsWholeFrames | pq-core/crates/pq-daemon/src/bridge/metronome.rs:233-289 | Over any run without Broken or Fatal results the bytes written are whole frames in the order started, then the first offset bytes of the pending frame; the real ones leave in FIFO order without loss or repetition; the cover ones are consecutive non-overlapping keystream windows |
| Metronome.FramesAlignedIff | pq-core/crates/pq-daemon/src/bridge/metronome.rs:241-285 | With failures allowed, every frame starts at a multiple of 512 on the wire if and only if no tick that gets a Broken or Fatal answer at an offset other than 0 is followed by one that starts a frame |
| Metronome.BrokenAfterOneByte | pq-core/crates/pq-daemon/src/bridge/metronome.rs:269-281 | A run: Wrote(1), then Broken; the next frame starts at byte 1 |
| Metronome.DrainWhole | pq-core/crates/pq-daemon/src/bridge/metronome.rs:269-289 | On such a socket one answer ends the loop, and no frame is ever partly sent |
| Metronome.DatagramsStayAligned | pq-core/crates/pq-daemon/src/bridge/metronome.rs:268-289 | On a datagram socket, as that of the daemon, whose writes take whole frames, every frame starts at a multiple of 512 however often it breaks |
| Metronome.WhatATickStarts | pq-core/crates/pq-daemon/src/bridge/metronome.rs:241-266 | A tick starts the oldest queued frame if there is one, a cover frame only at a frame boundary with an empty connected queue, and otherwise nothing |
| Metronome.HaltedIff | pq-core/crates/pq-daemon/src/bridge/metronome.rs:205-212 | The loop has ended if and only if some tick, with both gates open and a frame in hand or to start, met Fatal after writes that did not complete the frame; nothing is pending from then on |
| Metronome.HaltedForGood | pq-core/crates/pq-daemon/src/bridge/metronome.rs:205-230 | Once it has ended, no later event puts a byte on the wire, starts a frame or moves the keystream |
| Metronome.OfferedIsEnqueued | pq-core/crates/pq-daemon/src/bridge/metronome.rs:253-264 | Every frame offered while the channel is connected is started or still queued, in order |
| Metronome.WholeTickSends | pq-core/crates/pq-daemon/src/bridge/metronome.rs:253-257 | A tick whose one write takes everything sends the oldest queued frame, whole |
| Metronome.StillAskingIff | pq-core/crates/pq-daemon/src/bridge/metronome.rs:269-289 | After any list of answers the loop is still asking the socket if and only if all were writes and the bytes written so far do not complete the frame |
| Metronome.NeverEndsIff | pq-core/crates/pq-daemon/src/bridge/metronome.rs:269-289 | The loop never ends if and only if every answer is a write and no number of them completes the frame |
| Metronome.NeverEndsOnEmptyWrites | pq-core/crates/pq-daemon/src/bridge/metronome.rs:270-274 | A socket on which it never ends reports, from some point on, only writes of no byte |
| Metronome.ProgressFinishes | pq-core/crates/pq-daemon/src/bridge/metronome.rs:269-289 | If every write takes at least one byte, drain_pending ends, with the frame sent, within as many writes as bytes remain |
| Metronome.EmptyWritesSpin | pq-core/crates/pq-daemon/src/bridge/metronome.rs:270-274 | A socket that reports writes of no byte keeps the loop asking for ever |
| Metronome.HappenKeepsInv | pq-core/crates/pq-daemon/src/bridge/metronome.rs:205-266 | So does every event: enqueue, disconnect, tick |
| Metronome.PendingWrite.Advance | pq-core/crates/sovereign-frame/src/lib.rs:57-64 | Moves the offset, or clears at the end of the frame |
| Metronome.MetronomeThread.FillCover | pq-core/crates/pq-daemon/src/bridge/metronome.rs:168-171 | The cover frame is the next 512 keystream bytes and the position moves by 512 |
| Metronome.MetronomeThread.DrainPending | pq-core/crates/pq-daemon/src/bridge/metronome.rs:269-289 | Does to the real buffer and wire what the specification does for the same answers, and tells whether the loop would go on asking |
| Metronome.MetronomeThread.TickOnce | pq-core/crates/pq-daemon/src/bridge/metronome.rs:233-266 | One tick, gates first, then pending, queue, cover |
| Metronome.MetronomeThread.LoopOnce | pq-core/crates/pq-daemon/src/bridge/metronome.rs:205-212 | One pass of the loop; a fatal outcome clears the pending frame and ends it for good |
| Vault.InsertKeepsInv | pq-core/crates/pq-storage/src/vault.rs:169-237 | Insertion keeps counter, index and matrix consistent, uses an empty row, and succeeds if and only if the present lies in the target epoch, or in the next one within 300 seconds of the change, the shard has at most 512 bytes and the vault is not full; each error is given exactly when it is the first to apply |
| Vault.NotFullHasSlot | pq-core/crates/pq-storage/src/vault.rs:198-205 | A vault that is not full always has an empty slot; the second error is unreachable |
| Vault.PurgeExact | pq-core/crates/pq-storage/src/vault.rs:273-309 | The purge empties exactly the indexed rows at or past the time to live, forgets exactly their ids and lowers the counter by their number |
| Vault.RemoveOneMore | pq-core/crates/pq-storage/src/vault.rs:293-299 | Removing ids one at a time, in any order, is removing the whole set |
| Vault.OntoIffNeverReused | pq-core/crates/pq-storage/src/vault.rs:169-309 | After any run of calls the index names every occupied row if and only if no insertion reused an id that was still indexed |
| Vault.PurgeCleansIff | pq-core/crates/pq-storage/src/vault.rs:169-309 | After any run of calls, a purge at whatever time leaves nothing expired if and only if no insertion reused an id that was still indexed |
| Vault.ReuseOrphansRow | pq-core/crates/pq-storage/src/vault.rs:202-229 | A run: two insertions under one id leave a row that some purge leaves behind expired |
| Vault.QueryLinear | pq-core/crates/pq-storage/src/vault.rs:246-269 | For binary vectors the answer to the exclusive or is the exclusive or of the answers |
| Vault.LinearIffAgree | pq-core/crates/pq-storage/src/vault.rs:258-266 | For arbitrary vectors this holds on every matrix if and only if, row by row, the exclusive or equals 1 exactly when one of the two selectors does |
| Vault.TwoQueriesRecoverRow | pq-core/crates/pq-storage/src/vault.rs:246-269 | Asking for v and for v with bit i flipped and combining recovers row i, or zeros if it is empty |
| Vault.QueryAfterInsert | pq-core/crates/pq-storage/src/vault.rs:207-269 | A unit query after an insertion returns the zero-padded shard |
| Vault.InsertedShardLivesOut | pq-core/crates/pq-storage/src/vault.rs:169-309 | An inserted shard is gone after a purge, with its id, if and only if 48 hours have passed since the clock reading stored with it; other cells that have not expired are untouched |
| Vault.VerifyExact | pq-core/crates/pq-storage/src/vault.rs:328-341 | True exactly for an indexed id whose signature verifies over the id followed by its 512-byte cell, bad signature exactly when it does not, not found exactly for an id that is not indexed |
| Vault.InsertedShardVerifies | pq-core/crates/pq-storage/src/vault.rs:211-228 | A shard verifies right after its insertion, and the insertion changes the verdict on no other id |
| Vault.FindNearestNode | pq-core/crates/pq-storage/src/vault.rs:79-99 | Nothing for no nodes; otherwise the first node at the least 256-bit exclusive-or distance |
| Bytes.LexIsNumeric | pq-core/crates/pq-storage/src/vault.rs:90-96 | Comparing byte arrays of equal length is comparing big-endian numbers |
| Bytes.BigEndianXor | pq-core/crates/pq-storage/src/vault.rs:103-109 | The bytewise exclusive or, read as a number, is the exclusive or of the numbers |
| Vault.ZipPirVault.InsertShard | pq-core/crates/pq-storage/src/vault.rs:169-237 | Returns the row and the state that the specification of insertion gives, or the same error with the state unchanged |
| Vault.ZipPirVault.BlindQuery | pq-core/crates/pq-storage/src/vault.rs:246-269 | A wrong length is an error; otherwise each of the 512 bytes is the exclusive or over the selected occupied rows |
| Vault.ZipPirVault.GuillotinePurge | pq-core/crates/pq-storage/src/vault.rs:273-309 | The new state is the exact purge and the result the number of expired indexed ids |
| Vault.ZipPirVault.VerifyShard | pq-core/crates/pq-storage/src/vault.rs:328-341 | Not found, bad signature or true; an indexed cell is never empty |
| Dht.TableInvariant | pq-core/crates/pq-dht/src/lib.rs:68-99 | After any run of attempts: a record in bucket b > 0 has a distance d with 2^b <= d < 2^(b+1) as a 256-bit number (bucket 0: d <= 1), no bucket exceeds 20, no DID appears twice in the table, every record's DID passed the gate |
| Dht.TableExact | pq-core/crates/pq-dht/src/lib.rs:68-99 | Each bucket holds exactly the first 20 distinct DIDs of that distance that passed the gate, in order, each with its distance and its latest address |
| Dht.InsertAnswers | pq-core/crates/pq-dht/src/lib.rs:68-99 | An error exactly below 0.7, false exactly for a DID that a bucket of 20 does not hold, true otherwise, and then the bucket where the distance belongs holds the DID with the new address; no other bucket changes |
| Dht.BucketIsLog | pq-core/crates/pq-dht/src/lib.rs:47-62 | The computed bucket index is where the distance belongs |
| Dht.LeadingZerosNumeric | pq-core/crates/pq-dht/src/lib.rs:49-60 | The byte-wise count of leading zeros locates the highest one bit of the big-endian number |
| Dht.TrustGatedDht.XorDistance | pq-core/crates/pq-dht/src/lib.rs:40-64 | The one-pass loop computes the distance and its bucket |
| Dht.TrustGatedDht.AttemptInsertNode | pq-core/crates/pq-dht/src/lib.rs:68-99 | Below the gate an error and no change; a known DID gets the new address; a new one joins if there is room; a full bucket refuses |
| EpochSweep.CoverageIff | pq-core/crates/pq-storage/src/sync.rs:31-73 | Over nondecreasing wake-ups, the union of sweeps is exactly the initial cursor to the last epoch (empty before time moves) if and only if the first moving step is at most 4 and every later one at most 5 |
| EpochSweep.SweepIsClamped | pq-core/crates/pq-storage/src/sync.rs:43-67 | A sweep covers exactly the latest epochs back to the cursor, at most five of them |
| EpochSweep.SweepIsBounded | pq-core/crates/pq-storage/src/sync.rs:59-67 | At most five ids per shard are issued, however long the gap |
| EpochSweep.SweepIssues | pq-core/crates/pq-storage/src/sync.rs:59-67 | The k-th id of a sweep is that of epoch first + k / shards and shard k mod shards, from the first epoch to the current one, and there are no others |
| EpochSweep.ConsecutiveSweepsOverlap | pq-core/crates/pq-storage/src/sync.rs:43-70 | Two consecutive nonempty sweeps share exactly the epoch that ended the first, or nothing when the gap exceeds 4 |
| EpochSweep.VaultSynchronizer.SweepEpochs | pq-core/crates/pq-storage/src/sync.rs:31-73 | Issues the ids of exactly the swept epochs, epoch by epoch and shard by shard, and moves the cursor to the current epoch |
| Stream.AuthenticBindsIndex | pq-core/crates/pq-stream/src/lib.rs:30-85 | If whatever opens was sealed under the very nonce and associated data it opens under, then, by the nonces and associated data the stream derives, a ciphertext opens only in its own stream and at its own index |
| Stream.AcceptedIsPrefix | pq-core/crates/pq-stream/src/lib.rs:30-85 | Fed any reordered, repeated or foreign ciphertexts, with other streams under the same key, a fresh decryptor has accepted a prefix of the sender's chunks; authenticity of the cipher is the only hypothesis on what is fed |
| Stream.PrefixSafeIff | pq-core/crates/pq-stream/src/lib.rs:30-85 | This holds under every correct cipher, key and log if and only if the stream has fewer than 2^64 chunks; from then on a replay of the first lap is accepted |
| Stream.IdealIsAuthentic | pq-core/crates/pq-stream/src/lib.rs:45-85 | The hypotheses can be met: for every log there is a correct cipher under which all replays and mixtures of what was sealed, and all byte strings without its one spare tag, are authentic |
| Stream.InOrderRoundTrip | pq-core/crates/pq-stream/src/lib.rs:45-85 | Fed in order from the same index, it accepts all chunks and ends at the sender's index, across the 64-bit wrap |
| Stream.ShatterRoundTrip | pq-core/crates/pq-stream/src/lib.rs:69-99 | Shattering, sealing, opening in order and concatenating gives back the data |
| Stream.NonceRepeatsIff | pq-core/crates/pq-stream/src/lib.rs:30-34 | In a stream that is not reset, calls m and n use the same nonce if and only if they are a multiple of 2^64 apart |
| Stream.NonceInjective | pq-core/crates/pq-stream/src/lib.rs:30-34 | Different indices give different nonces |
| Stream.NonceIsIndex | pq-core/crates/pq-stream/src/lib.rs:30-34 | The nonce is the index as a 96-bit big-endian number |
| Stream.AadIsIdAndIndex | pq-core/crates/pq-stream/src/lib.rs:37-42 | The associated data is the stream id followed by the index as a 64-bit big-endian number |
| Stream.ChunkSizes | pq-core/crates/pq-stream/src/lib.rs:93-99 | Data is cut into ceil(n / 65536) chunks, all but the last of 65536 bytes, none empty |
| Stream.SovereignStream.EncryptChunk | pq-core/crates/pq-stream/src/lib.rs:45-66 | Over 64 KB is an error without effect; otherwise the chunk is sealed under the current index, which advances |
| Stream.SovereignStream.DecryptChunk | pq-core/crates/pq-stream/src/lib.rs:69-85 | The index advances only on acceptance |
| Stream.SovereignStream.ShatterAndEncrypt | pq-core/crates/pq-stream/src/lib.rs:93-99 | Never fails; the chunks are sealed under consecutive indices |
| MixPacket.OnionRoundTrip | pq-core/crates/pq-onion/src/lib.rs:263-389 | For every payload of at most 413 bytes, peeling with the three keys in order reports hops 2, 1, 0 with sizes 479, 446, 413, and the last bytes start with the payload |
| MixPacket.PeelUndoesWrap | pq-core/crates/pq-onion/src/lib.rs:372-389 | Peeling reads the counter, the nonce and the ciphertext where wrapping put them, and a layer costs exactly 33 bytes |
| MixPacket.LayerLayout | pq-core/crates/pq-onion/src/lib.rs:305-335 | Epoch in bytes 0 to 3, hop counter in byte 4, nonce in bytes 5 to 16, the sealed inner layer from byte 17 |
| MixPacket.PeelExact | pq-core/crates/pq-onion/src/lib.rs:372-389 | Too small exactly below 17 bytes, rejected exactly when the rest does not open; otherwise byte 4 and the opened rest |
| MixPacket.Build | pq-core/crates/pq-onion/src/lib.rs:263-350 | Fails if and only if the payload exceeds 413 bytes; otherwise the packet is exactly 512 bytes, three nested layers, and the size check never fires |
| GroupTree.RolesAgree | pq-core/crates/pq-onion/src/group_tree.rs:26-51 | Every permutation of the member list gives each member the same role |
| GroupTree.OriginatorIff | pq-core/crates/pq-onion/src/group_tree.rs:31-43 | With distinct DIDs one is the originator if and only if one sorts first or is not on the list |
| GroupTree.OneParent | pq-core/crates/pq-onion/src/group_tree.rs:33-40 | Every index j >= 1 is a child of exactly one member, the one at (j-1)/3 |
| GroupTree.RootReachesEachOnce | pq-core/crates/pq-onion/src/group_tree.rs:33-40 | Going to children from index 0 reaches every member exactly once |
| GroupTree.DepthIff | pq-core/crates/pq-onion/src/group_tree.rs:33-40 | Index j is at depth d if and only if (3^d-1)/2 <= j < (3^(d+1)-1)/2 |
| GroupTree.ScheduledIff | pq-core/crates/pq-onion/src/group_tree.rs:55-76 | The member at index j is sent the payload by the member at i on tick t if and only if j >= 4, j = 3i + t and t is 1, 2 or 3; nobody sends to the originator or its three children |
| GroupTree.RoleIff | pq-core/crates/pq-onion/src/group_tree.rs:42-48 | Index 0 is the originator; the others relay if and only if the list reaches their first child |
| GroupTree.LeqIsLexicographic | pq-core/crates/pq-onion/src/group_tree.rs:28-29 | The order of the member list: a prefix comes first, else the lesser character at the first difference |
| GroupTree.DistributionTree.constructor | pq-core/crates/pq-onion/src/group_tree.rs:26-51 | The role is that of the member's place in the sorted list |
| GroupTree.DistributionTree.ScheduleGroupSend | pq-core/crates/pq-onion/src/group_tree.rs:55-76 | One entry per child, on consecutive ticks from 1, with the payload |

## Left out

- Weak memory: the interleaving model is sequentially consistent; fences, cache maintenance, MMIO registers and
  interrupt acknowledgement have no effect in it.
- Ring depths other than 1, 2, 4 and 8: the driver asks for 8 and takes what the device grants, which VIRTIO
  requires to be a power of two.
- RxQueue.RxVirtqueue.DrainRxQueue: the device acts according to a finite schedule, so a device that refills
  the ring for ever, on which the loop does not end, is not modelled.
- TxQueue.TxVirtqueue.SendFrame: the exit of the wait after 4096 spins is reported as a result of its own
  instead of going on; `TxQueue.SpinExitOverwrites` says what going on does to the queue. The contents of the
  assembled Ethernet block are a parameter, and the statements after line 738 (notify, wait for completion, logging)
  are not modelled.
- `send_eth_frame` and `inject_selftest_rx` of the network driver: they step outside the ring discipline.
- Seqlock.SnapshotsLinearizable: the 64-bit sequence number is unbounded, so its wrap-around is not modelled.
- Seqlock.AtomicTelemetry.Snapshot: `None` stands for a finite schedule that ended with a publication in progress
  and the reader still spinning; the source has no such result.
- Buddy.BuddyAllocator.New: the panics of the source are its two errors; the address of the pool is a number and
  links are unit offsets.
- Buddy.BuddyAllocator.Dealloc: requires a live block freed with its own layout, as the source's unsafe contract
  does.
- Causal.CausalBuffer.ProcessPacket: the bandwidth ratio is the boolean it is compared to, and the comparison
  with 0.90 is made on integers, which is exact for capacities below 2^50; ticks are unbounded.
- Dht.TrustGatedDht.AttemptInsertNode: the score is a real number passed in; the reputation store, its decay and
  its lookup errors are not modelled.
- EpochSweep.VaultSynchronizer.SweepEpochs: vault ids are a function of epoch and shard that cannot fail.
- Stream.AcceptedIsPrefix: authenticity is a hypothesis on the ciphertexts that are fed, as it cannot hold of all
  byte strings: whatever is sealed opens.
- Stream.SovereignStream.EncryptChunk: the index wraps at 2^64, as in a build without overflow checks; the
  cipher does not fail on chunks of at most 64 KB.
- MixPacket.OnionRoundTrip: the meaning of the epoch field, written little-endian and read big-endian but not
  used, is not modelled; key agreement is not modelled.
- Metronome.WireIsWholeFrames: the keystream is any infinite sequence; ChaCha20's 256 GiB limit, timing, sleeping
  and the erasure of keys are not modelled.
- Metronome.FramesAlignedIff: bytes are one wire across reconnections.
- Vault.ZipPirVault.InsertShard: an epoch duration of 0, by which the source divides, is excluded; signing is a
  function of the message.
- GroupTree.RolesAgree: strings are ordered character by character, which is the byte order of UTF-8 for code
  points.
- `sovereign-frame/src/metronome.rs`, the 72 KB `SphinxPacket`, the MMU page tables, erasure coding, Shamir
  sharing, reputation, transports and user interfaces: not part of this model.
