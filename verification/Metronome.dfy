/** The daemon's metronome egress: one 512-byte frame at a time, written in as many pieces as the socket
    takes, real frames from a queue and cover frames from a keystream.

    The socket's answers and the channel's contents are inputs. The keystream is any function from positions
    to bytes. */
module Metronome {
  import opened Arithmetic
  import opened Bytes

  const FRAME_LEN := 512

  type Frame = f: seq<Byte> | |f| == FRAME_LEN witness Zeros(FRAME_LEN)
  type Keystream = nat -> Byte

  datatype SendAttempt = Wrote(n: nat) | WouldBlock | Broken | Fatal

  datatype TickOutcome = Ok | Guillotine

  // ---------- the pending frame ----------

  datatype Pending = Pending(active: bool, offset: nat, buf: Frame) {
    function Remaining(): seq<Byte>
      requires offset <= FRAME_LEN
    {
      buf[offset..]
    }

    function Advance(n: nat): Pending {
      if offset + n >= FRAME_LEN then Clear() else Pending(active, offset + n, buf)
    }

    function Clear(): Pending { Pending(false, 0, buf) }
  }

  function Activate(src: Frame): Pending { Pending(true, 0, src) }

  // ---------- the egress state ----------

  datatype Source = Queued | Cover

  /** A frame that was started, and how much of it the socket has taken. */
  datatype Entry = Entry(source: Source, frame: Frame, sent: nat, aborted: bool) {
    function Bytes(): seq<Byte> { if sent <= FRAME_LEN then frame[..sent] else frame }
    predicate Closed() { if aborted then sent < FRAME_LEN else sent == FRAME_LEN }
  }

  /** `enqueued` is every frame ever put on the channel, `wire` every byte the socket has taken, `log` every
      frame started. `halted` is set when the loop has ended on a fatal error. */
  datatype Egress = Egress(
    queue: seq<Frame>, connected: bool, pending: Pending, pos: nat,
    enqueued: seq<Frame>, wire: seq<Byte>, log: seq<Entry>, halted: bool)

  const START := Egress([], true, Pending(false, 0, Zeros(FRAME_LEN)), 0, [], [], [], false)

  function Last(log: seq<Entry>): Entry
    requires log != []
  {
    log[|log| - 1]
  }

  /** Rewrites the entry of the frame in progress. */
  function Amend(log: seq<Entry>, e: Entry): seq<Entry>
    requires log != []
  {
    log[..|log| - 1] + [e]
  }

  /** The bytes the socket takes when it answers `Wrote(n)`. */
  function Taken(p: Pending, n: nat): seq<Byte>
    requires p.offset <= FRAME_LEN
  {
    if p.offset + n >= FRAME_LEN then p.Remaining() else p.Remaining()[..n]
  }

  // ---------- one tick, as functions ----------

  predicate Sane(s: Egress) {
    s.pending.offset < FRAME_LEN && (s.pending.active ==> s.log != [])
  }

  function Write(s: Egress, n: nat): (t: Egress)
    requires Sane(s) && s.pending.active
    ensures Sane(t)
  {
    var e := Last(s.log);
    var out := Taken(s.pending, n);
    s.(wire := s.wire + out, pending := s.pending.Advance(n), log := Amend(s.log, e.(sent := e.sent + |out|)))
  }

  function Abort(s: Egress): (t: Egress)
    requires Sane(s) && s.pending.active
    ensures Sane(t) && !t.pending.active
  {
    s.(pending := s.pending.Clear(), log := Amend(s.log, Last(s.log).(aborted := true)))
  }

  /** Writes until the frame is done or the socket stops it. When the answers run out it would block. */
  function Drain(s: Egress, attempts: seq<SendAttempt>): (r: (Egress, TickOutcome))
    requires Sane(s)
    ensures Sane(r.0) && (r.1 == Guillotine ==> !r.0.pending.active)
    decreases |attempts|
  {
    if !s.pending.active || attempts == [] then (s, Ok)
    else
      match attempts[0]
      case Wrote(n) => Drain(Write(s, n), attempts[1..])
      case WouldBlock => (s, Ok)
      case Broken => (Abort(s), Ok)
      case Fatal => (Abort(s), Guillotine)
  }

  function CoverFrame(ks: Keystream, pos: nat): Frame { seq(FRAME_LEN, i requires i >= 0 => ks(pos + i)) }

  function Begin(s: Egress, source: Source, frame: Frame): Egress {
    s.(pending := Activate(frame), log := s.log + [Entry(source, frame, 0, false)])
  }

  function BeginQueued(s: Egress): (t: Egress)
    requires s.queue != []
    ensures Sane(t)
  {
    Begin(s.(queue := s.queue[1..]), Queued, s.queue[0])
  }

  function BeginCover(ks: Keystream, s: Egress): (t: Egress)
    ensures Sane(t)
  {
    Begin(s.(pos := s.pos + FRAME_LEN), Cover, CoverFrame(ks, s.pos))
  }

  function Tick(ks: Keystream, s: Egress, kernelReady: bool, peerUp: bool, attempts: seq<SendAttempt>): (r: (Egress, TickOutcome))
    requires Sane(s)
    ensures Sane(r.0) && (r.1 == Guillotine ==> !r.0.pending.active)
  {
    if !kernelReady || !peerUp then (s, Ok)
    else if s.pending.active then Drain(s, attempts)
    else if s.queue != [] then Drain(BeginQueued(s), attempts)
    else if s.connected then Drain(BeginCover(ks, s), attempts)
    else (s, Ok)
  }

  // ---------- runs ----------

  datatype Event =
    | Enqueue(frame: Frame)
    | Disconnect
    | TickNow(kernelReady: bool, peerUp: bool, attempts: seq<SendAttempt>)

  function Happen(ks: Keystream, s: Egress, e: Event): Egress
    requires Sane(s)
  {
    match e
    case Enqueue(frame) => if s.connected then s.(queue := s.queue + [frame], enqueued := s.enqueued + [frame]) else s
    case Disconnect => s.(connected := false)
    case TickNow(kernelReady, peerUp, attempts) =>
      if s.halted then s
      else
        var (t, outcome) := Tick(ks, s, kernelReady, peerUp, attempts);
        if outcome == Guillotine then t.(pending := t.pending.Clear(), halted := true) else t
  }

  // ---------- the invariant ----------

  /** The bytes of every frame started, one after the other. */
  function Flatten(log: seq<Entry>): seq<Byte> {
    if log == [] then [] else Flatten(log[..|log| - 1]) + Last(log).Bytes()
  }

  function FramesFrom(log: seq<Entry>, source: Source): seq<Frame> {
    if log == [] then []
    else FramesFrom(log[..|log| - 1], source) + if Last(log).source == source then [Last(log).frame] else []
  }

  /** Consecutive, non-overlapping windows of the keystream from position 0. */
  function CoverFrames(ks: Keystream, n: nat): seq<Frame> {
    seq(n, j requires j >= 0 => CoverFrame(ks, FRAME_LEN * j))
  }

  ghost predicate Inv(ks: Keystream, s: Egress) {
    && Sane(s)
    && s.wire == Flatten(s.log)
    && (forall k :: 0 <= k < |s.log| - 1 ==> s.log[k].Closed())
    && (s.log != [] ==>
          if s.pending.active then Last(s.log) == Entry(Last(s.log).source, s.pending.buf, s.pending.offset, false)
          else Last(s.log).Closed())
    && FramesFrom(s.log, Queued) + s.queue == s.enqueued
    && s.pos == FRAME_LEN * |FramesFrom(s.log, Cover)|
    && FramesFrom(s.log, Cover) == CoverFrames(ks, |FramesFrom(s.log, Cover)|)
  }

  lemma AmendFlatten(log: seq<Entry>, e: Entry)
    requires log != [] && e.source == Last(log).source && e.frame == Last(log).frame
    ensures Flatten(Amend(log, e)) == Flatten(log[..|log| - 1]) + e.Bytes()
    ensures FramesFrom(Amend(log, e), Queued) == FramesFrom(log, Queued)
    ensures FramesFrom(Amend(log, e), Cover) == FramesFrom(log, Cover)
  {
    hide Flatten, FramesFrom;
    SplitLast(log);
    SameFrames(log[..|log| - 1], Last(log), e);
  }

  lemma SplitLast(log: seq<Entry>)
    requires log != []
    ensures log[..|log| - 1] + [Last(log)] == log
  {
  }

  lemma SameFrames(front: seq<Entry>, d: Entry, e: Entry)
    requires d.source == e.source && d.frame == e.frame
    ensures Flatten(front + [e]) == Flatten(front) + e.Bytes()
    ensures FramesFrom(front + [e], Queued) == FramesFrom(front + [d], Queued)
    ensures FramesFrom(front + [e], Cover) == FramesFrom(front + [d], Cover)
  {
    hide Flatten, FramesFrom;
    FlattenSnoc(front, d);
    FlattenSnoc(front, e);
  }

  lemma FlattenSnoc(log: seq<Entry>, e: Entry)
    ensures Flatten(log + [e]) == Flatten(log) + e.Bytes()
    ensures FramesFrom(log + [e], Queued) == FramesFrom(log, Queued) + if e.source == Queued then [e.frame] else []
    ensures FramesFrom(log + [e], Cover) == FramesFrom(log, Cover) + if e.source == Cover then [e.frame] else []
  {
    assert (log + [e])[..|log|] == log;
  }

  /** More of the frame in progress: the flattened log grows by the same bytes. */
  lemma AmendGrows(log: seq<Entry>, m: nat)
    requires log != [] && Last(log).sent + m <= FRAME_LEN
    ensures var e := Last(log);
            Flatten(Amend(log, e.(sent := e.sent + m))) == Flatten(log) + e.frame[e.sent..][..m]
  {
    hide Flatten;
    var e, front := Last(log), log[..|log| - 1];
    SplitLast(log);
    FlattenSnoc(front, e);
    FlattenSnoc(front, e.(sent := e.sent + m));
    PrefixGrows(Flatten(front), e.frame, e.sent, m);
  }

  lemma PrefixGrows(before: seq<Byte>, f: seq<Byte>, i: nat, n: nat)
    requires i + n <= |f|
    ensures before + f[..i + n] == before + f[..i] + f[i..][..n]
  {
  }

  lemma WriteKeepsInv(ks: Keystream, s: Egress, n: nat)
    requires Inv(ks, s) && s.pending.active
    ensures Inv(ks, Write(s, n))
  {
    var e, out := Last(s.log), Taken(s.pending, n);
    AmendFlatten(s.log, e.(sent := e.sent + |out|));
    AmendGrows(s.log, |out|);
    assert out == e.frame[e.sent..][..|out|];
    hide Flatten, FramesFrom, CoverFrames;
  }

  lemma AbortKeepsInv(ks: Keystream, s: Egress)
    requires Inv(ks, s) && s.pending.active
    ensures Inv(ks, Abort(s))
  {
    AmendFlatten(s.log, Last(s.log).(aborted := true));
  }

  lemma {:induction false} DrainKeepsInv(ks: Keystream, s: Egress, attempts: seq<SendAttempt>)
    requires Inv(ks, s)
    ensures Inv(ks, Drain(s, attempts).0)
    decreases |attempts|
  {
    assert Sane(s);
    hide Inv, Write, Abort;
    if s.pending.active && attempts != [] {
      match attempts[0]
      case Wrote(n) =>
        WriteKeepsInv(ks, s, n);
        DrainKeepsInv(ks, Write(s, n), attempts[1..]);
      case WouldBlock =>
      case Broken => AbortKeepsInv(ks, s);
      case Fatal => AbortKeepsInv(ks, s);
    }
  }

  lemma BeginQueuedKeepsInv(ks: Keystream, s: Egress)
    requires Inv(ks, s) && !s.pending.active && s.queue != []
    ensures Inv(ks, BeginQueued(s))
  {
    hide Flatten, FramesFrom, CoverFrames;
    var frame := s.queue[0];
    FlattenSnoc(s.log, Entry(Queued, frame, 0, false));
    assert FramesFrom(s.log, Queued) + [frame] + s.queue[1..] == s.enqueued by { assert s.queue == [frame] + s.queue[1..]; }
    assert s.wire + frame[..0] == s.wire;
  }

  lemma BeginCoverKeepsInv(ks: Keystream, s: Egress)
    requires Inv(ks, s) && !s.pending.active && s.queue == []
    ensures Inv(ks, BeginCover(ks, s))
  {
    hide Flatten, FramesFrom, CoverFrames, CoverFrame;
    var frame, n := CoverFrame(ks, s.pos), |FramesFrom(s.log, Cover)|;
    FlattenSnoc(s.log, Entry(Cover, frame, 0, false));
    NextCover(ks, n);
    assert FramesFrom(s.log, Queued) + [] == FramesFrom(s.log, Queued);
    assert s.wire + frame[..0] == s.wire;
  }

  lemma NextCover(ks: Keystream, n: nat)
    ensures CoverFrames(ks, n + 1) == CoverFrames(ks, n) + [CoverFrame(ks, FRAME_LEN * n)]
  {
  }

  lemma TickKeepsInv(ks: Keystream, s: Egress, kernelReady: bool, peerUp: bool, attempts: seq<SendAttempt>)
    requires Inv(ks, s)
    ensures Inv(ks, Tick(ks, s, kernelReady, peerUp, attempts).0)
  {
    assert Sane(s);
    hide Inv, Drain, BeginQueued, BeginCover;
    if kernelReady && peerUp {
      if s.pending.active {
        DrainKeepsInv(ks, s, attempts);
      } else if s.queue != [] {
        BeginQueuedKeepsInv(ks, s);
        DrainKeepsInv(ks, BeginQueued(s), attempts);
      } else if s.connected {
        BeginCoverKeepsInv(ks, s);
        DrainKeepsInv(ks, BeginCover(ks, s), attempts);
      }
    }
  }

  lemma HappenKeepsInv(ks: Keystream, s: Egress, e: Event)
    requires Inv(ks, s)
    ensures Inv(ks, Happen(ks, s, e))
  {
    match e
    case Enqueue(frame) =>
      assert FramesFrom(s.log, Queued) + (s.queue + [frame]) == FramesFrom(s.log, Queued) + s.queue + [frame];
    case Disconnect =>
    case TickNow(kernelReady, peerUp, attempts) =>
      TickKeepsInv(ks, s, kernelReady, peerUp, attempts);
      hide Tick;
  }

  function Run(ks: Keystream, events: seq<Event>): (s: Egress)
    ensures Inv(ks, s)
  {
    if events == [] then START
    else
      var before := Run(ks, events[..|events| - 1]);
      HappenKeepsInv(ks, before, events[|events| - 1]);
      Happen(ks, before, events[|events| - 1])
  }

  // ---------- what the runs promise ----------

  function Concat(frames: seq<Frame>): seq<Byte> {
    if frames == [] then [] else Concat(frames[..|frames| - 1]) + frames[|frames| - 1]
  }

  /** The frames started, in order, without the one in progress. */
  function Done(s: Egress): seq<Frame>
    requires Sane(s)
  {
    FramesOf(if s.pending.active then s.log[..|s.log| - 1] else s.log)
  }

  function FramesOf(log: seq<Entry>): (fs: seq<Frame>)
    ensures |fs| == |log|
  {
    seq(|log|, k requires 0 <= k < |log| => log[k].frame)
  }

  ghost predicate NoBreaks(events: seq<Event>) {
    forall e :: e in events && e.TickNow? ==> Broken !in e.attempts && Fatal !in e.attempts
  }

  ghost predicate NoAborts(log: seq<Entry>) { forall k :: 0 <= k < |log| ==> !log[k].aborted }

  lemma {:induction false} DrainNoAborts(s: Egress, attempts: seq<SendAttempt>)
    requires Sane(s) && NoAborts(s.log) && Broken !in attempts && Fatal !in attempts
    ensures NoAborts(Drain(s, attempts).0.log)
    decreases |attempts|
  {
    if s.pending.active && attempts != [] {
      assert attempts[0] in attempts;
      if attempts[0].Wrote? { DrainNoAborts(Write(s, attempts[0].n), attempts[1..]); }
    }
  }

  lemma {:induction false} RunNoAborts(ks: Keystream, events: seq<Event>)
    requires NoBreaks(events)
    ensures NoAborts(Run(ks, events).log)
    decreases |events|
  {
    hide Happen, NoAborts, Inv;
    if events == [] {
      NothingAborted();
    } else {
      var front, e := events[..|events| - 1], events[|events| - 1];
      assert e in events && NoBreaks(front);
      RunNoAborts(ks, front);
      HappenNoAborts(ks, Run(ks, front), e);
    }
  }

  lemma NothingAborted()
    ensures NoAborts([])
  {
  }

  lemma HappenNoAborts(ks: Keystream, s: Egress, e: Event)
    requires Inv(ks, s) && NoAborts(s.log) && (e.TickNow? ==> Broken !in e.attempts && Fatal !in e.attempts)
    ensures NoAborts(Happen(ks, s, e).log)
  {
    assert Sane(s);
    hide Inv, Drain;
    if e.TickNow? && e.kernelReady && e.peerUp && !s.halted {
      if s.pending.active {
        DrainNoAborts(s, e.attempts);
      } else if s.queue != [] {
        DrainNoAborts(BeginQueued(s), e.attempts);
      } else if s.connected {
        DrainNoAborts(BeginCover(ks, s), e.attempts);
      }
    }
  }

  lemma {:induction false} WholeFrames(log: seq<Entry>)
    requires forall k :: 0 <= k < |log| ==> log[k].sent == FRAME_LEN
    ensures Flatten(log) == Concat(FramesOf(log))
    decreases |log|
  {
    if log != [] {
      var front := log[..|log| - 1];
      WholeFrames(front);
      assert FramesOf(log)[..|log| - 1] == FramesOf(front);
    }
  }

  /** The wire refinement. Over any run without Broken or Fatal answers the bytes taken are the frames
      started, whole and in order, then the first `offset` bytes of the pending one. The real frames among
      those started are the enqueued ones in FIFO order, the rest of them still queued; the cover frames are
      the consecutive keystream windows. */
  lemma WireIsWholeFrames(ks: Keystream, events: seq<Event>)
    requires NoBreaks(events)
    ensures var s := Run(ks, events);
            && s.wire == Concat(Done(s)) + (if s.pending.active then s.pending.buf[..s.pending.offset] else [])
            && FramesFrom(s.log, Queued) + s.queue == s.enqueued
            && FramesFrom(s.log, Cover) == CoverFrames(ks, |FramesFrom(s.log, Cover)|)
  {
    RunNoAborts(ks, events);
    hide Run, NoAborts, CoverFrames;
    WholeWire(ks, Run(ks, events));
  }

  lemma WholeWire(ks: Keystream, s: Egress)
    requires Inv(ks, s) && NoAborts(s.log)
    ensures s.wire == Concat(Done(s)) + if s.pending.active then s.pending.buf[..s.pending.offset] else []
  {
    hide FramesFrom, CoverFrames, Concat, FramesOf;
    if s.pending.active {
      WholeFrames(s.log[..|s.log| - 1]);
    } else {
      WholeFrames(s.log);
      assert s.wire + [] == s.wire;
    }
  }

  /** Where on the wire the `k`-th frame started. */
  function StartOf(log: seq<Entry>, k: nat): nat
    requires k <= |log|
  {
    |Flatten(log[..k])|
  }

  lemma StartOfFirst(log: seq<Entry>)
    ensures StartOf(log, 0) == 0
  {
  }

  lemma StartStep(log: seq<Entry>, k: nat)
    requires k < |log| && log[k].sent <= FRAME_LEN
    ensures StartOf(log, k + 1) == StartOf(log, k) + log[k].sent
  {
    assert log[..k + 1][..k] == log[..k];
  }

  /** These answers make a frame at this offset be given up after the socket has taken a part of it. */
  predicate Cut(offset: nat, attempts: seq<SendAttempt>)
    decreases |attempts|
  {
    attempts != [] &&
    match attempts[0]
    case Wrote(n) => offset + n < FRAME_LEN && Cut(offset + n, attempts[1..])
    case WouldBlock => false
    case _ => offset > 0
  }

  predicate Ticks(s: Egress, e: Event) { e.TickNow? && !s.halted && e.kernelReady && e.peerUp }

  /** The event is a tick that starts a frame. */
  predicate StartsFrame(s: Egress, e: Event) { Ticks(s, e) && !s.pending.active && (s.queue != [] || s.connected) }

  /** The event is a tick in which a Broken or Fatal answer comes while the offset is not 0. */
  predicate CutsFrame(s: Egress, e: Event) {
    Ticks(s, e) && if s.pending.active then Cut(s.pending.offset, e.attempts) else StartsFrame(s, e) && Cut(0, e.attempts)
  }

  ghost predicate CutsAt(ks: Keystream, events: seq<Event>, j: nat) requires j < |events| {
    CutsFrame(Run(ks, events[..j]), events[j])
  }

  ghost predicate StartsAt(ks: Keystream, events: seq<Event>, j: nat) requires j < |events| {
    StartsFrame(Run(ks, events[..j]), events[j])
  }

  ghost predicate SomeCut(ks: Keystream, events: seq<Event>) { exists j :: 0 <= j < |events| && CutsAt(ks, events, j) }

  /** Some tick cuts a frame short and a later one starts a frame. */
  ghost predicate CutThenStart(ks: Keystream, events: seq<Event>) {
    exists j, k :: 0 <= j < k < |events| && CutsAt(ks, events, j) && StartsAt(ks, events, k)
  }

  predicate IsCut(e: Entry) { e.aborted && e.sent > 0 }

  ghost predicate AnyCut(log: seq<Entry>, n: nat) requires n <= |log| { exists k :: 0 <= k < n && IsCut(log[k]) }

  /** The last entry is the pending frame. */
  ghost predicate InProgress(s: Egress) {
    s.pending.active && s.log != [] && s.pending.offset < FRAME_LEN
    && Last(s.log) == Entry(Last(s.log).source, s.pending.buf, s.pending.offset, false)
  }

  lemma WriteInProgress(s: Egress, n: nat)
    requires Sane(s) && InProgress(s)
    ensures var t := Write(s, n);
            && t.log != [] && t.log[..|t.log| - 1] == s.log[..|s.log| - 1]
            && (if s.pending.offset + n < FRAME_LEN then InProgress(t) && t.pending.offset == s.pending.offset + n
                else !t.pending.active && !IsCut(Last(t.log)))
  {
  }

  lemma AbortInProgress(s: Egress)
    requires Sane(s) && InProgress(s)
    ensures var t := Abort(s);
            && t.log != [] && t.log[..|t.log| - 1] == s.log[..|s.log| - 1]
            && (IsCut(Last(t.log)) <==> s.pending.offset > 0)
  {
  }

  /** What the answers do to the log: only the frame in progress changes, and it is cut as they say. */
  lemma {:induction false} DrainCuts(s: Egress, attempts: seq<SendAttempt>)
    requires Sane(s) && InProgress(s)
    ensures var log := Drain(s, attempts).0.log;
            log != [] && log[..|log| - 1] == s.log[..|s.log| - 1] && (IsCut(Last(log)) <==> Cut(s.pending.offset, attempts))
    decreases |attempts|
  {
    if attempts == [] { return; }
    match attempts[0]
    case Wrote(n) =>
      WriteInProgress(s, n);
      if s.pending.offset + n < FRAME_LEN {
        hide Write, InProgress, IsCut;
        DrainCuts(Write(s, n), attempts[1..]);
      } else {
        hide Write, IsCut;
      }
    case WouldBlock =>
    case _ =>
      AbortInProgress(s);
      hide Abort, IsCut;
  }

  lemma BeginInProgress(s: Egress, source: Source, frame: Frame)
    ensures var t := Begin(s, source, frame);
            Sane(t) && InProgress(t) && t.pending.offset == 0 && t.log[..|t.log| - 1] == s.log
  {
  }

  /** The state in which the tick starts to write, if it does. */
  function Begun(ks: Keystream, s: Egress): (t: Egress)
    requires Sane(s)
    ensures Sane(t)
  {
    if s.pending.active then s else if s.queue != [] then BeginQueued(s) else BeginCover(ks, s)
  }

  lemma BegunLog(ks: Keystream, s: Egress)
    requires Inv(ks, s)
    ensures var t := Begun(ks, s);
            && Sane(s) && InProgress(t) && t.pending.offset == (if s.pending.active then s.pending.offset else 0)
            && t.log[..|t.log| - 1] == (if s.pending.active then s.log[..|s.log| - 1] else s.log)
  {
    if s.pending.active {
      assert InProgress(s);
    } else if s.queue != [] {
      BeginInProgress(s.(queue := s.queue[1..]), Queued, s.queue[0]);
    } else {
      BeginInProgress(s.(pos := s.pos + FRAME_LEN), Cover, CoverFrame(ks, s.pos));
    }
  }

  lemma HappenLog(ks: Keystream, s: Egress, e: Event)
    requires Sane(s)
    ensures Happen(ks, s, e).log == if Ticks(s, e) && (s.pending.active || StartsFrame(s, e))
                                    then Drain(Begun(ks, s), e.attempts).0.log else s.log
  {
    hide Drain, BeginQueued, BeginCover;
  }

  /** What an event does to the log. */
  lemma HappenCuts(ks: Keystream, s: Egress, e: Event)
    requires Inv(ks, s)
    ensures Sane(s) && LogStep(s.log, Happen(ks, s, e).log, StartsFrame(s, e), CutsFrame(s, e))
  {
    BegunLog(ks, s);
    hide Inv, Happen, Begun, Drain, Cut, IsCut;
    HappenLog(ks, s, e);
    if Ticks(s, e) && (s.pending.active || StartsFrame(s, e)) {
      DrainCuts(Begun(ks, s), e.attempts);
      if s.pending.active { NotCutYet(ks, s); }
    }
  }

  lemma NotCutYet(ks: Keystream, s: Egress)
    requires Inv(ks, s) && s.pending.active
    ensures s.log != [] && !IsCut(Last(s.log))
  {
  }

  /** From one log to the next: an entry is added or not, only the last entry may differ, and it is cut by this
      event, or was cut before. */
  ghost predicate LogStep(before: seq<Entry>, after: seq<Entry>, starts: bool, cuts: bool) {
    if starts then after != [] && after[..|after| - 1] == before && (IsCut(Last(after)) <==> cuts)
    else
      && |after| == |before| && (cuts ==> after != [])
      && (after != [] ==>
            && after[..|after| - 1] == before[..|before| - 1]
            && (IsCut(Last(after)) <==> cuts || IsCut(Last(before))) && !(cuts && IsCut(Last(before))))
  }

  lemma LogStepCuts(before: seq<Entry>, after: seq<Entry>, starts: bool, cuts: bool)
    requires LogStep(before, after, starts, cuts)
    ensures AnyCut(after, |after|) <==> AnyCut(before, |before|) || cuts
    ensures CutLog(after) <==> CutLog(before) || (starts && AnyCut(before, |before|))
  {
    hide IsCut;
    forall k | 0 <= k < |after| - 1 ensures after[k] == before[k] {
      assert after[k] == after[..|after| - 1][k];
    }
    if after != [] { assert after[|after| - 1] == Last(after); }
    if before != [] { assert before[|before| - 1] == Last(before); }
  }

  ghost predicate CutLog(log: seq<Entry>) { log != [] && AnyCut(log, |log| - 1) }

  lemma {:induction false} CutsAreEvents(ks: Keystream, events: seq<Event>)
    ensures AnyCut(Run(ks, events).log, |Run(ks, events).log|) <==> SomeCut(ks, events)
    ensures CutLog(Run(ks, events).log) <==> CutThenStart(ks, events)
    decreases |events|
  {
    hide Happen, Inv, CutsFrame, StartsFrame, IsCut;
    if events != [] {
      var front, e := events[..|events| - 1], events[|events| - 1];
      CutsAreEvents(ks, front);
      var s := Run(ks, front);
      HappenCuts(ks, s, e);
      LogStepCuts(s.log, Happen(ks, s, e).log, StartsFrame(s, e), CutsFrame(s, e));
      assert front + [e] == events;
      EventsSnoc(ks, front, e);
    }
  }

  lemma EventsSnoc(ks: Keystream, front: seq<Event>, e: Event)
    ensures SomeCut(ks, front + [e]) <==> SomeCut(ks, front) || CutsFrame(Run(ks, front), e)
    ensures CutThenStart(ks, front + [e]) <==> CutThenStart(ks, front) || (SomeCut(ks, front) && StartsFrame(Run(ks, front), e))
  {
    hide Run, CutsFrame, StartsFrame;
    var events := front + [e];
    assert events[..|front|] == front;
    forall j: nat | j < |front|
      ensures CutsAt(ks, events, j) == CutsAt(ks, front, j) && StartsAt(ks, events, j) == StartsAt(ks, front, j)
    {
      assert events[..j] == front[..j];
    }
    assert CutsAt(ks, events, |front|) == CutsFrame(Run(ks, front), e);
    assert StartsAt(ks, events, |front|) == StartsFrame(Run(ks, front), e);
  }

  /** With failures allowed: every frame starts on the wire at a multiple of 512 exactly when no tick in which a
      Broken or Fatal answer comes at an offset other than 0 is followed by one that starts a frame. */
  lemma FramesAlignedIff(ks: Keystream, events: seq<Event>)
    ensures var log := Run(ks, events).log;
            (forall k :: 0 <= k < |log| ==> StartOf(log, k) % FRAME_LEN == 0) <==> !CutThenStart(ks, events)
  {
    var log := Run(ks, events).log;
    CutsAreEvents(ks, events);
    hide CutThenStart, Run;
    LogAligned(ks, Run(ks, events));
  }

  /** A connection that breaks after one byte: the next frame starts at byte 1 of the wire. */
  lemma BrokenAfterOneByte(ks: Keystream)
    ensures var events := [TickNow(true, true, [Wrote(1), Broken]), TickNow(true, true, [])];
            var log := Run(ks, events).log;
            CutThenStart(ks, events) && exists k :: 0 <= k < |log| && StartOf(log, k) % FRAME_LEN != 0
  {
    var first, second := TickNow(true, true, [Wrote(1), Broken]), TickNow(true, true, []);
    var events := [first, second];
    hide Inv, StartOf;
    assert events[..0] == [] && events[..1] == [first];
    assert first.attempts[1..] == [Broken];
    assert Cut(0, first.attempts) by { assert Cut(1, [Broken]); }
    assert CutsAt(ks, events, 0);
    assert Run(ks, [first]) == Happen(ks, START, first) by { assert [first][..0] == []; }
    NotActiveAfter(ks, START, first);
    assert StartsAt(ks, events, 1);
    FramesAlignedIff(ks, events);
  }

  /** A frame that is cut is no longer pending, and the channel is still connected. */
  lemma NotActiveAfter(ks: Keystream, s: Egress, e: Event)
    requires Inv(ks, s) && CutsFrame(s, e) && Fatal !in e.attempts
    ensures var t := Happen(ks, s, e); !t.pending.active && !t.halted && t.connected == s.connected
  {
    assert Sane(s);
    hide Inv;
    if s.pending.active {
      DrainCutEnds(s, e.attempts);
    } else if s.queue != [] {
      DrainCutEnds(BeginQueued(s), e.attempts);
    } else {
      DrainCutEnds(BeginCover(ks, s), e.attempts);
    }
  }

  lemma {:induction false} DrainCutEnds(s: Egress, attempts: seq<SendAttempt>)
    requires Sane(s) && s.pending.active && Cut(s.pending.offset, attempts) && Fatal !in attempts
    ensures var (t, outcome) := Drain(s, attempts);
            !t.pending.active && outcome == Ok && t.connected == s.connected && t.halted == s.halted
    decreases |attempts|
  {
    assert attempts[0] in attempts;
    if attempts[0].Wrote? { DrainCutEnds(Write(s, attempts[0].n), attempts[1..]); }
  }

  /** The frames put on the channel, up to its disconnection. */
  function Offered(events: seq<Event>): (r: (seq<Frame>, bool)) {
    if events == [] then ([], true) else OfferedNext(Offered(events[..|events| - 1]), events[|events| - 1])
  }

  function OfferedNext(offered: (seq<Frame>, bool), e: Event): (seq<Frame>, bool) {
    match e
    case Enqueue(frame) => (if offered.1 then offered.0 + [frame] else offered.0, offered.1)
    case Disconnect => (offered.0, false)
    case TickNow(_, _, _) => offered
  }

  /** Nothing offered is lost: what was enqueued is what was offered, and it is started or still queued. */
  lemma {:induction false} OfferedIsEnqueued(ks: Keystream, events: seq<Event>)
    ensures var s := Run(ks, events);
            (s.enqueued, s.connected) == Offered(events) && FramesFrom(s.log, Queued) + s.queue == s.enqueued
    decreases |events|
  {
    hide *;
    QueueInv(ks, events);
    if events == [] {
      NothingOffered(ks);
    } else {
      var front, e := events[..|events| - 1], events[|events| - 1];
      OfferedIsEnqueued(ks, front);
      assert front + [e] == events;
      RunLast(ks, front, e);
      HappenEnqueues(ks, Run(ks, front), e);
      OfferedSnoc(front, e);
    }
  }

  lemma QueueInv(ks: Keystream, events: seq<Event>)
    ensures var s := Run(ks, events); FramesFrom(s.log, Queued) + s.queue == s.enqueued
  {
    RunInv(ks, events);
    hide FramesFrom, Flatten, CoverFrames;
  }

  lemma NothingOffered(ks: Keystream)
    ensures (Run(ks, []).enqueued, Run(ks, []).connected) == Offered([])
  {
  }

  lemma OfferedSnoc(front: seq<Event>, e: Event)
    ensures Offered(front + [e]) == OfferedNext(Offered(front), e)
  {
    assert (front + [e])[..|front|] == front;
  }

  lemma HappenEnqueues(ks: Keystream, s: Egress, e: Event)
    requires Sane(s)
    ensures var t := Happen(ks, s, e); (t.enqueued, t.connected) == OfferedNext((s.enqueued, s.connected), e)
  {
    hide Tick;
    if e.TickNow? { TickEnqueuesNothing(ks, s, e.kernelReady, e.peerUp, e.attempts); }
  }

  lemma TickEnqueuesNothing(ks: Keystream, s: Egress, kernelReady: bool, peerUp: bool, attempts: seq<SendAttempt>)
    requires Sane(s)
    ensures var t := Tick(ks, s, kernelReady, peerUp, attempts).0; t.enqueued == s.enqueued && t.connected == s.connected
  {
    hide Drain;
    DrainEnqueuesNothing(s, attempts);
    if s.queue != [] { DrainEnqueuesNothing(BeginQueued(s), attempts); }
    DrainEnqueuesNothing(BeginCover(ks, s), attempts);
  }

  lemma {:induction false} DrainEnqueuesNothing(s: Egress, attempts: seq<SendAttempt>)
    requires Sane(s)
    ensures var t := Drain(s, attempts).0; t.enqueued == s.enqueued && t.connected == s.connected
    decreases |attempts|
  {
    if s.pending.active && attempts != [] && attempts[0].Wrote? {
      DrainEnqueuesNothing(Write(s, attempts[0].n), attempts[1..]);
    }
  }

  /** A tick whose one write takes everything sends the oldest queued frame, whole. */
  lemma WholeTickSends(ks: Keystream, s: Egress)
    requires Sane(s) && !s.halted && !s.pending.active && s.queue != []
    ensures var t := Happen(ks, s, TickNow(true, true, [Wrote(512)]));
            t.wire == s.wire + s.queue[0] && t.queue == s.queue[1..] && !t.pending.active && !t.halted
  {
    QueuedBegun(s);
    hide Write, BeginQueued, Drain;
    WholeWrite(BeginQueued(s));
  }

  lemma QueuedBegun(s: Egress)
    requires s.queue != []
    ensures var b := BeginQueued(s);
            && b.pending == Pending(true, 0, s.queue[0]) && b.log != [] && b.wire == s.wire && b.queue == s.queue[1..]
            && b.halted == s.halted
  {
  }

  lemma WholeWrite(s: Egress)
    requires Sane(s) && s.pending.active && s.pending.offset == 0
    ensures var (t, outcome) := Drain(s, [Wrote(512)]);
            && outcome == Ok && t.wire == s.wire + s.pending.buf && !t.pending.active
            && t.queue == s.queue && t.halted == s.halted
  {
    assert [Wrote(512)][1..] == [];
    assert s.pending.buf[0..] == s.pending.buf;
    hide Amend;
  }

  // ---------- the end of the loop ----------

  /** Fatal comes after nothing but writes, which have not completed the frame. */
  predicate MeetsFatal(offset: nat, attempts: seq<SendAttempt>) {
    exists i :: 0 <= i < |attempts| && attempts[i] == Fatal && FatalHere(offset, attempts, i)
  }

  predicate FatalHere(offset: nat, attempts: seq<SendAttempt>, i: nat)
    requires i <= |attempts|
  {
    (forall j :: 0 <= j < i ==> attempts[j].Wrote?) && offset + Total(attempts[..i]) < 512
  }

  /** The event is a tick, with both gates open and a frame in hand or to start, that meets Fatal. */
  predicate FatalIn(s: Egress, e: Event) {
    Ticks(s, e) && if s.pending.active then MeetsFatal(s.pending.offset, e.attempts) else StartsFrame(s, e) && MeetsFatal(0, e.attempts)
  }

  lemma FatalShift(offset: nat, attempts: seq<SendAttempt>, i: nat)
    requires 0 < i < |attempts| && attempts[0].Wrote?
    ensures FatalHere(offset, attempts, i) <==> FatalHere(offset + attempts[0].n, attempts[1..], i - 1)
  {
    assert attempts[..i][0] == attempts[0] && attempts[..i][1..] == attempts[1..][..i - 1];
    assert Total(attempts[..i]) == attempts[0].n + Total(attempts[1..][..i - 1]);
    hide Total;
    if FatalHere(offset + attempts[0].n, attempts[1..], i - 1) {
      forall j | 0 <= j < i ensures attempts[j].Wrote? { if j > 0 { assert attempts[1..][j - 1].Wrote?; } }
    }
  }

  lemma MeetsFatalStep(offset: nat, attempts: seq<SendAttempt>)
    requires attempts != []
    ensures MeetsFatal(offset, attempts) <==>
              match attempts[0]
              case Wrote(n) => offset + n < 512 && MeetsFatal(offset + n, attempts[1..])
              case Fatal => offset < 512
              case _ => false
  {
    hide FatalHere;
    FirstIsFatal(offset, attempts);
    forall i | 0 < i < |attempts|
      ensures FatalHere(offset, attempts, i) <==>
                attempts[0].Wrote? && FatalHere(offset + attempts[0].n, attempts[1..], i - 1)
      ensures FatalHere(offset, attempts, i) ==> offset + attempts[0].n < 512
    {
      LaterIsFatal(offset, attempts, i);
    }
    if attempts[0].Wrote? && MeetsFatal(offset + attempts[0].n, attempts[1..]) {
      var i :| 0 <= i < |attempts[1..]| && attempts[1..][i] == Fatal && FatalHere(offset + attempts[0].n, attempts[1..], i);
      assert attempts[i + 1] == Fatal && FatalHere(offset, attempts, i + 1);
    }
    if attempts[0].Wrote? && MeetsFatal(offset, attempts) {
      var i :| 0 <= i < |attempts| && attempts[i] == Fatal && FatalHere(offset, attempts, i);
      assert attempts[1..][i - 1] == Fatal;
    }
  }

  lemma FirstIsFatal(offset: nat, attempts: seq<SendAttempt>)
    requires attempts != []
    ensures FatalHere(offset, attempts, 0) <==> offset < 512
  {
    assert attempts[..0] == [];
  }

  lemma LaterIsFatal(offset: nat, attempts: seq<SendAttempt>, i: nat)
    requires 0 < i < |attempts|
    ensures FatalHere(offset, attempts, i) <==>
              attempts[0].Wrote? && FatalHere(offset + attempts[0].n, attempts[1..], i - 1)
    ensures FatalHere(offset, attempts, i) ==> offset + attempts[0].n < 512
  {
    if attempts[0].Wrote? { FatalShift(offset, attempts, i); }
  }

  lemma {:induction false} DrainFatal(s: Egress, attempts: seq<SendAttempt>)
    requires Sane(s) && s.pending.active
    ensures Drain(s, attempts).1 == Guillotine <==> MeetsFatal(s.pending.offset, attempts)
    decreases |attempts|
  {
    hide MeetsFatal;
    if attempts == [] {
      NothingFatal(s.pending.offset);
    } else {
      MeetsFatalStep(s.pending.offset, attempts);
      if attempts[0].Wrote? && s.pending.offset + attempts[0].n < FRAME_LEN {
        DrainFatal(Write(s, attempts[0].n), attempts[1..]);
      }
    }
  }

  lemma NothingFatal(offset: nat)
    ensures !MeetsFatal(offset, [])
  {
  }

  lemma HappenHalts(ks: Keystream, s: Egress, e: Event)
    requires Inv(ks, s)
    ensures Sane(s) && (Happen(ks, s, e).halted <==> s.halted || FatalIn(s, e))
    ensures (s.halted ==> !s.pending.active) ==> (Happen(ks, s, e).halted ==> !Happen(ks, s, e).pending.active)
  {
    assert Sane(s);
    hide Inv, MeetsFatal;
    if Ticks(s, e) {
      DrainKeepsHalted(s, e.attempts);
      if s.pending.active {
        DrainFatal(s, e.attempts);
      } else if s.queue != [] {
        DrainFatal(BeginQueued(s), e.attempts);
        DrainKeepsHalted(BeginQueued(s), e.attempts);
      } else if s.connected {
        DrainFatal(BeginCover(ks, s), e.attempts);
        DrainKeepsHalted(BeginCover(ks, s), e.attempts);
      }
      hide Drain;
    }
  }

  lemma {:induction false} DrainKeepsHalted(s: Egress, attempts: seq<SendAttempt>)
    requires Sane(s)
    ensures Drain(s, attempts).0.halted == s.halted
    decreases |attempts|
  {
    if s.pending.active && attempts != [] && attempts[0].Wrote? { DrainKeepsHalted(Write(s, attempts[0].n), attempts[1..]); }
  }

  ghost predicate FatalAt(ks: Keystream, events: seq<Event>, j: nat) requires j < |events| {
    FatalIn(Run(ks, events[..j]), events[j])
  }

  ghost predicate SomeFatal(ks: Keystream, events: seq<Event>) { exists j :: 0 <= j < |events| && FatalAt(ks, events, j) }

  /** The loop has ended exactly when some tick met Fatal; nothing is pending from then on. */
  lemma {:induction false} HaltedIff(ks: Keystream, events: seq<Event>)
    ensures Run(ks, events).halted <==> SomeFatal(ks, events)
    ensures Run(ks, events).halted ==> !Run(ks, events).pending.active
    decreases |events|
  {
    hide *;
    if events == [] {
      StartsUnhalted(ks);
    } else {
      var front, e := events[..|events| - 1], events[|events| - 1];
      HaltedIff(ks, front);
      RunInv(ks, front);
      HappenHalts(ks, Run(ks, front), e);
      assert front + [e] == events;
      RunLast(ks, front, e);
      FatalSnoc(ks, front, e);
    }
  }

  lemma StartsUnhalted(ks: Keystream)
    ensures !Run(ks, []).halted && !SomeFatal(ks, [])
  {
  }

  lemma RunInv(ks: Keystream, events: seq<Event>)
    ensures Inv(ks, Run(ks, events)) && Sane(Run(ks, events))
  {
    assert Inv(ks, Run(ks, events));
  }

  lemma RunLast(ks: Keystream, front: seq<Event>, e: Event)
    ensures Sane(Run(ks, front)) && Run(ks, front + [e]) == Happen(ks, Run(ks, front), e)
  {
    RunInv(ks, front);
    hide Inv, Happen;
    assert (front + [e])[..|front|] == front;
  }

  lemma FatalSnoc(ks: Keystream, front: seq<Event>, e: Event)
    ensures SomeFatal(ks, front + [e]) <==> SomeFatal(ks, front) || FatalIn(Run(ks, front), e)
  {
    hide Run, FatalIn;
    var events := front + [e];
    assert events[..|front|] == front;
    forall j: nat | j < |front| ensures FatalAt(ks, events, j) == FatalAt(ks, front, j) {
      assert events[..j] == front[..j];
    }
    assert FatalAt(ks, events, |front|) == FatalIn(Run(ks, front), e);
  }

  /** Once the loop has ended, no later event puts a byte on the wire, starts a frame or moves the keystream. */
  lemma {:induction false} HaltedForGood(ks: Keystream, events: seq<Event>, later: seq<Event>)
    requires Run(ks, events).halted
    ensures var s, t := Run(ks, events), Run(ks, events + later);
            t.halted && t.wire == s.wire && t.log == s.log && t.pos == s.pos && t.pending == s.pending
    decreases |later|
  {
    hide *;
    if later == [] {
      assert events + [] == events;
    } else {
      var front, e := later[..|later| - 1], later[|later| - 1];
      HaltedForGood(ks, events, front);
      assert events + later == events + front + [e];
      RunLast(ks, events + front, e);
      HappenHalted(ks, Run(ks, events + front), e);
    }
  }

  lemma HappenHalted(ks: Keystream, s: Egress, e: Event)
    requires Sane(s) && s.halted
    ensures var t := Happen(ks, s, e);
            t.halted && t.wire == s.wire && t.log == s.log && t.pos == s.pos && t.pending == s.pending
  {
  }

  // ---------- sockets that take whole frames ----------

  /** A datagram socket takes all of a frame or none of it. */
  ghost predicate WholeWrites(attempts: seq<SendAttempt>) { forall a :: a in attempts && a.Wrote? ==> a.n >= FRAME_LEN }

  ghost predicate Datagrams(events: seq<Event>) { forall e :: e in events && e.TickNow? ==> WholeWrites(e.attempts) }

  /** One answer ends the loop, and no frame is ever in part sent. */
  lemma {:induction false} DrainWhole(s: Egress, attempts: seq<SendAttempt>)
    requires Sane(s) && s.pending.offset == 0 && WholeWrites(attempts)
    ensures Drain(s, attempts).0.pending.offset == 0 && !Cut(0, attempts)
    ensures attempts != [] ==> !StillAsking(s, attempts)
    decreases |attempts|
  {
    if attempts != [] {
      assert attempts[0] in attempts;
    }
  }

  lemma HappenWhole(ks: Keystream, s: Egress, e: Event)
    requires Sane(s) && s.pending.offset == 0 && (e.TickNow? ==> WholeWrites(e.attempts))
    ensures Happen(ks, s, e).pending.offset == 0 && !CutsFrame(s, e)
  {
    hide Drain, Cut, WholeWrites;
    if e.TickNow? {
      DrainWhole(s, e.attempts);
      if s.queue != [] { DrainWhole(BeginQueued(s), e.attempts); }
      DrainWhole(BeginCover(ks, s), e.attempts);
    }
  }

  lemma {:induction false} DatagramOffset(ks: Keystream, events: seq<Event>)
    requires Datagrams(events)
    ensures Run(ks, events).pending.offset == 0
    decreases |events|
  {
    hide Happen, Inv;
    if events != [] {
      var front, e := events[..|events| - 1], events[|events| - 1];
      assert e in events && Datagrams(front);
      DatagramOffset(ks, front);
      RunSane(ks, front);
      HappenWhole(ks, Run(ks, front), e);
    }
  }

  lemma RunSane(ks: Keystream, events: seq<Event>)
    ensures Sane(Run(ks, events))
  {
    assert Inv(ks, Run(ks, events));
  }

  /** On a datagram socket, whatever it answers and whenever it breaks, every frame starts at a multiple of 512. */
  lemma DatagramsStayAligned(ks: Keystream, events: seq<Event>)
    requires Datagrams(events)
    ensures var log := Run(ks, events).log;
            !SomeCut(ks, events) && forall k :: 0 <= k < |log| ==> StartOf(log, k) % FRAME_LEN == 0
  {
    hide Run, CutsFrame, StartOf, Inv;
    forall j: nat | j < |events| ensures !CutsAt(ks, events, j) {
      assert Datagrams(events[..j]) by { assert forall e :: e in events[..j] ==> e in events; }
      DatagramOffset(ks, events[..j]);
      RunSane(ks, events[..j]);
      assert events[j] in events;
      HappenWhole(ks, Run(ks, events[..j]), events[j]);
    }
    FramesAlignedIff(ks, events);
  }

  lemma LogAligned(ks: Keystream, s: Egress)
    requires Inv(ks, s)
    ensures (forall k :: 0 <= k < |s.log| ==> StartOf(s.log, k) % FRAME_LEN == 0) <==> !CutLog(s.log)
  {
    var log := s.log;
    assert forall k :: 0 <= k < |log| - 1 ==> log[k].Closed();
    hide StartOf, Inv;
    if !CutLog(log) {
      forall k | 0 <= k < |log| - 1 ensures !(log[k].aborted && log[k].sent > 0) { assert !IsCut(log[k]); }
      AllAligned(log, |log|);
    }
    if forall k :: 0 <= k < |log| ==> StartOf(log, k) % FRAME_LEN == 0 {
      NoneCut(log);
    }
  }

  lemma NoneCut(log: seq<Entry>)
    requires forall k :: 0 <= k < |log| - 1 ==> log[k].Closed()
    requires forall k :: 0 <= k < |log| ==> StartOf(log, k) % FRAME_LEN == 0
    ensures forall k :: 0 <= k < |log| - 1 ==> !(log[k].aborted && log[k].sent > 0)
  {
    hide StartOf;
    forall k | 0 <= k < |log| - 1 ensures !(log[k].aborted && log[k].sent > 0) {
      StartStep(log, k);
      assert StartOf(log, k) % FRAME_LEN == 0 && StartOf(log, k + 1) % FRAME_LEN == 0;
    }
  }

  lemma {:induction false} AllAligned(log: seq<Entry>, n: nat)
    requires n <= |log|
    requires forall k :: 0 <= k < |log| - 1 ==> log[k].Closed() && !(log[k].aborted && log[k].sent > 0)
    ensures forall k :: 0 <= k < n ==> StartOf(log, k) % FRAME_LEN == 0
    decreases n
  {
    hide StartOf;
    if n == 1 { assert StartOf(log, 0) == 0 by { StartOfFirst(log); } }
    if n > 0 {
      AllAligned(log, n - 1);
      if n > 1 { StartStep(log, n - 2); }
    }
  }

  /** A tick starts a cover frame only with both gates open, no frame pending, and nothing queued; with
      something queued it starts the oldest. Otherwise it starts nothing. */
  lemma WhatATickStarts(ks: Keystream, s: Egress, kernelReady: bool, peerUp: bool, attempts: seq<SendAttempt>)
    requires Inv(ks, s)
    ensures var t := Tick(ks, s, kernelReady, peerUp, attempts).0;
            var idle := kernelReady && peerUp && !s.pending.active;
            && |t.log| == |s.log| + (if idle && (s.queue != [] || s.connected) then 1 else 0)
            && (idle && s.queue != [] ==> Last(t.log).source == Queued && Last(t.log).frame == s.queue[0])
            && (idle && s.queue == [] && s.connected ==>
                  Last(t.log).source == Cover && Last(t.log).frame == CoverFrame(ks, s.pos))
  {
    DrainAmendsOnly(s, attempts);
    if !s.pending.active && s.queue != [] {
      DrainAmendsOnly(BeginQueued(s), attempts);
    } else if !s.pending.active {
      DrainAmendsOnly(BeginCover(ks, s), attempts);
    }
  }

  lemma {:induction false} DrainAmendsOnly(s: Egress, attempts: seq<SendAttempt>)
    requires Sane(s)
    ensures var t := Drain(s, attempts).0;
            && |t.log| == |s.log|
            && (s.log != [] ==> Last(t.log).source == Last(s.log).source && Last(t.log).frame == Last(s.log).frame)
    decreases |attempts|
  {
    if s.pending.active && attempts != [] && attempts[0].Wrote? {
      DrainAmendsOnly(Write(s, attempts[0].n), attempts[1..]);
    }
  }

  // ---------- when the drain loop ends ----------

  /** After these answers the loop has not ended and asks the socket again. */
  predicate StillAsking(s: Egress, attempts: seq<SendAttempt>)
    requires Sane(s)
    decreases |attempts|
  {
    && s.pending.active
    && (attempts == [] || (attempts[0].Wrote? && StillAsking(Write(s, attempts[0].n), attempts[1..])))
  }

  /** The bytes that the answers report as written. */
  function Total(attempts: seq<SendAttempt>): nat {
    if attempts == [] then 0 else (if attempts[0].Wrote? then attempts[0].n else 0) + Total(attempts[1..])
  }

  /** The loop is still asking exactly when every answer was a write and the bytes written do not complete the
      frame. */
  lemma {:induction false} StillAskingIff(s: Egress, attempts: seq<SendAttempt>)
    requires Sane(s) && s.pending.active
    ensures StillAsking(s, attempts) <==>
              (forall a :: a in attempts ==> a.Wrote?) && s.pending.offset + Total(attempts) < FRAME_LEN
    decreases |attempts|
  {
    if attempts != [] {
      assert attempts == [attempts[0]] + attempts[1..];
      if attempts[0].Wrote? && s.pending.offset + attempts[0].n < FRAME_LEN {
        StillAskingIff(Write(s, attempts[0].n), attempts[1..]);
      }
    }
  }

  /** If every write takes at least one byte, as many writes as bytes remain end the loop with the frame sent. */
  lemma {:induction false} ProgressFinishes(s: Egress, attempts: seq<SendAttempt>)
    requires Sane(s) && (s.pending.active ==> |attempts| >= FRAME_LEN - s.pending.offset)
    requires forall a :: a in attempts ==> a.Wrote? && a.n >= 1
    ensures var (t, outcome) := Drain(s, attempts); !t.pending.active && outcome == Ok
    ensures !StillAsking(s, attempts)
    decreases |attempts|
  {
    if s.pending.active {
      assert attempts[0] in attempts;
      ProgressFinishes(Write(s, attempts[0].n), attempts[1..]);
    }
  }

  type Socket = nat -> SendAttempt   // the answers of a socket that is asked for ever

  function First(socket: Socket, n: nat): seq<SendAttempt> { seq(n, i requires i >= 0 => socket(i)) }

  ghost predicate NeverEnds(s: Egress, socket: Socket)
    requires Sane(s)
  {
    forall n: nat :: StillAsking(s, First(socket, n))
  }

  /** The loop never ends exactly when every answer is a write and no number of them completes the frame. */
  lemma NeverEndsIff(s: Egress, socket: Socket)
    requires Sane(s) && s.pending.active
    ensures NeverEnds(s, socket) <==>
              && (forall i: nat :: socket(i).Wrote?)
              && (forall n: nat :: s.pending.offset + Total(First(socket, n)) < FRAME_LEN)
  {
    hide StillAsking, Total;
    forall n: nat
      ensures StillAsking(s, First(socket, n)) <==>
                (forall i: nat :: i < n ==> socket(i).Wrote?) && s.pending.offset + Total(First(socket, n)) < FRAME_LEN
    {
      StillAskingIff(s, First(socket, n));
      assert forall i: nat :: i < n ==> First(socket, n)[i] == socket(i);
    }
    if NeverEnds(s, socket) {
      forall i: nat ensures socket(i).Wrote? { assert StillAsking(s, First(socket, i + 1)); }
    }
  }

  ghost predicate QuietFrom(socket: Socket, m: nat) { forall i: nat :: i >= m ==> socket(i) == Wrote(0) }

  /** A socket that keeps the loop busy for ever reports, from some point on, nothing but writes of no byte. */
  lemma NeverEndsOnEmptyWrites(s: Egress, socket: Socket)
    requires Sane(s) && s.pending.active && NeverEnds(s, socket)
    ensures exists m: nat :: QuietFrom(socket, m)
  {
    NeverEndsIff(s, socket);
    hide NeverEnds, Sane, Total;
    assert First(socket, 0) == [];
    var m := Quiet(socket, 0, FRAME_LEN);
  }

  /** Among writes of bounded total, only so many can take a byte. */
  lemma {:induction false} Quiet(socket: Socket, from: nat, room: nat) returns (m: nat)
    requires forall i: nat :: socket(i).Wrote?
    requires forall n: nat :: Total(First(socket, n)) <= Total(First(socket, from)) + room
    ensures QuietFrom(socket, m)
    decreases room
  {
    if i: nat :| i >= from && socket(i) != Wrote(0) {
      TotalGrows(socket, from, i);
      TotalSnoc(First(socket, i), socket(i));
      assert First(socket, i + 1) == First(socket, i) + [socket(i)];
      m := Quiet(socket, i + 1, room - 1);
    } else {
      m := from;
    }
  }

  lemma {:induction false} TotalGrows(socket: Socket, m: nat, n: nat)
    requires m <= n
    ensures Total(First(socket, m)) <= Total(First(socket, n))
    decreases n
  {
    if m < n {
      TotalGrows(socket, m, n - 1);
      TotalSnoc(First(socket, n - 1), socket(n - 1));
      assert First(socket, n) == First(socket, n - 1) + [socket(n - 1)];
    }
  }

  lemma {:induction false} TotalSnoc(attempts: seq<SendAttempt>, a: SendAttempt)
    ensures Total(attempts + [a]) == Total(attempts) + if a.Wrote? then a.n else 0
    decreases |attempts|
  {
    if attempts == [] {
      assert [] + [a] == [a] && [a][1..] == [];
    } else {
      TotalSnoc(attempts[1..], a);
      assert (attempts + [a])[1..] == attempts[1..] + [a];
    }
  }

  /** A socket that reports writes of no byte keeps the loop asking for ever, in the state it was in. */
  lemma EmptyWritesSpin(s: Egress)
    requires Sane(s) && s.pending.active
    ensures NeverEnds(s, i => Wrote(0))
  {
    var socket: Socket := i => Wrote(0);
    forall n: nat ensures StillAsking(s, First(socket, n)) {
      NoBytes(First(socket, n));
      StillAskingIff(s, First(socket, n));
    }
  }

  lemma {:induction false} NoBytes(attempts: seq<SendAttempt>)
    requires forall a :: a in attempts ==> a == Wrote(0)
    ensures Total(attempts) == 0
    decreases |attempts|
  {
    if attempts != [] {
      assert attempts[0] in attempts;
      assert forall a :: a in attempts[1..] ==> a in attempts;
      NoBytes(attempts[1..]);
    }
  }

  // ---------- the code ----------

  /** The partial-frame buffer of the frame crate. */
  class PendingWrite {
    var active: bool
    var offset: nat
    const buf: array<Byte>

    ghost predicate Valid()
      reads this
    {
      buf.Length == FRAME_LEN && offset < FRAME_LEN
    }

    ghost function View(): Pending
      requires buf.Length == FRAME_LEN
      reads this, buf
    {
      Pending(active, offset, buf[..])
    }

    constructor ()
      ensures Valid() && fresh(buf) && View() == Pending(false, 0, Zeros(FRAME_LEN))
    {
      active, offset := false, 0;
      buf := new Byte[FRAME_LEN](_ => 0);
      new;
      assert buf[..] == Zeros(FRAME_LEN);
    }

    method Remaining() returns (r: seq<Byte>)
      requires Valid()
      ensures r == View().Remaining()
    {
      r := buf[offset..];
    }

    method Start(src: Frame)
      requires Valid()
      modifies this, buf
      ensures Valid() && View() == Activate(src)
    {
      for i := 0 to FRAME_LEN
        modifies buf
        invariant buf[..i] == src[..i]
      {
        buf[i] := src[i];
      }
      assert buf[..] == src;
      offset := 0;
      active := true;
    }

    method Advance(n: nat)
      requires Valid()
      modifies this
      ensures Valid() && View() == old(View()).Advance(n)
    {
      var newOffset := offset + n;
      if newOffset >= FRAME_LEN {
        Clear();
      } else {
        offset := newOffset;
      }
    }

    method Clear()
      requires Valid()
      modifies this
      ensures Valid() && View() == old(View()).Clear()
    {
      active := false;
      offset := 0;
    }
  }

  /** The metronome thread: the channel's receiving end, the cipher, the pending frame and the socket. */
  class MetronomeThread {
    const ks: Keystream
    const pending: PendingWrite
    var queue: seq<Frame>
    var connected: bool
    var pos: nat
    var wire: seq<Byte>
    var faulted: bool
    ghost var s: Egress

    ghost predicate Mirrors()
      reads this, pending, pending.buf
    {
      && pending.Valid() && Sane(s) && s.pending == pending.View()
      && s.queue == queue && s.connected == connected && s.pos == pos && s.wire == wire && s.halted == faulted
    }

    ghost predicate Valid()
      reads this, pending, pending.buf
    {
      Mirrors() && Inv(ks, s)
    }

    constructor (ks: Keystream)
      ensures Valid() && s == START && this.ks == ks && fresh(pending) && fresh(pending.buf)
    {
      this.ks := ks;
      pending := new PendingWrite();
      queue, connected, pos, wire, faulted, s := [], true, 0, [], false, START;
    }

    /** `fill_cover`: zeros combined with the next 512 bytes of the keystream. */
    method FillCover() returns (cover: Frame)
      requires Mirrors()
      modifies `pos, `s
      ensures Mirrors() && s == old(s).(pos := old(s).pos + FRAME_LEN) && cover == CoverFrame(ks, old(s).pos)
    {
      cover := Zeros(FRAME_LEN);
      for i := 0 to FRAME_LEN
        modifies {}
        invariant forall j :: 0 <= j < i ==> cover[j] == ks(pos + j)
        invariant forall j :: i <= j < FRAME_LEN ==> cover[j] == 0
      {
        XorComm(0, ks(pos + i));
        XorZero(ks(pos + i));
        cover := cover[i := Xor(cover[i], ks(pos + i))];
      }
      pos := pos + FRAME_LEN;
      s := s.(pos := pos);
    }

    /** The socket took `n` bytes of what remained. */
    method WriteSome(n: nat)
      requires Mirrors() && pending.active
      modifies pending, `wire, `s
      ensures Mirrors() && s == Write(old(s), n)
    {
      s := Write(s, n);
      var rest := pending.Remaining();
      wire := wire + if n >= |rest| then rest else rest[..n];
      pending.Advance(n);
    }

    method GiveUp()
      requires Mirrors() && pending.active
      modifies pending, `s
      ensures Mirrors() && s == Abort(old(s))
    {
      s := Abort(s);
      pending.Clear();
    }

    /** `drain_pending`. When the answers run out while the loop is `asking`, the method stops there. */
    method DrainPending(attempts: seq<SendAttempt>) returns (outcome: TickOutcome, asking: bool)
      requires Mirrors()
      modifies pending, `wire, `s
      ensures Mirrors() && (s, outcome) == Drain(old(s), attempts) && asking == StillAsking(old(s), attempts)
    {
      hide Write, Abort;
      var i := 0;
      while pending.active && i < |attempts|
        invariant Mirrors() && i <= |attempts|
        invariant Drain(s, attempts[i..]) == Drain(old(s), attempts)
        invariant StillAsking(s, attempts[i..]) == StillAsking(old(s), attempts)
        decreases |attempts| - i
      {
        assert attempts[i..][0] == attempts[i] && attempts[i..][1..] == attempts[i + 1..];
        match attempts[i] {
          case Wrote(n) => WriteSome(n);
          case WouldBlock => return Ok, false;
          case Broken =>
            GiveUp();
            return Ok, false;
          case Fatal =>
            GiveUp();
            return Guillotine, false;
        }
        i := i + 1;
      }
      outcome, asking := Ok, pending.active;
    }

    /** `tick`. */
    method TickOnce(kernelReady: bool, peerUp: bool, attempts: seq<SendAttempt>) returns (outcome: TickOutcome)
      requires Mirrors()
      modifies pending, pending.buf, `queue, `pos, `wire, `s
      ensures Mirrors() && (s, outcome) == Tick(ks, old(s), kernelReady, peerUp, attempts)
    {
      if !kernelReady {
        return Ok;
      }
      if !peerUp {
        return Ok;
      }
      var asking;
      if pending.active {
        outcome, asking := DrainPending(attempts);
        return;
      }
      if queue != [] {
        var frame := queue[0];
        queue := queue[1..];
        pending.Start(frame);
        s := Begin(s.(queue := s.queue[1..]), Queued, frame);
        outcome, asking := DrainPending(attempts);
      } else if connected {
        var cover := FillCover();
        pending.Start(cover);
        s := Begin(s, Cover, cover);
        outcome, asking := DrainPending(attempts);
      } else {
        outcome := Ok;
      }
    }

    /** One pass of `run_loop`, which a fatal outcome ends. */
    method LoopOnce(kernelReady: bool, peerUp: bool, attempts: seq<SendAttempt>)
      requires Valid()
      modifies this, pending, pending.buf
      ensures Valid() && s == Happen(ks, old(s), TickNow(kernelReady, peerUp, attempts))
    {
      HappenKeepsInv(ks, s, TickNow(kernelReady, peerUp, attempts));
      hide Inv, Tick;
      if faulted {
        return;
      }
      var outcome := TickOnce(kernelReady, peerUp, attempts);
      if outcome == Guillotine {
        pending.Clear();
        faulted := true;
        s := s.(pending := s.pending.Clear(), halted := true);
      }
    }
  }
}
