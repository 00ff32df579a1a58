/** The causal reorder buffer: a horizon, a throttle, eviction at capacity, and gap-free delivery.

    Ticks are unbounded here; `CommittedAtMostCalls` shows that the 64-bit counter cannot come near its
    limit. The two floating-point inputs are replaced by what they decide: whether the sender has low
    priority, and whether `len / max > 0.90`, which is `10 * len > 9 * max`. */
module Causal {
  import opened Bytes

  const HORIZON := 50
  const DEFAULT_MAX_BUFFER_SIZE := 10_000

  type Payload = seq<Byte>

  datatype Packet = Packet(tick: nat, payload: Payload, lowPriority: bool)

  datatype State = State(committed: nat, buffer: map<nat, Payload>)

  // ---------- one call, as a function ----------

  predicate Throttled(s: State, max: nat, p: Packet) { p.lowPriority && 10 * |s.buffer| > 9 * max }

  predicate BeyondHorizon(s: State, p: Packet) { p.tick > s.committed + HORIZON }

  predicate Late(s: State, p: Packet) { p.tick <= s.committed }

  predicate Accepts(s: State, max: nat, p: Packet) {
    !Throttled(s, max, p) && !BeyondHorizon(s, p) && !Late(s, p)
  }

  /** What is accepted: a tick after the committed one and at most 50 ahead, unless the sender has low priority and
      the buffer is more than nine tenths full. (A buffer of capacity 0 is more than full with any entry in it.)
      What is not accepted changes nothing. */
  lemma AcceptsIff(s: State, max: nat, p: Packet)
    ensures Accepts(s, max, p) <==>
              && s.committed < p.tick <= s.committed + 50
              && !(p.lowPriority && if max == 0 then |s.buffer| > 0 else |s.buffer| as real / max as real > 0.90)
    ensures !Accepts(s, max, p) ==> Process(s, max, p) == (s, [])
  {
    if max > 0 { RatioAbove(|s.buffer|, max); }
  }

  lemma RatioAbove(n: nat, max: nat)
    requires max > 0
    ensures n as real / max as real > 0.90 <==> 10 * n > 9 * max
  {
    var r := n as real / max as real;
    assert r * max as real == n as real;
    if r > 0.90 { ScaleReal(0.90, r, max as real); } else { ScaleReal(r, 0.90, max as real); }
  }

  lemma ScaleReal(a: real, b: real, c: real)
    requires c > 0.0
    ensures a < b ==> a * c < b * c
    ensures a <= b ==> a * c <= b * c
  {
  }

  ghost predicate IsLeast(m: map<nat, Payload>, t: nat) { t in m && forall k :: k in m ==> t <= k }

  lemma LeastExists(m: map<nat, Payload>, bound: nat)
    requires exists t :: t in m && t <= bound
    ensures exists t :: IsLeast(m, t)
  {
    if bound > 0 && exists t :: t in m && t <= bound - 1 {
      LeastExists(m, bound - 1);
    } else {
      assert IsLeast(m, bound);
    }
  }

  ghost function Oldest(m: map<nat, Payload>): (t: nat)
    requires m != map[]
    ensures IsLeast(m, t)
  {
    var k :| k in m;
    LeastExists(m, k);
    var t :| IsLeast(m, t);
    t
  }

  /** Makes room: removes the oldest entry while the buffer is at capacity. */
  ghost function Evict(s: State, max: nat): State
    decreases |s.buffer|
  {
    if |s.buffer| >= max && s.buffer != map[] then
      var t := Oldest(s.buffer);
      Evict(State(if t == s.committed + 1 then t else s.committed, s.buffer - {t}), max)
    else s
  }

  /** Removes and commits the consecutive entries after the committed tick. */
  function Extract(s: State): (r: (State, seq<Payload>))
    decreases |s.buffer|
  {
    var t := s.committed + 1;
    if t in s.buffer then
      var (end, out) := Extract(State(t, s.buffer - {t}));
      (end, [s.buffer[t]] + out)
    else (s, [])
  }

  ghost function Process(s: State, max: nat, p: Packet): (State, seq<Payload>) {
    if !Accepts(s, max, p) then (s, [])
    else
      var room := Evict(s, max);
      Extract(State(room.committed, room.buffer[p.tick := p.payload]))
  }

  // ---------- runs ----------

  const START := State(0, map[])

  /** The state after a run from an empty buffer, everything it put out, and for each tick the payload of the
      last packet accepted for it. */
  datatype Outcome = Outcome(state: State, out: seq<Payload>, accepted: map<nat, Payload>)

  ghost function Run(max: nat, ps: seq<Packet>): Outcome {
    if ps == [] then Outcome(START, [], map[]) else Next(Run(max, ps[..|ps| - 1]), max, ps[|ps| - 1])
  }

  ghost function Next(r: Outcome, max: nat, p: Packet): Outcome {
    var (s, out) := Process(r.state, max, p);
    Outcome(s, r.out + out, if Accepts(r.state, max, p) then r.accepted[p.tick := p.payload] else r.accepted)
  }

  // ---------- gap-free delivery, for any capacity ----------

  ghost predicate InWindow(s: State) {
    forall t :: t in s.buffer ==> s.committed + 2 <= t <= s.committed + HORIZON
  }

  ghost predicate GapFree(r: Outcome) {
    && InWindow(r.state) && |r.out| == r.state.committed
    && (forall t :: t in r.state.buffer ==> t in r.accepted && r.accepted[t] == r.state.buffer[t])
    && (forall t :: 1 <= t <= r.state.committed ==> t in r.accepted && r.out[t - 1] == r.accepted[t])
  }

  /** Eviction from a window never finds the next tick to commit, so it only removes entries. */
  lemma {:induction false} EvictOnlyRemoves(s: State, max: nat)
    requires InWindow(s)
    ensures var e := Evict(s, max);
            && e.committed == s.committed && InWindow(e)
            && (forall t :: t in e.buffer ==> t in s.buffer && e.buffer[t] == s.buffer[t])
            && (|s.buffer| < max ==> e == s)
    decreases |s.buffer|
  {
    if |s.buffer| >= max && s.buffer != map[] {
      EvictOne(s, max);
      hide Evict;
      EvictOnlyRemoves(State(s.committed, s.buffer - {Oldest(s.buffer)}), max);
    }
  }

  lemma EvictOne(s: State, max: nat)
    requires |s.buffer| >= max && s.buffer != map[]
    ensures var t := Oldest(s.buffer);
            && IsLeast(s.buffer, t) && |s.buffer - {t}| == |s.buffer| - 1
            && Evict(s, max) == Evict(State(if t == s.committed + 1 then t else s.committed, s.buffer - {t}), max)
  {
    var t := Oldest(s.buffer);
    assert s.buffer.Keys == (s.buffer - {t}).Keys + {t};
  }

  /** Which entries go: from a buffer at capacity the oldest ones, just so many that there is room for one more. */
  lemma {:induction false} EvictsOldest(s: State, max: nat)
    ensures var b, e := s.buffer, Evict(s, max).buffer;
            && |e| == (if |b| < max then |b| else if max == 0 then 0 else max - 1)
            && (forall t :: t in e ==> t in b && e[t] == b[t])
            && (forall r, t :: r in b && r !in e && t in e ==> r < t)
    decreases |s.buffer|
  {
    if |s.buffer| >= max && s.buffer != map[] {
      EvictOne(s, max);
      var t := Oldest(s.buffer);
      var rest := State(if t == s.committed + 1 then t else s.committed, s.buffer - {t});
      hide Evict;
      EvictsOldest(rest, max);
      assert forall u :: u in rest.buffer ==> t < u;
    }
  }

  /** From `s` to `e`, the ticks from the committed one on came out as `out`, in order and without a gap, and
      exactly they left the buffer; the next tick is not there. */
  ghost predicate Commits(s: State, e: State, out: seq<Payload>) {
    && e.committed == s.committed + |out|
    && (forall t :: s.committed < t <= e.committed ==> t in s.buffer && out[t - s.committed - 1] == s.buffer[t])
    && (forall t :: t in e.buffer <==> t in s.buffer && !(s.committed < t <= e.committed))
    && (forall t :: t in e.buffer ==> e.buffer[t] == s.buffer[t])
    && e.committed + 1 !in e.buffer
  }

  /** What extraction commits, and where it stops. */
  lemma {:induction false} ExtractCommits(s: State)
    ensures Commits(s, Extract(s).0, Extract(s).1)
    decreases |s.buffer|
  {
    var t := s.committed + 1;
    if t in s.buffer {
      var next := State(t, s.buffer - {t});
      ExtractOne(s);
      hide Extract, Commits;
      ExtractCommits(next);
      CommitsOneMore(s, Extract(next).0, Extract(next).1);
    }
  }

  lemma ExtractOne(s: State)
    requires s.committed + 1 in s.buffer
    ensures var t := s.committed + 1;
            var next := State(t, s.buffer - {t});
            |next.buffer| < |s.buffer| && Extract(s) == (Extract(next).0, [s.buffer[t]] + Extract(next).1)
  {
  }

  lemma CommitsOneMore(s: State, e: State, out: seq<Payload>)
    requires s.committed + 1 in s.buffer
    requires Commits(State(s.committed + 1, s.buffer - {s.committed + 1}), e, out)
    ensures Commits(s, e, [s.buffer[s.committed + 1]] + out)
  {
    var c, all := s.committed, [s.buffer[s.committed + 1]] + out;
    var next := State(c + 1, s.buffer - {c + 1});
    forall t | c < t <= e.committed ensures t in s.buffer && all[t - c - 1] == s.buffer[t] {
      if t > c + 1 { assert all[t - c - 1] == out[t - next.committed - 1] == next.buffer[t]; }
    }
  }

  /** For any capacity and any run: buffered ticks lie in `committed + 2 .. committed + 50`; the output is
      ticks `1 .. committed` in order, each once, each with the last payload accepted for it. */
  lemma {:induction false} DeliveryIsGapFree(max: nat, ps: seq<Packet>)
    ensures GapFree(Run(max, ps))
    decreases |ps|
  {
    if ps != [] {
      DeliveryIsGapFree(max, ps[..|ps| - 1]);
      GapFreeStep(Run(max, ps[..|ps| - 1]), max, ps[|ps| - 1]);
    }
  }

  lemma GapFreeStep(r: Outcome, max: nat, p: Packet)
    requires GapFree(r)
    ensures GapFree(Next(r, max, p))
  {
    if Accepts(r.state, max, p) {
      EvictOnlyRemoves(r.state, max);
      var room := Evict(r.state, max);
      ExtractGapFree(r, State(room.committed, room.buffer[p.tick := p.payload]), r.accepted[p.tick := p.payload]);
    } else {
      assert r.out + [] == r.out;
    }
  }

  /** Extracting from a buffer of accepted packets continues the output without a gap. */
  lemma ExtractGapFree(r: Outcome, s: State, accepted: map<nat, Payload>)
    requires |r.out| == s.committed == r.state.committed
    requires forall t :: 1 <= t <= s.committed ==> t in accepted && r.out[t - 1] == accepted[t]
    requires forall t :: t in s.buffer ==> s.committed < t <= s.committed + HORIZON && t in accepted && accepted[t] == s.buffer[t]
    ensures var (e, out) := Extract(s);
            GapFree(Outcome(e, r.out + out, accepted))
  {
    ExtractCommits(s);
    var (e, out) := Extract(s);
    forall t | 1 <= t <= e.committed ensures t in accepted && (r.out + out)[t - 1] == accepted[t] {
      if t > s.committed { assert (r.out + out)[t - 1] == out[t - s.committed - 1] == s.buffer[t]; }
    }
  }

  // ---------- capacity ----------

  lemma {:induction false} IntervalSize(keys: set<nat>, lo: nat, n: nat)
    requires forall k :: k in keys ==> lo <= k < lo + n
    ensures |keys| <= n
    decreases n
  {
    if n == 0 {
      assert keys == {};
    } else {
      IntervalSize(keys - {lo + n - 1}, lo, n - 1);
      assert keys <= keys - {lo + n - 1} + {lo + n - 1};
    }
  }

  /** The window holds at most 49 entries. */
  lemma WindowSize(s: State)
    requires InWindow(s)
    ensures |s.buffer| <= HORIZON - 1
  {
    IntervalSize(s.buffer.Keys, s.committed + 2, HORIZON - 1);
    assert |s.buffer| == |s.buffer.Keys|;
  }

  /** Every call adds at most one to the committed ticks and buffered entries together. */
  lemma {:induction false} CommittedAtMostCalls(max: nat, ps: seq<Packet>)
    ensures var s := Run(max, ps).state; s.committed + |s.buffer| <= |ps|
    decreases |ps|
  {
    if ps != [] {
      CommittedAtMostCalls(max, ps[..|ps| - 1]);
      DeliveryIsGapFree(max, ps[..|ps| - 1]);
      var s, p := Run(max, ps[..|ps| - 1]).state, ps[|ps| - 1];
      if Accepts(s, max, p) {
        EvictShrinks(s, max);
        EvictOnlyRemoves(s, max);
        var room := Evict(s, max);
        InsertSize(room.buffer, p.tick, p.payload);
        ExtractSize(State(room.committed, room.buffer[p.tick := p.payload]));
      }
    }
  }

  lemma {:induction false} EvictShrinks(s: State, max: nat)
    ensures |Evict(s, max).buffer| <= |s.buffer|
    decreases |s.buffer|
  {
    if |s.buffer| >= max && s.buffer != map[] {
      EvictOne(s, max);
      hide Evict;
      var t := Oldest(s.buffer);
      EvictShrinks(State(if t == s.committed + 1 then t else s.committed, s.buffer - {t}), max);
    }
  }

  lemma InsertNew(m: map<nat, Payload>, t: nat, v: Payload)
    requires t !in m
    ensures |m[t := v]| == |m| + 1
  {
    assert m[t := v].Keys == m.Keys + {t};
  }

  lemma InsertSize(m: map<nat, Payload>, t: nat, v: Payload)
    ensures |m[t := v]| <= |m| + 1
  {
    assert m[t := v].Keys == m.Keys + {t};
  }

  lemma {:induction false} ExtractSize(s: State)
    ensures var e := Extract(s).0; e.committed + |e.buffer| == s.committed + |s.buffer|
    decreases |s.buffer|
  {
    if s.committed + 1 in s.buffer {
      assert (s.buffer - {s.committed + 1}).Keys == s.buffer.Keys - {s.committed + 1};
      ExtractSize(State(s.committed + 1, s.buffer - {s.committed + 1}));
    }
  }

  /** This call removes a buffered entry to make room. */
  ghost predicate Evicts(s: State, max: nat, p: Packet) {
    Accepts(s, max, p) && |s.buffer| >= max && s.buffer != map[]
  }

  /** Packets for ticks `2 .. k + 1`, which are all buffered while the first is missing. */
  function Filling(k: nat): seq<Packet> {
    if k == 0 then [] else Filling(k - 1) + [Packet(k + 1, [], false)]
  }

  function FilledBuffer(k: nat): (m: map<nat, Payload>)
    ensures forall t :: t in m <==> 2 <= t <= k + 1
    ensures |m| == k
  {
    if k == 0 then map[]
    else
      var m := FilledBuffer(k - 1);
      InsertNew(m, k + 1, []);
      m[k + 1 := []]
  }

  lemma {:induction false} FillingFills(max: nat, k: nat)
    requires k < HORIZON && (k <= max || k == 1)
    ensures |Filling(k)| == k
    ensures Run(max, Filling(k)).state == State(0, FilledBuffer(k))
    decreases k
  {
    hide *;
    if k == 0 {
      NothingFilled(max);
    } else {
      FillingFills(max, k - 1);
      FillingSnoc(k);
      RunSnoc(max, Filling(k - 1), Packet(k + 1, [], false));
      FillsOneMore(max, Run(max, Filling(k - 1)), k);
    }
  }

  lemma NothingFilled(max: nat)
    ensures Filling(0) == [] && Run(max, Filling(0)).state == State(0, FilledBuffer(0))
  {
  }

  lemma FillingSnoc(k: nat)
    requires k > 0
    ensures Filling(k) == Filling(k - 1) + [Packet(k + 1, [], false)]
  {
  }

  lemma FillsOneMore(max: nat, r: Outcome, k: nat)
    requires 0 < k < HORIZON && (k <= max || k == 1) && r.state == State(0, FilledBuffer(k - 1))
    ensures Next(r, max, Packet(k + 1, [], false)).state == State(0, FilledBuffer(k))
  {
    var b := FilledBuffer(k - 1);
    assert |b| < max || b == map[];
    assert FilledBuffer(k) == b[k + 1 := []];
    hide FilledBuffer;
  }

  /** A capacity below 50 can evict: fill it, then send the missing tick. */
  function EvictingRun(max: nat): seq<Packet> { Filling(if max == 0 then 1 else max) }

  /** No entry is ever evicted, in any run, exactly when the capacity is at least 50. */
  lemma NeverEvictsIff(max: nat)
    ensures (forall ps, p :: !Evicts(Run(max, ps).state, max, p)) <==> max >= 50
  {
    hide Run, Filling, FilledBuffer;
    if max >= HORIZON {
      forall ps, p ensures !Evicts(Run(max, ps).state, max, p) {
        DeliveryIsGapFree(max, ps);
        WindowSize(Run(max, ps).state);
      }
    } else {
      var k := if max == 0 then 1 else max;
      FillingFills(max, k);
      var s := Run(max, EvictingRun(max)).state;
      assert 2 in s.buffer;
      assert Evicts(s, max, Packet(1, [], false));
    }
  }

  /** The throttle drops some packet in some run exactly when the capacity is below 55: a window of at most
      49 entries cannot exceed nine tenths of a larger buffer. With the default of 10000 it never acts. */
  lemma ThrottleReachableIff(max: nat)
    ensures (exists ps, p :: Throttled(Run(max, ps).state, max, p)) <==> max < 55
  {
    hide Run, Filling, FilledBuffer;
    if max >= 55 {
      forall ps, p ensures !Throttled(Run(max, ps).state, max, p) {
        DeliveryIsGapFree(max, ps);
        WindowSize(Run(max, ps).state);
      }
    } else {
      var k := if max == 0 then 1 else if max < HORIZON then max else HORIZON - 1;
      FillingFills(max, k);
      assert Throttled(Run(max, Filling(k)).state, max, Packet(1, [], true));
    }
  }

  /** With the default capacity of 10000 no run ever evicts an entry or throttles a packet. */
  lemma DefaultNeverActs(ps: seq<Packet>, p: Packet)
    ensures DEFAULT_MAX_BUFFER_SIZE == 10_000
    ensures var s := Run(DEFAULT_MAX_BUFFER_SIZE, ps).state;
            |s.buffer| <= 49 && !Evicts(s, DEFAULT_MAX_BUFFER_SIZE, p) && !Throttled(s, DEFAULT_MAX_BUFFER_SIZE, p)
  {
    hide Run;
    DeliveryIsGapFree(DEFAULT_MAX_BUFFER_SIZE, ps);
    WindowSize(Run(DEFAULT_MAX_BUFFER_SIZE, ps).state);
  }

  // ---------- confluence, for a capacity that never evicts ----------

  /** `n` is the largest number such that all of `1 .. n` are in `ticks`. */
  ghost predicate LargestPrefix(n: nat, ticks: set<nat>) {
    (forall t :: 1 <= t <= n ==> t in ticks) && n + 1 !in ticks
  }

  /** Nothing accepted is lost: it is committed or still buffered. */
  ghost predicate NothingLost(r: Outcome) {
    && (forall t :: t in r.accepted <==> 1 <= t <= r.state.committed || t in r.state.buffer)
    && LargestPrefix(r.state.committed, r.accepted.Keys)
  }

  /** With capacity at least 50, `committed_tick` is always the largest n with all of `1 .. n` accepted. */
  lemma {:induction false} CommittedIsLargestPrefix(max: nat, ps: seq<Packet>)
    requires max >= HORIZON
    ensures NothingLost(Run(max, ps))
    decreases |ps|
  {
    if ps != [] {
      CommittedIsLargestPrefix(max, ps[..|ps| - 1]);
      DeliveryIsGapFree(max, ps[..|ps| - 1]);
      NothingLostStep(Run(max, ps[..|ps| - 1]), max, ps[|ps| - 1]);
    }
  }

  lemma NothingLostStep(r: Outcome, max: nat, p: Packet)
    requires max >= HORIZON && GapFree(r) && NothingLost(r)
    ensures NothingLost(Next(r, max, p))
  {
    if Accepts(r.state, max, p) {
      WindowSize(r.state);
      EvictOnlyRemoves(r.state, max);
      ExtractCommits(State(r.state.committed, r.state.buffer[p.tick := p.payload]));
    }
  }

  lemma LargestPrefixUnique(m: nat, n: nat, ticks: set<nat>)
    requires LargestPrefix(m, ticks) && LargestPrefix(n, ticks)
    ensures m == n
  {
    assert 1 <= m + 1 <= n ==> m + 1 in ticks;
    assert 1 <= n + 1 <= m ==> n + 1 in ticks;
  }

  /** No packet of the run is throttled or beyond the horizon when it arrives. */
  ghost predicate Admitted(max: nat, ps: seq<Packet>) {
    forall i :: 0 <= i < |ps| ==>
      var s := Run(max, ps[..i]).state; !Throttled(s, max, ps[i]) && !BeyondHorizon(s, ps[i])
  }

  ghost predicate OnePayloadPerTick(ps: seq<Packet>, payload: nat -> Payload) {
    forall p :: p in ps ==> p.payload == payload(p.tick)
  }

  ghost function Ticks(ps: seq<Packet>): set<nat> { set p | p in ps && p.tick >= 1 :: p.tick }

  lemma {:induction false} AdmittedAccepted(max: nat, ps: seq<Packet>, payload: nat -> Payload)
    requires max >= HORIZON && Admitted(max, ps) && OnePayloadPerTick(ps, payload)
    ensures Run(max, ps).accepted.Keys == Ticks(ps)
    ensures forall t :: t in Ticks(ps) ==> Run(max, ps).accepted[t] == payload(t)
    decreases |ps|
  {
    hide Next, Admitted, NothingLost;
    if ps != [] {
      var front, p := ps[..|ps| - 1], ps[|ps| - 1];
      AdmittedFront(max, ps);
      AdmittedAccepted(max, front, payload);
      CommittedIsLargestPrefix(max, front);
      assert p in ps && ps == front + [p];
      TicksSnoc(front, p);
      AdmittedStep(Run(max, front), max, p, payload);
      assert Run(max, ps) == Next(Run(max, front), max, p);
    }
  }

  lemma AdmittedStep(r: Outcome, max: nat, p: Packet, payload: nat -> Payload)
    requires NothingLost(r) && !Throttled(r.state, max, p) && !BeyondHorizon(r.state, p)
    requires p.payload == payload(p.tick) && forall t :: t in r.accepted ==> r.accepted[t] == payload(t)
    ensures Next(r, max, p).accepted.Keys == r.accepted.Keys + if p.tick >= 1 then {p.tick} else {}
    ensures forall t :: t in Next(r, max, p).accepted ==> Next(r, max, p).accepted[t] == payload(t)
  {
    hide Process;
  }

  lemma AdmittedFront(max: nat, ps: seq<Packet>)
    requires ps != [] && Admitted(max, ps)
    ensures Admitted(max, ps[..|ps| - 1])
    ensures var s, p := Run(max, ps[..|ps| - 1]).state, ps[|ps| - 1];
            !Throttled(s, max, p) && !BeyondHorizon(s, p)
  {
    var front := ps[..|ps| - 1];
    forall i | 0 <= i < |front|
      ensures var s := Run(max, front[..i]).state; !Throttled(s, max, front[i]) && !BeyondHorizon(s, front[i])
    {
      assert front[..i] == ps[..i];
    }
  }

  lemma TicksSnoc(ps: seq<Packet>, p: Packet)
    ensures Ticks(ps + [p]) == Ticks(ps) + if p.tick >= 1 then {p.tick} else {}
  {
  }

  /** Confluence: two arrival orders of packets for the same ticks, one payload per tick, neither throttled
      nor beyond the horizon, give the same final state and the same total output. */
  lemma Confluence(max: nat, ps: seq<Packet>, qs: seq<Packet>, payload: nat -> Payload)
    requires max >= HORIZON && Ticks(ps) == Ticks(qs)
    requires Admitted(max, ps) && OnePayloadPerTick(ps, payload)
    requires Admitted(max, qs) && OnePayloadPerTick(qs, payload)
    ensures Run(max, ps) == Run(max, qs)
  {
    hide Run, Ticks, Admitted, OnePayloadPerTick, LargestPrefix, InWindow, GapFree, NothingLost;
    var a, b := Run(max, ps), Run(max, qs);
    AdmittedAccepted(max, ps, payload);
    AdmittedAccepted(max, qs, payload);
    assert a.accepted == b.accepted;
    CommittedIsLargestPrefix(max, ps);
    CommittedIsLargestPrefix(max, qs);
    SameCommitted(a, b);
    DeliveryIsGapFree(max, ps);
    DeliveryIsGapFree(max, qs);
    SameOutcome(a, b);
  }

  lemma SameCommitted(a: Outcome, b: Outcome)
    requires NothingLost(a) && NothingLost(b) && a.accepted == b.accepted
    ensures a.state.committed == b.state.committed
  {
    LargestPrefixUnique(a.state.committed, b.state.committed, a.accepted.Keys);
  }

  lemma SameOutcome(a: Outcome, b: Outcome)
    requires GapFree(a) && GapFree(b) && NothingLost(a) && NothingLost(b)
    requires a.accepted == b.accepted && a.state.committed == b.state.committed
    ensures a == b
  {
    assert a.state.buffer.Keys == b.state.buffer.Keys;
    assert a.state.buffer == b.state.buffer;
    forall i | 0 <= i < |a.out| ensures a.out[i] == b.out[i] {
      assert a.out[i + 1 - 1] == a.accepted[i + 1];
    }
  }

  ghost predicate SameArrivals(max: nat, ps: seq<Packet>, qs: seq<Packet>, payload: nat -> Payload) {
    && Ticks(ps) == Ticks(qs)
    && Admitted(max, ps) && OnePayloadPerTick(ps, payload)
    && Admitted(max, qs) && OnePayloadPerTick(qs, payload)
  }

  ghost predicate Confluent(max: nat) {
    forall ps, qs, payload :: SameArrivals(max, ps, qs, payload) ==> Run(max, ps) == Run(max, qs)
  }

  const FIRST := Packet(1, [], false)

  /** Filling the buffer and then sending the missing tick loses tick 2 to eviction. */
  lemma FirstLast(max: nat, k: nat)
    requires max < HORIZON && k == (if max == 0 then 1 else max)
    ensures var ps := Filling(k) + [FIRST]; Run(max, ps).state.committed == 1
  {
    hide Run, Filling, FilledBuffer;
    FillingFills(max, k);
    RunSnoc(max, Filling(k), FIRST);
    LosesSecond(Run(max, Filling(k)).state, max, k);
  }

  lemma RunSnoc(max: nat, ps: seq<Packet>, p: Packet)
    ensures Run(max, ps + [p]) == Next(Run(max, ps), max, p)
  {
    assert (ps + [p])[..|ps|] == ps;
  }

  lemma LosesSecond(s: State, max: nat, k: nat)
    requires s == State(0, FilledBuffer(k)) && 1 <= k < HORIZON && max <= k
    ensures Process(s, max, FIRST).0.committed == 1
  {
    assert 2 in s.buffer && InWindow(s) && Accepts(s, max, FIRST);
    EvictsSecond(s, max);
    hide Extract, Evict, FilledBuffer, InWindow, Accepts;
    CommitsFirstOnly(Evict(s, max).buffer);
  }

  lemma CommitsFirstOnly(b: map<nat, Payload>)
    requires 2 !in b
    ensures Extract(State(0, b[1 := []])).0.committed == 1
  {
    var s := State(0, b[1 := []]);
    assert 1 in s.buffer && 2 !in s.buffer;
    hide Extract;
    ExtractCommits(s);
  }

  lemma EvictsSecond(s: State, max: nat)
    requires InWindow(s) && s.committed == 0 && 2 in s.buffer && |s.buffer| >= max
    ensures Evict(s, max).committed == 0 && 2 !in Evict(s, max).buffer
  {
    var rest := State(0, s.buffer - {2});
    SecondIsOldest(s.buffer);
    EvictOne(s, max);
    assert InWindow(rest) && 2 !in rest.buffer;
    hide Evict, InWindow;
    EvictOnlyRemoves(rest, max);
  }

  lemma SecondIsOldest(b: map<nat, Payload>)
    requires 2 in b && forall t :: t in b ==> 2 <= t
    ensures Oldest(b) == 2
  {
    assert IsLeast(b, Oldest(b));
  }

  /** Sent in order, the same packets are all delivered. */
  lemma {:induction false} FirstFirst(max: nat, k: nat)
    ensures var qs := [FIRST] + Filling(k); Run(max, qs).state == State(k + 1, map[])
    decreases k
  {
    var qs := [FIRST] + Filling(k);
    hide Run, Process, Filling;
    if k == 0 {
      FillingTicks(0);
      assert qs == [] + [FIRST];
      RunSnoc(max, [], FIRST);
      NothingYet(max);
      DeliverNext(START, max, FIRST);
    } else {
      FirstFirst(max, k - 1);
      FillingSnoc(k);
      var p := Packet(k + 1, [], false);
      assert qs == ([FIRST] + Filling(k - 1)) + [p];
      RunSnoc(max, [FIRST] + Filling(k - 1), p);
      DeliverNext(State(k, map[]), max, p);
    }
  }

  lemma NothingYet(max: nat)
    ensures Run(max, []).state == START
  {
  }

  lemma DeliverNext(s: State, max: nat, p: Packet)
    requires s.buffer == map[] && p.tick == s.committed + 1 && !p.lowPriority
    ensures Process(s, max, p).0 == State(p.tick, map[])
  {
    var b: map<nat, Payload> := map[];
    var b1 := b[p.tick := p.payload];
    assert b1 - {p.tick} == map[];
    assert Extract(State(s.committed, b1)).0 == Extract(State(p.tick, map[])).0;
  }

  lemma {:induction false} FillingTicks(k: nat)
    ensures |Filling(k)| == k
    ensures forall i :: 0 <= i < k ==> Filling(k)[i] == Packet(i + 2, [], false)
  {
    if k > 0 { FillingTicks(k - 1); }
  }

  function NoPayload(t: nat): Payload { [] }

  /** High-priority packets for ticks up to 50 are always admitted. */
  lemma EarlyAdmitted(max: nat, ps: seq<Packet>)
    requires forall p :: p in ps ==> !p.lowPriority && p.tick <= HORIZON && p.payload == []
    ensures Admitted(max, ps) && OnePayloadPerTick(ps, NoPayload)
  {
    assert forall i :: 0 <= i < |ps| ==> ps[i] in ps;
  }

  /** The final state is independent of the arrival order exactly when the capacity is at least 50. */
  lemma ConfluentIff(max: nat)
    ensures Confluent(max) <==> max >= 50
  {
    hide Run, Admitted, OnePayloadPerTick, Ticks;
    if max >= HORIZON {
      forall ps, qs, payload | SameArrivals(max, ps, qs, payload) ensures Run(max, ps) == Run(max, qs) {
        Confluence(max, ps, qs, payload);
      }
    } else {
      OrderMatters(max, if max == 0 then 1 else max);
    }
  }

  lemma OrderMatters(max: nat, k: nat)
    requires max < HORIZON && k == (if max == 0 then 1 else max)
    ensures !Confluent(max)
  {
    assert k < HORIZON;
    hide *;
    var ps, qs := Filling(k) + [FIRST], [FIRST] + Filling(k);
    FirstLast(max, k);
    FirstFirst(max, k);
    BothArrive(max, k);
    Disagree(max, ps, qs, NoPayload);
  }

  lemma BothArrive(max: nat, k: nat)
    requires k < HORIZON
    ensures SameArrivals(max, Filling(k) + [FIRST], [FIRST] + Filling(k), NoPayload)
  {
    hide Filling, Admitted, OnePayloadPerTick, Ticks;
    var ps, qs := Filling(k) + [FIRST], [FIRST] + Filling(k);
    FillingTicks(k);
    EarlyAdmitted(max, ps);
    EarlyAdmitted(max, qs);
    PermutedTicks(ps, qs);
  }

  lemma Disagree(max: nat, ps: seq<Packet>, qs: seq<Packet>, payload: nat -> Payload)
    requires SameArrivals(max, ps, qs, payload) && Run(max, ps).state.committed != Run(max, qs).state.committed
    ensures !Confluent(max)
  {
    hide Run, SameArrivals;
  }

  /** Any permutation of the packets counts as another arrival order of the same ticks. */
  lemma PermutedTicks(ps: seq<Packet>, qs: seq<Packet>)
    requires multiset(ps) == multiset(qs)
    ensures Ticks(ps) == Ticks(qs)
  {
    assert forall p :: p in ps <==> p in multiset(ps);
    assert forall p :: p in qs <==> p in multiset(qs);
  }

  // ---------- the code ----------

  class CausalBuffer {
    var committedTick: nat
    var buffer: map<nat, Payload>
    const maxBufferSize: nat

    ghost function View(): State
      reads this
    {
      State(committedTick, buffer)
    }

    constructor ()
      ensures View() == START && maxBufferSize == DEFAULT_MAX_BUFFER_SIZE
    {
      committedTick, buffer, maxBufferSize := 0, map[], DEFAULT_MAX_BUFFER_SIZE;
    }

    constructor WithMaxBuffer(max: nat)
      ensures View() == START && maxBufferSize == max
    {
      committedTick, buffer, maxBufferSize := 0, map[], max;
    }

    /** `process_packet`. */
    method ProcessPacket(tick: nat, payload: Payload, lowPriority: bool) returns (out: seq<Payload>)
      modifies this
      ensures (View(), out) == Process(old(View()), maxBufferSize, Packet(tick, payload, lowPriority))
    {
      out := [];
      if lowPriority && 10 * |buffer| > 9 * maxBufferSize {
        return;
      }
      if tick > committedTick + HORIZON {
        return;
      }
      if tick <= committedTick {
        return;
      }
      MakeRoom();
      buffer := buffer[tick := payload];
      out := CommitReady();
    }

    /** Evicts the oldest entries while the buffer is at capacity. */
    method MakeRoom()
      modifies this
      ensures View() == Evict(old(View()), maxBufferSize)
    {
      while |buffer| >= maxBufferSize && buffer != map[]
        invariant Evict(View(), maxBufferSize) == Evict(old(View()), maxBufferSize)
        decreases |buffer|
      {
        ghost var least := Oldest(buffer);
        assert IsLeast(buffer, least);
        var oldest :| oldest in buffer && forall k :: k in buffer ==> oldest <= k;
        assert oldest == least;
        buffer := buffer - {oldest};
        if oldest == committedTick + 1 {
          committedTick := oldest;
        }
      }
    }

    /** Commits the consecutive entries that are ready. */
    method CommitReady() returns (out: seq<Payload>)
      modifies this
      ensures (View(), out) == Extract(old(View()))
    {
      out := [];
      assert [] + Extract(View()).1 == Extract(View()).1;
      while committedTick + 1 in buffer
        invariant Extract(old(View())).0 == Extract(View()).0
        invariant Extract(old(View())).1 == out + Extract(View()).1
        decreases |buffer|
      {
        ghost var before := View();
        var next := buffer[committedTick + 1];
        buffer := buffer - {committedTick + 1};
        committedTick := committedTick + 1;
        assert out + Extract(before).1 == (out + [next]) + Extract(View()).1;
        out := out + [next];
      }
      assert out + [] == out;
    }

    method BufferedCount() returns (n: nat)
      ensures n == |View().buffer|
    {
      n := |buffer|;
    }
  }
}
