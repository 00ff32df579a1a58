/** The seqlock telemetry page: one writer, any number of readers, every atomic load or store a step.

    The five data fields are kept in the order in which they are stored and loaded: epoch, clock skew,
    egress queue depth, real frames sent, decoy frames sent. Memory is sequentially consistent. */
module Seqlock {
  import opened Wrappers

  const FIELDS := 5

  type Sample = s: seq<int> | |s| == FIELDS witness [0, 0, 0, 0, 0]

  const ZEROS: Sample := [0, 0, 0, 0, 0]

  type History = h: seq<Sample> | |h| >= 1 witness [ZEROS]

  datatype Page = Page(seqno: nat, fields: Sample)

  /** Between publications, or with the sequence number odd and the first `stored` fields written. */
  datatype Writer = Idle | Writing(sample: Sample, stored: nat)

  datatype TelemetrySnapshot = TelemetrySnapshot(seqno: nat, fields: seq<int>)

  /** A returned snapshot, with the publications completed when the call began and when it returned. */
  datatype Record = Record(snap: TelemetrySnapshot, begin: nat, end: nat)

  datatype ReaderPc =
    | Outside
    | Polling(begin: nat)                              // about to load `seq`
    | Loading(begin: nat, seq1: nat, got: seq<int>)    // `seq` was even; loading fields, then `seq` again

  datatype Reader = Reader(pc: ReaderPc, returned: seq<Record>)

  type ReaderId = nat

  datatype System = System(page: Page, writer: Writer, published: History, readers: map<ReaderId, Reader>) {
    /** Publications completed so far. `published[0]` is the zeros the page starts with. */
    function Completed(): nat { |published| - 1 }
  }

  datatype Action =
    | BeginPublish(sample: Sample)
    | StoreField
    | EndPublish
    | Call(id: ReaderId)
    | LoadSeq(id: ReaderId)
    | LoadField(id: ReaderId)
    | Recheck(id: ReaderId)
  {
    predicate ByWriter() { BeginPublish? || StoreField? || EndPublish? }
  }

  function Initial(ids: set<ReaderId>): System {
    System(Page(0, ZEROS), Idle, [ZEROS], map i | i in ids :: Reader(Outside, []))
  }

  /** One atomic step. An action that is not enabled changes nothing. */
  function Step(s: System, a: Action): System {
    if a.ByWriter() then WriterStep(s, a)
    else if a.id in s.readers then s.(readers := s.readers[a.id := ReaderStep(s, s.readers[a.id], a)])
    else s
  }

  function WriterStep(s: System, a: Action): System
    requires a.ByWriter()
  {
    match (a, s.writer)
    case (BeginPublish(sample), Idle) =>
      s.(page := s.page.(seqno := s.page.seqno + 1), writer := Writing(sample, 0))
    case (StoreField, Writing(sample, k)) =>
      if k < FIELDS then
        s.(page := s.page.(fields := s.page.fields[k := sample[k]]), writer := Writing(sample, k + 1))
      else s
    case (EndPublish, Writing(sample, k)) =>
      if k == FIELDS then
        s.(page := s.page.(seqno := s.page.seqno + 1), writer := Idle, published := s.published + [sample])
      else s
    case _ => s
  }

  function ReaderStep(s: System, r: Reader, a: Action): Reader
    requires !a.ByWriter()
  {
    match (a, r.pc)
    case (Call(_), Outside) => r.(pc := Polling(s.Completed()))
    case (LoadSeq(_), Polling(begin)) =>
      if s.page.seqno % 2 != 0 then r else r.(pc := Loading(begin, s.page.seqno, []))
    case (LoadField(_), Loading(begin, seq1, got)) =>
      if |got| < FIELDS then r.(pc := Loading(begin, seq1, got + [s.page.fields[|got|]])) else r
    case (Recheck(_), Loading(begin, seq1, got)) =>
      if |got| != FIELDS then r
      else if s.page.seqno == seq1 then
        Reader(Outside, r.returned + [Record(TelemetrySnapshot(seq1, got), begin, s.Completed())])
      else r.(pc := Polling(begin))
    case _ => r
  }

  function Run(s: System, actions: seq<Action>): System
    decreases |actions|
  {
    if actions == [] then s else Run(Step(s, actions[0]), actions[1..])
  }

  // ---------- the invariant ----------

  /** The page is the last sample published, overwritten as far as the writer has got. */
  ghost predicate WriterInv(s: System) {
    && s.published[0] == ZEROS
    && var last := s.published[s.Completed()];
       match s.writer
       case Idle => s.page == Page(2 * s.Completed(), last)
       case Writing(sample, k) =>
         k <= FIELDS && s.page == Page(2 * s.Completed() + 1, sample[..k] + last[k..])
  }

  /** What is loaded so far is from one publication, as long as the sequence number has not moved. */
  ghost predicate ReaderInv(s: System, r: Reader) {
    && (match r.pc
        case Outside => true
        case Polling(begin) => begin <= s.Completed()
        case Loading(begin, seq1, got) =>
          && seq1 % 2 == 0 && begin <= seq1 / 2 <= s.Completed() && seq1 <= s.page.seqno && |got| <= FIELDS
          && (s.page.seqno == seq1 ==> got == s.published[seq1 / 2][..|got|]))
    && Linearized(s, r)
  }

  /** Every returned snapshot is one whole publication, made between the start and the end of its call, and
      calls of one reader do not overlap. */
  ghost predicate Linearized(s: System, r: Reader) {
    && (forall k :: 0 <= k < |r.returned| ==> IsPublication(s, r.returned[k]))
    && (forall j, k :: 0 <= j < k < |r.returned| ==> r.returned[j].end <= r.returned[k].begin)
    && (forall k :: 0 <= k < |r.returned| && !r.pc.Outside? ==> r.returned[k].end <= r.pc.begin)
  }

  ghost predicate IsPublication(s: System, x: Record) {
    var n := x.snap.seqno / 2;
    && x.snap.seqno == 2 * n && x.begin <= n <= x.end <= s.Completed()
    && x.snap.fields == s.published[n]
  }

  ghost predicate Inv(s: System) {
    WriterInv(s) && forall i :: i in s.readers ==> ReaderInv(s, s.readers[i])
  }

  lemma InitialInv(ids: set<ReaderId>)
    ensures Inv(Initial(ids))
  {
  }

  /** Nothing the writer does spoils what a reader has; its half-read copies are marked by the sequence number. */
  lemma WriterKeepsReader(s: System, a: Action, r: Reader)
    requires WriterInv(s) && ReaderInv(s, r) && a.ByWriter()
    ensures ReaderInv(WriterStep(s, a), r)
  {
  }

  lemma WriterKeepsInv(s: System, a: Action)
    requires WriterInv(s) && a.ByWriter()
    ensures WriterInv(WriterStep(s, a))
  {
  }

  lemma ReaderKeepsInv(s: System, r: Reader, a: Action)
    requires WriterInv(s) && ReaderInv(s, r) && !a.ByWriter()
    ensures ReaderInv(s, ReaderStep(s, r, a))
  {
  }

  lemma StepKeepsInv(s: System, a: Action)
    requires Inv(s)
    ensures Inv(Step(s, a))
  {
    hide WriterInv, ReaderInv;
    if a.ByWriter() {
      WriterKeepsInv(s, a);
      forall i | i in s.readers ensures ReaderInv(WriterStep(s, a), s.readers[i]) {
        WriterKeepsReader(s, a, s.readers[i]);
      }
    } else if a.id in s.readers {
      ReaderKeepsInv(s, s.readers[a.id], a);
      SameMemory(s, Step(s, a));
    }
  }

  lemma SameMemory(s: System, t: System)
    requires s.page == t.page && s.writer == t.writer && s.published == t.published
    ensures WriterInv(s) == WriterInv(t) && forall r :: ReaderInv(s, r) == ReaderInv(t, r)
  {
  }

  lemma {:induction false} RunKeepsInv(s: System, actions: seq<Action>)
    requires Inv(s)
    ensures Inv(Run(s, actions))
    decreases |actions|
  {
    if actions != [] {
      StepKeepsInv(s, actions[0]);
      RunKeepsInv(Step(s, actions[0]), actions[1..]);
    }
  }

  /** Linearizability: in every run of one writer and any readers, each snapshot a reader returned is one
      whole published sample, `seq` being twice its number; that number lies between the publications
      completed when the call began and when it returned; and one reader's snapshots never go backwards. */
  lemma SnapshotsLinearizable(ids: set<ReaderId>, actions: seq<Action>, i: ReaderId)
    requires i in Run(Initial(ids), actions).readers
    ensures var s := Run(Initial(ids), actions);
            var xs := s.readers[i].returned;
            && (forall k :: 0 <= k < |xs| ==> IsPublication(s, xs[k]))
            && (forall j, k :: 0 <= j < k < |xs| ==> xs[j].snap.seqno <= xs[k].snap.seqno)
  {
    InitialInv(ids);
    RunKeepsInv(Initial(ids), actions);
    var s := Run(Initial(ids), actions);
    var xs := s.readers[i].returned;
    assert ReaderInv(s, s.readers[i]);
    forall j, k | 0 <= j < k < |xs| ensures xs[j].snap.seqno <= xs[k].snap.seqno {
      assert IsPublication(s, xs[j]) && IsPublication(s, xs[k]);
    }
  }

  /** The steps of one attempt by a reader that runs undisturbed. */
  function Attempt(i: ReaderId): seq<Action> {
    [LoadSeq(i), LoadField(i), LoadField(i), LoadField(i), LoadField(i), LoadField(i), Recheck(i)]
  }

  /** A reader that runs undisturbed while no publication is in progress returns the latest sample at once. */
  lemma UndisturbedReaderReturns(s: System, i: ReaderId)
    requires Inv(s) && i in s.readers && s.writer.Idle? && s.readers[i].pc.Polling?
    ensures var r, t := s.readers[i], Run(s, Attempt(i));
            i in t.readers && t.readers[i] ==
              Reader(Outside, r.returned + [Record(TelemetrySnapshot(2 * s.Completed(), s.page.fields), r.pc.begin, s.Completed())])
  {
    FirstLoad(s, i);
    RunCons(s, Attempt(i));
    hide Run, Step, Attempt, Inv;
    LoadsPrefix(Step(s, LoadSeq(i)), i, s.readers[i].pc.begin, 0);
  }

  lemma FirstLoad(s: System, i: ReaderId)
    requires Inv(s) && i in s.readers && s.writer.Idle? && s.readers[i].pc.Polling?
    ensures Attempt(i)[0] == LoadSeq(i) && s.page == Page(2 * s.Completed(), s.page.fields)
    ensures var t := Step(s, LoadSeq(i));
            && t.page == s.page && t.published == s.published && i in t.readers
            && t.readers[i] == Reader(Loading(s.readers[i].pc.begin, s.page.seqno, []), s.readers[i].returned)
  {
  }

  lemma RunCons(s: System, actions: seq<Action>)
    requires actions != []
    ensures Run(s, actions) == Run(Step(s, actions[0]), actions[1..])
  {
  }

  lemma {:induction false} LoadsPrefix(s: System, i: ReaderId, begin: nat, k: nat)
    requires i in s.readers && k <= FIELDS && s.page.seqno % 2 == 0
    requires s.readers[i].pc == Loading(begin, s.page.seqno, s.page.fields[..k])
    ensures var t := Run(s, Attempt(i)[k + 1..]);
            i in t.readers && t.readers[i] ==
              Reader(Outside, s.readers[i].returned + [Record(TelemetrySnapshot(s.page.seqno, s.page.fields), begin, s.Completed())])
    decreases FIELDS - k
  {
    var rest := Attempt(i)[k + 1..];
    RunCons(s, rest);
    if k < FIELDS {
      assert rest[0] == LoadField(i) && rest[1..] == Attempt(i)[k + 2..];
      LoadsOne(s, i, k);
      hide Run, Step, Attempt;
      LoadsPrefix(Step(s, LoadField(i)), i, begin, k + 1);
    } else {
      assert rest == [Recheck(i)] && s.page.fields[..k] == s.page.fields;
    }
  }

  lemma LoadsOne(s: System, i: ReaderId, k: nat)
    requires i in s.readers && k < FIELDS && s.readers[i].pc.Loading? && s.readers[i].pc.got == s.page.fields[..k]
    ensures var t, pc := Step(s, LoadField(i)), s.readers[i].pc;
            && t.page == s.page && t.published == s.published && i in t.readers
            && t.readers[i] == Reader(Loading(pc.begin, pc.seq1, s.page.fields[..k + 1]), s.readers[i].returned)
  {
    assert s.page.fields[..k] + [s.page.fields[k]] == s.page.fields[..k + 1];
  }

  // ---------- what other threads do while a reader reads ----------

  function Flatten(schedule: seq<seq<Action>>): seq<Action> {
    if schedule == [] then [] else schedule[0] + Flatten(schedule[1..])
  }

  /** The two systems differ at most in reader `id`. */
  ghost predicate Apart(s: System, t: System, id: ReaderId) {
    && s.page == t.page && s.writer == t.writer && s.published == t.published && s.readers.Keys == t.readers.Keys
    && forall i :: i in s.readers && i != id ==> t.readers[i] == s.readers[i]
  }

  /** From `s` with `schedule` to come, the other threads have got to `t` with `rest` to come. */
  ghost predicate Ahead(s: System, schedule: seq<seq<Action>>, t: System, rest: seq<seq<Action>>, id: ReaderId) {
    Apart(Run(s, Flatten(schedule)), Run(t, Flatten(rest)), id)
  }

  lemma {:induction false} RunAppend(s: System, xs: seq<Action>, ys: seq<Action>)
    ensures Run(s, xs + ys) == Run(Run(s, xs), ys)
    decreases |xs|
  {
    if xs == [] {
      assert [] + ys == ys;
    } else {
      assert (xs + ys)[1..] == xs[1..] + ys;
      RunAppend(Step(s, xs[0]), xs[1..], ys);
    }
  }

  lemma BatchAhead(s: System, schedule: seq<seq<Action>>, id: ReaderId)
    requires schedule != []
    ensures Ahead(s, schedule, Run(s, schedule[0]), schedule[1..], id)
  {
    RunAppend(s, schedule[0], Flatten(schedule[1..]));
  }

  lemma ApartStep(s: System, t: System, a: Action, id: ReaderId)
    requires Apart(s, t, id) && OtherThan(a, id, false)
    ensures Apart(Step(s, a), Step(t, a), id)
  {
  }

  lemma {:induction false} ApartRun(s: System, t: System, actions: seq<Action>, id: ReaderId)
    requires Apart(s, t, id) && forall a :: a in actions ==> OtherThan(a, id, false)
    ensures Apart(Run(s, actions), Run(t, actions), id)
    decreases |actions|
  {
    hide Apart, Step, OtherThan;
    if actions != [] {
      assert actions[0] in actions && forall a :: a in actions[1..] ==> a in actions;
      ApartStep(s, t, actions[0], id);
      ApartRun(Step(s, actions[0]), Step(t, actions[0]), actions[1..], id);
    }
  }

  /** What the reader does itself does not disturb the others. */
  lemma OwnStepAhead(s: System, a: Action, schedule: seq<seq<Action>>, id: ReaderId)
    requires !a.ByWriter() && a.id == id && Others(schedule, id, false)
    ensures Ahead(s, schedule, Step(s, a), schedule, id)
  {
    OwnStep(s, a, id);
    FlattenOthers(schedule, id);
    hide Apart, Others;
    ApartRun(s, Step(s, a), Flatten(schedule), id);
  }

  lemma OwnStep(s: System, a: Action, id: ReaderId)
    requires !a.ByWriter() && a.id == id
    ensures Apart(s, Step(s, a), id)
  {
    hide ReaderStep;
  }

  lemma {:induction false} FlattenOthers(schedule: seq<seq<Action>>, id: ReaderId)
    requires Others(schedule, id, false)
    ensures forall a :: a in Flatten(schedule) ==> OtherThan(a, id, false)
    decreases |schedule|
  {
    hide OtherThan;
    if schedule != [] {
      OthersTail(schedule, id, false);
      FlattenOthers(schedule[1..], id);
      forall a | a in schedule[0] ensures OtherThan(a, id, false) {
        var j :| 0 <= j < |schedule[0]| && schedule[0][j] == a;
        assert OtherThan(schedule[0][j], id, false);
      }
    }
  }

  lemma OthersTail(schedule: seq<seq<Action>>, id: ReaderId, readersOnly: bool)
    requires Others(schedule, id, readersOnly) && schedule != []
    ensures Others(schedule[1..], id, readersOnly)
  {
    hide OtherThan;
    forall i, j | 0 <= i < |schedule[1..]| && 0 <= j < |schedule[1..][i]| ensures OtherThan(schedule[1..][i][j], id, readersOnly) {
      assert OtherThan(schedule[i + 1][j], id, readersOnly);
    }
  }

  lemma AheadTrans(a: System, sa: seq<seq<Action>>, b: System, sb: seq<seq<Action>>, c: System, sc: seq<seq<Action>>, id: ReaderId)
    requires Ahead(a, sa, b, sb, id) && Ahead(b, sb, c, sc, id)
    ensures Ahead(a, sa, c, sc, id)
  {
    hide Run, Flatten;
  }

  lemma AheadSelf(s: System, schedule: seq<seq<Action>>, id: ReaderId)
    ensures Ahead(s, schedule, s, schedule, id)
  {
    hide Run, Flatten;
  }

  /** The schedule has come to its end. */
  lemma AheadOfNothing(s: System, schedule: seq<seq<Action>>, t: System, id: ReaderId)
    requires Ahead(s, schedule, t, [], id)
    ensures Apart(Run(s, Flatten(schedule)), t, id)
  {
  }

  ghost predicate NoWriter(schedule: seq<seq<Action>>) { forall a :: a in Flatten(schedule) ==> !a.ByWriter() }

  lemma {:induction false} ReadersRun(s: System, actions: seq<Action>)
    requires forall a :: a in actions ==> !a.ByWriter()
    ensures var t := Run(s, actions); t.page == s.page && t.writer == s.writer && t.published == s.published
    decreases |actions|
  {
    hide WriterStep, ReaderStep;
    if actions != [] {
      assert actions[0] in actions && forall a :: a in actions[1..] ==> a in actions;
      ReadersRun(Step(s, actions[0]), actions[1..]);
    }
  }

  lemma {:induction false} RunExtends(s: System, actions: seq<Action>)
    ensures s.published <= Run(s, actions).published
    decreases |actions|
  {
    if actions != [] {
      StepExtends(s, actions[0]);
      hide Step;
      RunExtends(Step(s, actions[0]), actions[1..]);
    }
  }

  lemma StepExtends(s: System, a: Action)
    ensures s.published <= Step(s, a).published
  {
  }

  /** With no action of the writer to come, nothing is published in between. */
  lemma NothingPublished(s: System, schedule: seq<seq<Action>>, t: System, rest: seq<seq<Action>>, id: ReaderId)
    requires Ahead(s, schedule, t, rest, id) && NoWriter(schedule) && s.published <= t.published
    ensures t.published == s.published && (rest == [] ==> t.page == s.page)
  {
    ReadersRun(s, Flatten(schedule));
    RunExtends(t, Flatten(rest));
    assert rest == [] ==> Run(t, Flatten(rest)) == t;
    hide Run, Flatten;
  }

  // ---------- the code ----------

  /** The page with its atomic fields. `sys` is the whole system as a value: this page, the writer, the
      readers, and the history. */
  class AtomicTelemetry {
    var seqno: nat
    var epoch: int
    var clockSkewUs: int
    var egressQueueDepth: int
    var realFramesSent: int
    var decoyFramesSent: int
    var writer: Writer
    ghost var sys: System

    function Fields(): Sample
      reads this
    {
      var f := [epoch, clockSkewUs, egressQueueDepth, realFramesSent, decoyFramesSent];
      assert |f| == FIELDS;
      f
    }

    ghost predicate Mirrors()
      reads this
    {
      sys.page == Page(seqno, Fields()) && sys.writer == writer
    }

    ghost predicate Valid()
      reads this
    {
      Mirrors() && Inv(sys)
    }

    constructor (ghost ids: set<ReaderId>)
      ensures Valid() && sys == Initial(ids)
    {
      seqno, epoch, clockSkewUs, egressQueueDepth, realFramesSent, decoyFramesSent := 0, 0, 0, 0, 0, 0;
      writer := Idle;
      sys := Initial(ids);
    }

    /** Stores the `k`-th data field. */
    method Store(k: nat, v: int)
      requires k < FIELDS
      modifies `epoch, `clockSkewUs, `egressQueueDepth, `realFramesSent, `decoyFramesSent
      ensures Fields() == old(Fields())[k := v]
    {
      if k == 0 {
        epoch := v;
      } else if k == 1 {
        clockSkewUs := v;
      } else if k == 2 {
        egressQueueDepth := v;
      } else if k == 3 {
        realFramesSent := v;
      } else {
        decoyFramesSent := v;
      }
    }

    /** One atomic operation of some thread, on the real fields. */
    method Acts(a: Action)
      requires Valid()
      modifies this
      ensures Valid() && sys == Step(old(sys), a)
    {
      StepKeepsInv(sys, a);
      hide Inv;
      sys := Step(sys, a);
      match (a, writer)
      case (BeginPublish(sample), Idle) => seqno, writer := seqno + 1, Writing(sample, 0);
      case (StoreField, Writing(sample, k)) =>
        if k < FIELDS {
          Store(k, sample[k]);
          writer := Writing(sample, k + 1);
        }
      case (EndPublish, Writing(sample, k)) =>
        if k == FIELDS {
          seqno, writer := seqno + 1, Idle;
        }
      case _ =>
    }

    /** Other threads take the next batch of the schedule. They leave the reader `id` and, if `readersOnly`,
        the page and the writer alone. */
    method Interleave(schedule: seq<seq<Action>>, ghost id: ReaderId, readersOnly: bool)
        returns (rest: seq<seq<Action>>)
      requires Valid() && Others(schedule, id, readersOnly)
      modifies this
      ensures Valid() && Others(rest, id, readersOnly) && Untouched(old(sys), sys, id, readersOnly)
      ensures rest == if schedule == [] then [] else schedule[1..]
      ensures sys == Run(old(sys), if schedule == [] then [] else schedule[0])
    {
      rest := schedule;
      if schedule != [] {
        OthersTail(schedule, id, readersOnly);
        var batch := schedule[0];
        rest := schedule[1..];
        for i := 0 to |batch|
          invariant Valid() && Untouched(old(sys), sys, id, readersOnly)
          invariant Run(sys, batch[i..]) == Run(old(sys), batch)
        {
          hide Inv, Step;
          assert schedule[0][i] == batch[i];
          ghost var before := sys;
          RunCons(before, batch[i..]);
          assert batch[i..][1..] == batch[i + 1..];
          Acts(batch[i]);
          StepUntouched(before, batch[i], id, readersOnly);
        }
      }
    }

    /** The same, seen from reader `id`. */
    method Wait(schedule: seq<seq<Action>>, ghost id: ReaderId) returns (rest: seq<seq<Action>>)
      requires Valid() && id in sys.readers && Others(schedule, id, false)
      modifies this
      ensures Valid() && Others(rest, id, false) && id in sys.readers && sys.readers[id] == old(sys).readers[id]
      ensures old(sys).published <= sys.published && Ahead(old(sys), schedule, sys, rest, id)
      ensures rest == (if schedule == [] then [] else schedule[1..]) && (schedule == [] ==> sys == old(sys))
    {
      hide Inv, Others, Run, Ahead;
      rest := Interleave(schedule, id, false);
      RunNone(old(sys));
      if schedule != [] { BatchAhead(old(sys), schedule, id); } else { AheadSelf(sys, schedule, id); }
    }

    /** An action of reader `id` itself. */
    method Own(a: Action, ghost schedule: seq<seq<Action>>)
      requires Valid() && !a.ByWriter() && Others(schedule, a.id, false)
      modifies this
      ensures Valid() && sys == Step(old(sys), a) && Ahead(old(sys), schedule, sys, schedule, a.id)
      ensures sys.page == old(sys).page && sys.published == old(sys).published
    {
      hide Inv, Others, Ahead, ReaderStep;
      OwnStepAhead(sys, a, schedule, a.id);
      Acts(a);
    }

    /** `publish_from_metronome`, with readers acting between any two of its stores. */
    method PublishFromMetronome(sample: Sample, schedule: seq<seq<Action>>)
      requires Valid() && writer == Idle && Others(schedule, 0, true)
      modifies this
      ensures Valid() && writer == Idle && sys.published == old(sys).published + [sample]
      ensures seqno == old(seqno) + 2 && Fields() == sample
    {
      hide Inv, Others, WriterInv;
      ghost var history := sys.published;
      var rest := schedule;
      WriterActs(BeginPublish(sample));
      rest := Interleave(rest, 0, true);
      for k := 0 to FIELDS
        invariant Valid() && Others(rest, 0, true) && sys.published == history
        invariant writer == Writing(sample, k) && seqno == old(seqno) + 1
      {
        WriterActs(StoreField);
        rest := Interleave(rest, 0, true);
      }
      WriterActs(EndPublish);
      LastPublished(sys);
    }

    /** `snapshot`: the retry loop of one reader, with the writer and the other readers acting between any two
        of its loads. What is returned is one whole publication, made between call and return. There is no result
        only if the other threads have done all that was scheduled and left the writer in the midst of a publication,
        with `seq` odd: the reader is still spinning. If the writer is idle and stays so, the latest sample is
        returned. */
    method Snapshot(id: ReaderId, schedule: seq<seq<Action>>) returns (r: Option<TelemetrySnapshot>)
      requires Valid() && id in sys.readers && sys.readers[id].pc == Outside && Others(schedule, id, false)
      modifies this
      ensures Valid() && id in sys.readers && old(sys).published <= sys.published
      ensures r.Some? ==>
                var x := Record(r.value, old(sys).Completed(), sys.Completed());
                IsPublication(sys, x) && sys.readers[id] == Reader(Outside, old(sys).readers[id].returned + [x])
      ensures r == None ==> seqno % 2 != 0 && sys.readers[id].pc.Polling? && Apart(Run(old(sys), Flatten(schedule)), sys, id)
      ensures old(writer) == Idle && NoWriter(schedule) ==>
                r == Some(TelemetrySnapshot(2 * old(sys).Completed(), old(Fields())))
    {
      hide Inv, Others, Ahead, Apart, Step, NoWriter;
      ghost var start := sys;
      var rest := schedule;
      CallStarts(sys, id);
      Own(Call(id), schedule);
      ghost var begin, past := sys.Completed(), sys.readers[id].returned;
      while true
        invariant Valid() && Others(rest, id, false) && start.published <= sys.published
        invariant id in sys.readers && sys.readers[id] == Reader(Polling(begin), past)
        invariant Ahead(start, schedule, sys, rest, id)
        decreases |rest|
      {
        ghost var before, todo := sys, rest;
        var last := rest == [];
        r, rest := Attempt(id, rest);
        AheadTrans(start, schedule, before, todo, sys, rest, id);
        if r.Some? || last {
          break;
        }
      }
      if r == None { AheadOfNothing(start, schedule, sys, id); }
      IdleLatest(start, schedule, sys, rest, id, r);
    }

    /** One pass of the loop. When no other thread acts, it fails only on an odd `seq`. */
    method Attempt(id: ReaderId, schedule: seq<seq<Action>>) returns (r: Option<TelemetrySnapshot>, rest: seq<seq<Action>>)
      requires Valid() && id in sys.readers && sys.readers[id].pc.Polling? && Others(schedule, id, false)
      modifies this
      ensures Valid() && Others(rest, id, false) && id in sys.readers && old(sys).published <= sys.published
      ensures Ahead(old(sys), schedule, sys, rest, id)
      ensures schedule != [] ==> |rest| < |schedule|
      ensures schedule == [] ==> rest == [] && (r == None ==> seqno % 2 != 0)
      ensures match r
              case Some(snap) =>
                var x := Record(snap, old(sys).readers[id].pc.begin, sys.Completed());
                IsPublication(sys, x) && sys.readers[id] == Reader(Outside, old(sys).readers[id].returned + [x])
              case None => sys.readers[id] == old(sys).readers[id]
    {
      hide Inv, Others, Ahead;
      ghost var start := sys;
      rest := Wait(schedule, id);
      var seq1 := seqno;
      ghost var mid := sys;
      Own(LoadSeq(id), rest);
      AheadTrans(start, schedule, mid, rest, sys, rest, id);
      if seq1 % 2 != 0 {
        return None, rest;
      }
      r, rest := Copy(id, seq1, rest, start, schedule);
    }

    /** Loads the fields and then `seq` again. */
    method Copy(id: ReaderId, seq1: nat, schedule: seq<seq<Action>>, ghost start: System, ghost whole: seq<seq<Action>>)
        returns (r: Option<TelemetrySnapshot>, rest: seq<seq<Action>>)
      requires Valid() && id in sys.readers && Others(schedule, id, false) && Ahead(start, whole, sys, schedule, id)
      requires sys.readers[id].pc.Loading? && sys.readers[id].pc.got == [] && sys.readers[id].pc.seq1 == seq1
      modifies this
      ensures Valid() && Others(rest, id, false) && id in sys.readers && old(sys).published <= sys.published
      ensures Ahead(start, whole, sys, rest, id) && |rest| <= |schedule|
      ensures schedule == [] && old(seqno) == seq1 ==> r.Some?
      ensures var pc := old(sys).readers[id].pc;
              match r
              case Some(snap) =>
                var x := Record(snap, pc.begin, sys.Completed());
                IsPublication(sys, x) && sys.readers[id] == Reader(Outside, old(sys).readers[id].returned + [x])
              case None => sys.readers[id] == Reader(Polling(pc.begin), old(sys).readers[id].returned)
    {
      hide Inv, Others, Ahead;
      var got;
      ghost var here := sys;
      got, rest := LoadFields(id, schedule);
      AheadTrans(start, whole, here, schedule, sys, rest, id);
      here := sys;
      ghost var todo := rest;
      rest := Wait(rest, id);
      AheadTrans(start, whole, here, todo, sys, rest, id);
      here := sys;
      var seq2 := seqno;
      Own(Recheck(id), rest);
      AheadTrans(start, whole, here, rest, sys, rest, id);
      if seq1 == seq2 {
        r := Some(TelemetrySnapshot(seq1, got));
        LastReturned(sys, id);
      } else {
        r := None;
      }
    }

    method LoadFields(id: ReaderId, schedule: seq<seq<Action>>) returns (got: seq<int>, rest: seq<seq<Action>>)
      requires Valid() && id in sys.readers && Others(schedule, id, false)
      requires sys.readers[id].pc.Loading? && sys.readers[id].pc.got == []
      modifies this
      ensures Valid() && Others(rest, id, false) && id in sys.readers && old(sys).published <= sys.published
      ensures |got| == FIELDS && |rest| <= |schedule| && Ahead(old(sys), schedule, sys, rest, id)
      ensures schedule == [] ==> sys.page == old(sys).page
      ensures var r := old(sys).readers[id];
              sys.readers[id] == Reader(Loading(r.pc.begin, r.pc.seq1, got), r.returned)
    {
      hide Inv, Others, Ahead;
      ghost var start := sys;
      ghost var r := sys.readers[id];
      got, rest := [], schedule;
      AheadSelf(sys, schedule, id);
      for k := 0 to FIELDS
        invariant Valid() && Others(rest, id, false) && old(sys).published <= sys.published
        invariant |got| == k && |rest| <= |schedule| && Ahead(start, schedule, sys, rest, id)
        invariant schedule == [] ==> sys.page == old(sys).page
        invariant id in sys.readers && sys.readers[id] == Reader(Loading(r.pc.begin, r.pc.seq1, got), r.returned)
      {
        ghost var here, todo := sys, rest;
        rest := Wait(rest, id);
        AheadTrans(start, schedule, here, todo, sys, rest, id);
        here := sys;
        got := got + [Fields()[k]];
        Own(LoadField(id), rest);
        AheadTrans(start, schedule, here, rest, sys, rest, id);
      }
    }

    method WriterActs(a: Action)
      requires Valid() && a.ByWriter()
      modifies this
      ensures Valid() && sys == WriterStep(old(sys), a)
    {
      Acts(a);
    }
  }

  lemma CallStarts(s: System, id: ReaderId)
    requires id in s.readers && s.readers[id].pc == Outside
    ensures var t := Step(s, Call(id));
            id in t.readers && t.readers[id] == Reader(Polling(s.Completed()), s.readers[id].returned)
  {
  }

  lemma RunNone(s: System)
    ensures Run(s, []) == s
  {
  }

  /** If the writer is idle and does nothing, a pass cannot fail and what it returns is the latest sample. */
  lemma IdleLatest(s: System, schedule: seq<seq<Action>>, t: System, rest: seq<seq<Action>>, id: ReaderId, r: Option<TelemetrySnapshot>)
    requires Inv(s) && Ahead(s, schedule, t, rest, id) && s.published <= t.published
    requires r.Some? ==> IsPublication(t, Record(r.value, s.Completed(), t.Completed()))
    requires r == None ==> rest == [] && t.page.seqno % 2 != 0
    ensures s.writer == Idle && NoWriter(schedule) ==> r == Some(TelemetrySnapshot(2 * s.Completed(), s.page.fields))
  {
    if s.writer == Idle && NoWriter(schedule) {
      NothingPublished(s, schedule, t, rest, id);
      hide Ahead, NoWriter, ReaderInv;
      LastPublished(s);
    }
  }

  lemma LastReturned(s: System, id: ReaderId)
    requires Inv(s) && id in s.readers && s.readers[id].returned != []
    ensures var xs := s.readers[id].returned; IsPublication(s, xs[|xs| - 1])
  {
    assert ReaderInv(s, s.readers[id]);
  }

  lemma LastPublished(s: System)
    requires Inv(s) && s.writer == Idle
    ensures s.page.fields == s.published[s.Completed()]
  {
  }

  /** The schedule holds no action of reader `id`, nor of the writer when `readersOnly`. */
  ghost predicate Others(schedule: seq<seq<Action>>, id: ReaderId, readersOnly: bool) {
    forall i, j :: 0 <= i < |schedule| && 0 <= j < |schedule[i]| ==> OtherThan(schedule[i][j], id, readersOnly)
  }

  ghost predicate OtherThan(a: Action, id: ReaderId, readersOnly: bool) {
    if readersOnly then !a.ByWriter() else a.ByWriter() || a.id != id
  }

  ghost predicate Untouched(s: System, t: System, id: ReaderId, readersOnly: bool) {
    && s.readers.Keys == t.readers.Keys
    && (!readersOnly && id in s.readers ==> t.readers[id] == s.readers[id])
    && (readersOnly ==> t.page == s.page && t.writer == s.writer && t.published == s.published)
    && s.published <= t.published
  }

  lemma StepUntouched(s: System, a: Action, id: ReaderId, readersOnly: bool)
    requires OtherThan(a, id, readersOnly)
    ensures Untouched(s, Step(s, a), id, readersOnly)
  {
  }
}
