/** The vault synchronizer: which epochs a wake-up sweeps, and what a run of wake-ups covers.

    The vault id of an epoch and a shard is any function of the two. */
module EpochSweep {

  const MAX_SWEEP_EPOCHS := 4

  function Max(a: nat, b: nat): nat { if a >= b then a else b }

  function SatSub(a: nat, b: nat): nat { if a >= b then a - b else 0 }

  /** The epochs from `lo` up to, and not including, `end`. */
  function Epochs(lo: nat, end: nat): (s: seq<nat>)
    ensures |s| == (if lo < end then end - lo else 0) && forall e :: e in s <==> lo <= e < end
  {
    if lo >= end then [] else Epochs(lo, end - 1) + [end - 1]
  }

  /** The epochs that a sweep at `current` covers from the cursor: none if time has not moved. */
  function Swept(cursor: nat, current: nat): seq<nat> {
    if cursor >= current then [] else Epochs(Max(cursor, SatSub(current, MAX_SWEEP_EPOCHS)), current + 1)
  }

  /** The ids queried for a list of epochs. */
  function QueryIds<Id>(vaultId: (nat, nat) -> Id, epochs: seq<nat>, shards: nat): seq<Id> {
    if epochs == [] then []
    else QueryIds(vaultId, epochs[..|epochs| - 1], shards) + ShardIds(vaultId, epochs[|epochs| - 1], shards)
  }

  lemma OneMoreEpoch<Id>(vaultId: (nat, nat) -> Id, lo: nat, epoch: nat, shards: nat)
    requires lo <= epoch
    ensures QueryIds(vaultId, Epochs(lo, epoch + 1), shards) ==
            QueryIds(vaultId, Epochs(lo, epoch), shards) + ShardIds(vaultId, epoch, shards)
  {
    assert Epochs(lo, epoch + 1)[..epoch - lo] == Epochs(lo, epoch);
  }

  lemma {:induction false} QueryCount<Id>(vaultId: (nat, nat) -> Id, epochs: seq<nat>, shards: nat)
    ensures |QueryIds(vaultId, epochs, shards)| == |epochs| * shards
    decreases |epochs|
  {
    if epochs != [] {
      QueryCount(vaultId, epochs[..|epochs| - 1], shards);
      assert |epochs| * shards == (|epochs| - 1) * shards + shards;
    }
  }

  /** The ids come epoch by epoch, and for each epoch shard by shard. */
  lemma {:induction false} QueryIdAt<Id>(vaultId: (nat, nat) -> Id, epochs: seq<nat>, shards: nat, e: nat, i: nat)
    requires e < |epochs| && i < shards
    ensures e * shards + i < |QueryIds(vaultId, epochs, shards)|
    ensures QueryIds(vaultId, epochs, shards)[e * shards + i] == vaultId(epochs[e], i)
    decreases |epochs|
  {
    var front := epochs[..|epochs| - 1];
    QueryCount(vaultId, front, shards);
    QueryCount(vaultId, epochs, shards);
    if e < |front| {
      QueryIdAt(vaultId, front, shards, e, i);
    } else {
      assert |epochs| * shards == |front| * shards + shards;
    }
  }

  lemma {:induction false} EpochAt(lo: nat, end: nat, k: nat)
    requires lo + k < end
    ensures Epochs(lo, end)[k] == lo + k
    decreases end
  {
    if lo + k < end - 1 { EpochAt(lo, end - 1, k); }
  }

  /** The first epoch of a sweep: the cursor, or four before the current one. */
  function FirstSwept(cursor: nat, current: nat): nat { if cursor + 4 >= current then cursor else current - 4 }

  lemma SweptIs(cursor: nat, current: nat)
    requires cursor < current
    ensures Swept(cursor, current) == Epochs(FirstSwept(cursor, current), current + 1)
  {
  }

  /** Which ids a sweep issues: from the first epoch to the current one, in ascending order, the ids of all the
      shards of each epoch in order; and no others. */
  lemma SweepIssues<Id>(vaultId: (nat, nat) -> Id, cursor: nat, current: nat, shards: nat, e: nat, i: nat)
    requires cursor < current && FirstSwept(cursor, current) + e <= current && i < shards
    ensures var ids := QueryIds(vaultId, Swept(cursor, current), shards);
            var first := FirstSwept(cursor, current);
            && |ids| == (current - first + 1) * shards
            && e * shards + i < |ids| && ids[e * shards + i] == vaultId(first + e, i)
  {
    var first := FirstSwept(cursor, current);
    SweptIs(cursor, current);
    EpochAt(first, current + 1, e);
    hide *;
    QueryCount(vaultId, Epochs(first, current + 1), shards);
    QueryIdAt(vaultId, Epochs(first, current + 1), shards, e, i);
  }

  function ShardIds<Id>(vaultId: (nat, nat) -> Id, epoch: nat, shards: nat): (ids: seq<Id>)
    ensures |ids| == shards
  {
    seq(shards, i requires i >= 0 => vaultId(epoch, i))
  }

  /** Whatever the gap, a sweep covers the latest epochs, at most five of them, back to the cursor. */
  lemma SweepIsClamped(cursor: nat, current: nat)
    requires cursor < current
    ensures var s := Swept(cursor, current);
            && |s| == (if current - cursor <= 4 then current - cursor + 1 else 5)
            && (forall e :: e in s <==> cursor <= e <= current && e + 4 >= current)
  {
  }

  /** However long the blackout, a sweep issues at most five ids per shard. */
  lemma SweepIsBounded<Id>(vaultId: (nat, nat) -> Id, cursor: nat, current: nat, shards: nat)
    ensures |QueryIds(vaultId, Swept(cursor, current), shards)| <= 5 * shards
  {
    var n := |Swept(cursor, current)|;
    QueryCount(vaultId, Swept(cursor, current), shards);
    AtMostFive(n, shards);
  }

  lemma AtMostFive(n: nat, shards: nat)
    requires n <= MAX_SWEEP_EPOCHS + 1
    ensures n * shards <= (MAX_SWEEP_EPOCHS + 1) * shards
  {
  }

  /** Two consecutive nonempty sweeps share the epoch at which the first ended, or nothing. */
  lemma ConsecutiveSweepsOverlap(c: nat, d: nat, e: nat)
    requires c < d < e
    ensures forall x :: x in Swept(c, d) && x in Swept(d, e) <==> x == d && e - d <= 4
  {
    assert d in Swept(c, d);
  }

  // ---------- runs ----------

  ghost function ToSet(s: seq<nat>): set<nat> { set e | e in s }

  /** Everything swept by wake-ups at `times`, in order, from a cursor. */
  ghost function AllSwept(cursor: nat, times: seq<nat>): set<nat> {
    if times == [] then {}
    else
      var front := times[..|times| - 1];
      AllSwept(cursor, front) + ToSet(Swept(CursorAfter(cursor, front), times[|times| - 1]))
  }

  /** The cursor is the last wake-up, whether it swept or not. */
  function CursorAfter(cursor: nat, times: seq<nat>): nat {
    if times == [] then cursor else times[|times| - 1]
  }

  ghost predicate Nondecreasing(cursor: nat, times: seq<nat>) {
    times == [] ||
    (var front := times[..|times| - 1];
     Nondecreasing(cursor, front) && CursorAfter(cursor, front) <= times[|times| - 1])
  }

  /** The first step away from the cursor is at most 4 and every later step at most 5: the epoch a later
      sweep leaves out at the bottom is the one the sweep before it ended with. */
  ghost predicate SmallSteps(cursor: nat, times: seq<nat>) {
    times == [] ||
    (var front := times[..|times| - 1];
     var before := CursorAfter(cursor, front);
     && SmallSteps(cursor, front)
     && times[|times| - 1] - before <= if before > cursor then 5 else 4)
  }

  ghost predicate CoversAll(cursor: nat, times: seq<nat>) {
    forall e: nat :: e in AllSwept(cursor, times) <==> cursor <= e <= CursorAfter(cursor, times) && CursorAfter(cursor, times) > cursor
  }

  /** What is swept lies between the initial cursor and the last wake-up, which is swept once time has moved. */
  lemma {:induction false} SweptInRange(cursor: nat, times: seq<nat>)
    requires Nondecreasing(cursor, times)
    ensures forall e :: e in AllSwept(cursor, times) ==> cursor <= e <= CursorAfter(cursor, times)
    ensures cursor <= CursorAfter(cursor, times)
    ensures CursorAfter(cursor, times) > cursor ==> CursorAfter(cursor, times) in AllSwept(cursor, times)
    decreases |times|
  {
    if times != [] {
      SweptInRange(cursor, times[..|times| - 1]);
    }
  }

  /** A gap, once left behind, is never swept again. */
  lemma {:induction false} SmallStepsCover(cursor: nat, times: seq<nat>)
    requires Nondecreasing(cursor, times)
    ensures SmallSteps(cursor, times) ==> CoversAll(cursor, times)
    ensures !SmallSteps(cursor, times) ==>
              exists e :: cursor <= e < CursorAfter(cursor, times) && e !in AllSwept(cursor, times)
    decreases |times|
  {
    if times != [] {
      var front, last := times[..|times| - 1], times[|times| - 1];
      SweptInRange(cursor, front);
      SmallStepsCover(cursor, front);
      var before := CursorAfter(cursor, front);
      if !SmallSteps(cursor, front) {
        var e :| cursor <= e < before && e !in AllSwept(cursor, front);
        assert e !in AllSwept(cursor, times);
      } else if !SmallSteps(cursor, times) {
        var e := if before > cursor then before + 1 else before;
        assert e !in AllSwept(cursor, times);
      }
    }
  }

  /** Over any run of nondecreasing wake-ups, the union of the sweeps is exactly the initial cursor to the
      last epoch, once time has moved, if and only if the steps are small. */
  lemma CoverageIff(cursor: nat, times: seq<nat>)
    requires Nondecreasing(cursor, times)
    ensures CoversAll(cursor, times) <==> SmallSteps(cursor, times)
  {
    SmallStepsCover(cursor, times);
  }

  // ---------- the code ----------

  class VaultSynchronizer<Id> {
    var epochSyncCursor: nat
    const vaultId: (nat, nat) -> Id

    constructor (initialCursor: nat, vaultId: (nat, nat) -> Id)
      ensures epochSyncCursor == initialCursor && this.vaultId == vaultId
    {
      epochSyncCursor := initialCursor;
      this.vaultId := vaultId;
    }

    /** `sweep_epochs`. */
    method SweepEpochs(current: nat, shards: nat) returns (ids: seq<Id>)
      modifies this
      ensures epochSyncCursor == current
      ensures ids == QueryIds(vaultId, Swept(old(epochSyncCursor), current), shards)
    {
      if epochSyncCursor >= current {
        epochSyncCursor := current;
        return [];
      }
      var latestAllowedStart := SatSub(current, MAX_SWEEP_EPOCHS);
      var start := Max(epochSyncCursor, latestAllowedStart);
      ids := QueryRange(start, current + 1, shards);
      epochSyncCursor := current;
    }

    method QueryRange(start: nat, end: nat, shards: nat) returns (ids: seq<Id>)
      requires start <= end
      ensures ids == QueryIds(vaultId, Epochs(start, end), shards)
    {
      ids := [];
      for epoch := start to end
        invariant ids == QueryIds(vaultId, Epochs(start, epoch), shards)
      {
        ids := AddShards(ids, epoch, shards);
        OneMoreEpoch(vaultId, start, epoch, shards);
      }
    }

    method AddShards(before: seq<Id>, epoch: nat, shards: nat) returns (ids: seq<Id>)
      ensures ids == before + ShardIds(vaultId, epoch, shards)
    {
      ids := before;
      for i := 0 to shards
        invariant ids == before + ShardIds(vaultId, epoch, i)
      {
        assert ShardIds(vaultId, epoch, i + 1) == ShardIds(vaultId, epoch, i) + [vaultId(epoch, i)];
        ids := ids + [vaultId(epoch, i)];
      }
    }
  }
}
