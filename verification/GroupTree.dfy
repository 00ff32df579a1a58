/** The 3-ary distribution tree of a group: every member sorts the same list and reads its place in it. */
module GroupTree {
  import opened Wrappers

  type Did = string

  // ---------- sorting ----------

  /** Lexicographic order of strings. */
  predicate Leq(a: Did, b: Did) {
    a == "" || (b != "" && (a[0] < b[0] || (a[0] == b[0] && Leq(a[1..], b[1..]))))
  }

  /** They agree before position k, and the first has the lesser character at it. */
  predicate LessAt(a: Did, b: Did, k: nat) {
    k < |a| && k < |b| && (forall j :: 0 <= j < k ==> a[j] == b[j]) && a[k] < b[k]
  }

  /** A string comes before another if it is a prefix of it, or has the lesser character where they first differ. */
  lemma {:induction false} LeqIsLexicographic(a: Did, b: Did)
    ensures Leq(a, b) <==> a <= b || exists k: nat :: LessAt(a, b, k)
    decreases |a|
  {
    if a != "" && b != "" {
      LessAtHeads(a, b);
      if a[0] == b[0] {
        LeqIsLexicographic(a[1..], b[1..]);
        assert a == [a[0]] + a[1..] && b == [b[0]] + b[1..];
        hide LessAt;
        if k: nat :| LessAt(a[1..], b[1..], k) { assert LessAt(a, b, k + 1); }
        if k: nat :| LessAt(a, b, k) { assert k > 0 && LessAt(a[1..], b[1..], k - 1); }
      }
    }
  }

  lemma LessAtHeads(a: Did, b: Did)
    requires a != "" && b != ""
    ensures LessAt(a, b, 0) <==> a[0] < b[0]
    ensures forall k: nat :: LessAt(a, b, k + 1) <==> a[0] == b[0] && LessAt(a[1..], b[1..], k)
    ensures forall k: nat :: LessAt(a, b, k) && k > 0 ==> a[0] == b[0]
  {
    forall k: nat ensures LessAt(a, b, k + 1) <==> a[0] == b[0] && LessAt(a[1..], b[1..], k) {
      if a[0] == b[0] && LessAt(a[1..], b[1..], k) { LessLater(a, b, k); }
      if LessAt(a, b, k + 1) { LessEarlier(a, b, k); }
    }
    forall k: nat | LessAt(a, b, k) && k > 0 ensures a[0] == b[0] { LessEarlier(a, b, k - 1); }
  }

  lemma LessLater(a: Did, b: Did, k: nat)
    requires a != "" && b != "" && a[0] == b[0] && LessAt(a[1..], b[1..], k)
    ensures LessAt(a, b, k + 1)
  {
    forall j | 0 <= j < k + 1 ensures a[j] == b[j] {
      if j > 0 { assert a[1..][j - 1] == b[1..][j - 1]; }
    }
  }

  lemma LessEarlier(a: Did, b: Did, k: nat)
    requires a != "" && b != "" && LessAt(a, b, k + 1)
    ensures a[0] == b[0] && LessAt(a[1..], b[1..], k)
  {
    forall j | 0 <= j < k ensures a[1..][j] == b[1..][j] { assert a[j + 1] == b[j + 1]; }
  }

  lemma {:induction false} LeqTotal(a: Did, b: Did)
    ensures Leq(a, b) || Leq(b, a)
    decreases |a|
  {
    if a != "" && b != "" { LeqTotal(a[1..], b[1..]); }
  }

  lemma {:induction false} LeqAntisymmetric(a: Did, b: Did)
    requires Leq(a, b) && Leq(b, a)
    ensures a == b
    decreases |a|
  {
    if a != "" && b != "" {
      LeqAntisymmetric(a[1..], b[1..]);
      assert a == [a[0]] + a[1..] && b == [b[0]] + b[1..];
    }
  }

  lemma {:induction false} LeqTransitive(a: Did, b: Did, c: Did)
    requires Leq(a, b) && Leq(b, c)
    ensures Leq(a, c)
    decreases |a|
  {
    if a != "" && a[0] == b[0] && b[0] == c[0] { LeqTransitive(a[1..], b[1..], c[1..]); }
  }

  ghost predicate Sorted(s: seq<Did>) { forall i, j :: 0 <= i < j < |s| ==> Leq(s[i], s[j]) }

  function InsertSorted(x: Did, s: seq<Did>): (r: seq<Did>)
    ensures multiset(r) == multiset([x]) + multiset(s)
  {
    if s == [] then [x]
    else if Leq(x, s[0]) then [x] + s
    else
      assert s == [s[0]] + s[1..];
      [s[0]] + InsertSorted(x, s[1..])
  }

  function Sort(s: seq<Did>): (r: seq<Did>)
    ensures multiset(r) == multiset(s)
  {
    if s == [] then []
    else
      assert s == [s[0]] + s[1..];
      InsertSorted(s[0], Sort(s[1..]))
  }

  lemma {:induction false} InsertKeepsSorted(x: Did, s: seq<Did>)
    requires Sorted(s)
    ensures Sorted(InsertSorted(x, s))
    decreases |s|
  {
    if s != [] {
      if Leq(x, s[0]) {
        forall i | 0 <= i < |s| ensures Leq(x, s[i]) {
          if i > 0 { LeqTransitive(x, s[0], s[i]); }
        }
      } else {
        LeqTotal(x, s[0]);
        InsertKeepsSorted(x, s[1..]);
        var r := InsertSorted(x, s[1..]);
        forall i | 0 <= i < |r| ensures Leq(s[0], r[i]) {
          assert r[i] in multiset(r);
          assert r[i] == x || r[i] in multiset(s[1..]);
          if r[i] != x { var k :| 0 <= k < |s[1..]| && s[1..][k] == r[i]; }
        }
      }
    }
  }

  lemma {:induction false} SortSorts(s: seq<Did>)
    ensures Sorted(Sort(s))
    decreases |s|
  {
    if s != [] {
      SortSorts(s[1..]);
      InsertKeepsSorted(s[0], Sort(s[1..]));
    }
  }

  /** There is one sorted arrangement of a collection of strings. */
  lemma {:induction false} SortedUnique(a: seq<Did>, b: seq<Did>)
    requires Sorted(a) && Sorted(b) && multiset(a) == multiset(b)
    ensures a == b
    decreases |a|
  {
    hide Leq, Sorted;
    assert |a| == |multiset(a)| == |multiset(b)| == |b|;
    if a != [] {
      SameHeads(a, b);
      SortedUnique(a[1..], b[1..]);
      assert a == [a[0]] + a[1..] && b == [b[0]] + b[1..];
    }
  }

  lemma SameHeads(a: seq<Did>, b: seq<Did>)
    requires Sorted(a) && Sorted(b) && multiset(a) == multiset(b) && a != [] && b != []
    ensures a[0] == b[0] && Sorted(a[1..]) && Sorted(b[1..]) && multiset(a[1..]) == multiset(b[1..])
  {
    HeadIsLeast(a, b);
    HeadIsLeast(b, a);
    LeqAntisymmetric(a[0], b[0]);
    TailMultiset(a);
    TailMultiset(b);
  }

  lemma TailMultiset(a: seq<Did>)
    requires a != []
    ensures multiset(a[1..]) == multiset(a) - multiset{a[0]}
  {
    assert a == [a[0]] + a[1..];
  }

  lemma HeadIsLeast(a: seq<Did>, b: seq<Did>)
    requires Sorted(a) && a != [] && b != [] && multiset(a) == multiset(b)
    ensures Leq(a[0], b[0])
  {
    assert b[0] in multiset(b);
    var k :| 0 <= k < |a| && a[k] == b[0];
    if k == 0 { LeqTotal(a[0], a[0]); }
  }

  // ---------- roles ----------

  datatype TreeRole = Originator | Relay(children: seq<Did>) | Leaf

  datatype ScheduledRelay = ScheduledRelay(tickOffset: nat, target: Did, payload: seq<int>)

  /** The position of a DID in the sorted list, 0 if it is not there. */
  function Position(sorted: seq<Did>, me: Did): (i: nat)
    ensures me in sorted ==> i < |sorted| && sorted[i] == me
    ensures me !in sorted ==> i == 0
  {
    if me !in sorted then 0 else if sorted[0] == me then 0 else 1 + Position(sorted[1..], me)
  }

  /** The members at indices 3i+1, 3i+2 and 3i+3, as far as they exist. */
  function Children(sorted: seq<Did>, i: nat): seq<Did> {
    (if 3 * i + 1 < |sorted| then [sorted[3 * i + 1]] else [])
    + (if 3 * i + 2 < |sorted| then [sorted[3 * i + 2]] else [])
    + (if 3 * i + 3 < |sorted| then [sorted[3 * i + 3]] else [])
  }

  function RoleAt(sorted: seq<Did>, i: nat): TreeRole {
    if i == 0 then Originator
    else if Children(sorted, i) == [] then Leaf
    else Relay(Children(sorted, i))
  }

  function RoleOf(members: seq<Did>, me: Did): TreeRole {
    RoleAt(Sort(members), Position(Sort(members), me))
  }

  /** Agreement: however a member's copy of the list is ordered, everyone's role comes out the same. */
  lemma RolesAgree(ms: seq<Did>, ns: seq<Did>, me: Did)
    requires multiset(ms) == multiset(ns)
    ensures Sort(ms) == Sort(ns) && RoleOf(ms, me) == RoleOf(ns, me)
  {
    SortSorts(ms);
    SortSorts(ns);
    SortedUnique(Sort(ms), Sort(ns));
  }

  ghost predicate Distinct(s: seq<Did>) { forall i, j :: 0 <= i < j < |s| ==> s[i] != s[j] }

  lemma SortKeepsDistinct(s: seq<Did>)
    requires Distinct(s)
    ensures Distinct(Sort(s))
  {
    var r := Sort(s);
    forall i, j | 0 <= i < j < |r| ensures r[i] != r[j] {
      if r[i] == r[j] {
        TwoOccurrences(r, i, j);
        AtMostOnce(s, r[i]);
      }
    }
  }

  lemma TwoOccurrences(s: seq<Did>, i: nat, j: nat)
    requires i < j < |s| && s[i] == s[j]
    ensures multiset(s)[s[i]] >= 2
  {
    assert s == s[..j] + [s[j]] + s[j + 1..];
    assert s[..j][i] in multiset(s[..j]);
  }

  lemma {:induction false} AtMostOnce(s: seq<Did>, x: Did)
    requires Distinct(s)
    ensures multiset(s)[x] <= 1
    decreases |s|
  {
    if s != [] {
      AtMostOnce(s[1..], x);
      assert s == [s[0]] + s[1..];
      if s[0] == x {
        forall k | 0 <= k < |s[1..]| ensures s[1..][k] != x { assert s[1..][k] == s[k + 1]; }
        assert x !in multiset(s[1..]);
      }
    }
  }

  /** With distinct DIDs a member is the originator exactly when it sorts first; so, too, is everyone whose
      DID is not on the list. */
  lemma OriginatorIff(members: seq<Did>, me: Did)
    requires Distinct(members) && members != []
    ensures RoleOf(members, me) == Originator <==> me == Sort(members)[0] || me !in members
  {
    hide Leq, Children, Sort, Position;
    SortKeepsDistinct(members);
    SameMembers(members, me);
  }

  lemma SameMembers(members: seq<Did>, me: Did)
    ensures |Sort(members)| == |members| && (me in Sort(members) <==> me in members)
  {
    hide Sort;
    var sorted := Sort(members);
    assert |sorted| == |multiset(sorted)| == |multiset(members)|;
    assert me in members <==> me in multiset(members);
    assert me in sorted <==> me in multiset(sorted);
  }

  // ---------- the index tree ----------

  /** `j` is one of the three child indices of `i`. */
  predicate IsChild(i: nat, j: nat) { j == 3 * i + 1 || j == 3 * i + 2 || j == 3 * i + 3 }

  /** Every member but the first is a child of exactly one member. */
  lemma OneParent(sorted: seq<Did>, j: nat, i: nat)
    requires Distinct(sorted) && 1 <= j < |sorted| && i < |sorted|
    ensures sorted[j] in Children(sorted, i) <==> i == (j - 1) / 3
  {
    assert IsChild(i, j) <==> i == (j - 1) / 3;
    forall k | 0 <= k < |sorted| && sorted[k] == sorted[j] ensures k == j {}
  }

  /** The indices reached from `i` by going to children, in a tree of `n` members. */
  function Reached(n: nat, i: nat): seq<nat>
    decreases if i < n then n - i else 0
  {
    if i >= n then [] else [i] + Reached(n, 3 * i + 1) + Reached(n, 3 * i + 2) + Reached(n, 3 * i + 3)
  }

  /** Going to the parent from `j` arrives at `i`. */
  predicate Below(i: nat, j: nat) { j == i || (j > i && Below(i, (j - 1) / 3)) }

  lemma {:induction false} BelowOneChild(i: nat, j: nat)
    ensures Below(i, j) <==> j == i || Below(3 * i + 1, j) || Below(3 * i + 2, j) || Below(3 * i + 3, j)
    ensures !(Below(3 * i + 1, j) && Below(3 * i + 2, j)) && !(Below(3 * i + 1, j) && Below(3 * i + 3, j))
    ensures !(Below(3 * i + 2, j) && Below(3 * i + 3, j))
    ensures Below(i, j) ==> i <= j
    decreases j
  {
    if j > i { BelowOneChild(i, (j - 1) / 3); }
  }

  lemma {:induction false} AllBelowRoot(j: nat)
    ensures Below(0, j)
    decreases j
  {
    if j > 0 { AllBelowRoot((j - 1) / 3); }
  }

  /** How often going to children from `i` comes to `j`. */
  function Visits(n: nat, i: nat, j: nat): nat
    decreases if i < n then n - i else 0
  {
    if i >= n then 0
    else (if i == j then 1 else 0) + Visits(n, 3 * i + 1, j) + Visits(n, 3 * i + 2, j) + Visits(n, 3 * i + 3, j)
  }

  lemma {:induction false} ReachedVisits(n: nat, i: nat, j: nat)
    ensures multiset(Reached(n, i))[j] == Visits(n, i, j)
    decreases if i < n then n - i else 0
  {
    Unfold(n, i, j);
    hide Reached, Visits;
    if i < n {
      ReachedVisits(n, 3 * i + 1, j);
      ReachedVisits(n, 3 * i + 2, j);
      ReachedVisits(n, 3 * i + 3, j);
      FourParts([i], Reached(n, 3 * i + 1), Reached(n, 3 * i + 2), Reached(n, 3 * i + 3), j);
    }
  }

  lemma Unfold(n: nat, i: nat, j: nat)
    ensures i >= n ==> Reached(n, i) == [] && Visits(n, i, j) == 0
    ensures i < n ==> Reached(n, i) == [i] + Reached(n, 3 * i + 1) + Reached(n, 3 * i + 2) + Reached(n, 3 * i + 3)
    ensures i < n ==> Visits(n, i, j) == (if i == j then 1 else 0)
                                         + Visits(n, 3 * i + 1, j) + Visits(n, 3 * i + 2, j) + Visits(n, 3 * i + 3, j)
  {
  }

  lemma FourParts(a: seq<nat>, b: seq<nat>, c: seq<nat>, d: seq<nat>, j: nat)
    ensures multiset(a + b + c + d)[j] == multiset(a)[j] + multiset(b)[j] + multiset(c)[j] + multiset(d)[j]
  {
  }

  lemma {:induction false} VisitsBelow(n: nat, i: nat, j: nat)
    ensures Visits(n, i, j) == if j < n && Below(i, j) then 1 else 0
    decreases if i < n then n - i else 0
  {
    hide Below;
    BelowOneChild(i, j);
    BelowOneChild(3 * i + 1, j);
    BelowOneChild(3 * i + 2, j);
    BelowOneChild(3 * i + 3, j);
    if i < n {
      VisitsBelow(n, 3 * i + 1, j);
      VisitsBelow(n, 3 * i + 2, j);
      VisitsBelow(n, 3 * i + 3, j);
    }
  }

  /** From the root, every index below `n` is reached exactly once and no other. */
  lemma RootReachesEachOnce(n: nat, j: nat)
    ensures multiset(Reached(n, 0))[j] == if j < n then 1 else 0
  {
    ReachedVisits(n, 0, j);
    VisitsBelow(n, 0, j);
    AllBelowRoot(j);
  }

  function Depth(j: nat): nat { if j == 0 then 0 else 1 + Depth((j - 1) / 3) }

  function Pow3(d: nat): (p: nat)
    ensures p >= 1
  {
    if d == 0 then 1 else 3 * Pow3(d - 1)
  }

  /** The first index of level d. */
  function FirstOf(d: nat): nat { if d == 0 then 0 else 3 * FirstOf(d - 1) + 1 }

  lemma {:induction false} FirstOfClosed(d: nat)
    ensures Pow3(d) == 2 * FirstOf(d) + 1
  {
    if d > 0 { FirstOfClosed(d - 1); }
  }

  lemma {:induction false} DepthLevel(j: nat, d: nat)
    ensures Depth(j) == d <==> FirstOf(d) <= j < FirstOf(d + 1)
    decreases j
  {
    if d > 0 && j > 0 { DepthLevel((j - 1) / 3, d - 1); }
  }

  /** Level d of the tree is the indices from (3^d - 1)/2 up to (3^(d+1) - 1)/2. */
  lemma DepthIff(j: nat, d: nat)
    ensures Depth(j) == d <==> (Pow3(d) - 1) / 2 <= j < (Pow3(d + 1) - 1) / 2
  {
    DepthLevel(j, d);
    FirstOfClosed(d);
    FirstOfClosed(d + 1);
  }

  // ---------- the schedule ----------

  /** Consecutive ticks, one child each. The originator's own list is empty in the source. */
  function Schedule(role: TreeRole, payload: seq<int>): seq<ScheduledRelay> {
    match role
    case Originator => []
    case Relay(children) => seq(|children|, i requires 0 <= i < |children| => ScheduledRelay(i + 1, children[i], payload))
    case Leaf => []
  }

  /** The schedule of the member at index i has an entry for the target, with this payload, on this tick. */
  ghost predicate Sends(sorted: seq<Did>, i: nat, target: Did, payload: seq<int>, tick: nat) {
    ScheduledRelay(tick, target, payload) in Schedule(RoleAt(sorted, i), payload)
  }

  /** What the group's schedules deliver: the member at index j is sent the payload by its parent, on tick 1, 2 or 3
      as it is the first, second or third child, exactly when j >= 4, and by no other member; nobody schedules the
      originator or its three children. */
  lemma ScheduledIff(sorted: seq<Did>, i: nat, j: nat, payload: seq<int>, tick: nat)
    requires Distinct(sorted) && i < |sorted| && j < |sorted|
    ensures Sends(sorted, i, sorted[j], payload, tick) <==> j >= 4 && j == 3 * i + tick && 1 <= tick <= 3
  {
    ChildScheduled(sorted, i, sorted[j], payload, tick);
    forall k | 0 <= k < |sorted| && sorted[k] == sorted[j] ensures k == j {}
  }

  lemma ChildScheduled(sorted: seq<Did>, i: nat, target: Did, payload: seq<int>, tick: nat)
    ensures Sends(sorted, i, target, payload, tick) <==>
              i > 0 && 1 <= tick <= 3 && 3 * i + tick < |sorted| && target == sorted[3 * i + tick]
  {
    var c, s := Children(sorted, i), Schedule(RoleAt(sorted, i), payload);
    ChildAt(sorted, i);
    hide Children;
    if i > 0 && 1 <= tick <= 3 && 3 * i + tick < |sorted| && target == sorted[3 * i + tick] {
      assert s[tick - 1] == ScheduledRelay(tick, target, payload);
    }
  }

  lemma ChildAt(sorted: seq<Did>, i: nat)
    ensures var c := Children(sorted, i);
            && |c| == (if 3 * i + 3 < |sorted| then 3 else if 3 * i + 2 < |sorted| then 2 else if 3 * i + 1 < |sorted| then 1 else 0)
            && forall k :: 0 <= k < |c| ==> c[k] == sorted[3 * i + 1 + k]
  {
  }

  /** Every entry of a schedule carries the payload, and the ticks are 1, 2, 3, ... without a gap. */
  lemma ScheduleTicks(role: TreeRole, payload: seq<int>, k: nat)
    requires k < |Schedule(role, payload)|
    ensures var e := Schedule(role, payload)[k];
            e.tickOffset == k + 1 && e.payload == payload && role.Relay? && e.target == role.children[k]
    ensures |Schedule(role, payload)| == |role.children|
  {
  }

  /** Who is what: index 0 is the originator, the others relay if the list goes on to their first child, and are
      leaves if it does not. */
  lemma RoleIff(sorted: seq<Did>, i: nat)
    ensures RoleAt(sorted, i) == Originator <==> i == 0
    ensures RoleAt(sorted, i).Relay? <==> i > 0 && 3 * i + 1 < |sorted|
    ensures RoleAt(sorted, i) == Leaf <==> i > 0 && 3 * i + 1 >= |sorted|
  {
  }

  // ---------- the code ----------

  class DistributionTree {
    const role: TreeRole

    /** `DistributionTree::new`. */
    constructor (members: seq<Did>, me: Did)
      ensures role == RoleOf(members, me)
    {
      hide Sort, Leq, Position;
      var sorted := Sort(members);
      var i := Position(sorted, me);
      var c1, c2, c3 := i * 3 + 1, i * 3 + 2, i * 3 + 3;
      var children := [];
      if c1 < |sorted| {
        children := children + [sorted[c1]];
      }
      if c2 < |sorted| {
        children := children + [sorted[c2]];
      }
      if c3 < |sorted| {
        children := children + [sorted[c3]];
      }
      assert children == Children(sorted, i);
      role := if i == 0 then Originator else if children == [] then Leaf else Relay(children);
    }

    /** `schedule_group_send`. */
    method ScheduleGroupSend(payload: seq<int>) returns (schedule: seq<ScheduledRelay>)
      ensures schedule == Schedule(role, payload)
    {
      schedule := [];
      var children := if role.Relay? then role.children else [];
      for i := 0 to |children|
        invariant |schedule| == i
        invariant forall k :: 0 <= k < i ==> schedule[k] == ScheduledRelay(k + 1, children[k], payload)
      {
        schedule := schedule + [ScheduledRelay(i + 1, children[i], payload)];
      }
    }
  }
}
