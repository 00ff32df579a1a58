/** Free-running 16-bit ring indices and the windows they delimit.

    A ring of `depth` slots is read and written at positions `n & (depth - 1)` for a counter `n` that
    wraps modulo 2^16. The ghost counters here never wrap. */
module Rings {
  import opened Arithmetic

  const U16 := 0x1_0000

  function Wrap(n: int): nat { n % U16 }

  /** The queue depths of at most 8 that VIRTIO 1.1, section 2.6, allows. */
  predicate IsDepth(depth: nat) { depth == 1 || depth == 2 || depth == 4 || depth == 8 }

  /** The position of entry `n` in a ring. */
  function Slot(n: nat, depth: nat): (p: nat)
    requires depth > 0
    ensures p < depth
  {
    n % depth
  }

  /** Masking a 16-bit index, as the driver does, finds the slot of the counter. */
  lemma SlotOfIndex(n: nat, depth: nat)
    requires IsDepth(depth)
    ensures And(Wrap(n), depth - 1) == Slot(n, depth)
  {
    var k := if depth == 1 then 0 else if depth == 2 then 1 else if depth == 4 then 2 else 3;
    SmallPowers();
    AndMask(Wrap(n), k);
    WrapKeepsSlot(n, depth);
  }

  /** The position the driver and the device compute from a 16-bit index. */
  function RingPos(idx: nat, depth: nat): (p: nat)
    requires IsDepth(depth)
    ensures p < depth
  {
    MaskBound(idx, depth);
    And(idx, depth - 1)
  }

  lemma MaskBound(idx: nat, depth: nat)
    requires IsDepth(depth)
    ensures And(idx, depth - 1) < depth
  {
    var k := if depth == 1 then 0 else if depth == 2 then 1 else if depth == 4 then 2 else 3;
    SmallPowers();
    AndMask(idx, k);
  }

  /** What stepping a wrapped index does to its counter and its slot. */
  lemma RingPosOf(n: nat, depth: nat)
    requires IsDepth(depth)
    ensures RingPos(Wrap(n), depth) == Slot(n, depth)
    ensures Wrap(Wrap(n) + 1) == Wrap(n + 1)
  {
    hide Slot, Wrap, And;
    SlotOfIndex(n, depth);
    WrapStep(n);
  }

  lemma WrapStep(n: nat)
    ensures Wrap(Wrap(n) + 1) == Wrap(n + 1)
  {
  }

  lemma WrapAhead(n: nat, j: nat)
    ensures Wrap(Wrap(n) + j) == Wrap(n + j)
  {
  }

  lemma SmallPowers()
    ensures Pow2(0) == 1 && Pow2(1) == 2 && Pow2(2) == 4 && Pow2(3) == 8
  {
  }

  lemma WrapKeepsSlot(n: nat, depth: nat)
    requires IsDepth(depth)
    ensures Wrap(n) % depth == n % depth
  {
    var c := if depth == 1 then 65536 else if depth == 2 then 32768 else if depth == 4 then 16384 else 8192;
    assert n == Wrap(n) + depth * (c * (n / U16));
    ModAdd(Wrap(n), depth, c * (n / U16));
  }

  /** Counters less than 2^16 apart are equal when their 16-bit values are. */
  lemma WrapInjective(m: nat, n: nat)
    requires m <= n < m + 65536 && Wrap(m) == Wrap(n)
    ensures m == n
  {
  }

  /** Indices wrap at 2^16. */
  lemma WrapsAt16Bits(n: nat)
    ensures Wrap(n) < 65536 && Wrap(n + 65536) == Wrap(n) && (n < 65536 ==> Wrap(n) == n)
  {
  }

  lemma WrapDistance(n: nat, d: nat)
    requires d < U16
    ensures (Wrap(n + d) - Wrap(n)) % U16 == d
  {
  }

  /** The ring entries numbered `lo` to `hi - 1`. */
  function Window<T>(ring: seq<T>, lo: nat, hi: nat, depth: nat): (w: seq<T>)
    requires 0 < depth <= |ring| && lo <= hi
    ensures |w| == hi - lo
  {
    seq(hi - lo, i requires 0 <= i < hi - lo => ring[Slot(lo + i, depth)])
  }

  lemma SlotsApart(m: nat, n: nat, depth: nat)
    requires depth > 0 && m < n < m + depth
    ensures Slot(m, depth) != Slot(n, depth)
  {
    var d := n / depth - m / depth;
    assert n - m == depth * d + (Slot(n, depth) - Slot(m, depth)) by { Distribute(depth, n / depth, m / depth); }
    if d >= 1 { ProductAtLeast(depth, d); }
    assert d <= -1 ==> depth * d <= 0;
  }

  /** Writing the slot after a window that is not full extends it and disturbs nothing. */
  lemma WindowPush<T>(ring: seq<T>, lo: nat, hi: nat, depth: nat, x: T)
    requires 0 < depth <= |ring| && lo <= hi < lo + depth
    ensures Window(ring[Slot(hi, depth) := x], lo, hi, depth) == Window(ring, lo, hi, depth)
    ensures Window(ring[Slot(hi, depth) := x], lo, hi + 1, depth) == Window(ring, lo, hi, depth) + [x]
  {
    hide Slot;
    forall n: nat | lo <= n < hi ensures Slot(n, depth) != Slot(hi, depth) {
      SlotsApart(n, hi, depth);
    }
  }

  /** Writing a slot further on, up to a full ring, disturbs nothing in a window. */
  lemma WindowElsewhere<T>(ring: seq<T>, lo: nat, hi: nat, depth: nat, n: nat, x: T)
    requires 0 < depth <= |ring| && lo <= hi <= n < lo + depth
    ensures Window(ring[Slot(n, depth) := x], lo, hi, depth) == Window(ring, lo, hi, depth)
  {
    hide Slot;
    forall k: nat | lo <= k < hi ensures Slot(k, depth) != Slot(n, depth) {
      SlotsApart(k, n, depth);
    }
  }

  /** The window grows by what the next slot holds. */
  lemma WindowGrows<T>(ring: seq<T>, lo: nat, hi: nat, depth: nat)
    requires 0 < depth <= |ring| && lo <= hi
    ensures Window(ring, lo, hi + 1, depth) == Window(ring, lo, hi, depth) + [ring[Slot(hi, depth)]]
  {
    hide Slot;
  }

  lemma WindowPop<T>(ring: seq<T>, lo: nat, hi: nat, depth: nat)
    requires 0 < depth <= |ring| && lo < hi
    ensures Window(ring, lo, hi, depth) == [ring[Slot(lo, depth)]] + Window(ring, lo + 1, hi, depth)
  {
    hide Slot;
  }

  // ---------- conservation of descriptor ids ----------

  function Ids(n: nat): seq<nat> { seq(n, i => i) }

  /** The ids in the three places, read one after the other, are a permutation of `0 .. depth - 1`. */
  ghost predicate Conserved(avail: seq<nat>, held: seq<nat>, used: seq<nat>, depth: nat) {
    multiset(avail + held + used) == multiset(Ids(depth))
  }

  lemma {:induction false} IdsOnce(n: nat, x: nat)
    ensures multiset(Ids(n))[x] == (if x < n then 1 else 0)
    decreases n
  {
    if n > 0 {
      IdsOnce(n - 1, x);
      assert Ids(n) == Ids(n - 1) + [n - 1];
    }
  }

  lemma CountedTwice(s: seq<nat>, i: nat, j: nat)
    requires i < j < |s| && s[i] == s[j]
    ensures multiset(s)[s[i]] >= 2
  {
    assert s == s[..j] + [s[j]] + s[j + 1..];
    assert s[..j][i] == s[i];
    assert s[i] in multiset(s[..j]);
  }

  /** A permutation holds each id below `depth` once and nothing else. */
  lemma PermutationOfIds(s: seq<nat>, depth: nat)
    requires multiset(s) == multiset(Ids(depth))
    ensures |s| == depth && (forall x: nat :: x in s <==> x < depth)
    ensures forall i, j :: 0 <= i < j < |s| ==> s[i] != s[j]
  {
    assert |s| == |multiset(s)| && depth == |multiset(Ids(depth))|;
    forall x: nat ensures x in s <==> x < depth {
      IdsOnce(depth, x);
      assert x in s <==> x in multiset(s);
    }
    forall i, j | 0 <= i < j < |s| ensures s[i] != s[j] {
      IdsOnce(depth, s[i]);
      if s[i] == s[j] { CountedTwice(s, i, j); }
    }
  }

  function Drop<T>(s: seq<T>, k: nat): seq<T>
    requires k < |s|
  {
    s[..k] + s[k + 1..]
  }

  /** The device takes the oldest available id. */
  lemma FetchConserves(avail: seq<nat>, held: seq<nat>, used: seq<nat>, depth: nat)
    requires Conserved(avail, held, used, depth) && avail != []
    ensures Conserved(avail[1..], held + [avail[0]], used, depth)
  {
    assert avail == [avail[0]] + avail[1..];
  }

  /** The device returns any id it holds. */
  lemma CompleteConserves(avail: seq<nat>, held: seq<nat>, used: seq<nat>, depth: nat, k: nat)
    requires Conserved(avail, held, used, depth) && k < |held|
    ensures Conserved(avail, Drop(held, k), used + [held[k]], depth)
  {
    assert held == held[..k] + [held[k]] + held[k + 1..];
  }

  /** The driver makes the oldest used id available again. */
  lemma RecycleConserves(avail: seq<nat>, held: seq<nat>, used: seq<nat>, depth: nat)
    requires Conserved(avail, held, used, depth) && used != []
    ensures Conserved(avail + [used[0]], held, used[1..], depth)
  {
    assert used == [used[0]] + used[1..];
  }
}
