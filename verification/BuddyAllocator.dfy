/** The power-of-two buddy allocator with its intrusive free lists.

    A pointer is a unit offset from the base of the pool, or NULL. The link that the allocator keeps in
    the first word of a free block is the cell of `next` at the block's offset. */
module Buddy {
  import opened Arithmetic
  import opened Wrappers
  import opened BuddyBlocks

  const MIN_BLOCK := 512
  const MAX_ORDER := 16
  const NULL: int := -1
  const ISIZE_MAX := 0x7FFF_FFFF_FFFF_FFFF

  // ---------- layouts ----------

  datatype Layout = Layout(size: nat, align: nat) {
    predicate Valid() { IsPow2(align) && size + (align - 1) <= ISIZE_MAX }
    function Need(): nat { Max(Max(size, align), MIN_BLOCK) }
  }

  function Max(a: nat, b: nat): nat { if a >= b then a else b }

  function TrailingZeros(n: nat): nat
    requires n > 0
  {
    if n % 2 == 1 then 0 else 1 + TrailingZeros(n / 2)
  }

  function OrderForLayout(layout: Layout): Option<nat> {
    var need := layout.Need();
    if !IsPow2(need) then None
    else
      var order := TrailingZeros(need / MIN_BLOCK);
      if MIN_BLOCK * Pow2(order) < need then None else Some(order)
  }

  /** A layout has an order exactly when the largest of its size, its alignment and 512 is a power of two. The
      block of the order then covers size and alignment and is as large as one of the three. */
  lemma OrderForLayoutExact(layout: Layout)
    ensures OrderForLayout(layout).Some? <==>
              exists n: nat :: IsPow2(n) && n >= layout.size && n >= layout.align && n >= 512
                          && (n == layout.size || n == layout.align || n == 512)
    ensures OrderForLayout(layout).Some? ==>
              var b := 512 * Pow2(OrderForLayout(layout).value);
              layout.size <= b && layout.align <= b && (b == layout.size || b == layout.align || b == 512)
  {
    OrderOfNeed(layout);
    if OrderForLayout(layout).Some? {
      var n := layout.Need();
      assert IsPow2(n) && n >= layout.size && n >= layout.align && n >= 512;
    }
  }

  lemma OrderOfNeed(layout: Layout)
    ensures OrderForLayout(layout).Some? <==> IsPow2(layout.Need())
    ensures OrderForLayout(layout).Some? ==> MIN_BLOCK * Pow2(OrderForLayout(layout).value) == layout.Need()
  {
    NineBits();
    if IsPow2(layout.Need()) {
      var q := PowerQuotient(layout.Need(), 9);
      PowerTrailing(q);
    }
  }

  /** A power of two of at least `2^k` is `2^k` times a power of two. */
  lemma {:induction false} PowerQuotient(n: nat, k: nat) returns (q: nat)
    requires IsPow2(n) && n >= Pow2(k)
    ensures IsPow2(q) && n / Pow2(k) == q && n == Pow2(k) * q
    decreases k
  {
    if k == 0 {
      q := n;
    } else {
      q := PowerQuotient(n / 2, k - 1);
      assert Pow2(k) * q == 2 * (Pow2(k - 1) * q);
      DivModUnique(n, Pow2(k), q, 0);
    }
  }

  lemma {:induction false} PowerTrailing(n: nat)
    requires IsPow2(n)
    ensures Pow2(TrailingZeros(n)) == n
  {
    if n != 1 { PowerTrailing(n / 2); }
  }

  function NextPow2(n: nat): (p: nat)
    ensures IsPow2(p) && n <= p
    ensures n >= 1 ==> p < 2 * n
  {
    if n <= 1 then 1 else 2 * NextPow2((n + 1) / 2)
  }

  /** The rounding that the global allocator applies before every call. */
  function LayoutToBuddy(layout: Layout): Layout {
    var need := layout.Need();
    var size := if IsPow2(need) then need else Max(NextPow2(need), MIN_BLOCK);
    if size + (MIN_BLOCK - 1) <= ISIZE_MAX then Layout(size, MIN_BLOCK) else layout
  }

  /** After rounding, a request gets the smallest order whose block of `512 * 2^k` bytes covers its size and its
      alignment; it gets none exactly when its size is above 2^62. */
  lemma GlobalRequestOrder(layout: Layout)
    requires layout.Valid()
    ensures match OrderForLayout(LayoutToBuddy(layout))
            case Some(k) =>
              && layout.size <= 512 * Pow2(k) && layout.align <= 512 * Pow2(k)
              && (k > 0 ==> 512 * Pow2(k - 1) < layout.size || 512 * Pow2(k - 1) < layout.align)
            case None => true
    ensures OrderForLayout(LayoutToBuddy(layout)) == None <==> layout.size > 0x4000_0000_0000_0000
  {
    RoundedNeed(layout);
    RoundedIsPow2(layout);
    var rounded := LayoutToBuddy(layout);
    OrderOfNeed(rounded);
    hide LayoutToBuddy, IsPow2, OrderForLayout, Layout.Valid;
    if IsPow2(rounded.Need()) {
      var k := OrderForLayout(rounded).value;
      assert k > 0 ==> Pow2(k) == 2 * Pow2(k - 1);
    }
  }

  /** Rounding goes up, by less than a factor of two. */
  lemma RoundedNeed(layout: Layout)
    requires layout.Valid()
    ensures layout.Need() <= LayoutToBuddy(layout).Need() < 2 * layout.Need()
  {
    assert IsPow2(512) by { assert IsPow2(16); }
    hide IsPow2;
  }

  /** Rounding gives a power of two, unless that would be 2^63, which no layout can have. */
  lemma RoundedIsPow2(layout: Layout)
    requires layout.Valid()
    ensures IsPow2(LayoutToBuddy(layout).Need()) <==> layout.size <= 0x4000_0000_0000_0000
  {
    BigPowers();
    assert IsPow2(512) by { assert IsPow2(16); }
    var need := layout.Need();
    if need <= 0x4000_0000_0000_0000 {
      Pow2Reaches(need, 62);
    } else if !IsPow2(need) {
      Pow2Between(NextPow2(need));
    } else if need < 0x8000_0000_0000_0000 {
      Pow2Between(need);
    }
    hide IsPow2, NextPow2, Pow2;
  }

  lemma BigPowers()
    ensures Pow2(62) == 0x4000_0000_0000_0000 && Pow2(63) == 0x8000_0000_0000_0000
  {
    hide Pow2;
    SixteenBits();
    Pow2Add(16, 16);
    Pow2Add(32, 32);
    Doubles(63);
    Doubles(62);
  }

  lemma Doubles(k: nat)
    ensures Pow2(k + 1) == 2 * Pow2(k)
  {
  }

  lemma {:induction false} Pow2Reaches(n: nat, k: nat)
    requires n <= Pow2(k)
    ensures NextPow2(n) <= Pow2(k)
    decreases k
  {
    if n > 1 { Pow2Reaches((n + 1) / 2, k - 1); }
  }

  /** No power of two lies strictly between 2^62 and 2^63. */
  lemma Pow2Between(p: nat)
    requires IsPow2(p) && p > 0x4000_0000_0000_0000
    ensures p >= 0x8000_0000_0000_0000
  {
    BigPowers();
    Log2OfPow2(p);
    hide Pow2, IsPow2;
    var k := Log2(p);
    if k <= 62 { Pow2Monotone(k, 62); } else { Pow2Monotone(63, k); }
  }

  lemma OrderOfBlock(k: nat)
    ensures OrderForLayout(Layout(MIN_BLOCK * Pow2(k), MIN_BLOCK)) == Some(k)
  {
    NineBits();
    Pow2Add(9, k);
    Pow2IsPow2(9 + k);
    var l := Layout(MIN_BLOCK * Pow2(k), MIN_BLOCK);
    assert l.Need() == Pow2(9 + k);
    OrderOfNeed(l);
    Pow2Injective(OrderForLayout(l).value, k);
  }

  /** A block of the layout's order is large enough. Its address `base + 512 * off` has the requested
      alignment exactly when the base of the pool has it: the allocator aligns relative to the base only. */
  lemma BlockCoversLayout(layout: Layout, base: nat, b: Block, m: nat)
    requires OrderForLayout(layout) == Some(b.order) && b.InPool(m) && IsPow2(layout.align)
    ensures layout.size <= 512 * b.Size()
    ensures (base + 512 * b.off) % layout.align == 0 <==> base % layout.align == 0
  {
    OrderForLayoutExact(layout);
    AlignedIsMultiple(b.off, b.order);
    var t := OffsetMultiple(layout.align, b.off, b.order);
    ModAdd(base, layout.align, t);
  }

  /** The same for a request to the global allocator, which passes on a rounded layout with an alignment of 512:
      the block it gets has the alignment that was asked for exactly when the base of the pool has it. */
  lemma GlobalAddressAligned(layout: Layout, base: nat, b: Block, m: nat)
    requires layout.Valid() && OrderForLayout(LayoutToBuddy(layout)) == Some(b.order) && b.InPool(m)
    ensures layout.size <= 512 * b.Size()
    ensures (base + 512 * b.off) % layout.align == 0 <==> base % layout.align == 0
  {
    GlobalRequestOrder(layout);
    AlignedIsMultiple(b.off, b.order);
    var t := OffsetMultiple(layout.align, b.off, b.order);
    ModAdd(base, layout.align, t);
  }

  /** An offset aligned to its block is, in bytes, a multiple of every power of two up to the block size. */
  lemma OffsetMultiple(align: nat, off: nat, k: nat) returns (t: nat)
    requires IsPow2(align) && align <= MIN_BLOCK * Pow2(k) && off % Pow2(k) == 0
    ensures MIN_BLOCK * off == align * t
  {
    var c := PowerFactor(align, k);
    var q := off / Pow2(k);
    Regroup(MIN_BLOCK, Pow2(k), q, align, c);
    t := c * q;
  }

  lemma PowerFactor(align: nat, k: nat) returns (c: nat)
    requires IsPow2(align) && align <= MIN_BLOCK * Pow2(k)
    ensures MIN_BLOCK * Pow2(k) == align * c
  {
    NineBits();
    Pow2Add(9, k);
    var a := Log2(align);
    Log2OfPow2(align);
    if 9 + k < a { Pow2Monotone(9 + k, a); }
    c := Pow2(9 + k - a);
    Pow2Add(a, 9 + k - a);
  }

  lemma Regroup(n: int, s: int, q: int, a: int, c: int)
    requires n * s == a * c
    ensures n * (s * q) == a * (c * q)
  {
    assert n * (s * q) == (n * s) * q;
    assert a * (c * q) == (a * c) * q;
  }

  // ---------- linked lists in memory ----------

  function At(q: seq<nat>, i: nat): int { if i < |q| then q[i] else NULL }

  /** Following `next` from `head` visits exactly the offsets `q`, in order. */
  ghost predicate Linked(head: int, q: seq<nat>, next: seq<int>) {
    && head == At(q, 0)
    && forall i :: 0 <= i < |q| ==> q[i] < |next| && next[q[i]] == At(q, i + 1)
  }

  lemma LinkedNext(head: int, q: seq<nat>, next: seq<int>, i: nat)
    requires Linked(head, q, next) && i < |q|
    ensures q[i] < |next| && next[q[i]] == At(q, i + 1)
  {
  }

  /** Writing outside a list does not change it. */
  lemma LinkedElsewhere(head: int, q: seq<nat>, next: seq<int>, off: nat, v: int)
    requires Linked(head, q, next) && off < |next| && off !in q
    ensures Linked(head, q, next[off := v])
  {
    assert forall i :: 0 <= i < |q| ==> q[i] in q;
  }

  lemma LinkedPush(head: int, q: seq<nat>, next: seq<int>, off: nat)
    requires Linked(head, q, next) && off < |next| && off !in q
    ensures Linked(off, [off] + q, next[off := head])
  {
    var w, after := [off] + q, next[off := head];
    forall i | 0 <= i < |w| ensures w[i] < |after| && after[w[i]] == At(w, i + 1) {
      if i > 0 { assert w[i] == q[i - 1] && q[i - 1] in q; }
    }
  }

  lemma LinkedUnlink(head: int, q: seq<nat>, next: seq<int>, i: nat)
    requires Linked(head, q, next) && i < |q| && NoDuplicates(q)
    ensures i == 0 ==> Linked(At(q, 1), Without(q, 0), next)
    ensures i > 0 ==> Linked(head, Without(q, i), next[q[i - 1] := At(q, i + 1)])
  {
    WithoutAt(q, i);
    if i == 0 { UnlinkHead(head, q, next, Without(q, 0)); } else { UnlinkInner(head, q, next, Without(q, i), i); }
  }

  /** `w` is `q` without its entry `i`, read as a list. */
  ghost predicate Skips(q: seq<nat>, w: seq<nat>, i: nat) {
    && |w| == |q| - 1
    && (forall j :: 0 <= j < |w| && j < i ==> w[j] == q[j])
    && (forall j :: 0 <= j < |w| && j >= i ==> w[j] == q[j + 1])
    && (forall j: nat :: At(w, j) == At(q, if j < i then j else j + 1))
  }

  lemma WithoutAt(q: seq<nat>, i: nat)
    requires i < |q|
    ensures Skips(q, Without(q, i), i)
  {
  }

  lemma UnlinkHead(head: int, q: seq<nat>, next: seq<int>, w: seq<nat>)
    requires Linked(head, q, next) && q != [] && Skips(q, w, 0)
    ensures Linked(At(q, 1), w, next)
  {
    hide At;
    forall j | 0 <= j < |w| ensures w[j] < |next| && next[w[j]] == At(w, j + 1) {
      assert w[j] == q[j + 1] && At(w, j + 1) == At(q, j + 2);
    }
  }

  lemma UnlinkInner(head: int, q: seq<nat>, next: seq<int>, w: seq<nat>, i: nat)
    requires Linked(head, q, next) && 0 < i < |q| && NoDuplicates(q) && Skips(q, w, i)
    ensures Linked(head, w, next[q[i - 1] := At(q, i + 1)])
  {
    hide At;
    var after := next[q[i - 1] := At(q, i + 1)];
    forall j | 0 <= j < |w| ensures w[j] < |after| && after[w[j]] == At(w, j + 1) {
      var k := if j < i then j else j + 1;
      assert w[j] == q[k];
      if k == i - 1 {
        assert At(w, i) == At(q, i + 1);
      } else {
        assert q[k] != q[i - 1];
        assert At(w, j + 1) == At(q, k + 1);
      }
    }
    assert At(w, 0) == At(q, 0);
  }

  ghost predicate NoDuplicates(q: seq<nat>) { forall i, j :: 0 <= i < j < |q| ==> q[i] != q[j] }

  /** No offset is on two lists, or twice on one. */
  ghost predicate Separate(lists: seq<seq<nat>>) {
    && (forall k :: 0 <= k < |lists| ==> NoDuplicates(lists[k]))
    && (forall j, k, x: nat :: 0 <= j < k < |lists| && x in lists[j] ==> x !in lists[k])
  }

  ghost function FreeSet(lists: seq<seq<nat>>): set<Block> {
    set k: nat, x: nat | 0 <= k < |lists| && x in lists[k] :: Block(x, k)
  }

  lemma PushedSet(lists: seq<seq<nat>>, k: nat, off: nat)
    requires k < |lists|
    ensures FreeSet(lists[k := [off] + lists[k]]) == FreeSet(lists) + {Block(off, k)}
  {
    var after := lists[k := [off] + lists[k]];
    assert forall x :: x in after[k] <==> x == off || x in lists[k];
    assert forall b :: b in FreeSet(after) <==> b in FreeSet(lists) || b == Block(off, k);
  }

  lemma PushSeparate(lists: seq<seq<nat>>, k: nat, off: nat)
    requires Separate(lists) && k < |lists|
    requires forall j :: 0 <= j < |lists| ==> off !in lists[j]
    ensures Separate(lists[k := [off] + lists[k]])
  {
    var after := lists[k := [off] + lists[k]];
    assert forall x :: x in after[k] <==> x == off || x in lists[k];
  }

  function Without(q: seq<nat>, i: nat): seq<nat>
    requires i < |q|
  {
    q[..i] + q[i + 1..]
  }

  lemma WithoutMembers(q: seq<nat>, i: nat)
    requires i < |q| && NoDuplicates(q)
    ensures forall x :: x in Without(q, i) <==> x in q && x != q[i]
    ensures NoDuplicates(Without(q, i))
  {
    forall x | x in q && x != q[i] ensures x in Without(q, i) {
      var j :| 0 <= j < |q| && q[j] == x;
      if j < i { assert Without(q, i)[j] == x; } else { assert Without(q, i)[j - 1] == x; }
    }
  }

  lemma RemovedSet(lists: seq<seq<nat>>, k: nat, i: nat)
    requires k < |lists| && i < |lists[k]| && Separate(lists)
    ensures FreeSet(lists[k := Without(lists[k], i)]) == FreeSet(lists) - {Block(lists[k][i], k)}
    ensures Separate(lists[k := Without(lists[k], i)])
  {
    var after := lists[k := Without(lists[k], i)];
    WithoutMembers(lists[k], i);
    assert forall b :: b in FreeSet(after) <==> b in FreeSet(lists) && b != Block(lists[k][i], k);
  }

  // ---------- what alloc and dealloc do to the lists ----------

  /** The smallest order from `t` on whose list is not empty; `m + 1` if there is none. */
  function Serving(lists: seq<seq<nat>>, t: nat, m: nat): (f: nat)
    requires m < |lists|
    ensures t <= m + 1 ==> t <= f <= m + 1
    ensures f <= m ==> t <= f && lists[f] != []
    ensures forall k :: t <= k < f && k <= m ==> lists[k] == []
    ensures t > m + 1 ==> f > m
    decreases m + 1 - t
  {
    if t > m then t else if lists[t] != [] then t else Serving(lists, t + 1, m)
  }

  /** Splitting the block at `off` from order `f` down to `t` puts each upper half on its list. */
  function Carve(lists: seq<seq<nat>>, off: nat, f: nat, t: nat): seq<seq<nat>>
    requires t <= f <= |lists|
    decreases f
  {
    if f == t then lists
    else Carve(lists[f - 1 := [off + Pow2(f - 1)] + lists[f - 1]], off, f - 1, t)
  }

  function IndexOf(q: seq<nat>, x: nat): (i: nat)
    ensures i <= |q| && x !in q[..i] && (i < |q| ==> q[i] == x)
    ensures x in q <==> i < |q|
  {
    if q == [] || q[0] == x then 0 else 1 + IndexOf(q[1..], x)
  }

  /** Merging the block with its free buddies, from order `k` up, and putting the result on its list. */
  function Coalesce(lists: seq<seq<nat>>, off: nat, k: nat, m: nat): seq<seq<nat>>
    requires k < |lists| && m < |lists|
    decreases m - k
  {
    var buddy := BuddyOffset(off, k);
    if k < m && buddy in lists[k] then
      var i := IndexOf(lists[k], buddy);
      Coalesce(lists[k := Without(lists[k], i)], Low(off, buddy), k + 1, m)
    else lists[k := [off] + lists[k]]
  }

  // ---------- the allocator ----------

  datatype InitError = NotPowerOfTwo | HeadOutOfRange

  class BuddyAllocator {
    const base: nat                 // address of the pool
    const maxOrder: nat
    const heads: array<int>         // one list head per order
    const next: array<int>          // the first word of every unit of the pool
    ghost var lists: seq<seq<nat>>  // the free lists, as sequences of offsets
    ghost var live: set<Block>      // the blocks handed out

    ghost predicate Structure()
      reads this, heads, next
    {
      && maxOrder <= MAX_ORDER && heads.Length == MAX_ORDER + 1 && |lists| == MAX_ORDER + 1
      && next.Length == Pow2(maxOrder) && heads != next
      && (forall k :: 0 <= k < |lists| ==> Linked(heads[k], lists[k], next[..]))
      && Separate(lists)
    }

    ghost function Blocks(): Pool
      reads this
    {
      Pool(FreeSet(lists), live)
    }

    ghost predicate Valid()
      reads this, heads, next
    {
      Structure() && Inv(Blocks(), maxOrder)
    }

    /** `new`. A pool that is not a power of two fails the assertion; one of more than 2^16 minimum blocks has an
        order that is no index of the array of heads. */
    static method New(base: nat, total: nat) returns (r: Result<BuddyAllocator, InitError>)
      ensures match r
              case Ok(a) =>
                && IsPow2(total) && 512 <= total <= 512 * 0x1_0000
                && a.Valid() && fresh(a) && fresh(a.heads) && fresh(a.next)
                && a.base == base && 512 * Pow2(a.maxOrder) == total
                && a.live == {} && FreeSet(a.lists) == {Block(0, a.maxOrder)}
              case Err(e) =>
                && e == (if IsPow2(total) && total >= 512 then HeadOutOfRange else NotPowerOfTwo)
                && (IsPow2(total) && total >= 512 ==> total > 512 * 0x1_0000)
    {
      if !(IsPow2(total) && total >= MIN_BLOCK) {
        return Err(NotPowerOfTwo);
      }
      PoolFits(total);
      if Log2(total / MIN_BLOCK) > MAX_ORDER {
        return Err(HeadOutOfRange);
      }
      var a := new BuddyAllocator(base, total);
      r := Ok(a);
    }

    constructor (base: nat, total: nat)
      requires IsPow2(total) && total >= MIN_BLOCK
      requires Log2(total / MIN_BLOCK) <= MAX_ORDER
      ensures Valid() && fresh(heads) && fresh(next)
      ensures this.base == base && MIN_BLOCK * Pow2(maxOrder) == total
      ensures live == {} && FreeSet(lists) == {Block(0, maxOrder)}
    {
      this.base := base;
      maxOrder := Log2(total / MIN_BLOCK);
      heads := new int[MAX_ORDER + 1](_ => NULL);
      next := new int[Pow2(Log2(total / MIN_BLOCK))];
      lists := seq(MAX_ORDER + 1, _ => []);
      live := {};
      new;
      PoolSize(total);
      assert FreeSet(lists) == {};
      PushedSet(lists, maxOrder, 0);
      PushFree(maxOrder, 0);
      WholePoolTiles(maxOrder);
      assert FreeSet(lists) + live == {Block(0, maxOrder)};
      if maxOrder > 0 { assert Canonical(FreeSet(lists), maxOrder); }
    }

    method PushFree(order: nat, off: nat)
      requires Structure() && order <= MAX_ORDER && off < next.Length
      requires forall k :: 0 <= k < |lists| ==> off !in lists[k]
      modifies heads, next, this`lists
      ensures Structure()
      ensures lists == old(lists)[order := [off] + old(lists)[order]]
    {
      ghost var q := lists[order];
      LinkedPush(heads[order], q, next[..], off);
      forall k | 0 <= k < |lists| ensures Linked(heads[k], lists[k], next[..][off := heads[order]]) || k == order {
        LinkedElsewhere(heads[k], lists[k], next[..], off, heads[order]);
      }
      PushSeparate(lists, order, off);
      ghost var after := next[..][off := heads[order]];
      next[off] := heads[order];
      assert next[..] == after;
      heads[order] := off;
      lists := lists[order := [off] + q];
    }

    method PopFree(order: nat) returns (r: Option<nat>)
      requires Structure() && order <= MAX_ORDER
      modifies heads, this`lists
      ensures Structure()
      ensures r == (if old(lists)[order] == [] then None else Some(old(lists)[order][0]))
      ensures lists == (if r == None then old(lists) else old(lists)[order := old(lists)[order][1..]])
    {
      var head := heads[order];
      if head == NULL {
        return None;
      }
      assert Without(lists[order], 0) == lists[order][1..];
      LinkedUnlink(head, lists[order], next[..], 0);
      RemovedSet(lists, order, 0);
      heads[order] := next[head];
      lists := lists[order := lists[order][1..]];
      r := Some(head);
    }

    /** Unlinks `buddy` from its list if it is there. */
    method TakeBuddy(order: nat, buddy: nat) returns (taken: bool)
      requires Structure() && order <= MAX_ORDER
      modifies heads, next, this`lists
      ensures Structure()
      ensures taken <==> buddy in old(lists)[order]
      ensures lists == (if taken then old(lists)[order := Without(old(lists)[order], IndexOf(old(lists)[order], buddy))]
                        else old(lists))
    {
      hide Separate, Without, IndexOf, Linked;
      var prev, cur := Walk(order, buddy);
      taken := cur != NULL;
      if taken {
        Unlink(order, IndexOf(lists[order], buddy), prev, cur);
      }
    }

    /** Walks the list up to `buddy`, or to its end, with the node before in `prev`. */
    method Walk(order: nat, buddy: nat) returns (prev: int, cur: int)
      requires Structure() && order <= MAX_ORDER
      ensures cur == if buddy in lists[order] then buddy else NULL
      ensures var i := IndexOf(lists[order], buddy);
              cur != NULL ==> prev == if i == 0 then NULL else lists[order][i - 1]
    {
      ghost var q, head, links := lists[order], heads[order], next[..];
      assert Linked(head, q, links) && head == At(q, 0);
      hide Structure, Separate, IndexOf, Linked;
      prev, cur := NULL, heads[order];
      ghost var i: nat := 0;
      while cur != NULL && cur != buddy
        modifies {}
        invariant next[..] == links
        invariant i <= |q| && cur == At(q, i)
        invariant prev == (if i == 0 then NULL else q[i - 1])
        invariant forall k :: 0 <= k < i ==> q[k] != buddy
        decreases |q| - i
      {
        LinkedNext(head, q, links, i);
        prev, cur := cur, next[cur];
        i := i + 1;
      }
      FirstIndex(q, buddy, i);
    }

    method Unlink(order: nat, ghost i: nat, prev: int, cur: int)
      requires Structure() && order <= MAX_ORDER && i < |lists[order]|
      requires cur == lists[order][i] && prev == (if i == 0 then NULL else lists[order][i - 1])
      modifies heads, next, this`lists
      ensures Structure()
      ensures lists == old(lists)[order := Without(old(lists)[order], i)]
    {
      ghost var q := lists[order];
      LinkedUnlink(heads[order], q, next[..], i);
      RemovedSet(lists, order, i);
      var follow := next[cur];
      if prev == NULL {
        heads[order] := follow;
      } else {
        assert prev in q;
        forall k | 0 <= k < |lists| && k != order ensures Linked(heads[k], lists[k], next[..][prev := follow]) {
          LinkedElsewhere(heads[k], lists[k], next[..], prev, follow);
        }
        ghost var after := next[..][prev := follow];
        next[prev] := follow;
        assert next[..] == after;
      }
      lists := lists[order := Without(q, i)];
    }

    /** Searches the list heads from `target` up. */
    method FindOrder(target: nat) returns (order: nat)
      requires Structure()
      ensures order == Serving(lists, target, maxOrder)
    {
      order := target;
      while order <= maxOrder && heads[order] == NULL
        invariant target <= order
        invariant Serving(lists, order, maxOrder) == Serving(lists, target, maxOrder)
        decreases maxOrder + 1 - order
      {
        order := order + 1;
      }
    }

    /** Halves the block in hand until it has the requested order; each upper half becomes free. */
    method SplitDown(block: nat, found: nat, target: nat)
      requires Structure() && target <= found && InHand(Blocks(), Block(block, found), maxOrder)
      modifies heads, next, this`lists
      ensures Structure() && InHand(Blocks(), Block(block, target), maxOrder)
      ensures found <= MAX_ORDER && lists == Carve(old(lists), block, found, target)
    {
      hide InHand, Separate, Linked, FreeSet;
      HandInPool(Blocks(), Block(block, found), maxOrder);
      var order := found;
      while order > target
        invariant Structure() && target <= order <= found
        invariant InHand(Blocks(), Block(block, order), maxOrder)
        invariant Carve(lists, block, order, target) == Carve(old(lists), block, found, target)
      {
        order := order - 1;
        var half := block + Pow2(order);
        SplitStep(lists, live, block, order, maxOrder);
        PushFree(order, half);
      }
    }

    /** First fit by order, splitting down. A null result means that no aligned region of the requested
        size is wholly free. */
    method Alloc(layout: Layout) returns (ptr: int)
      requires Valid()
      modifies heads, next, this`lists, this`live
      ensures Valid()
      ensures OrderForLayout(layout) == None ==> ptr == NULL
      ensures ptr == NULL ==> lists == old(lists) && live == old(live)
      ensures match OrderForLayout(layout)
              case None => true
              case Some(t) =>
                && (ptr == NULL <==> !exists r :: FreeRegion(old(FreeSet(lists)), r, t, maxOrder))
                && (ptr != NULL ==>
                      var f := Serving(old(lists), t, maxOrder);
                      && f <= maxOrder && ptr == old(lists)[f][0]
                      && lists == Carve(old(lists)[f := old(lists)[f][1..]], ptr, f, t)
                      && Block(ptr, t) !in old(live) && live == old(live) + {Block(ptr, t)})
    {
      hide InHand, Separate, Linked, FreeSet;
      hide Inv, FreeRegion;
      var request := OrderForLayout(layout);
      if request == None {
        return NULL;
      }
      var target := request.value;
      var order := FindOrder(target);
      if order > maxOrder {
        NothingServes(Blocks(), lists, target, maxOrder);
        return NULL;
      }
      PopHead(lists, live, target, order, maxOrder);
      var popped := PopFree(order);
      var block := popped.value;
      SplitDown(block, order, target);
      GiveLive(Blocks(), Block(block, target), maxOrder);
      live := live + {Block(block, target)};
      ptr := block;
    }

    /** Coalesces upwards while the buddy is free. The caller returns a block it was given, with the
        layout it was given for; a null pointer or a layout that has no order is ignored. */
    method Dealloc(ptr: int, layout: Layout)
      requires Valid()
      requires ptr != NULL && OrderForLayout(layout).Some? ==> ptr >= 0 && Block(ptr, OrderForLayout(layout).value) in live
      modifies heads, next, this`lists, this`live
      ensures Valid()
      ensures ptr == NULL || OrderForLayout(layout) == None ==> lists == old(lists) && live == old(live)
      ensures ptr != NULL && OrderForLayout(layout).Some? ==>
                var t := OrderForLayout(layout).value;
                && live == old(live) - {Block(ptr, t)}
                && t <= maxOrder && lists == Coalesce(old(lists), ptr, t, maxOrder)
    {
      if ptr == NULL {
        return;
      }
      var request := OrderForLayout(layout);
      if request == None {
        return;
      }
      TakeLive(Blocks(), Block(ptr, request.value), maxOrder);
      live := live - {Block(ptr, request.value)};
      MergeUp(ptr, request.value);
    }

    /** Merges the block in hand with its buddy for as long as the buddy is free, then frees the result. */
    method MergeUp(ptr: nat, order: nat)
      requires Structure() && InHand(Blocks(), Block(ptr, order), maxOrder)
      modifies heads, next, this`lists
      ensures Valid()
      ensures order <= maxOrder && lists == Coalesce(old(lists), ptr, order, maxOrder)
    {
      hide InHand, Inv, Separate, Linked, FreeSet, Without, IndexOf;
      var current, currentOrder := ptr, order;
      HandInPool(Blocks(), Block(ptr, order), maxOrder);
      while currentOrder < maxOrder
        invariant Structure() && currentOrder <= maxOrder
        invariant InHand(Blocks(), Block(current, currentOrder), maxOrder)
        invariant Coalesce(lists, current, currentOrder, maxOrder) == Coalesce(old(lists), ptr, order, maxOrder)
      {
        var buddy := BuddyOffset(current, currentOrder);
        ghost var before := lists;
        var taken := TakeBuddy(currentOrder, buddy);
        if !taken {
          break;
        }
        MergeStep(before, live, Block(current, currentOrder), maxOrder);
        current := Low(current, buddy);
        currentOrder := currentOrder + 1;
      }
      FreeHand(lists, live, Block(current, currentOrder), maxOrder);
      PushFree(currentOrder, current);
    }

    /** The owner of a live block may write anything into it. The lists are not disturbed. */
    method ClientWrite(b: Block, unit: nat, word: int)
      requires Valid() && b in live && b.Holds(unit)
      modifies next
      ensures Valid() && unit < next.Length && next[..] == old(next[..])[unit := word]
    {
      assert b in FreeSet(lists) + live;
      forall k, x | 0 <= k < |lists| && x in lists[k] ensures x != unit {
        assert Block(x, k) in FreeSet(lists) + live;
        assert Disjoint(Block(x, k), b);
      }
      next[unit] := word;
      assert forall k, i :: 0 <= k < |lists| && 0 <= i < |lists[k]| ==> lists[k][i] in lists[k];
    }

    /** Whatever the layout, freeing what was just allocated gives back the same free blocks. */
    method AllocThenDealloc(layout: Layout)
      requires Valid()
      modifies heads, next, this`lists, this`live
      ensures Valid() && live == old(live) && FreeSet(lists) == old(FreeSet(lists))
    {
      ghost var before := Blocks();
      var ptr := Alloc(layout);
      Dealloc(ptr, layout);
      FreeSetDeterminedByLive(before, Blocks(), maxOrder);
    }

    /** Freeing every live block, in any order, leaves the whole pool as one free block. */
    method FreeAll(blocks: seq<Block>)
      requires Valid() && (set b | b in blocks) == live
      requires forall i, j :: 0 <= i < j < |blocks| ==> blocks[i] != blocks[j]
      modifies heads, next, this`lists, this`live
      ensures Valid() && live == {} && FreeSet(lists) == {Block(0, maxOrder)}
    {
      hide Inv, Separate, Linked, FreeSet, Coalesce;
      for i := 0 to |blocks|
        invariant Valid() && live == (set b | b in blocks[i..])
      {
        OrderOfBlock(blocks[i].order);
        assert blocks[i] in live && blocks[i..] == [blocks[i]] + blocks[i + 1..];
        Dealloc(blocks[i].off, Layout(MIN_BLOCK * blocks[i].Size(), MIN_BLOCK));
      }
      NothingLive(Blocks(), maxOrder);
    }
  }

  // ---------- lemmas the methods use ----------

  lemma FirstIndex(q: seq<nat>, x: nat, i: nat)
    requires i <= |q| && (i < |q| ==> q[i] == x) && forall k :: 0 <= k < i ==> q[k] != x
    ensures IndexOf(q, x) == i && (x in q <==> i < |q|)
  {
    var j := IndexOf(q, x);
    forall k | 0 <= k < j ensures q[k] != x { assert q[..j][k] == q[k]; }
  }

  /** Taking the head of a list puts its block in hand; a region of any smaller order was free in it. */
  lemma PopHead(lists: seq<seq<nat>>, live: set<Block>, t: nat, k: nat, m: nat)
    requires Inv(Pool(FreeSet(lists), live), m) && Separate(lists)
    requires t <= k < |lists| && lists[k] != []
    ensures InHand(Pool(FreeSet(lists[k := lists[k][1..]]), live), Block(lists[k][0], k), m)
    ensures exists r :: FreeRegion(FreeSet(lists), r, t, m)
  {
    var p, b := Pool(FreeSet(lists), live), Block(lists[k][0], k);
    assert b in p.free;
    FreeRegionExists(p, t, m);
    RemovedSet(lists, k, 0);
    assert Without(lists[k], 0) == lists[k][1..];
    TakeFree(p, b, m);
  }

  lemma NothingServes(p: Pool, lists: seq<seq<nat>>, t: nat, m: nat)
    requires p.free == FreeSet(lists) && Inv(p, m)
    requires forall k :: t <= k <= m && k < |lists| ==> lists[k] == []
    ensures !exists r :: FreeRegion(p.free, r, t, m)
  {
    FreeRegionExists(p, t, m);
    forall b | b in p.free ensures b.order < t {
      assert b in p.free + p.live;
    }
  }

  lemma UpperNotListed(lists: seq<seq<nat>>, live: set<Block>, cur: Block, m: nat)
    requires InHand(Pool(FreeSet(lists), live), cur, m) && cur.order > 0
    ensures Upper(cur).off < Pow2(m) && forall k :: 0 <= k < |lists| ==> Upper(cur).off !in lists[k]
  {
    NotListed(lists, live, cur, Upper(cur).off, m);
  }

  lemma UpperFreed(lists: seq<seq<nat>>, live: set<Block>, cur: Block, m: nat)
    requires InHand(Pool(FreeSet(lists), live), cur, m) && 0 < cur.order <= |lists|
    ensures var k := cur.order - 1;
            InHand(Pool(FreeSet(lists[k := [Upper(cur).off] + lists[k]]), live), Lower(cur), m)
  {
    var k := cur.order - 1;
    var after := lists[k := [Upper(cur).off] + lists[k]];
    assert FreeSet(after) == FreeSet(lists) + {Upper(cur)} by { PushedSet(lists, k, Upper(cur).off); }
    SplitInHand(Pool(FreeSet(lists), live), cur, m);
  }

  /** One round of the splitting loop: the upper half at `half` is on no list and goes on list `k`. */
  lemma SplitStep(lists: seq<seq<nat>>, live: set<Block>, off: nat, k: nat, m: nat)
    requires InHand(Pool(FreeSet(lists), live), Block(off, k + 1), m) && k < |lists|
    ensures var half := off + Pow2(k);
            && half < Pow2(m) && (forall j :: 0 <= j < |lists| ==> half !in lists[j])
            && InHand(Pool(FreeSet(lists[k := [half] + lists[k]]), live), Block(off, k), m)
  {
    hide InHand;
    UpperNotListed(lists, live, Block(off, k + 1), m);
    UpperFreed(lists, live, Block(off, k + 1), m);
  }

  /** One round of the merging loop: the free buddy leaves its list and the whole block is in hand. */
  lemma MergeStep(lists: seq<seq<nat>>, live: set<Block>, cur: Block, m: nat)
    requires InHand(Pool(FreeSet(lists), live), cur, m) && cur.order < m && cur.order < |lists| && Separate(lists)
    requires BuddyOffset(cur.off, cur.order) in lists[cur.order]
    ensures var k, buddy := cur.order, BuddyOffset(cur.off, cur.order);
            var after := lists[k := Without(lists[k], IndexOf(lists[k], buddy))];
            InHand(Pool(FreeSet(after), live), Block(Low(cur.off, buddy), k + 1), m)
  {
    var k, buddy := cur.order, BuddyOffset(cur.off, cur.order);
    assert Block(buddy, k) in FreeSet(lists);
    RemovedSet(lists, k, IndexOf(lists[k], buddy));
    hide InHand, FreeSet, Separate, Without, BuddyOffset;
    MergeInHand(Pool(FreeSet(lists), live), cur, m);
  }

  /** When the buddy is not free, the block in hand can go on its list. */
  lemma FreeHand(lists: seq<seq<nat>>, live: set<Block>, cur: Block, m: nat)
    requires InHand(Pool(FreeSet(lists), live), cur, m) && cur.order < |lists|
    requires cur.order < m ==> BuddyOffset(cur.off, cur.order) !in lists[cur.order]
    ensures cur.off < Pow2(m) && forall j :: 0 <= j < |lists| ==> cur.off !in lists[j]
    ensures Inv(Pool(FreeSet(lists[cur.order := [cur.off] + lists[cur.order]]), live), m)
  {
    HandInPool(Pool(FreeSet(lists), live), cur, m);
    NotListed(lists, live, cur, cur.off, m);
    assert cur.order < m ==> Block(BuddyOffset(cur.off, cur.order), cur.order) !in FreeSet(lists);
    GiveFree(Pool(FreeSet(lists), live), cur, m);
    PushedSet(lists, cur.order, cur.off);
  }

  lemma HandInPool(p: Pool, cur: Block, m: nat)
    requires InHand(p, cur, m)
    ensures cur.InPool(m)
  {
    assert cur in p.free + p.live + {cur};
  }

  /** No list holds an offset inside the block in hand. */
  lemma NotListed(lists: seq<seq<nat>>, live: set<Block>, cur: Block, off: nat, m: nat)
    requires InHand(Pool(FreeSet(lists), live), cur, m) && cur.Holds(off)
    ensures forall k :: 0 <= k < |lists| ==> off !in lists[k]
    ensures off < Pow2(m)
  {
    var tiles := FreeSet(lists) + live + {cur};
    assert cur in tiles;
    forall k | 0 <= k < |lists| ensures off !in lists[k] {
      var b := Block(off, k);
      assert off in lists[k] ==> b in tiles && b != cur;
      assert b in tiles && b != cur ==> Disjoint(b, cur);
    }
  }


  /** The order of the pool is an index of the array of heads exactly for pools of at most 2^16 blocks. */
  lemma PoolFits(total: nat)
    requires IsPow2(total) && total >= MIN_BLOCK
    ensures Log2(total / MIN_BLOCK) <= MAX_ORDER <==> total <= 512 * 0x1_0000
  {
    PoolSize(total);
    SixteenBits();
    hide Pow2, Log2, IsPow2;
    var k := Log2(total / MIN_BLOCK);
    if k <= MAX_ORDER { Pow2Monotone(k, MAX_ORDER); } else { Pow2Monotone(MAX_ORDER, k); }
    Pow2Grows(k);
  }

  lemma SixteenBits()
    ensures Pow2(16) == 0x1_0000
  {
    assert Pow2(4) == 16;
    hide Pow2;
    Pow2Add(4, 4);
    Pow2Add(8, 8);
  }

  lemma Pow2Grows(k: nat)
    ensures k > MAX_ORDER ==> Pow2(k) > Pow2(MAX_ORDER)
  {
    if k > MAX_ORDER { Pow2Monotone(MAX_ORDER, k); }
  }

  /** A request that comes out misaligned: a pool of two pages at address 4096, asked for two pages aligned to
      two pages, hands out its first byte. */
  method MisalignedRequest() returns (pool: nat, offset: int)
    ensures pool == 4096 && offset == 0 && (pool + MIN_BLOCK * offset) % 8192 != 0
  {
    FourBits();
    hide Inv, Linked, Separate, FreeSet, FreeRegion, IsPow2, Log2, Pow2, OrderForLayout, Carve, Serving;
    var layout := Layout(8192, 8192);
    pool := 4096;
    var a := new BuddyAllocator(pool, 8192);
    Pow2Injective(a.maxOrder, 4);
    OnlyBlock(a.lists, 4);
    offset := a.Alloc(layout);
  }

  lemma FourBits()
    ensures Log2(8192 / MIN_BLOCK) == 4 && Pow2(4) == 16 && IsPow2(8192)
    ensures OrderForLayout(Layout(8192, 8192)) == Some(4)
  {
    Sixteen();
    hide Pow2, Log2, IsPow2, OrderForLayout;
    var layout := Layout(8192, 8192);
    OrderOfNeed(layout);
    assert layout.Need() == 8192 == 512 * 16;
    Pow2Injective(OrderForLayout(layout).value, 4);
  }

  lemma Sixteen()
    ensures Log2(16) == 4 && Pow2(4) == 16 && IsPow2(8192)
  {
    assert IsPow2(8192) by { assert IsPow2(512) by { assert IsPow2(16); } }
  }

  /** With the whole pool free, the only list that is not empty holds offset 0. */
  lemma OnlyBlock(lists: seq<seq<nat>>, m: nat)
    requires FreeSet(lists) == {Block(0, m)} && m < |lists|
    ensures Serving(lists, m, m) == m && lists[m] != [] && lists[m][0] == 0
    ensures FreeRegion(FreeSet(lists), Block(0, m), m, m)
  {
    assert Block(0, m) in FreeSet(lists);
    assert Block(lists[m][0], m) in FreeSet(lists);
    ZeroAligned(m);
    assert forall u :: Block(0, m).Holds(u) ==> Covered({Block(0, m)}, u);
  }

  lemma PoolSize(total: nat)
    requires IsPow2(total) && total >= MIN_BLOCK
    ensures MIN_BLOCK * Pow2(Log2(total / MIN_BLOCK)) == total
  {
    NineBits();
    var q := PowerQuotient(total, 9);
    Log2OfPow2(q);
  }
}
