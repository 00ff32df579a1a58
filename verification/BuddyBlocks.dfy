/** The geometry of buddy blocks and the theory of canonical free sets.

    Offsets are counted in minimum blocks of 512 bytes from the base of the pool. A pool of order `m`
    spans the units `0 .. 2^m`. The state of the allocator is seen here as two sets of blocks: those on
    a free list and those handed out. */
module BuddyBlocks {
  import opened Arithmetic

  /** `off` is a multiple of `2^k`, bit by bit; `AlignedIsMultiple` relates it to the remainder. */
  predicate Aligned(off: nat, k: nat) {
    k == 0 || (off % 2 == 0 && Aligned(off / 2, k - 1))
  }

  lemma {:induction false} AlignedIsMultiple(off: nat, k: nat)
    ensures Aligned(off, k) <==> off % Pow2(k) == 0
    decreases k
  {
    if k != 0 {
      AlignedIsMultiple(off / 2, k - 1);
      HalfMod(off, Pow2(k - 1));
    }
  }

  datatype Block = Block(off: nat, order: nat) {
    function Size(): nat { Pow2(order) }
    function End(): int { off + Size() }
    ghost predicate Holds(u: int) { off <= u < End() }
    ghost predicate Within(outer: Block) { outer.off <= off && End() <= outer.End() }
    ghost predicate InPool(m: nat) { order <= m && End() <= Pow2(m) && Aligned(off, order) }
  }

  ghost predicate Disjoint(a: Block, b: Block) { a.End() <= b.off || b.End() <= a.off }

  // ---------- buddies ----------

  /** The offset of the buddy, computed as the allocator does. */
  function BuddyOffset(off: nat, order: nat): nat { Xor(off, Pow2(order)) }

  function Low(a: nat, b: nat): nat { if a < b then a else b }

  /** Flipping the size bit of an aligned offset moves by exactly one block, and the lower of the two is
      aligned to twice the size. */
  lemma {:induction false} BuddyAligned(off: nat, k: nat)
    requires Aligned(off, k)
    ensures var o := BuddyOffset(off, k);
            && Aligned(o, k) && Aligned(Low(off, o), k + 1)
            && (o == off + Pow2(k) || o == off - Pow2(k))
            && BuddyOffset(o, k) == off
    decreases k
  {
    hide Xor;
    if k == 0 {
      XorStep(off, 1);
      XorZero(off / 2);
      XorStep(BuddyOffset(off, 0), 1);
    } else {
      BuddyAligned(off / 2, k - 1);
      XorStep(off, Pow2(k));
      XorStep(BuddyOffset(off, k), Pow2(k));
    }
  }

  lemma NineBits()
    ensures Pow2(9) == 512
  {
    assert Pow2(4) == 16;
  }

  /** Working in bytes or in units of 512 bytes gives the same buddy. */
  lemma BuddyInBytes(off: nat, order: nat)
    ensures Xor(512 * off, 512 * Pow2(order)) == 512 * BuddyOffset(off, order)
  {
    XorZero(0);
    XorConcat(off, 0, Pow2(order), 0, 9);
    NineBits();
  }

  lemma {:induction false} AlignedEnds(off: nat, k: nat, m: nat)
    requires k <= m && off < Pow2(m) && Aligned(off, k)
    ensures off + Pow2(k) <= Pow2(m)
    decreases k
  {
    if k != 0 { AlignedEnds(off / 2, k - 1, m - 1); }
  }

  lemma {:induction false} ZeroAligned(k: nat)
    ensures Aligned(0, k)
  {
    if k != 0 { ZeroAligned(k - 1); }
  }

  lemma {:induction false} AlignedLess(off: nat, j: nat, k: nat)
    requires j <= k && Aligned(off, k)
    ensures Aligned(off, j)
    decreases j
  {
    if j != 0 { AlignedLess(off / 2, j - 1, k - 1); }
  }

  /** The buddy is the other half of the parent, which is a block of the pool. */
  lemma BuddyIsOtherHalf(b: Block, m: nat)
    requires b.InPool(m) && b.order < m
    ensures var o := BuddyOffset(b.off, b.order);
            && Block(o, b.order).InPool(m)
            && Block(Low(b.off, o), b.order + 1).InPool(m)
            && (o == b.off + b.Size() || o == b.off - b.Size())
            && BuddyOffset(o, b.order) == b.off
  {
    BuddyAligned(b.off, b.order);
    AlignedEnds(Low(b.off, BuddyOffset(b.off, b.order)), b.order + 1, m);
  }

  /** The halves of a block of the pool are buddies. */
  lemma Halves(b: Block, m: nat)
    requires b.InPool(m) && b.order > 0
    ensures Lower(b).InPool(m) && Upper(b).InPool(m)
    ensures BuddyOffset(b.off, b.order - 1) == Upper(b).off
    ensures BuddyOffset(Upper(b).off, b.order - 1) == b.off
  {
    AlignedLess(b.off, b.order - 1, b.order);
    HalfFlips(b.off, b.order - 1);
    BuddyIsOtherHalf(Lower(b), m);
  }

  function Lower(b: Block): Block
    requires b.order > 0
  {
    Block(b.off, b.order - 1)
  }

  function Upper(b: Block): Block
    requires b.order > 0
  {
    Block(b.off + Pow2(b.order - 1), b.order - 1)
  }

  lemma {:induction false} HalfFlips(off: nat, k: nat)
    requires Aligned(off, k + 1)
    ensures BuddyOffset(off, k) == off + Pow2(k)
    decreases k
  {
    hide Xor;
    XorStep(off, Pow2(k));
    if k == 0 {
      XorZero(off / 2);
    } else {
      HalfFlips(off / 2, k - 1);
    }
  }

  /** Two blocks of the pool are nested or disjoint. */
  lemma {:induction false} Nested(small: Block, big: Block, m: nat)
    requires small.InPool(m) && big.InPool(m) && small.order <= big.order
    ensures small.Within(big) || Disjoint(small, big)
    ensures small.order == big.order && !Disjoint(small, big) ==> small == big
    decreases small.order
  {
    if small.order != 0 {
      Nested(Block(small.off / 2, small.order - 1), Block(big.off / 2, big.order - 1), m - 1);
    }
  }

  // ---------- tilings ----------

  ghost predicate Covered(s: set<Block>, u: int) { exists b :: b in s && b.Holds(u) }

  /** The blocks of `s` are aligned, pairwise disjoint, and exactly cover a pool of order `m`. */
  ghost predicate Tiles(s: set<Block>, m: nat) {
    && (forall b :: b in s ==> b.InPool(m))
    && (forall a, b :: a in s && b in s && a != b ==> Disjoint(a, b))
    && (forall u :: 0 <= u < Pow2(m) ==> Covered(s, u))
  }

  /** Replacing one block by its two halves keeps a tiling. */
  lemma SplitKeepsTiling(rest: set<Block>, b: Block, m: nat)
    requires b !in rest && b.order > 0 && Tiles(rest + {b}, m)
    ensures var lo, hi := Lower(b), Upper(b);
            Tiles(rest + {lo, hi}, m) && lo !in rest && hi !in rest && lo != hi
  {
    Halves(b, m);
    var lo, hi := Lower(b), Upper(b);
    var s := rest + {lo, hi};
    assert b in rest + {b};
    forall a | a in rest
      ensures Disjoint(a, lo) && Disjoint(a, hi) && Disjoint(lo, a) && Disjoint(hi, a)
    {
      assert a in rest + {b};
      assert Disjoint(a, b);
    }
    forall u | 0 <= u < Pow2(m) ensures Covered(s, u) {
      assert Covered(rest + {b}, u);
      var c :| c in rest + {b} && c.Holds(u);
      var d := if c != b then c else if u < hi.off then lo else hi;
      assert d in s && d.Holds(u);
    }
  }

  /** Replacing two buddies by their parent keeps a tiling. */
  lemma MergeKeepsTiling(rest: set<Block>, b: Block, m: nat)
    requires b.InPool(m) && b.order < m
    requires var o := Block(BuddyOffset(b.off, b.order), b.order);
             b !in rest && o !in rest && Tiles(rest + {b, o}, m)
    ensures var o := BuddyOffset(b.off, b.order);
            var parent := Block(Low(b.off, o), b.order + 1);
            Tiles(rest + {parent}, m) && parent !in rest
  {
    BuddyIsOtherHalf(b, m);
    var o := Block(BuddyOffset(b.off, b.order), b.order);
    var parent := Block(Low(b.off, o.off), b.order + 1);
    var s := rest + {parent};
    assert b in rest + {b, o} && o in rest + {b, o};
    forall a | a in rest
      ensures Disjoint(a, parent) && Disjoint(parent, a)
    {
      assert a in rest + {b, o};
      assert Disjoint(a, b) && Disjoint(a, o);
    }
    forall u | 0 <= u < Pow2(m) ensures Covered(s, u) {
      assert Covered(rest + {b, o}, u);
      var c :| c in rest + {b, o} && c.Holds(u);
      var d := if c == b || c == o then parent else c;
      assert d in s && d.Holds(u);
    }
  }

  lemma WholePoolTiles(m: nat)
    ensures Tiles({Block(0, m)}, m)
  {
    ZeroAligned(m);
    assert forall u :: 0 <= u < Pow2(m) ==> Block(0, m).Holds(u);
  }

  // ---------- the allocator's state ----------

  ghost predicate Canonical(free: set<Block>, m: nat) {
    forall b :: b in free && b.order < m ==> Block(BuddyOffset(b.off, b.order), b.order) !in free
  }

  datatype Pool = Pool(free: set<Block>, live: set<Block>)

  /** Free and live blocks together tile the pool, and no two buddies are both free. */
  ghost predicate Inv(p: Pool, m: nat) {
    p.free !! p.live && Tiles(p.free + p.live, m) && Canonical(p.free, m)
  }

  /** Every unit of `r` lies in some free block, whatever the blocks are. */
  ghost predicate WhollyFree(free: set<Block>, r: Block) {
    forall u :: r.Holds(u) ==> Covered(free, u)
  }

  ghost predicate FreeRegion(free: set<Block>, r: Block, order: nat, m: nat) {
    r.order == order && r.InPool(m) && WhollyFree(free, r)
  }

  /** Completeness: a wholly free aligned region always lies inside one free block; it is never hidden
      as fragments. */
  lemma {:induction false} RegionInOneBlock(p: Pool, r: Block, m: nat) returns (b: Block)
    requires Inv(p, m) && r.InPool(m) && WhollyFree(p.free, r)
    ensures b in p.free && b.order >= r.order && r.Within(b)
    decreases r.order
  {
    if r.order == 0 {
      b := HolderOfUnit(p, r, m);
      return;
    }
    Halves(r, m);
    HalvesFree(p.free, r);
    hide Inv, WhollyFree, BuddyOffset;
    var bl := RegionInOneBlock(p, Lower(r), m);
    var bh := RegionInOneBlock(p, Upper(r), m);
    b := WiderHolder(p, r, bl, bh, m);
  }

  lemma HolderOfUnit(p: Pool, r: Block, m: nat) returns (b: Block)
    requires Inv(p, m) && r.order == 0 && WhollyFree(p.free, r)
    ensures b in p.free && b.order >= r.order && r.Within(b)
  {
    assert r.Holds(r.off);
    b :| b in p.free && b.Holds(r.off);
  }

  lemma HalvesFree(free: set<Block>, r: Block)
    requires r.order > 0 && WhollyFree(free, r)
    ensures WhollyFree(free, Lower(r)) && WhollyFree(free, Upper(r))
  {
    assert forall u :: Lower(r).Holds(u) ==> r.Holds(u);
    assert forall u :: Upper(r).Holds(u) ==> r.Holds(u);
  }

  /** Free blocks around the two halves of a region: one of them is around it all, as they would otherwise be
      the halves, and two free buddies. */
  lemma WiderHolder(p: Pool, r: Block, bl: Block, bh: Block, m: nat) returns (b: Block)
    requires Inv(p, m) && r.InPool(m) && r.order > 0 && bl in p.free && bh in p.free
    requires Lower(r).Within(bl) && Upper(r).Within(bh) && bl.order >= r.order - 1 && bh.order >= r.order - 1
    ensures b in p.free && b.order >= r.order && r.Within(b)
  {
    Halves(r, m);
    assert bl in p.free + p.live && bh in p.free + p.live;
    assert bl.InPool(m) && bh.InPool(m);
    assert bl.order < r.order ==> bl == Lower(r);
    assert bh.order < r.order ==> bh == Upper(r);
    if bl.order >= r.order {
      Nested(r, bl, m);
      b := bl;
    } else if bh.order >= r.order {
      Nested(r, bh, m);
      b := bh;
    } else {
      assert false;
    }
  }

  /** A region of order `t` is wholly free exactly when some free block has order at least `t`. */
  lemma FreeRegionExists(p: Pool, t: nat, m: nat)
    requires Inv(p, m)
    ensures (exists r :: FreeRegion(p.free, r, t, m)) <==> (exists b :: b in p.free && b.order >= t)
  {
    if r :| FreeRegion(p.free, r, t, m) {
      var b := RegionInOneBlock(p, r, m);
    }
    if b :| b in p.free && b.order >= t {
      assert b in p.free + p.live;
      var r := FirstSubBlock(b, t, m);
      assert forall u :: r.Holds(u) ==> b.Holds(u);
      assert FreeRegion(p.free, r, t, m);
    }
  }

  lemma {:induction false} FirstSubBlock(b: Block, t: nat, m: nat) returns (r: Block)
    requires b.InPool(m) && t <= b.order
    ensures r == Block(b.off, t) && r.InPool(m) && r.Within(b)
    decreases b.order
  {
    if t == b.order { r := b; } else {
      Halves(b, m);
      r := FirstSubBlock(Block(b.off, b.order - 1), t, m);
    }
  }

  /** Every block free in one state lies inside a free block of any state with the same live blocks. */
  lemma FreeBlockElsewhere(p: Pool, q: Pool, b: Block, m: nat) returns (c: Block)
    requires Inv(p, m) && Inv(q, m) && p.live == q.live && b in p.free
    ensures c in q.free && b.Within(c)
  {
    assert b in p.free + p.live;
    assert b.InPool(m);
    forall u | b.Holds(u) ensures Covered(q.free, u) { FreeElsewhere(p, q, b, m, u); }
    c := RegionInOneBlock(q, b, m);
  }

  lemma FreeElsewhere(p: Pool, q: Pool, b: Block, m: nat, u: int)
    requires Inv(p, m) && Inv(q, m) && p.live == q.live && b in p.free && b.Holds(u)
    ensures Covered(q.free, u)
  {
    hide Canonical, Pow2;
    assert b in p.free + p.live;
    assert Covered(q.free + q.live, u);
    var d :| d in q.free + q.live && d.Holds(u);
    assert d in q.live ==> d in p.free + p.live && d != b && Disjoint(d, b);
  }

  /** Canonical form: the free set is a function of the live blocks alone. */
  lemma FreeSetDeterminedByLive(p: Pool, q: Pool, m: nat)
    requires Inv(p, m) && Inv(q, m) && p.live == q.live
    ensures p.free == q.free
  {
    forall b | b in p.free ensures b in q.free { SameFreeBlock(p, q, b, m); }
    forall b | b in q.free ensures b in p.free { SameFreeBlock(q, p, b, m); }
  }

  lemma SameFreeBlock(p: Pool, q: Pool, b: Block, m: nat)
    requires Inv(p, m) && Inv(q, m) && p.live == q.live && b in p.free
    ensures b in q.free
  {
    var c := FreeBlockElsewhere(p, q, b, m);
    var d := FreeBlockElsewhere(q, p, c, m);
    assert b in p.free + p.live && d in p.free + p.live && c in q.free + q.live;
    assert b == d by { assert d.Holds(b.off) && b.Holds(b.off); }
    Pow2Distinct(b, c);
  }

  lemma Pow2Distinct(b: Block, c: Block)
    requires b.Within(c) && c.Within(b)
    ensures b == c
  {
    Pow2Injective(b.order, c.order);
  }

  /** With nothing live, the whole pool is one free block. */
  lemma NothingLive(p: Pool, m: nat)
    requires Inv(p, m) && p.live == {}
    ensures p.free == {Block(0, m)}
  {
    var q := Pool({Block(0, m)}, {});
    WholePoolTiles(m);
    assert q.free + q.live == {Block(0, m)};
    FreeSetDeterminedByLive(p, q, m);
  }

  // ---------- steps on the two sets ----------

  /** While an operation runs it holds one block in hand that is neither free nor live. */
  ghost predicate InHand(p: Pool, cur: Block, m: nat) {
    && p.free !! p.live && cur !in p.free && cur !in p.live
    && Tiles(p.free + p.live + {cur}, m)
    && Canonical(p.free, m)
  }

  lemma TakeFree(p: Pool, b: Block, m: nat)
    requires Inv(p, m) && b in p.free
    ensures InHand(Pool(p.free - {b}, p.live), b, m)
  {
    assert p.free - {b} + p.live + {b} == p.free + p.live;
  }

  lemma TakeLive(p: Pool, b: Block, m: nat)
    requires Inv(p, m) && b in p.live
    ensures InHand(Pool(p.free, p.live - {b}), b, m)
  {
    assert p.free + (p.live - {b}) + {b} == p.free + p.live;
  }

  lemma SplitInHand(p: Pool, cur: Block, m: nat)
    requires InHand(p, cur, m) && cur.order > 0
    ensures InHand(Pool(p.free + {Upper(cur)}, p.live), Lower(cur), m)
    ensures Upper(cur) !in p.free
  {
    var lo, hi := Lower(cur), Upper(cur);
    assert cur in p.free + p.live + {cur};
    SplitKeepsTiling(p.free + p.live, cur, m);
    Halves(cur, m);
    assert p.free + {hi} + p.live + {lo} == p.free + p.live + {lo, hi};
    CanonicalWith(p.free, hi, m);
  }

  /** Adding a block whose buddy is not free keeps the free set canonical. */
  lemma CanonicalWith(free: set<Block>, b: Block, m: nat)
    requires Canonical(free, m) && b.InPool(m)
    requires b.order < m ==> Block(BuddyOffset(b.off, b.order), b.order) !in free
    ensures Canonical(free + {b}, m)
  {
    if b.order < m { BuddyIsOtherHalf(b, m); }
    forall c | c in free && c.order < m
      ensures Block(BuddyOffset(c.off, c.order), c.order) != b
    {
      BuddyInvolution(c.off, c.order);
    }
  }

  lemma BuddyInvolution(off: nat, order: nat)
    ensures BuddyOffset(BuddyOffset(off, order), order) == off
  {
    XorAssoc(off, Pow2(order), Pow2(order));
    XorSelf(Pow2(order));
    XorZero(off);
  }

  lemma GiveLive(p: Pool, cur: Block, m: nat)
    requires InHand(p, cur, m)
    ensures cur !in p.live && Inv(Pool(p.free, p.live + {cur}), m)
  {
    assert p.free + (p.live + {cur}) == p.free + p.live + {cur};
  }

  lemma MergeInHand(p: Pool, cur: Block, m: nat)
    requires InHand(p, cur, m) && cur.order < m
    requires Block(BuddyOffset(cur.off, cur.order), cur.order) in p.free
    ensures var o := BuddyOffset(cur.off, cur.order);
            InHand(Pool(p.free - {Block(o, cur.order)}, p.live), Block(Low(cur.off, o), cur.order + 1), m)
  {
    var o := Block(BuddyOffset(cur.off, cur.order), cur.order);
    assert cur in p.free + p.live + {cur};
    var rest := p.free - {o} + p.live;
    assert rest + {cur, o} == p.free + p.live + {cur};
    MergeKeepsTiling(rest, cur, m);
  }

  /** Merging stops with the block joining the free set: no buddy of it is free there. */
  lemma GiveFree(p: Pool, cur: Block, m: nat)
    requires InHand(p, cur, m)
    requires cur.order < m ==> Block(BuddyOffset(cur.off, cur.order), cur.order) !in p.free
    ensures Inv(Pool(p.free + {cur}, p.live), m)
  {
    assert cur in p.free + p.live + {cur};
    var free := p.free + {cur};
    assert free + p.live == p.free + p.live + {cur};
    CanonicalWith(p.free, cur, m);
  }
}
