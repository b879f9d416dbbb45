/** The calls of the buddy allocator as functions on arenas, and what holds after every run. */
module ArenaCalls {
  import opened Numbers
  import opened Options
  import opened PowersOfTwo
  import opened Products
  import opened TreeLayout
  import opened StatusTree
  import opened Arenas

  // ---- Lookups

  /** depth_for_size, for a request already raised to the alignment. */
  function DepthFor(eff: nat, req: nat): (d: nat)
    requires req >= 1
    ensures d >= 1
    decreases eff
  {
    if Quot(eff, req) / 2 == 0 then 1 else 1 + DepthFor(eff / 2, req)
  }

  /** The block size at that depth is the least power of two that holds the request. */
  lemma {:induction false} DepthForFits(e: nat, req: nat)
    requires 1 <= req <= Pow2(e)
    ensures var d := DepthFor(Pow2(e), req);
            d <= e + 1 && req <= Pow2(e + 1 - d) < 2 * req
  {
    QuotientBelowTwo(Pow2(e), req);
    if Pow2(e) >= 2 * req {
      assert Pow2(e) / 2 == Pow2(e - 1);
      DepthForFits(e - 1, req);
    }
  }

  lemma {:induction false} QuotientBelowTwo(x: nat, y: nat)
    requires y >= 1
    ensures Quot(x, y) / 2 == 0 <==> x < 2 * y
  {
    var q := Quot(x, y);
    QuotRem(x, y);
    TimesIs(2, y);
    TimesIs(1, y);
    if q >= 2 {
      TimesMono(2, q, y);
    } else {
      TimesMono(q, 1, y);
    }
  }

  /** The memory the tree covers: the next power of two. */
  function EffectiveSize(a: Arena): nat
    requires a.order.levels >= 1
  {
    Pow2(a.order.levels - 1 + a.alignBits)
  }

  function DepthForSize(a: Arena, req: nat): nat
    requires a.order.levels >= 1
  {
    DepthFor(EffectiveSize(a), Max(req, a.Alignment()))
  }

  lemma {:induction false} DepthForSizeFits(a: Arena, req: nat)
    requires a.Sized() && req <= a.MemorySize()
    ensures var d := DepthForSize(a, req);
            && 1 <= d <= a.order.levels
            && forall n: nat {:trigger a.SizeOf(n)} :: IsNode(a.order, n) && Depth(a.order, n) == d ==>
                 Max(req, a.Alignment()) <= a.SizeOf(n) < 2 * Max(req, a.Alignment())
  {
    hide DepthFor, Times;
    var r, d := Max(req, a.Alignment()), DepthForSize(a, req);
    MemoryInTree(a);
    Pow2Mono(a.alignBits, a.order.levels - 1 + a.alignBits);
    DepthForFits(a.order.levels - 1 + a.alignBits, r);
    if d > a.order.levels {
      Pow2StrictMono(a.order.levels + a.alignBits - d, a.alignBits);
    }
    forall n: nat | IsNode(a.order, n) && Depth(a.order, n) == d
      ensures r <= a.SizeOf(n) < 2 * r
    {
      Pow2Times(MaxStatus(a.order, n) - 1, a.alignBits);
    }
  }

  lemma {:induction false} MemoryInTree(a: Arena)
    requires a.Sized()
    ensures a.MemorySize() <= EffectiveSize(a)
  {
    TimesMono(a.slots, Pow2(a.order.levels - 1), a.Alignment());
    Pow2Times(a.order.levels - 1, a.alignBits);
  }

  /** position_for_address, for an address inside the memory; zero for the invalid position. */
  function PositionFor(a: Arena, off: nat): (n: nat)
    requires a.Sized() && off < a.MemorySize()
    ensures n != 0 ==> IsNode(a.order, n)
  {
    if Rem(off, a.Alignment()) != 0 then 0 else
      OffsetInTree(a, off);
      var n := Owner(a.st, a.LeafAt(off));
      if n == 0 || a.OffsetOf(n) != off then 0 else n
  }

  lemma {:induction false} OffsetInTree(a: Arena, off: nat)
    requires a.Sized() && off < a.MemorySize()
    ensures Quot(off, a.Alignment()) < a.slots && IsNode(a.order, a.LeafAt(off))
    ensures 2 * a.LeafAt(off) >= Pow2(a.order.levels)
  {
    var q := Quot(off, a.Alignment());
    QuotRem(off, a.Alignment());
    if q >= a.slots {
      TimesMono(a.slots, q, a.Alignment());
    }
    assert Pow2(a.order.levels) == 2 * Pow2(a.order.levels - 1);
  }

  /** A block begins at its first leaf, and owns it. */
  lemma {:induction false} BlockOwnsLeaf(a: Arena, n: nat)
    requires a.Valid() && a.Block(n)
    ensures var leaf := FirstLeaf(a.order, n);
            && a.LeafBase() <= leaf < a.LeafBase() + a.slots && IsNode(a.order, leaf) && Owner(a.st, leaf) == n
            && a.OffsetOf(n) == Times(leaf - a.LeafBase(), a.Alignment())
  {
    hide Owner;
    var leaf := FirstLeaf(a.order, n);
    LeafRange(a.order, n);
    OffsetIsLeaves(a, n);
    LeavesUnder(a.order, n, leaf);
    OwnerOfLive(a.order, a.st, n, leaf);
  }

  /** Every block is found again from its address. */
  lemma {:induction false} BlockIsFound(a: Arena, n: nat)
    requires a.Valid() && a.Block(n)
    ensures a.OffsetOf(n) < a.MemorySize() && PositionFor(a, a.OffsetOf(n)) == n
  {
    hide FirstLeaf, Owner, Arena.OffsetOf, Quot, Rem;
    BlockOwnsLeaf(a, n);
    var k := FirstLeaf(a.order, n) - a.LeafBase();
    TimesMono(k + 1, a.slots, a.Alignment());
    DivTimes(k, a.Alignment());
  }

  /** What the lookup finds is a block with this address, or a node that is partly used. */
  lemma {:induction false} FoundIs(a: Arena, off: nat)
    requires a.Valid() && off < a.MemorySize() && PositionFor(a, off) != 0
    ensures var n := PositionFor(a, off);
            && IsNode(a.order, n) && a.OffsetOf(n) == off
            && a.st[n] != 0
            && (a.st[n] == MaxStatus(a.order, n) ==> a.Block(n))
  {
    OffsetInTree(a, off);
    var leaf := a.LeafAt(off);
    OwnerIs(a.order, a.st, leaf);
    var n := Owner(a.st, leaf);
    LeavesUnder(a.order, n, leaf);
  }

  // ---- The calls

  /** A request for nothing is a request for one byte. */
  function Request(requested: nat): nat { if requested == 0 then 1 else requested }

  /** The node malloc marks, or zero when it fails. */
  function MallocNode(a: Arena, requested: nat): (n: nat)
    requires a.Sized()
  {
    if Request(requested) > a.MemorySize() then 0 else
      DepthForSizeFits(a, Request(requested));
      TreeHasRoot(a);
      FindFree(a.st, DepthForSize(a, Request(requested)))
  }

  lemma {:induction false} TreeHasRoot(a: Arena)
    requires a.Sized()
    ensures |a.st| >= 2
  {
    Pow2Mono(1, a.order.levels);
  }

  function Malloc(a: Arena, requested: nat): (r: (Arena, Option<nat>))
    requires a.Valid()
  {
    MallocFinds(a, requested);
    var n := MallocNode(a, requested);
    if n == 0 then (a, None) else (a.(st := Mark(a.order, a.st, n)), Some(a.OffsetOf(n)))
  }

  /** malloc finds a free node whose size holds the request and wastes less than half; it finds
      none exactly when there is no free node of the fitting depth. */
  lemma {:induction false} MallocFinds(a: Arena, requested: nat)
    requires a.Valid()
    ensures var n, req := MallocNode(a, requested), Request(requested);
            n != 0 ==>
              && FreeNode(a.order, a.st, n)
              && Max(req, a.Alignment()) <= a.SizeOf(n) < 2 * Max(req, a.Alignment())
    ensures MallocNode(a, requested) == 0 ==>
              || Request(requested) > a.MemorySize()
              || forall i: nat :: FreeNode(a.order, a.st, i) ==>
                Depth(a.order, i) != DepthForSize(a, Request(requested))
  {
    var req := Request(requested);
    if req <= a.MemorySize() {
      DepthForSizeFits(a, req);
      TreeHasRoot(a);
      FindFreeExact(a.order, a.st, DepthForSize(a, req));
    }
  }

  function Free(a: Arena, off: nat): (r: Arena)
    requires a.Sized()
  {
    if off >= a.MemorySize() then a else
      var n := PositionFor(a, off);
      if n == 0 then a else a.(st := Release(a.order, a.st, n))
  }

  function SafeFree(a: Arena, off: nat, requested: nat): (r: (Arena, bool))
    requires a.Sized()
  {
    if off >= a.MemorySize() then (a, false) else
      var n := PositionFor(a, off);
      if n == 0 then (a, false) else
        var req := Max(requested, a.Alignment());
        if req > a.SizeOf(n) || req <= a.SizeOf(n) / 2 then (a, false)
        else (a.(st := Release(a.order, a.st, n)), true)
  }

  /** How many leaves a reservation of this size marks. */
  function SlotsFor(a: Arena, requested: nat): nat { Quot(requested + a.Alignment() - 1, a.Alignment()) }

  /** Marks count leaves, starting at leaf. */
  function MarkLeaves(order: Order, st: Statuses, leaf: nat, count: nat): (r: Statuses)
    requires Shape(order, st) && 1 <= leaf && leaf + count <= Pow2(order.levels)
    ensures |r| == |st|
    decreases count
  {
    if count == 0 then st else MarkLeaves(order, Mark(order, st, leaf), leaf + 1, count - 1)
  }

  function Reserve(a: Arena, off: nat, requested: nat): (r: Arena)
    requires a.Sized()
  {
    if requested == 0 || off + requested > a.MemorySize() then a else
      ReservedInMemory(a, off, requested);
      a.(st := MarkLeaves(a.order, a.st, a.LeafAt(off), SlotsFor(a, requested)))
  }

  lemma {:induction false} ReservedInMemory(a: Arena, off: nat, requested: nat)
    requires a.Sized() && requested >= 1 && off + requested <= a.MemorySize()
    ensures Quot(off, a.Alignment()) + SlotsFor(a, requested) <= a.slots
    ensures a.LeafAt(off) + SlotsFor(a, requested) <= a.LeafBase() + a.slots <= Pow2(a.order.levels)
  {
    var d, x, y := a.Alignment(), Quot(off, a.Alignment()), SlotsFor(a, requested);
    QuotRem(off, d);
    QuotRem(requested + d - 1, d);
    TimesAdd(x, y, d);
    SlotsBelow(x + y, a.slots, d);
    HalfTree(a);
  }

  lemma {:induction false} SlotsBelow(x: nat, y: nat, d: nat)
    requires d >= 1 && Times(x, d) < Times(y, d) + d
    ensures x <= y
  {
    if x > y {
      TimesMono(y + 1, x, d);
    }
  }

  lemma {:induction false} HalfTree(a: Arena)
    requires a.Sized()
    ensures a.LeafBase() + a.slots <= Pow2(a.order.levels) == 2 * a.LeafBase()
  {
  }

  /** A leaf that no larger block holds: it is free, or handed out on its own. */
  ghost predicate OpenLeaf(order: Order, st: Statuses, i: nat)
    requires Shape(order, st)
  {
    IsNode(order, i) && 2 * i >= Pow2(order.levels) && NothingAbove(order, st, i)
  }

  /** Block m lies above a leaf of the range: reserving the range takes it away. */
  ghost predicate CutInto(m: nat, leaf: nat, count: nat) {
    exists i: nat :: leaf <= i < leaf + count && Above(m, i)
  }

  ghost predicate LeavesOpen(order: Order, st: Statuses, leaf: nat, count: nat)
    requires Shape(order, st)
  {
    forall i: nat {:trigger OpenLeaf(order, st, i)} :: leaf <= i < leaf + count ==> OpenLeaf(order, st, i)
  }

  // ---- Each call keeps the arena valid, and moves blocks as it should

  /** Marking a free node in memory keeps the arena valid. */
  lemma {:induction false} MarkValid(a: Arena, n: nat)
    requires a.Valid() && FreeNode(a.order, a.st, n)
    ensures a.(st := Mark(a.order, a.st, n)).Valid()
    ensures FirstLeaf(a.order, n) < a.LeafBase() + a.slots
    ensures forall m: nat :: a.(st := Mark(a.order, a.st, n)).Block(m) <==> a.Block(m) || m == n
  {
    var b := a.(st := Mark(a.order, a.st, n));
    MarkFree(a.order, a.st, n);
    forall leaf: nat | IsNode(b.order, leaf) && b.VirtualLeaf(leaf) ensures b.HeldBack(leaf) {
      assert a.HeldBack(leaf);
      VirtualStays(a, b, leaf);
    }
    FreeInMemory(a, n);
  }

  lemma {:induction false} VirtualStays(a: Arena, b: Arena, leaf: nat)
    requires a.Valid() && b == a.(st := b.st) && TreeOk(b.order, b.st)
    requires IsNode(a.order, leaf) && a.VirtualLeaf(leaf) && a.HeldBack(leaf)
    requires Live(b.order, b.st, Owner(a.st, leaf))
    ensures b.HeldBack(leaf)
  {
    assert Pow2(a.order.levels) == 2 * Pow2(a.order.levels - 1);
    OwnerIs(a.order, a.st, leaf);
    OwnerOfLive(b.order, b.st, Owner(a.st, leaf), leaf);
  }

  /** A free node has no virtual leaf below it. */
  lemma {:induction false} FreeInMemory(a: Arena, n: nat)
    requires a.Valid() && FreeNode(a.order, a.st, n)
    ensures EndLeaf(a.order, n) <= a.LeafBase() + a.slots
  {
    LeafRange(a.order, n);
    var leaf := EndLeaf(a.order, n) - 1;
    assert Pow2(a.order.levels) == 2 * Pow2(a.order.levels - 1);
    if leaf >= a.LeafBase() + a.slots {
      assert a.HeldBack(leaf);
      LeavesUnder(a.order, n, leaf);
      OwnerIs(a.order, a.st, leaf);
      FreeNotOwned(a.order, a.st, n, leaf);
    }
  }

  /** No leaf below a free node is held by anybody. */
  lemma {:induction false} FreeNotOwned(order: Order, st: Statuses, n: nat, i: nat)
    requires TreeOk(order, st) && FreeNode(order, st, n) && IsNode(order, i) && Under(i, n)
    ensures FreeNode(order, st, i)
    ensures var o := Owner(st, i); o == 0 || !Live(order, st, o)
  {
    if i != n {
      ZeroBelow(order, st, n, i);
      FreeNotOwned(order, st, n, i / 2);
      forall m: nat | Above(m, i) ensures !Live(order, st, m) {
        assert Under(i / 2, m);
        if m != i / 2 { assert Above(m, i / 2); }
      }
    } else {
      OwnerAbove(st, i);
    }
  }

  lemma {:induction false} OwnerAbove(st: Statuses, i: nat)
    requires i < |st| && st[i] == 0
    ensures var o := Owner(st, i); o == 0 || Above(o, i)
  {
    if i > 1 {
      if st[i / 2] != 0 {
        assert Under(i / 2, i / 2);
      } else {
        OwnerAbove(st, i / 2);
        var o := Owner(st, i);
        if o != 0 { AboveIsSmaller(o, i / 2); }
      }
    }
  }

  /** Releasing a block keeps the arena valid. */
  lemma {:induction false} ReleaseValid(a: Arena, n: nat)
    requires a.Valid() && a.Block(n)
    ensures a.(st := Release(a.order, a.st, n)).Valid()
    ensures forall m: nat :: a.(st := Release(a.order, a.st, n)).Block(m) <==> a.Block(m) && m != n
  {
    var b := a.(st := Release(a.order, a.st, n));
    ReleaseLive(a.order, a.st, n);
    forall leaf: nat | IsNode(b.order, leaf) && b.VirtualLeaf(leaf) ensures b.HeldBack(leaf) {
      assert a.HeldBack(leaf);
      VirtualStays(a, b, leaf);
    }
  }

  /** malloc hands out the node it found, and nothing else changes hands. */
  lemma {:induction false} MallocGives(a: Arena, requested: nat)
    requires a.Valid()
    ensures var (b, r) := Malloc(a, requested);
            var n := MallocNode(a, requested);
            && b.Valid() && b == a.(st := b.st)
            && (r.None? ==> n == 0 && b == a)
            && (r.Some? ==> && n != 0 && IsNode(a.order, n) && r.value == a.OffsetOf(n)
                            && !a.Block(n)
                            && forall m: nat :: b.Block(m) <==> a.Block(m) || m == n)
  {
    MallocFinds(a, requested);
    var n := MallocNode(a, requested);
    if n != 0 {
      MarkValid(a, n);
      FreeHasNoLiveParent(a.order, a.st, n);
    }
  }

  /** free takes back the block that begins at the address; any other address changes nothing. */
  lemma {:induction false} FreeTakesBack(a: Arena, off: nat)
    requires a.Valid()
    ensures Free(a, off).Valid()
    ensures forall n: nat :: a.Block(n) && a.OffsetOf(n) == off ==>
              forall m: nat :: Free(a, off).Block(m) <==> a.Block(m) && m != n
    ensures (forall n: nat :: a.Block(n) ==> a.OffsetOf(n) != off) ==> Free(a, off) == a
  {
    if off < a.MemorySize() {
      var p := PositionFor(a, off);
      if p != 0 {
        FoundIs(a, off);
        if a.st[p] == MaxStatus(a.order, p) {
          ReleaseValid(a, p);
        }
      }
    }
    forall n: nat | a.Block(n) && a.OffsetOf(n) == off
      ensures forall m: nat :: Free(a, off).Block(m) <==> a.Block(m) && m != n
    {
      BlockIsFound(a, n);
      ReleaseValid(a, n);
    }
  }
}
