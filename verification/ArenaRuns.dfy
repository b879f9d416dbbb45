/** Initialisation, reservations and whole runs of the buddy allocator. */
module ArenaRuns {
  import opened Numbers
  import opened Options
  import opened PowersOfTwo
  import opened Products
  import opened TreeLayout
  import opened StatusTree
  import opened Arenas
  import opened ArenaCalls

  // ---- Virtual slots

  lemma {:induction false} ZerosOk(order: Order)
    requires order.levels >= 1
    ensures TreeOk(order, Zeros(order))
    ensures forall n: nat :: !Live(order, Zeros(order), n)
    ensures forall n: nat {:trigger FreeNode(order, Zeros(order), n)} :: IsNode(order, n) ==>
              FreeNode(order, Zeros(order), n)
  {
    forall n: nat | IsNode(order, n) ensures NodeOk(order, Zeros(order), n) {
    }
  }

  /** buddy_toggle_virtual_slots: mark nodes below n that cover exactly its last count leaves. */
  function MarkTail(order: Order, st: Statuses, n: nat, count: nat): (r: Statuses)
    requires Shape(order, st) && IsNode(order, n) && 1 <= count <= Pow2(MaxStatus(order, n) - 1)
    ensures Shape(order, r)
    decreases MaxStatus(order, n)
  {
    var width := Pow2(MaxStatus(order, n) - 1);
    if count == width then Mark(order, st, n) else
      HalfWidth(order, n);
      if count <= width / 2 then MarkTail(order, st, 2 * n + 1, count)
      else MarkTail(order, Mark(order, st, 2 * n + 1), 2 * n, count - width / 2)
  }

  /** A node of more than one leaf has two children of half the width. */
  lemma {:induction false} HalfWidth(order: Order, n: nat)
    requires IsNode(order, n) && Pow2(MaxStatus(order, n) - 1) > 1
    ensures 2 * n + 1 < Pow2(order.levels) && MaxStatus(order, n) >= 2
    ensures MaxStatus(order, 2 * n) == MaxStatus(order, 2 * n + 1) == MaxStatus(order, n) - 1
    ensures Pow2(MaxStatus(order, n) - 1) == 2 * Pow2(MaxStatus(order, 2 * n) - 1)
    ensures FirstLeaf(order, 2 * n) == FirstLeaf(order, n)
    ensures EndLeaf(order, 2 * n) == FirstLeaf(order, 2 * n + 1)
    ensures EndLeaf(order, 2 * n + 1) == EndLeaf(order, n)
  {
    LeafWidth(order, n);
    assert Pow2(order.levels) == 2 * Pow2(order.levels - 1);
    TimesTwice(n, Pow2(MaxStatus(order, 2 * n) - 1));
  }

  /** Every leaf of lo..hi is held by a live node that begins at or after lo. */
  ghost predicate TailHeld(order: Order, st: Statuses, lo: nat, hi: nat)
    requires Shape(order, st)
  {
    forall leaf: nat {:trigger LeafHeld(order, st, leaf, lo)} :: lo <= leaf < hi && IsNode(order, leaf) ==>
      LeafHeld(order, st, leaf, lo)
  }

  ghost predicate LeafHeld(order: Order, st: Statuses, leaf: nat, lo: nat)
    requires Shape(order, st)
  {
    exists m: nat :: Live(order, st, m) && Under(leaf, m) && FirstLeaf(order, m) >= lo
  }

  /** From st to r, nodes were handed out that cover the leaves lo..hi, and nothing else changed. */
  ghost predicate TailMarked(order: Order, st: Statuses, r: Statuses, lo: nat, hi: nat)
    requires Shape(order, st)
  {
    && TreeOk(order, r)
    && (forall m: nat :: Live(order, st, m) ==> Live(order, r, m))
    && (forall m: nat :: Live(order, r, m) && !Live(order, st, m) ==>
          lo <= FirstLeaf(order, m) && EndLeaf(order, m) <= hi)
    && TailHeld(order, r, lo, hi)
  }

  lemma {:induction false} MarkTailOk(order: Order, st: Statuses, n: nat, count: nat, r: Statuses, lo: nat, hi: nat)
    requires TreeOk(order, st) && FreeNode(order, st, n) && 1 <= count <= Pow2(MaxStatus(order, n) - 1)
    requires r == MarkTail(order, st, n, count) && hi == EndLeaf(order, n) && lo + count == hi
    ensures TailMarked(order, st, r, lo, hi)
    decreases MaxStatus(order, n)
  {
    hide Mark, TailMarked, FirstLeaf, StatusTree.OkExcept;
    var width := Pow2(MaxStatus(order, n) - 1);
    if count == width {
      NodeMarked(order, st, n);
    } else if count <= width / 2 {
      TailInRight(order, st, n, count);
      MarkTailOk(order, st, 2 * n + 1, count, r, lo, hi);
    } else {
      HalfWidth(order, n);
      var s, mid := Mark(order, st, 2 * n + 1), EndLeaf(order, 2 * n);
      RightMarked(order, st, n);
      MarkTailOk(order, s, 2 * n, count - width / 2, r, lo, mid);
      TailsJoin(order, st, s, r, lo, mid, hi);
    }
  }

  lemma {:induction false} TailInRight(order: Order, st: Statuses, n: nat, count: nat)
    requires TreeOk(order, st) && FreeNode(order, st, n) && 1 <= count <= Pow2(MaxStatus(order, n) - 1) / 2
    ensures 2 * n + 1 < Pow2(order.levels) && FreeNode(order, st, 2 * n + 1)
    ensures MaxStatus(order, 2 * n + 1) == MaxStatus(order, n) - 1 && count <= Pow2(MaxStatus(order, 2 * n + 1) - 1)
    ensures EndLeaf(order, 2 * n + 1) == EndLeaf(order, n)
    ensures MarkTail(order, st, n, count) == MarkTail(order, st, 2 * n + 1, count)
  {
    HalfWidth(order, n);
    ChildFree(order, st, n, 2 * n + 1);
  }

  lemma {:induction false} RightMarked(order: Order, st: Statuses, n: nat)
    requires TreeOk(order, st) && FreeNode(order, st, n) && Pow2(MaxStatus(order, n) - 1) > 1
    ensures 2 * n + 1 < Pow2(order.levels)
    ensures var s := Mark(order, st, 2 * n + 1);
            && FreeNode(order, s, 2 * n)
            && TailMarked(order, st, s, EndLeaf(order, 2 * n), EndLeaf(order, n))
  {
    HalfWidth(order, n);
    ChildFree(order, st, n, 2 * n + 1);
    ChildFree(order, st, n, 2 * n);
    NodeMarked(order, st, 2 * n + 1);
    SiblingFree(order, st, n);
  }

  lemma {:induction false} NodeMarked(order: Order, st: Statuses, n: nat)
    requires TreeOk(order, st) && FreeNode(order, st, n)
    ensures TailMarked(order, st, Mark(order, st, n), FirstLeaf(order, n), EndLeaf(order, n))
  {
    MarkFree(order, st, n);
    NodeHoldsLeaves(order, Mark(order, st, n), n);
  }

  lemma {:induction false} TailsJoin(order: Order, st: Statuses, s: Statuses, t: Statuses, lo: nat, mid: nat, hi: nat)
    requires Shape(order, st) && Shape(order, s) && lo <= mid <= hi
    requires TailMarked(order, st, s, mid, hi) && TailMarked(order, s, t, lo, mid)
    ensures TailMarked(order, st, t, lo, hi)
  {
    forall leaf: nat | lo <= leaf < hi && IsNode(order, leaf) ensures LeafHeld(order, t, leaf, lo) {
      if leaf < mid {
        assert LeafHeld(order, t, leaf, lo);
      } else {
        assert LeafHeld(order, s, leaf, mid);
      }
    }
    forall m: nat | Live(order, t, m) && !Live(order, st, m)
      ensures lo <= FirstLeaf(order, m) && EndLeaf(order, m) <= hi
    {
      if Live(order, s, m) {
        assert mid <= FirstLeaf(order, m);
      }
    }
  }

  lemma {:induction false} NodeHoldsLeaves(order: Order, st: Statuses, n: nat)
    requires Shape(order, st) && Live(order, st, n)
    ensures TailHeld(order, st, FirstLeaf(order, n), EndLeaf(order, n))
  {
    LeafRange(order, n);
    forall leaf: nat | FirstLeaf(order, n) <= leaf < EndLeaf(order, n) && IsNode(order, leaf)
      ensures LeafHeld(order, st, leaf, FirstLeaf(order, n))
    {
      assert Pow2(order.levels) == 2 * Pow2(order.levels - 1);
      LeavesUnder(order, n, leaf);
    }
  }

  lemma {:induction false} ChildFree(order: Order, st: Statuses, n: nat, c: nat)
    requires TreeOk(order, st) && FreeNode(order, st, n) && IsNode(order, c) && c / 2 == n
    ensures FreeNode(order, st, c)
  {
    assert Under(c, n) by { assert Under(n, n); }
    FreeNotOwned(order, st, n, c);
  }

  lemma {:induction false} SiblingFree(order: Order, st: Statuses, n: nat)
    requires TreeOk(order, st) && IsNode(order, 2 * n + 1) && n >= 1
    requires FreeNode(order, st, 2 * n) && FreeNode(order, st, 2 * n + 1)
    ensures FreeNode(order, Mark(order, st, 2 * n + 1), 2 * n)
  {
    var l, r := 2 * n, 2 * n + 1;
    MarkFree(order, st, r);
    AboveIsSmaller(l, r);
    RepairFrame(st[r := MaxStatus(order, r)], r, l);
    AboveIsSmaller(r, l);
  }

  function InitStatuses(order: Order, slots: nat): (st: Statuses)
    requires order.levels >= 1 && slots >= 1 && CeilPow2(slots) == Pow2(order.levels - 1)
  {
    if slots == Pow2(order.levels - 1) then Zeros(order) else
      TailFits(order, slots);
      MarkTail(order, Zeros(order), 3, Pow2(order.levels - 1) - slots)
  }

  lemma {:induction false} TailFits(order: Order, slots: nat)
    requires order.levels >= 1 && slots >= 1 && CeilPow2(slots) == Pow2(order.levels - 1)
               && slots != Pow2(order.levels - 1)
    ensures order.levels >= 2 && IsNode(order, 3) && Shape(order, Zeros(order))
    ensures MaxStatus(order, 3) == order.levels - 1
    ensures Pow2(order.levels - 1) - slots < Pow2(MaxStatus(order, 3) - 1)
    ensures EndLeaf(order, 3) == Pow2(order.levels)
  {
    Pow2Mono(2, order.levels);
    assert Depth(order, 3) == 2;
    TimesTwice(1, Pow2(order.levels - 2));
    TimesIs(1, 2 * Pow2(order.levels - 2));
  }

  function InitArena(alignBits: nat, slots: nat): (a: Arena)
    requires slots >= 1
  {
    var order := Order(CeilLog2(slots) + 1);
    Arena(order, alignBits, slots, InitStatuses(order, slots))
  }

  /** The fresh arena: the leaves past the end of the memory are held, and no block is handed out. */
  lemma {:induction false} InitValid(alignBits: nat, slots: nat)
    requires slots >= 1
    ensures InitArena(alignBits, slots).Valid()
    ensures forall n: nat :: !InitArena(alignBits, slots).Block(n)
  {
    hide TailMarked, MarkTail, OkExcept, FirstLeaf;
    var a := InitArena(alignBits, slots);
    ZerosOk(a.order);
    if slots == Pow2(a.order.levels - 1) {
      HalfTree(a);
    } else {
      TailFits(a.order, slots);
      MarkTailOk(a.order, Zeros(a.order), 3, Pow2(a.order.levels - 1) - slots, a.st, a.LeafBase() + slots,
        Pow2(a.order.levels));
      TailIsVirtual(a);
    }
  }

  lemma {:induction false} TailIsVirtual(a: Arena)
    requires a.Sized() && TailMarked(a.order, Zeros(a.order), a.st, a.LeafBase() + a.slots, Pow2(a.order.levels))
    ensures a.Valid() && forall n: nat :: !a.Block(n)
  {
    ZerosOk(a.order);
    forall leaf: nat | IsNode(a.order, leaf) && a.VirtualLeaf(leaf) ensures a.HeldBack(leaf) {
      TailHeldBack(a, leaf);
    }
  }

  lemma {:induction false} TailHeldBack(a: Arena, leaf: nat)
    requires a.Sized() && TreeOk(a.order, a.st) && IsNode(a.order, leaf) && a.VirtualLeaf(leaf)
    requires TailHeld(a.order, a.st, a.LeafBase() + a.slots, Pow2(a.order.levels))
    ensures a.HeldBack(leaf)
  {
    assert LeafHeld(a.order, a.st, leaf, a.LeafBase() + a.slots);
    var m: nat :| Live(a.order, a.st, m) && Under(leaf, m) && FirstLeaf(a.order, m) >= a.LeafBase() + a.slots;
    OwnerOfLive(a.order, a.st, m, leaf);
  }

  // ---- Reservations

  /** Reserving leaves keeps the arena valid and hands out exactly those leaves; larger blocks that
      the range cuts into are lost. */
  lemma {:induction false} MarkLeavesValid(a: Arena, leaf: nat, count: nat)
    requires a.Valid() && a.LeafBase() <= leaf && leaf + count <= a.LeafBase() + a.slots
    ensures leaf + count <= Pow2(a.order.levels)
    ensures var b := a.(st := MarkLeaves(a.order, a.st, leaf, count));
            && b.Valid()
            && forall m: nat :: b.Block(m) <==> leaf <= m < leaf + count || (a.Block(m) && !CutInto(m, leaf, count))
    decreases count
  {
    HalfTree(a);
    if count > 0 {
      hide Mark, Live, CutInto;
      MarkLeafValid(a, leaf);
      var c := a.(st := Mark(a.order, a.st, leaf));
      MarkLeavesValid(c, leaf + 1, count - 1);
      var b := a.(st := MarkLeaves(a.order, a.st, leaf, count));
      forall m: nat ensures b.Block(m) <==> leaf <= m < leaf + count || (a.Block(m) && !CutInto(m, leaf, count)) {
        CutFirst(a, m, leaf, count);
      }
    } else {
      forall m: nat ensures !CutInto(m, leaf, count) {
      }
    }
  }

  lemma {:induction false} CutFirst(a: Arena, m: nat, leaf: nat, count: nat)
    requires count > 0 && a.order.levels >= 1 && a.LeafBase() <= leaf && leaf + count <= 2 * a.LeafBase()
    ensures CutInto(m, leaf, count) <==> Above(m, leaf) || CutInto(m, leaf + 1, count - 1)
    ensures !CutInto(leaf, leaf + 1, count - 1)
  {
    forall i: nat | leaf + 1 <= i < leaf + count ensures !Above(leaf, i) {
      AboveIsSmaller(leaf, i);
    }
    if CutInto(m, leaf, count) {
      var i: nat :| leaf <= i < leaf + count && Above(m, i);
      assert i == leaf || CutInto(m, leaf + 1, count - 1);
    }
  }

  lemma {:induction false} MarkLeafValid(a: Arena, leaf: nat)
    requires a.Valid() && a.LeafBase() <= leaf < a.LeafBase() + a.slots
    ensures IsNode(a.order, leaf)
    ensures a.(st := Mark(a.order, a.st, leaf)).Valid()
    ensures forall m: nat :: a.(st := Mark(a.order, a.st, leaf)).Block(m) <==>
              m == leaf || (a.Block(m) && !Above(m, leaf))
  {
    hide Mark;
    HalfTree(a);
    var b := a.(st := Mark(a.order, a.st, leaf));
    MarkLeaf(a.order, a.st, leaf);
    LeafWidth(a.order, leaf);
    TimesIs(leaf, 1);
    assert FirstLeaf(a.order, leaf) == leaf;
    forall v: nat | IsNode(b.order, v) && b.VirtualLeaf(v) ensures b.HeldBack(v) {
      assert a.HeldBack(v);
      NotAboveMemory(a, Owner(a.st, v), leaf);
      VirtualStays(a, b, v);
    }
  }

  /** What begins past the end of the memory is not above a leaf in it. */
  lemma {:induction false} NotAboveMemory(a: Arena, n: nat, leaf: nat)
    requires a.Sized() && IsNode(a.order, n) && FirstLeaf(a.order, n) >= a.LeafBase() + a.slots
    requires a.LeafBase() <= leaf < a.LeafBase() + a.slots
    ensures !Above(n, leaf)
  {
    HalfTree(a);
    LeavesUnder(a.order, n, leaf);
  }

  /** No block is lost exactly if no larger block overlaps the range. */
  lemma {:induction false} ReserveKeepsBlocksIff(a: Arena, leaf: nat, count: nat)
    requires a.Valid() && a.LeafBase() <= leaf && leaf + count <= a.LeafBase() + a.slots
    ensures leaf + count <= Pow2(a.order.levels)
    ensures var b := a.(st := MarkLeaves(a.order, a.st, leaf, count));
            && b.Valid()
            && ((forall m: nat :: a.Block(m) ==> b.Block(m)) <==> LeavesOpen(a.order, a.st, leaf, count))
  {
    hide MarkLeaves;
    HalfTree(a);
    MarkLeavesValid(a, leaf, count);
    var b := a.(st := MarkLeaves(a.order, a.st, leaf, count));
    if LeavesOpen(a.order, a.st, leaf, count) {
      forall m: nat | a.Block(m) ensures b.Block(m) {
        OpenIsNotCut(a, m, leaf, count);
      }
    } else {
      var i: nat :| leaf <= i < leaf + count && !OpenLeaf(a.order, a.st, i);
      LostBlock(a, leaf, count, i);
    }
  }

  lemma {:induction false} OpenIsNotCut(a: Arena, m: nat, leaf: nat, count: nat)
    requires a.Valid() && a.Block(m) && LeavesOpen(a.order, a.st, leaf, count)
    ensures !CutInto(m, leaf, count)
  {
    forall i: nat | leaf <= i < leaf + count ensures !Above(m, i) {
      assert OpenLeaf(a.order, a.st, i);
    }
  }

  lemma {:induction false} LostBlock(a: Arena, leaf: nat, count: nat, i: nat)
    requires a.Valid() && a.LeafBase() <= leaf <= i < leaf + count <= a.LeafBase() + a.slots
    requires !OpenLeaf(a.order, a.st, i)
    ensures exists m: nat :: a.Block(m) && CutInto(m, leaf, count) && m < leaf
  {
    HalfTree(a);
    assert IsNode(a.order, i);
    var m: nat :| Above(m, i) && Live(a.order, a.st, m);
    AboveIsSmaller(m, i);
    LeavesUnder(a.order, m, i);
    assert Under(i, m);
    assert CutInto(m, leaf, count);
  }

  /** The reservation covers the last byte of the range exactly when the range, measured from the
      start of its first slot, fits the number of slots its size alone calls for. */
  lemma {:induction false} ReserveCovers(a: Arena, off: nat, requested: nat)
    requires a.Sized() && requested >= 1 && off + requested <= a.MemorySize()
    ensures a.LeafAt(off + requested - 1) < a.LeafAt(off) + SlotsFor(a, requested)
            <==> Rem(off, a.Alignment()) + requested <= Times(SlotsFor(a, requested), a.Alignment())
  {
    var d, last := a.Alignment(), off + requested - 1;
    QuotRem(off, d);
    QuotRem(last, d);
    TimesAdd(Quot(off, d), SlotsFor(a, requested), d);
    if Quot(last, d) < Quot(off, d) + SlotsFor(a, requested) {
      TimesMono(Quot(last, d) + 1, Quot(off, d) + SlotsFor(a, requested), d);
      TimesAdd(Quot(last, d), 1, d);
      TimesIs(1, d);
    } else {
      TimesMono(Quot(off, d) + SlotsFor(a, requested), Quot(last, d), d);
    }
  }

  /** An aligned address is always covered to its end. */
  lemma {:induction false} AlignedReserveCovers(a: Arena, off: nat, requested: nat)
    requires a.Sized() && requested >= 1 && off + requested <= a.MemorySize() && Rem(off, a.Alignment()) == 0
    ensures a.LeafAt(off + requested - 1) < a.LeafAt(off) + SlotsFor(a, requested)
  {
    ReserveCovers(a, off, requested);
    QuotRem(requested + a.Alignment() - 1, a.Alignment());
  }

  lemma {:induction false} UnalignedNumbers(a: Arena)
    requires a.alignBits == 6 && a.order.levels >= 1
    ensures a.LeafAt(32) == a.LeafBase() && a.LeafAt(95) == a.LeafBase() + 1 && SlotsFor(a, 64) == 1
  {
    SmallPowers();
    assert Quot(95, 64) == 1 + Quot(31, 64) && Quot(127, 64) == 1 + Quot(63, 64);
  }

  /** Half a slot into the arena, a range of one slot's length is reserved only in part. */
  lemma {:induction false} UnalignedReserveMissesBytes()
    ensures var a := InitArena(6, 4);
            a.Valid() && a.LeafAt(32 + 64 - 1) >= a.LeafAt(32) + SlotsFor(a, 64)
  {
    InitValid(6, 4);
    UnalignedNumbers(InitArena(6, 4));
  }

  // ---- safe_free

  /** The sizes for which safe_free takes back a block of this size. */
  predicate FitsBlock(a: Arena, n: nat, requested: nat)
    requires IsNode(a.order, n)
  {
    a.SizeOf(n) / 2 < Max(requested, a.Alignment()) <= a.SizeOf(n)
  }

  /** For the address of a block the answer is whether the size fits it, and if it does the block is
      taken back. */
  lemma {:induction false} SafeFreeOfBlock(a: Arena, n: nat, requested: nat)
    requires a.Valid() && a.Block(n)
    ensures var (b, ok) := SafeFree(a, a.OffsetOf(n), requested);
            && (ok <==> FitsBlock(a, n, requested))
            && (!ok ==> b == a)
            && (ok ==> forall m: nat :: b.Block(m) <==> a.Block(m) && m != n)
  {
    BlockIsFound(a, n);
    ReleaseValid(a, n);
  }

  /** For any address: the arena stays valid, and a true answer that takes nothing back is given
      exactly for addresses where no block begins. */
  lemma {:induction false} SafeFreeExact(a: Arena, off: nat, requested: nat)
    requires a.Valid()
    ensures var (b, ok) := SafeFree(a, off, requested);
            && b.Valid() && b == a.(st := b.st)
            && (!ok ==> b == a)
            && (ok ==> (b != a <==> exists n: nat :: a.Block(n) && a.OffsetOf(n) == off))
  {
    if n: nat :| a.Block(n) && a.OffsetOf(n) == off {
      SafeFreeOfBlock(a, n, requested);
      BlockIsFound(a, n);
      ReleaseValid(a, n);
    } else if off < a.MemorySize() && PositionFor(a, off) != 0 {
      FoundIs(a, off);
    }
  }

  /** A request of at most one slot is never answered with a false success. */
  lemma {:induction false} SafeFreeOfSlot(a: Arena, off: nat, requested: nat)
    requires a.Valid() && requested <= a.Alignment()
    ensures SafeFree(a, off, requested).1 <==>
              exists n: nat :: a.Block(n) && 2 * n >= Pow2(a.order.levels) && a.OffsetOf(n) == off
  {
    if n: nat :| a.Block(n) && 2 * n >= Pow2(a.order.levels) && a.OffsetOf(n) == off {
      BlockIsFound(a, n);
      LeafWidth(a.order, n);
      TimesIs(1, a.Alignment());
    }
    if SafeFree(a, off, requested).1 {
      var n := PositionFor(a, off);
      FoundIs(a, off);
      LeafWidth(a.order, n);
      assert NodeOk(a.order, a.st, n);
      if 2 * n < Pow2(a.order.levels) {
        var w := Pow2(MaxStatus(a.order, n) - 2);
        TimesMono(2, 2 * w, a.Alignment());
        TimesIs(2, a.Alignment());
      }
    }
  }

  /** Two slots of one byte, the second one in use. */
  function HalfUsed(): Arena { Arena(Order(2), 0, 2, [0, 1, 0, 1]) }

  lemma {:induction false} HalfUsedValid()
    ensures HalfUsed().Valid() && MaxStatus(Order(2), 1) == 2 && Pow2(2) == 4
  {
    var a := HalfUsed();
    SmallPowers();
    assert Depth(Order(2), 1) == 1;
    assert CeilPow2(2) == 2 * CeilPow2(1);
    forall n: nat | IsNode(Order(2), n) ensures NodeOk(Order(2), a.st, n) {
      assert n == 1 || n == 2 || n == 3;
    }
  }

  lemma {:induction false} HalfUsedLookup(a: Arena)
    requires a.Sized() && a.order == Order(2) && a.alignBits == 0 && Pow2(2) == 4 && a.st[1] == 1 && a.st[2] == 0
    requires a.MemorySize() == 2 && a.OffsetOf(1) == 0
    ensures PositionFor(a, 0) == 1
  {
    assert a.LeafAt(0) == 2 && Owner(a.st, 2) == 1;
  }

  lemma {:induction false} HalfUsedSizes(a: Arena)
    requires a == HalfUsed() && a.Sized() && MaxStatus(Order(2), 1) == 2 && Pow2(2) == 4
    ensures a.MemorySize() == 2 && a.SizeOf(1) == 2 && a.OffsetOf(1) == 0
  {
    TimesIs(2, 1);
    TimesIs(2, 0);
  }

  lemma {:induction false} FalseSuccess(a: Arena)
    requires a.Valid() && a.order == Order(2) && a.alignBits == 0 && Pow2(2) == 4 && MaxStatus(Order(2), 1) == 2
               && a.st[1] == 1
    requires a.MemorySize() == 2 && a.SizeOf(1) == 2 && PositionFor(a, 0) == 1
    ensures SafeFree(a, 0, 2) == (a, true) && forall n: nat :: a.Block(n) ==> a.OffsetOf(n) != 0
  {
    assert Max(2, a.Alignment()) == 2;
    SafeFreeExact(a, 0, 2);
  }

  /** Freeing both slots "succeeds" and frees nothing. */
  lemma {:induction false} SafeFreeFalseSuccess(a: Arena)
    requires a == HalfUsed()
    ensures a.Valid() && SafeFree(a, 0, 2) == (a, true) && forall n: nat :: a.Block(n) ==> a.OffsetOf(n) != 0
  {
    HalfUsedValid();
    HalfUsedSizes(a);
    HalfUsedLookup(a);
    FalseSuccess(a);
  }

  // ---- realloc

  /** realloc of a block: give it back, then allocate; when that fails, nothing has happened. */
  function Realloc(a: Arena, off: nat, requested: nat): (r: (Arena, Option<nat>))
    requires a.Valid()
  {
    FreeTakesBack(a, off);
    if requested == 0 then (Free(a, off), None)
    else if requested > a.MemorySize() || Malloc(Free(a, off), requested).1.None? then (a, None)
    else Malloc(Free(a, off), requested)
  }

  /** The bytes of block p, in any arena of this size. */
  ghost predicate SameBytes(a: Arena, before: seq<bv8>, after: seq<bv8>, p: nat)
    requires IsNode(a.order, p) && |before| == |after| && a.OffsetOf(p) + a.SizeOf(p) <= |before|
  {
    forall x: nat {:trigger after[x]} :: a.OffsetOf(p) <= x < a.OffsetOf(p) + a.SizeOf(p) ==> after[x] == before[x]
  }

  /** Block n of a moved to node m: the common part of the two came along, and the bytes of every
      other block stayed. */
  ghost predicate BlockMoved(a: Arena, before: seq<bv8>, after: seq<bv8>, n: nat, m: nat)
    requires a.Valid() && |before| == |after| == a.MemorySize()
  {
    && a.Block(n) && IsNode(a.order, m)
    && a.OffsetOf(n) + a.SizeOf(n) <= |before| && a.OffsetOf(m) + a.SizeOf(m) <= |before|
    && (forall x: nat {:trigger after[x]} :: a.OffsetOf(m) <= x < a.OffsetOf(m) + Min(a.SizeOf(n), a.SizeOf(m)) ==>
          after[x] == before[a.OffsetOf(n) + (x - a.OffsetOf(m))])
    && (forall p: nat {:trigger a.Block(p)} :: a.Block(p) && p != n ==>
          a.OffsetOf(p) + a.SizeOf(p) <= |before| && SameBytes(a, before, after, p))
  }

  /** What memmove of count bytes from position source to position dest does. */
  ghost predicate Copied(before: seq<bv8>, after: seq<bv8>, dest: nat, source: nat, count: nat) {
    && |after| == |before| && dest + count <= |before| && source + count <= |before|
    && forall x: nat {:trigger after[x]} :: x < |after| ==>
         after[x] == if dest <= x < dest + count then before[source + (x - dest)] else before[x]
  }

  /** The new place lies in memory and touches no other block, so copying is harmless. */
  lemma {:induction false} MoveIsSafe(a: Arena, n: nat, m: nat, before: seq<bv8>, after: seq<bv8>)
    requires a.Valid() && a.Block(n) && FreeNode(a.order, Release(a.order, a.st, n), m)
    requires |before| == a.MemorySize()
    requires Copied(before, after, a.OffsetOf(m), a.OffsetOf(n), Min(a.SizeOf(n), a.SizeOf(m)))
    ensures BlockMoved(a, before, after, n, m)
  {
    NewPlaceInMemory(a, n, m);
    forall p: nat | a.Block(p) && p != n
      ensures a.OffsetOf(p) + a.SizeOf(p) <= |before| && SameBytes(a, before, after, p)
    {
      BlockFits(a, p);
      NewPlaceApart(a, n, m, p);
      forall x: nat | a.OffsetOf(p) <= x < a.OffsetOf(p) + a.SizeOf(p) ensures after[x] == before[x] {
        assert !(a.OffsetOf(m) <= x < a.OffsetOf(m) + Min(a.SizeOf(n), a.SizeOf(m)));
      }
    }
  }

  /** Where a block stays in its place, no byte has to move. */
  lemma {:induction false} StayIsSafe(a: Arena, n: nat, bytes: seq<bv8>)
    requires a.Valid() && a.Block(n) && |bytes| == a.MemorySize()
    ensures BlockMoved(a, bytes, bytes, n, n)
  {
    BlockFits(a, n);
    forall p: nat | a.Block(p) && p != n
      ensures a.OffsetOf(p) + a.SizeOf(p) <= |bytes| && SameBytes(a, bytes, bytes, p)
    {
      BlockFits(a, p);
    }
  }

  lemma {:induction false} NewPlaceInMemory(a: Arena, n: nat, m: nat)
    requires a.Valid() && a.Block(n) && FreeNode(a.order, Release(a.order, a.st, n), m)
    ensures a.OffsetOf(n) + a.SizeOf(n) <= a.MemorySize()
    ensures a.OffsetOf(m) + a.SizeOf(m) <= a.MemorySize()
  {
    ReleaseValid(a, n);
    BlockFits(a, n);
    var b := a.(st := Release(a.order, a.st, n));
    MarkValid(b, m);
    var c := b.(st := Mark(b.order, b.st, m));
    BlockFits(c, m);
    SameGeometry(a, c, m);
  }

  lemma {:induction false} NewPlaceApart(a: Arena, n: nat, m: nat, p: nat)
    requires a.Valid() && a.Block(n) && FreeNode(a.order, Release(a.order, a.st, n), m)
    requires a.Block(p) && p != n
    ensures a.OffsetOf(m) + a.SizeOf(m) <= a.OffsetOf(p) || a.OffsetOf(p) + a.SizeOf(p) <= a.OffsetOf(m)
  {
    ReleaseValid(a, n);
    var b := a.(st := Release(a.order, a.st, n));
    MarkValid(b, m);
    var c := b.(st := Mark(b.order, b.st, m));
    FreeHasNoLiveParent(b.order, b.st, m);
    BlocksApart(c, m, p);
    SameGeometry(a, c, m);
    SameGeometry(a, c, p);
  }

  lemma {:induction false} SameGeometry(a: Arena, c: Arena, n: nat)
    requires c == a.(st := c.st) && IsNode(a.order, n)
    ensures a.OffsetOf(n) == c.OffsetOf(n) && a.SizeOf(n) == c.SizeOf(n)
  {
  }

  /** realloc of block n, case by case. */
  lemma {:induction false} ReallocIs(a: Arena, n: nat, requested: nat)
    requires a.Valid() && a.Block(n) && 1 <= requested <= a.MemorySize()
    ensures var b := a.(st := Release(a.order, a.st, n));
            var m := MallocNode(b, requested);
            && b.Valid()
            && Mark(a.order, b.st, n) == a.st
            && FreeNode(a.order, b.st, n)
            && (m == 0 ==> Realloc(a, a.OffsetOf(n), requested) == (a, None))
            && (m != 0 ==> FreeNode(a.order, b.st, m)
                           && Realloc(a, a.OffsetOf(n), requested) ==
                              (a.(st := Mark(a.order, b.st, m)), Some(a.OffsetOf(m))))
  {
    var b := a.(st := Release(a.order, a.st, n));
    ReleaseValid(a, n);
    ReleaseLive(a.order, a.st, n);
    MarkUndoesRelease(a.order, a.st, n);
    BlockIsFound(a, n);
    assert Free(a, a.OffsetOf(n)) == b;
    MallocFinds(b, requested);
    if MallocNode(b, requested) != 0 {
      SameGeometry(a, b, MallocNode(b, requested));
    }
  }

  /** realloc of block n as far as the blocks go. For nothing it is free; for more than the memory, it is
      refused. */
  lemma {:induction false} ReallocGives(a: Arena, n: nat, requested: nat)
    requires a.Valid() && a.Block(n)
    ensures var (b, r) := Realloc(a, a.OffsetOf(n), requested);
            && b.Valid() && b == a.(st := b.st)
            && (requested == 0 ==> r == None && forall k: nat :: b.Block(k) <==> a.Block(k) && k != n)
            && (requested > a.MemorySize() ==> r == None && b == a)
    ensures var (b, r) := Realloc(a, a.OffsetOf(n), requested);
            var m := MallocNode(Free(a, a.OffsetOf(n)), requested);
            1 <= requested <= a.MemorySize() ==>
              && (m == 0 ==> r == None && b == a)
              && (m != 0 ==> && IsNode(a.order, m) && r == Some(a.OffsetOf(m))
                             && Max(requested, a.Alignment()) <= a.SizeOf(m) < 2 * Max(requested, a.Alignment())
                             && forall k: nat :: b.Block(k) <==> (a.Block(k) && k != n) || k == m)
  {
    hide Mark, Release;
    var c := Free(a, a.OffsetOf(n));
    BlockIsFound(a, n);
    ReleaseValid(a, n);
    if 1 <= requested <= a.MemorySize() {
      ReallocIs(a, n, requested);
      MallocFinds(c, requested);
      var m := MallocNode(c, requested);
      if m != 0 {
        MarkValid(c, m);
        SameGeometry(a, c, m);
      }
    }
  }

  // ---- Whole runs

  datatype Call =
    | CallMalloc(requested: nat)
    | CallFree(off: nat)
    | CallSafeFree(off: nat, requested: nat)
    | CallRealloc(off: nat, requested: nat)
    | CallReserve(off: nat, requested: nat)

  /** What the program demands: realloc wants the address of a block. */
  ghost predicate Allowed(a: Arena, call: Call)
    requires a.Valid()
  {
    call.CallRealloc? ==> exists n: nat :: a.Block(n) && a.OffsetOf(n) == call.off
  }

  function Step(a: Arena, call: Call): (b: Arena)
    requires a.Valid()
  {
    match call
    case CallMalloc(requested) => Malloc(a, requested).0
    case CallFree(off) => Free(a, off)
    case CallSafeFree(off, requested) => SafeFree(a, off, requested).0
    case CallRealloc(off, requested) => Realloc(a, off, requested).0
    case CallReserve(off, requested) => Reserve(a, off, requested)
  }

  lemma {:induction false} StepValid(a: Arena, call: Call)
    requires a.Valid() && Allowed(a, call)
    ensures Step(a, call).Valid() && Step(a, call) == a.(st := Step(a, call).st)
  {
    hide Realloc;
    match call
    case CallMalloc(requested) => MallocGives(a, requested);
    case CallFree(off) => FreeTakesBack(a, off);
    case CallSafeFree(off, requested) => SafeFreeExact(a, off, requested);
    case CallRealloc(off, requested) => ReallocValid(a, off, requested);
    case CallReserve(off, requested) => ReserveValid(a, off, requested);
  }

  lemma {:induction false} ReallocValid(a: Arena, off: nat, requested: nat)
    requires a.Valid() && Allowed(a, CallRealloc(off, requested))
    ensures var b := Realloc(a, off, requested).0; b.Valid() && b == a.(st := b.st)
  {
    var n: nat :| a.Block(n) && a.OffsetOf(n) == off;
    if 1 <= requested <= a.MemorySize() {
      ReallocGives(a, n, requested);
    } else {
      FreeTakesBack(a, off);
    }
  }

  lemma {:induction false} ReserveValid(a: Arena, off: nat, requested: nat)
    requires a.Valid()
    ensures var b := Reserve(a, off, requested); b.Valid() && b == a.(st := b.st)
  {
    if requested >= 1 && off + requested <= a.MemorySize() {
      ReservedInMemory(a, off, requested);
      MarkLeavesValid(a, a.LeafAt(off), SlotsFor(a, requested));
    }
  }

  // ---- What each block was asked for

  /** For every block that malloc or realloc handed out and that is still there: the size asked for. */
  type Ledger = map<nat, nat>

  function StillThere(asked: Ledger, b: Arena): Ledger
    requires Shape(b.order, b.st)
  {
    map n | n in asked && b.Block(n) :: asked[n]
  }

  function StepLedger(a: Arena, call: Call, asked: Ledger): (r: Ledger)
    requires a.Valid() && Allowed(a, call)
  {
    StepValid(a, call);
    match call
    case CallMalloc(requested) => WithNew(asked, Step(a, call), MallocNode(a, requested), Request(requested))
    case CallRealloc(off, requested) =>
      FreeTakesBack(a, off);
      WithNew(asked, Step(a, call), if requested == 0 then 0 else MallocNode(Free(a, off), requested), requested)
    case _ => StillThere(asked, Step(a, call))
  }

  function WithNew(asked: Ledger, b: Arena, n: nat, requested: nat): Ledger
    requires Shape(b.order, b.st)
  {
    if n == 0 then StillThere(asked, b) else StillThere(asked, b)[n := requested]
  }

  /** Block n holds the request, and less than twice as much. */
  predicate HoldsRequest(a: Arena, n: nat, requested: nat)
    requires IsNode(a.order, n)
  {
    Max(requested, a.Alignment()) <= a.SizeOf(n) < 2 * Max(requested, a.Alignment())
  }

  /** Blocks in the ledger hold what was asked for; all others are reserved slots. */
  ghost predicate LedgerOk(a: Arena, asked: Ledger)
    requires Shape(a.order, a.st)
  {
    && (forall n: nat {:trigger a.Block(n)} :: n in asked ==> a.Block(n) && HoldsRequest(a, n, asked[n]))
    && forall n: nat {:trigger a.Block(n)} :: a.Block(n) && n !in asked ==> 2 * n >= Pow2(a.order.levels)
  }

  lemma {:induction false} LedgerShrinks(a: Arena, b: Arena, asked: Ledger)
    requires a.Valid() && b.Valid() && b == a.(st := b.st) && LedgerOk(a, asked)
    requires forall m: nat :: b.Block(m) ==> a.Block(m) || 2 * m >= Pow2(a.order.levels)
    ensures LedgerOk(b, StillThere(asked, b))
  {
    hide FirstLeaf, MaxStatus;
    forall n: nat | n in StillThere(asked, b) ensures b.Block(n) && HoldsRequest(b, n, asked[n]) {
      assert a.Block(n);
      SameGeometry(a, b, n);
    }
  }

  lemma {:induction false} LedgerGrows(a: Arena, b: Arena, asked: Ledger, n: nat, requested: nat)
    requires a.Valid() && b.Valid() && b == a.(st := b.st) && LedgerOk(a, asked)
    requires b.Block(n) && HoldsRequest(b, n, requested)
    requires forall m: nat :: b.Block(m) ==> a.Block(m) || m == n
    ensures LedgerOk(b, StillThere(asked, b)[n := requested])
  {
    hide FirstLeaf, MaxStatus;
    var after := StillThere(asked, b)[n := requested];
    forall m: nat | m in after ensures b.Block(m) && HoldsRequest(b, m, after[m]) {
      if m != n {
        assert a.Block(m);
        SameGeometry(a, b, m);
      }
    }
  }

  lemma {:induction false} StepLedgerOk(a: Arena, call: Call, asked: Ledger)
    requires a.Valid() && Allowed(a, call) && LedgerOk(a, asked)
    ensures Step(a, call).Valid() && LedgerOk(Step(a, call), StepLedger(a, call, asked))
  {
    hide Realloc, LedgerOk;
    StepValid(a, call);
    match call
    case CallMalloc(requested) => MallocLedger(a, requested, asked);
    case CallFree(off) =>
      FreeTakes(a, off);
      LedgerShrinks(a, Free(a, off), asked);
    case CallSafeFree(off, requested) =>
      SafeFreeTakes(a, off, requested);
      LedgerShrinks(a, SafeFree(a, off, requested).0, asked);
    case CallRealloc(off, requested) => ReallocLedger(a, off, requested, asked);
    case CallReserve(off, requested) =>
      ReserveTakes(a, off, requested);
      LedgerShrinks(a, Reserve(a, off, requested), asked);
  }

  lemma {:induction false} FreeTakes(a: Arena, off: nat)
    requires a.Valid()
    ensures Free(a, off).Valid() && forall m: nat :: Free(a, off).Block(m) ==> a.Block(m)
  {
    FreeTakesBack(a, off);
    if n: nat :| a.Block(n) && a.OffsetOf(n) == off {
    }
  }

  lemma {:induction false} SafeFreeTakes(a: Arena, off: nat, requested: nat)
    requires a.Valid()
    ensures SafeFree(a, off, requested).0.Valid()
    ensures forall m: nat :: SafeFree(a, off, requested).0.Block(m) ==> a.Block(m)
  {
    SafeFreeExact(a, off, requested);
    if n: nat :| a.Block(n) && a.OffsetOf(n) == off {
      SafeFreeOfBlock(a, n, requested);
    }
  }

  lemma {:induction false} ReserveTakes(a: Arena, off: nat, requested: nat)
    requires a.Valid()
    ensures Reserve(a, off, requested).Valid()
    ensures forall m: nat :: Reserve(a, off, requested).Block(m) ==> a.Block(m) || 2 * m >= Pow2(a.order.levels)
  {
    ReserveValid(a, off, requested);
    if requested >= 1 && off + requested <= a.MemorySize() {
      ReservedInMemory(a, off, requested);
      MarkLeavesValid(a, a.LeafAt(off), SlotsFor(a, requested));
      HalfTree(a);
    }
  }

  lemma {:induction false} MallocLedger(a: Arena, requested: nat, asked: Ledger)
    requires a.Valid() && LedgerOk(a, asked)
    ensures Malloc(a, requested).0.Valid()
    ensures LedgerOk(Malloc(a, requested).0, StepLedger(a, CallMalloc(requested), asked))
  {
    hide LedgerOk;
    MallocGives(a, requested);
    MallocFinds(a, requested);
    var n, b := MallocNode(a, requested), Malloc(a, requested).0;
    if n == 0 {
      LedgerShrinks(a, b, asked);
    } else {
      SameGeometry(a, b, n);
      LedgerGrows(a, b, asked, n, Request(requested));
    }
  }

  lemma {:induction false} ReallocLedger(a: Arena, off: nat, requested: nat, asked: Ledger)
    requires a.Valid() && Allowed(a, CallRealloc(off, requested)) && LedgerOk(a, asked)
    ensures Realloc(a, off, requested).0.Valid()
    ensures LedgerOk(Realloc(a, off, requested).0, StepLedger(a, CallRealloc(off, requested), asked))
  {
    hide LedgerOk;
    var n: nat :| a.Block(n) && a.OffsetOf(n) == off;
    var b := Realloc(a, off, requested).0;
    FreeTakes(a, off);
    if 1 <= requested <= a.MemorySize() {
      hide Realloc;
      var m := MallocNode(Free(a, off), requested);
      ReallocGives(a, n, requested);
      if m != 0 {
        SameGeometry(a, b, m);
        LedgerGrows(a, b, asked, m, requested);
      } else {
        LedgerShrinks(a, b, asked);
      }
    } else {
      FreeTakesBack(a, off);
      LedgerShrinks(a, b, asked);
    }
  }

  // ---- Runs

  /** b is reached from a by some sequence of allowed calls; after is then the ledger. */
  ghost predicate Reaches(a: Arena, asked: Ledger, calls: seq<Call>, b: Arena, after: Ledger)
    decreases |calls|
  {
    if calls == [] then a == b && asked == after
    else
      && a.Valid() && Allowed(a, calls[0])
      && Reaches(Step(a, calls[0]), StepLedger(a, calls[0], asked), calls[1..], b, after)
  }

  /** After every sequence of calls the blocks are disjoint, in memory and aligned to their size, and
      each holds what was asked for and less than twice as much. */
  lemma {:induction false} RunsAreSafe(a: Arena, asked: Ledger, calls: seq<Call>, b: Arena, after: Ledger)
    requires a.Valid() && LedgerOk(a, asked) && Reaches(a, asked, calls, b, after)
    ensures b.Valid() && Safe(b) && LedgerOk(b, after) && b == a.(st := b.st)
    decreases |calls|
  {
    hide LedgerOk, StepLedger, Step;
    if calls == [] {
      ValidIsSafe(a);
    } else {
      StepValid(a, calls[0]);
      StepLedgerOk(a, calls[0], asked);
      RunsAreSafe(Step(a, calls[0]), StepLedger(a, calls[0], asked), calls[1..], b, after);
    }
  }

  lemma {:induction false} RunsFromInitAreSafe(alignBits: nat, slots: nat, calls: seq<Call>, b: Arena, after: Ledger)
    requires slots >= 1 && Reaches(InitArena(alignBits, slots), map[], calls, b, after)
    ensures b.Valid() && Safe(b) && LedgerOk(b, after) && b.MemorySize() == Times(slots, Pow2(alignBits))
  {
    InitValid(alignBits, slots);
    RunsAreSafe(InitArena(alignBits, slots), map[], calls, b, after);
  }

  /** The arena of the false success is reached: two slots of one byte, the second one reserved. */
  lemma {:induction false} HalfUsedIsReached()
    ensures Reaches(InitArena(0, 2), map[], [CallReserve(1, 1)], HalfUsed(), map[])
  {
    hide Reserve, Reaches;
    var a := InitArena(0, 2);
    InitValid(0, 2);
    FreshPair(a);
    ReservedHalf(a);
    ReachedByOne(a, CallReserve(1, 1), HalfUsed());
  }

  lemma {:induction false} ReachedByOne(a: Arena, call: Call, b: Arena)
    requires a.Valid() && call.CallReserve? && Step(a, call) == b
    ensures Reaches(a, map[], [call], b, map[])
  {
    StepValid(a, call);
    assert StepLedger(a, call, map[]) == map[];
    assert [call][1..] == [];
    assert Reaches(b, map[], [], b, map[]);
  }

  lemma {:induction false} FreshPair(a: Arena)
    requires a == InitArena(0, 2)
    ensures a == Arena(Order(2), 0, 2, [0, 0, 0, 0])
  {
    hide MarkTail;
    SmallPowers();
    assert CeilLog2(2) == 1 + CeilLog2(1);
    assert Zeros(Order(2)) == [0, 0, 0, 0];
  }

  lemma {:induction false} ReservedHalf(a: Arena)
    requires a == Arena(Order(2), 0, 2, [0, 0, 0, 0]) && a.Sized()
    ensures Reserve(a, 1, 1) == HalfUsed()
  {
    SmallPowers();
    TimesIs(2, 1);
    QuotIs(1, 1);
    LeafWidth(a.order, 3);
    ReservedInMemory(a, 1, 1);
    assert a.LeafAt(1) == 3 && SlotsFor(a, 1) == 1;
    var st := [0, 0, 0, 1];
    assert a.st[3 := 1] == st;
    assert st[1 := Combine(st[2], st[3])] == [0, 1, 0, 1];
    assert Repair([0, 1, 0, 1], 1) == [0, 1, 0, 1];
    assert Mark(a.order, a.st, 3) == [0, 1, 0, 1];
    assert MarkLeaves(a.order, [0, 1, 0, 1], 4, 0) == [0, 1, 0, 1];
  }

  /** Two slots of one byte, both of them one block. */
  function Whole(): Arena { Arena(Order(2), 0, 2, [0, 2, 0, 0]) }

  /** That arena is reached by a call of malloc. */
  lemma {:induction false} WholeIsReached()
    ensures Reaches(InitArena(0, 2), map[], [CallMalloc(2)], Whole(), map[1 := 2])
  {
    hide Malloc, StepLedger, MallocNode, Reaches;
    var a := InitArena(0, 2);
    InitValid(0, 2);
    FreshPair(a);
    WholeTaken(a);
    StepValid(a, CallMalloc(2));
    WholeNoted(a);
    ReachedByMalloc(a, 2, Whole(), map[1 := 2]);
  }

  lemma {:induction false} ReachedByMalloc(a: Arena, requested: nat, b: Arena, asked: Ledger)
    requires a.Valid() && Step(a, CallMalloc(requested)) == b && StepLedger(a, CallMalloc(requested), map[]) == asked
    ensures Reaches(a, map[], [CallMalloc(requested)], b, asked)
  {
    hide StepLedger, Step;
    assert [CallMalloc(requested)][1..] == [];
    assert Reaches(b, asked, [], b, asked);
  }

  lemma {:induction false} WholeTaken(a: Arena)
    requires a == Arena(Order(2), 0, 2, [0, 0, 0, 0]) && a.Valid()
    ensures MallocNode(a, 2) == 1 && Malloc(a, 2).0 == Whole()
  {
    SmallPowers();
    TimesIs(2, 1);
    QuotIs(2, 2);
    RootDepth(a);
    assert DepthForSize(a, 2) == 1;
    assert Descend(a.st, 1, 0) == 1;
    assert a.st[1 := 2] == [0, 2, 0, 0];
    assert Repair([0, 2, 0, 0], 1) == [0, 2, 0, 0];
  }

  lemma {:induction false} RootDepth(a: Arena)
    requires a.order == Order(2)
    ensures IsNode(a.order, 1) && MaxStatus(a.order, 1) == 2
  {
    SmallPowers();
  }

  lemma {:induction false} WholeNoted(a: Arena)
    requires a.Valid() && MallocNode(a, 2) == 1 && Malloc(a, 2).0 == Whole() && Whole().Valid()
    ensures StepLedger(a, CallMalloc(2), map[]) == map[1 := 2]
  {
    hide Malloc, MallocNode;
  }

  /** Reserving its first byte takes the block away from whoever holds it. */
  lemma {:induction false} ReserveLosesBlock(a: Arena)
    requires a == Whole()
    ensures a.Valid() && a.Block(1) && Reserve(a, 0, 1).Valid() && !Reserve(a, 0, 1).Block(1)
  {
    var empty := InitArena(0, 2);
    InitValid(0, 2);
    FreshPair(empty);
    WholeTaken(empty);
    StepValid(empty, CallMalloc(2));
    WholeBlock(a);
    WholeReserved(a);
    ReserveValid(a, 0, 1);
  }

  lemma {:induction false} WholeBlock(a: Arena)
    requires a == Whole() && a.Valid()
    ensures a.Block(1)
  {
    SmallPowers();
    RootDepth(a);
    TimesIs(1, 2);
  }

  lemma {:induction false} WholeReserved(a: Arena)
    requires a == Whole() && a.Valid()
    ensures Reserve(a, 0, 1).st == [0, 1, 1, 0] && !Reserve(a, 0, 1).Block(1)
  {
    SmallPowers();
    RootDepth(a);
    TimesIs(2, 1);
    QuotIs(1, 1);
    QuotIs(0, 1);
    LeafWidth(a.order, 2);
    ReservedInMemory(a, 0, 1);
    assert a.LeafAt(0) == 2 && SlotsFor(a, 1) == 1;
    var st := [0, 2, 1, 0];
    assert a.st[2 := 1] == st;
    assert st[1 := Combine(st[2], st[3])] == [0, 1, 1, 0];
    assert Repair([0, 1, 1, 0], 1) == [0, 1, 1, 0];
    assert Mark(a.order, a.st, 2) == [0, 1, 1, 0];
    assert MarkLeaves(a.order, [0, 1, 1, 0], 3, 0) == [0, 1, 1, 0];
  }
}
