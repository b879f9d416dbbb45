/** What the calls of the allocator do, said of blocks, bytes and sizes alone: which block malloc takes,
    which slots a reservation takes, and when safe_free answers true. */
module ArenaEffects {
  import opened Numbers
  import opened Options
  import opened PowersOfTwo
  import opened Products
  import opened TreeLayout
  import opened StatusTree
  import opened Arenas
  import opened ArenaCalls
  import opened ArenaRuns

  // ---- Geometry

  /** The two halves of a block, and the smallest blocks. */
  lemma {:induction false} HalvesOfBlock(a: Arena, n: nat)
    requires a.Sized() && IsNode(a.order, n)
    ensures n == 1 ==> a.OffsetOf(n) == 0
    ensures 2 * n < Pow2(a.order.levels) ==>
              && IsNode(a.order, 2 * n) && IsNode(a.order, 2 * n + 1)
              && a.SizeOf(n) == a.SizeOf(2 * n) + a.SizeOf(2 * n + 1) && a.SizeOf(2 * n) == a.SizeOf(2 * n + 1)
              && a.OffsetOf(2 * n) == a.OffsetOf(n) && a.OffsetOf(2 * n + 1) == a.OffsetOf(n) + a.SizeOf(2 * n)
    ensures 2 * n >= Pow2(a.order.levels) ==> a.SizeOf(n) == a.Alignment()
  {
    hide Times;
    LeafWidth(a.order, n);
    RowOfNode(a.order, n);
    TimesIs(1, a.Alignment());
    if n == 1 {
      TimesIs(a.SizeOf(1), 0);
    }
    if 2 * n < Pow2(a.order.levels) {
      EvenSplit(a.order.levels, n);
      var half := a.SizeOf(2 * n);
      TimesAdd(Pow2(MaxStatus(a.order, n) - 2), Pow2(MaxStatus(a.order, n) - 2), a.Alignment());
      var row := RowPosition(a.order, n);
      RowOfNode(a.order, 2 * n);
      RowOfNode(a.order, 2 * n + 1);
      TimesTwice(half, row);
      OneMore(half, 2 * row);
    }
  }

  lemma {:induction false} EvenSplit(levels: nat, n: nat)
    requires levels >= 1 && 2 * n < Pow2(levels)
    ensures 2 * n + 1 < Pow2(levels)
  {
  }

  lemma {:induction false} OneMore(x: nat, y: nat)
    ensures Times(x, y + 1) == Times(x, y) + x
  {
    TimesComm(x, y);
    TimesComm(x, y + 1);
  }

  // ---- malloc

  /** A free block of the size that malloc looks for: at least the request, and less than twice that. */
  ghost predicate Fits(a: Arena, requested: nat, i: nat)
    requires a.Sized()
  {
    var need := Max(Max(requested, 1), a.Alignment());
    FreeNode(a.order, a.st, i) && need <= a.SizeOf(i) < 2 * need
  }

  /** A size in that range belongs to one depth only. */
  lemma {:induction false} FitsIsDepth(a: Arena, req: nat, i: nat)
    requires a.Sized() && 1 <= req <= a.MemorySize() && IsNode(a.order, i)
    ensures var need := Max(req, a.Alignment());
            need <= a.SizeOf(i) < 2 * need <==> Depth(a.order, i) == DepthForSize(a, req)
  {
    hide DepthFor, Times;
    DepthForSizeFits(a, req);
    var need, e := Max(req, a.Alignment()), a.order.levels - 1 + a.alignBits;
    var d := DepthForSize(a, req);
    MemoryInTree(a);
    Pow2Mono(a.alignBits, e);
    DepthForFits(e, need);
    Pow2Times(MaxStatus(a.order, i) - 1, a.alignBits);
    var size := Pow2(e + 1 - Depth(a.order, i));
    assert a.SizeOf(i) == size;
    if Depth(a.order, i) < d {
      Pow2StrictMono(e + 1 - d, e + 1 - Depth(a.order, i));
      Pow2Mono(e + 2 - d, e + 1 - Depth(a.order, i));
    } else if Depth(a.order, i) > d {
      Pow2Mono(e + 1 - Depth(a.order, i), e - d);
    }
  }

  /** malloc takes, of the free blocks that fit, the one that is preferred to all others. It fails exactly
      if the memory is too small or no free block fits. */
  lemma {:induction false} MallocExact(a: Arena, requested: nat)
    requires a.Valid()
    ensures var n := MallocNode(a, requested);
            && (n == 0 <==> requested > a.MemorySize() || forall i: nat :: !Fits(a, requested, i))
            && (n != 0 ==> Fits(a, requested, n)
                           && forall i: nat :: Fits(a, requested, i) && i != n ==> Preferred(a.st, n, i))
            && Malloc(a, requested) ==
               if n == 0 then (a, None) else (a.(st := Mark(a.order, a.st, n)), Some(a.OffsetOf(n)))
  {
    MallocFinds(a, requested);
    var req := Max(requested, 1);
    if req <= a.MemorySize() {
      DepthForSizeFits(a, req);
      FindFreeExact(a.order, a.st, DepthForSize(a, req));
      forall i: nat
        ensures Fits(a, requested, i) <==> FreeNode(a.order, a.st, i) && Depth(a.order, i) == DepthForSize(a, req)
      {
        if IsNode(a.order, i) {
          FitsIsDepth(a, req, i);
        }
      }
      forall i: nat | Fits(a, requested, i) && i != MallocNode(a, requested)
        ensures Preferred(a.st, MallocNode(a, requested), i)
      {
        FindFreePrefers(a.order, a.st, DepthForSize(a, req), i);
      }
    } else {
      MemoryIsThere(a);
    }
  }

  lemma {:induction false} MemoryIsThere(a: Arena)
    requires a.Sized()
    ensures a.MemorySize() >= 1
  {
    TimesMono(1, a.slots, a.Alignment());
    TimesIs(1, a.Alignment());
  }

  // ---- Reservations

  /** A slot that the reservation takes: it ends behind off, and begins within the requested number of bytes
      from the start of the slot of off. */
  predicate Wanted(a: Arena, off: nat, requested: nat, i: nat) {
    && IsNode(a.order, i) && 2 * i >= Pow2(a.order.levels)
    && a.OffsetOf(i) + a.Alignment() > off && a.OffsetOf(i) < off - Rem(off, a.Alignment()) + requested
  }

  ghost predicate CoversWanted(a: Arena, off: nat, requested: nat, m: nat) {
    exists i: nat :: Wanted(a, off, requested, i) && Above(m, i)
  }

  /** A reservation within the memory hands out these slots one by one, and takes away the larger blocks that
      they are part of. Any other reservation does nothing. */
  lemma {:induction false} ReserveTakes(a: Arena, off: nat, requested: nat)
    requires a.Valid()
    ensures var b := Reserve(a, off, requested);
            if requested == 0 || off + requested > a.MemorySize() then b == a else
              && b.Valid() && b == a.(st := b.st)
              && forall m: nat :: b.Block(m) <==>
                   Wanted(a, off, requested, m) || (a.Block(m) && !CoversWanted(a, off, requested, m))
  {
    hide Wanted, CutInto, CoversWanted;
    if requested != 0 && off + requested <= a.MemorySize() {
      var leaf, count := a.LeafAt(off), SlotsFor(a, requested);
      ReservedInMemory(a, off, requested);
      MarkLeavesValid(a, leaf, count);
      var b := Reserve(a, off, requested);
      forall m: nat
        ensures b.Block(m) <==> Wanted(a, off, requested, m) || (a.Block(m) && !CoversWanted(a, off, requested, m))
      {
        WantedIs(a, off, requested, m);
        CutIs(a, off, requested, m);
      }
    }
  }

  lemma {:induction false} WantedIs(a: Arena, off: nat, requested: nat, i: nat)
    requires a.Sized() && requested >= 1 && off + requested <= a.MemorySize()
    ensures Wanted(a, off, requested, i) <==> a.LeafAt(off) <= i < a.LeafAt(off) + SlotsFor(a, requested)
  {
    hide Times, Quot, Rem;
    ReservedInMemory(a, off, requested);
    HalfTree(a);
    if a.LeafBase() <= i < 2 * a.LeafBase() {
      LeafOffset(a, i);
      QuotRem(off, a.Alignment());
      SlotRange(i - a.LeafBase(), Quot(off, a.Alignment()), off, requested, a.Alignment());
    }
  }

  lemma {:induction false} LeafOffset(a: Arena, i: nat)
    requires a.Sized() && IsNode(a.order, i) && 2 * i >= Pow2(a.order.levels)
    ensures i >= a.LeafBase() && a.OffsetOf(i) == Times(i - a.LeafBase(), a.Alignment())
  {
    HalfTree(a);
    LeafWidth(a.order, i);
    OffsetIsLeaves(a, i);
    TimesIs(i, 1);
  }

  lemma {:induction false} SlotRange(k: nat, q: nat, off: nat, requested: nat, d: nat)
    requires d >= 1 && requested >= 1 && Times(q, d) <= off < Times(q, d) + d
    ensures Times(k, d) + d > off <==> k >= q
    ensures Times(k, d) < Times(q, d) + requested <==> k < q + Quot(requested + d - 1, d)
  {
    hide Times, Quot, Rem;
    TimesIs(1, d);
    TimesAdd(k, 1, d);
    if k >= q {
      TimesMono(q, k, d);
      var j, count: nat := k - q, Quot(requested + d - 1, d);
      TimesAdd(q, j, d);
      QuotRem(requested + d - 1, d);
      TimesAdd(j, 1, d);
      if j < count {
        TimesMono(j + 1, count, d);
      } else {
        TimesMono(count, j, d);
      }
    } else {
      TimesMono(k + 1, q, d);
    }
  }

  lemma {:induction false} CutIs(a: Arena, off: nat, requested: nat, m: nat)
    requires a.Sized() && requested >= 1 && off + requested <= a.MemorySize()
    ensures CoversWanted(a, off, requested, m) <==> CutInto(m, a.LeafAt(off), SlotsFor(a, requested))
  {
    hide Wanted;
    forall i: nat
      ensures Wanted(a, off, requested, i) <==> a.LeafAt(off) <= i < a.LeafAt(off) + SlotsFor(a, requested)
    {
      WantedIs(a, off, requested, i);
    }
  }

  // ---- safe_free

  /** Of the nodes that begin at off, n is the smallest one that is used at all. */
  ghost predicate SmallestUsed(a: Arena, off: nat, n: nat)
    requires a.Sized()
  {
    && IsNode(a.order, n) && a.OffsetOf(n) == off && a.st[n] != 0
    && forall m: nat {:trigger a.SizeOf(m)} ::
         IsNode(a.order, m) && a.OffsetOf(m) == off && a.SizeOf(m) < a.SizeOf(n) ==> a.st[m] == 0
  }

  /** safe_free answers true exactly if the size fits that node: more than half of it, and no more than all. */
  lemma {:induction false} SafeFreeIff(a: Arena, off: nat, requested: nat)
    requires a.Valid()
    ensures SafeFree(a, off, requested).1 <==>
              off < a.MemorySize()
              && exists n: nat :: SmallestUsed(a, off, n) && FitsBlock(a, n, requested)
  {
    hide SmallestUsed, Times, Quot, Rem, FitsBlock, PositionFor;
    if off < a.MemorySize() {
      var p := PositionFor(a, off);
      if p != 0 {
        FoundIsSmallest(a, off);
      }
      forall n: nat | SmallestUsed(a, off, n) ensures n == p != 0 {
        SmallestIsFound(a, off, n);
      }
      SafeFreeFits(a, off, requested);
      if p != 0 && FitsBlock(a, p, requested) {
        assert SmallestUsed(a, off, p) && FitsBlock(a, p, requested);
      } else {
        assert !SafeFree(a, off, requested).1;
      }
    }
  }

  lemma {:induction false} SafeFreeFits(a: Arena, off: nat, requested: nat)
    requires a.Valid() && off < a.MemorySize()
    ensures SafeFree(a, off, requested).1 <==> PositionFor(a, off) != 0 && FitsBlock(a, PositionFor(a, off), requested)
  {
  }

  lemma {:induction false} FoundIsSmallest(a: Arena, off: nat)
    requires a.Valid() && off < a.MemorySize() && PositionFor(a, off) != 0
    ensures SmallestUsed(a, off, PositionFor(a, off))
  {
    hide Owner, Arena.OffsetOf, Arena.SizeOf, FirstLeaf, Under;
    FoundIs(a, off);
    OffsetInTree(a, off);
    var n, leaf := PositionFor(a, off), a.LeafAt(off);
    LeafOffset(a, leaf);
    QuotRem(off, a.Alignment());
    forall m: nat | IsNode(a.order, m) && a.OffsetOf(m) == off && a.SizeOf(m) < a.SizeOf(n) ensures a.st[m] == 0 {
      SameStart(a, m, leaf);
      SmallerIsDeeper(a, m, n);
      OwnerZeros(a.st, leaf, m);
    }
  }

  /** A leaf with the same offset as a node lies below it. */
  lemma {:induction false} SameStart(a: Arena, m: nat, leaf: nat)
    requires a.Sized() && IsNode(a.order, m) && IsNode(a.order, leaf) && 2 * leaf >= Pow2(a.order.levels)
    requires a.OffsetOf(m) == a.OffsetOf(leaf)
    ensures Under(leaf, m)
  {
    hide Under, FirstLeaf, Arena.OffsetOf, Times;
    LeafOffset(a, leaf);
    OffsetIsLeaves(a, m);
    LeafRange(a.order, m);
    TimesOrder(FirstLeaf(a.order, m) - a.LeafBase(), leaf - a.LeafBase(), a.Alignment());
    LeavesUnder(a.order, m, leaf);
  }

  lemma {:induction false} SmallerIsDeeper(a: Arena, m: nat, n: nat)
    requires a.Sized() && IsNode(a.order, m) && IsNode(a.order, n) && a.SizeOf(m) < a.SizeOf(n)
    ensures m > n
  {
    hide Times;
    DepthBrackets(a.order, m);
    DepthBrackets(a.order, n);
    var d, e := Depth(a.order, m), Depth(a.order, n);
    if d <= e {
      Pow2Mono(MaxStatus(a.order, n) - 1, MaxStatus(a.order, m) - 1);
      TimesMono(Pow2(MaxStatus(a.order, n) - 1), Pow2(MaxStatus(a.order, m) - 1), a.Alignment());
    } else {
      Pow2Mono(e, d - 1);
    }
  }

  lemma {:induction false} OwnerZeros(st: Statuses, i: nat, m: nat)
    requires i < |st| && Under(i, m) && m > Owner(st, i)
    ensures m < |st| && st[m] == 0
    decreases i
  {
    if st[i] == 0 && i != m {
      OwnerZeros(st, i / 2, m);
    }
  }

  lemma {:induction false} SmallestIsFound(a: Arena, off: nat, n: nat)
    requires a.Valid() && off < a.MemorySize() && SmallestUsed(a, off, n)
    ensures PositionFor(a, off) == n != 0
  {
    hide Owner, Arena.OffsetOf, Arena.SizeOf, FirstLeaf, Under, Quot, Rem, Times;
    OffsetIsLeaves(a, n);
    var k := FirstLeaf(a.order, n) - a.LeafBase();
    DivTimes(k, a.Alignment());
    OffsetInTree(a, off);
    var leaf := a.LeafAt(off);
    LeafOffset(a, leaf);
    SameStart(a, n, leaf);
    OwnerClimbs(a, off, leaf, n);
  }

  lemma {:induction false} OwnerClimbs(a: Arena, off: nat, i: nat, n: nat)
    requires a.Sized() && IsNode(a.order, i) && Under(i, n) && a.OffsetOf(i) == off && SmallestUsed(a, off, n)
    ensures Owner(a.st, i) == n
    decreases i
  {
    hide Arena.OffsetOf, Arena.SizeOf;
    if i != n {
      UnderWithin(a, i, n);
      UnderWithin(a, i / 2, n);
      HalvesOfBlock(a, i / 2);
      OwnerClimbs(a, off, i / 2, n);
    }
  }

  /** What lies below a node lies within it. */
  lemma {:induction false} UnderWithin(a: Arena, m: nat, n: nat)
    requires a.Sized() && IsNode(a.order, m) && Under(m, n)
    ensures IsNode(a.order, n) && a.OffsetOf(n) <= a.OffsetOf(m) && a.SizeOf(m) > 0
    ensures if m == n then true else a.SizeOf(m) < a.SizeOf(n)
    decreases m
  {
    hide Arena.OffsetOf, Arena.SizeOf;
    SizeIsPositive(a, m);
    if m != n {
      HalvesOfBlock(a, m / 2);
      UnderWithin(a, m / 2, n);
    }
  }

  lemma {:induction false} SizeIsPositive(a: Arena, m: nat)
    requires IsNode(a.order, m)
    ensures a.SizeOf(m) > 0
  {
    TimesMono(1, Pow2(MaxStatus(a.order, m) - 1), a.Alignment());
    TimesIs(1, a.Alignment());
  }
}
