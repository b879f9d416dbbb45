/** The sandbox slots of engine.c: address spaces cut into slots by buddy allocators.

    Each space keeps its allocator as an arena on values, which the class Buddy implements. */
module SlotEngine {
  import opened Options
  import opened PowersOfTwo
  import opened Products
  import opened TreeLayout
  import opened StatusTree
  import opened Arenas
  import opened ArenaCalls
  import opened ArenaRuns
  import opened TreeWalk
  import opened BuddyClass

  /** LFI_ADDR_SPACE_MAX */
  const MAX_SPACES := 16

  /** The allocator shifts 32-bit ones by the order of its tree. */
  const MAX_SLOTS := 0x4000_0000

  datatype Space = Space(base: nat, active: nat, alloc: Arena) {
    function Size(): nat { alloc.MemorySize() }
    function Address(n: nat): nat requires IsNode(alloc.order, n) { base + alloc.OffsetOf(n) }
  }

  // ---- One space

  /** Only single slots are handed out. */
  ghost predicate OnlySlots(a: Arena)
    requires a.Valid()
  {
    forall n: nat {:trigger a.Block(n)} :: a.Block(n) ==> n >= a.LeafBase()
  }

  /** The slots in use, without the two guards at the ends. */
  ghost function Slots(a: Arena): set<nat>
    requires a.Valid()
  {
    set n: nat | a.LeafBase() < n < a.LeafBase() + a.slots - 1 && a.Block(n)
  }

  ghost predicate Guarded(a: Arena)
    requires a.Valid()
  {
    a.Block(a.LeafBase()) && a.Block(a.LeafBase() + a.slots - 1)
  }

  /** How many slots a space has for sandboxes. */
  function Usable(a: Arena): nat { if a.slots >= 2 then a.slots - 2 else 0 }

  ghost predicate SpaceOk(p2size: nat, s: Space) {
    && s.alloc.Valid() && s.alloc.alignBits == p2size && s.alloc.slots <= MAX_SLOTS
    && OnlySlots(s.alloc) && Guarded(s.alloc)
    && s.active == |Slots(s.alloc)|
    && Rem(s.base, Pow2(p2size)) == 0
  }

  lemma {:induction false} IntervalSubset(lo: nat, n: nat, s: set<nat>)
    requires s <= Interval(lo, n)
    ensures |s| <= n && (|s| == n <==> s == Interval(lo, n))
  {
    IntervalSize(lo, n);
    var rest := Interval(lo, n) - s;
    assert Interval(lo, n) == s + rest;
    assert rest == {} <==> s == Interval(lo, n);
  }

  /** A slot is one leaf. */
  lemma {:induction false} SlotIsLeaf(a: Arena, n: nat)
    requires a.Valid() && a.LeafBase() <= n < a.LeafBase() + a.slots
    ensures IsNode(a.order, n) && 2 * n >= Pow2(a.order.levels)
    ensures FirstLeaf(a.order, n) == n && EndLeaf(a.order, n) == n + 1
    ensures a.SizeOf(n) == a.Alignment() && a.OffsetOf(n) == Times(n - a.LeafBase(), a.Alignment())
  {
    HalfTree(a);
    LeafWidth(a.order, n);
    TimesIs(n, 1);
    TimesIs(1, a.Alignment());
    OffsetIsLeaves(a, n);
  }

  /** A slot in memory is free unless it was handed out itself. */
  lemma {:induction false} FreeSlotIff(a: Arena, n: nat)
    requires a.Valid() && OnlySlots(a) && a.LeafBase() <= n < a.LeafBase() + a.slots
    ensures IsNode(a.order, n) && (FreeNode(a.order, a.st, n) <==> !a.Block(n))
  {
    SlotIsLeaf(a, n);
    LeafFreeIff(a.order, a.st, n);
    forall m: nat | Under(n, m) && Live(a.order, a.st, m) ensures m == n && a.Block(n) {
      LeavesUnder(a.order, m, n);
      assert a.Block(m);
      UnderIsSame(a, n, m);
    }
    assert Under(n, n);
  }

  lemma {:induction false} UnderIsSame(a: Arena, n: nat, m: nat)
    requires a.order.levels >= 1 && Under(n, m) && m >= Pow2(a.order.levels - 1) && n < Pow2(a.order.levels)
    ensures n == m
  {
    assert Pow2(a.order.levels) == 2 * Pow2(a.order.levels - 1);
    UnderIsTwice(n, m);
  }

  lemma {:induction false} UnderIsTwice(n: nat, m: nat)
    requires Under(n, m)
    ensures n == m || n >= 2 * m
  {
  }

  /** The tree is full exactly when every slot between the guards is in use. */
  lemma {:induction false} FullIffAllUsed(p2size: nat, s: Space)
    requires SpaceOk(p2size, s)
    ensures s.active <= Usable(s.alloc)
    ensures RootFree(s.alloc.order, s.alloc.st) == {} <==> s.active == Usable(s.alloc)
  {
    var a := s.alloc;
    IntervalSubset(a.LeafBase() + 1, Usable(a), Slots(a));
    RoomIsUnused(a);
  }

  /** The free leaves are the slots between the guards that are not in use. */
  lemma {:induction false} RoomIsUnused(a: Arena)
    requires a.Valid() && OnlySlots(a) && Guarded(a)
    ensures RootFree(a.order, a.st) == Interval(a.LeafBase() + 1, Usable(a)) - Slots(a)
  {
    RootIsNode(a.order);
    HalfTree(a);
    forall n: nat | a.LeafBase() <= n < Pow2(a.order.levels)
      ensures FreeNode(a.order, a.st, n) <==> n < a.LeafBase() + a.slots && !a.Block(n)
    {
      if n < a.LeafBase() + a.slots {
        FreeSlotIff(a, n);
      } else if FreeNode(a.order, a.st, n) {
        FreeLeafInMemory(a, n);
      }
    }
  }

  lemma {:induction false} FreeLeafInMemory(a: Arena, n: nat)
    requires a.Valid() && FreeNode(a.order, a.st, n) && n >= a.LeafBase()
    ensures n < a.LeafBase() + a.slots
  {
    if n >= a.LeafBase() + a.slots {
      assert a.HeldBack(n);
      OwnerIs(a.order, a.st, n);
      FreeNotOwned(a.order, a.st, n, n);
    }
  }

  /** A request for one slot is looked up at the depth of the leaves. */
  lemma {:induction false} SlotDepth(a: Arena)
    requires a.Valid()
    ensures a.Alignment() <= a.MemorySize() && DepthForSize(a, a.Alignment()) == a.order.levels
  {
    TimesMono(1, a.slots, a.Alignment());
    TimesIs(1, a.Alignment());
    var d := DepthForSize(a, a.Alignment());
    DepthForSizeFits(a, a.Alignment());
    var n := Pow2(d - 1);
    Pow2Mono(d, a.order.levels);
    assert Pow2(d) == 2 * n;
    DepthIs(a.order, n, d);
    assert a.SizeOf(n) < 2 * a.Alignment();
    FreeLeafSize(a, n);
    if d < a.order.levels {
      Pow2Mono(d, a.order.levels - 1);
    }
  }

  /** As long as the root does not say full, malloc of one slot gives a slot nobody holds. */
  lemma {:induction false} SlotGiven(p2size: nat, s: Space)
    requires SpaceOk(p2size, s) && RootFree(s.alloc.order, s.alloc.st) != {}
    ensures var a := s.alloc;
            var n := MallocNode(a, Pow2(p2size));
            && n != 0 && a.LeafBase() < n < a.LeafBase() + a.slots - 1 && !a.Block(n)
            && Malloc(a, Pow2(p2size)).1 == Some(a.OffsetOf(n))
            && SpaceOk(p2size, Space(s.base, s.active + 1, Malloc(a, Pow2(p2size)).0))
            && Slots(Malloc(a, Pow2(p2size)).0) == Slots(a) + {n}
  {
    hide Malloc, MallocNode, RootFree, FirstLeaf, Arena.OffsetOf, Arena.SizeOf, Times, Pow2, Rem;
    var a := s.alloc;
    SlotFound(a);
    MallocGives(a, Pow2(p2size));
    var b, n := Malloc(a, Pow2(p2size)).0, MallocNode(a, Pow2(p2size));
    assert Slots(b) == Slots(a) + {n};
  }

  lemma {:induction false} SlotFound(a: Arena)
    requires a.Valid() && OnlySlots(a) && Guarded(a) && RootFree(a.order, a.st) != {}
    ensures var n := MallocNode(a, a.Alignment());
            n != 0 && a.LeafBase() < n < a.LeafBase() + a.slots - 1 && !a.Block(n) && Malloc(a, a.Alignment()).1.Some?
  {
    hide DepthFor, StatusTree.FindFree, OnlySlots;
    SlotDepth(a);
    MallocFinds(a, a.Alignment());
    SomeFreeLeaf(a);
    var n := MallocNode(a, a.Alignment());
    FreeLeafSize(a, n);
    FreeLeafInMemory(a, n);
    FreeSlotIff(a, n);
  }

  /** Some free node has the depth of the leaves. */
  lemma {:induction false} SomeFreeLeaf(a: Arena)
    requires a.Valid() && RootFree(a.order, a.st) != {}
    ensures exists i: nat :: FreeNode(a.order, a.st, i) && Depth(a.order, i) == a.order.levels
  {
    RootIsNode(a.order);
    var leaf: nat :| leaf in RootFree(a.order, a.st);
    DepthIs(a.order, leaf, a.order.levels);
  }

  /** A node the size of one slot is a leaf. */
  lemma {:induction false} FreeLeafSize(a: Arena, n: nat)
    requires a.Valid() && IsNode(a.order, n) && a.SizeOf(n) < 2 * a.Alignment()
    ensures n >= a.LeafBase()
  {
    LeafWidth(a.order, n);
    assert Pow2(a.order.levels) == 2 * Pow2(a.order.levels - 1);
    TimesIs(2, a.Alignment());
    if n < a.LeafBase() {
      Pow2Mono(1, MaxStatus(a.order, n) - 1);
      TimesMono(2, Pow2(MaxStatus(a.order, n) - 1), a.Alignment());
    }
  }

  /** Giving a slot back succeeds, and only that slot comes free. */
  lemma {:induction false} SlotTakenBack(p2size: nat, s: Space, n: nat)
    requires SpaceOk(p2size, s) && n in Slots(s.alloc)
    ensures var (b, ok) := SafeFree(s.alloc, s.alloc.OffsetOf(n), Pow2(p2size));
            && ok && s.active >= 1
            && SpaceOk(p2size, Space(s.base, s.active - 1, b))
            && Slots(b) == Slots(s.alloc) - {n}
  {
    hide SafeFree, PositionFor, Arena.OffsetOf, Arena.SizeOf;
    var a := s.alloc;
    SlotIsLeaf(a, n);
    SafeFreeOfSlot(a, a.OffsetOf(n), Pow2(p2size));
    SafeFreeExact(a, a.OffsetOf(n), Pow2(p2size));
    SafeFreeOfBlock(a, n, Pow2(p2size));
    var b := SafeFree(a, a.OffsetOf(n), Pow2(p2size)).0;
    assert Slots(b) == Slots(a) - {n};
  }

  /** Reserving slot k of a space that hands out single slots only. */
  lemma {:induction false} SlotReserved(a: Arena, k: nat)
    requires a.Valid() && OnlySlots(a) && k < a.slots
    ensures Times(k, a.Alignment()) + a.Alignment() <= a.MemorySize()
    ensures var b := Reserve(a, Times(k, a.Alignment()), a.Alignment());
            && b == a.(st := b.st) && b.Valid() && OnlySlots(b)
            && forall n: nat :: b.Block(n) <==> a.Block(n) || n == a.LeafBase() + k
  {
    var d := a.Alignment();
    TimesMono(k + 1, a.slots, d);
    DivTimes(k, d);
    DivTimes(1, d);
    TimesIs(1, d);
    var rest: nat := d - 1;
    assert Quot(d + rest, d) == 1 + Quot(rest, d);
    assert SlotsFor(a, d) == 1;
    SlotIsOpen(a, a.LeafBase() + k);
    MarkLeavesValid(a, a.LeafBase() + k, 1);
    forall m: nat | a.Block(m) ensures !CutInto(m, a.LeafBase() + k, 1) {
    }
  }

  lemma {:induction false} SlotIsOpen(a: Arena, n: nat)
    requires a.Valid() && OnlySlots(a) && a.LeafBase() <= n < a.LeafBase() + a.slots
    ensures IsNode(a.order, n) && OpenLeaf(a.order, a.st, n)
  {
    SlotIsLeaf(a, n);
    forall m: nat | Above(m, n) ensures !Live(a.order, a.st, m) {
      if Live(a.order, a.st, m) {
        assert Under(n, m);
        LeavesUnder(a.order, m, n);
        assert a.Block(m);
        UnderIsSame(a, n, m);
        AboveIsSmaller(m, n);
      }
    }
  }

  /** addspace reserves the first slot of the space and the last one. */
  function WithGuards(a: Arena): Arena
    requires a.Valid() && OnlySlots(a)
  {
    SlotReserved(a, 0);
    Reserve(Reserve(a, 0, a.Alignment()), a.MemorySize() - a.Alignment(), a.Alignment())
  }

  /** In a fresh space only the guards are taken. */
  lemma {:induction false} GuardsOnly(a: Arena)
    requires a.Valid() && forall n: nat :: !a.Block(n)
    ensures var b := WithGuards(a);
            && b.Valid() && OnlySlots(b) && Guarded(b) && Slots(b) == {} && b == a.(st := b.st)
  {
    hide Reserve;
    SlotReserved(a, 0);
    var b := Reserve(a, 0, a.Alignment());
    TimesAdd(a.slots - 1, 1, a.Alignment());
    TimesIs(1, a.Alignment());
    SlotReserved(b, a.slots - 1);
  }

  /** What addspace makes of size bytes from base on. */
  function FreshSpace(p2size: nat, base: nat, size: nat): (s: Space)
    requires Pow2(p2size) <= size
  {
    FreshArena(p2size, size);
    Space(base, 0, WithGuards(InitArena(p2size, Quot(size, Pow2(p2size)))))
  }

  lemma {:induction false} FreshArena(p2size: nat, size: nat)
    requires Pow2(p2size) <= size
    ensures Quot(size, Pow2(p2size)) >= 1
    ensures var a := InitArena(p2size, Quot(size, Pow2(p2size))); a.Valid() && forall n: nat :: !a.Block(n)
  {
    InitValid(p2size, Quot(size, Pow2(p2size)));
  }

  lemma {:induction false} FreshSpaceOk(p2size: nat, base: nat, size: nat)
    requires Pow2(p2size) <= size && Rem(base, Pow2(p2size)) == 0 && Rem(size, Pow2(p2size)) == 0
    requires Quot(size, Pow2(p2size)) <= MAX_SLOTS
    ensures var s := FreshSpace(p2size, base, size);
            SpaceOk(p2size, s) && Slots(s.alloc) == {} && s.base == base && s.Size() == size
  {
    FreshArena(p2size, size);
    GuardsOnly(InitArena(p2size, Quot(size, Pow2(p2size))));
    QuotRem(size, Pow2(p2size));
  }

  /** align.h, for an alignment that is a power of two */
  function Truncp(addr: nat, align: nat): nat requires align >= 1 { Times(Quot(addr, align), align) }
  function Ceilp(addr: nat, align: nat): nat requires align >= 1 { Truncp(addr + align - 1, align) }

  lemma {:induction false} AlignedRegion(base: nat, size: nat, align: nat)
    requires align >= 1 && Ceilp(base, align) <= Truncp(base + size, align)
    ensures base <= Ceilp(base, align) && Truncp(base + size, align) <= base + size
    ensures Rem(Ceilp(base, align), align) == 0
    ensures Rem(Truncp(base + size, align) - Ceilp(base, align), align) == 0
    ensures forall x: nat :: Rem(x, align) == 0 && x >= base ==> x >= Ceilp(base, align)
    ensures forall x: nat :: Rem(x, align) == 0 && x <= base + size ==> x <= Truncp(base + size, align)
  {
    forall x: nat | Rem(x, align) == 0
      ensures x >= base ==> x >= Ceilp(base, align)
      ensures x <= base + size ==> x <= Truncp(base + size, align)
    {
      NearestMultiples(base, x, align);
      NearestMultiples(base + size, x, align);
    }
    QuotRem(base + align - 1, align);
    QuotRem(base + size, align);
    var k, l := Quot(base + align - 1, align), Quot(base + size, align);
    TimesOrder(k, l, align);
    TimesAdd(k, l - k, align);
    DivTimes(k, align);
    DivTimes(l - k, align);
  }

  /** truncp is the greatest multiple up to the address, ceilp the least one from it on. */
  lemma {:induction false} NearestMultiples(addr: nat, x: nat, align: nat)
    requires align >= 1 && Rem(x, align) == 0
    ensures x <= addr ==> x <= Truncp(addr, align)
    ensures x >= addr ==> x >= Ceilp(addr, align)
  {
    hide Quot, Rem, Times;
    QuotRem(x, align);
    QuotRem(addr, align);
    QuotRem(addr + align - 1, align);
    var q := Quot(x, align);
    TimesIs(1, align);
    if x > Truncp(addr, align) {
      TimesOrder(Quot(addr, align), q, align);
      TimesMono(Quot(addr, align) + 1, q, align);
      TimesAdd(Quot(addr, align), 1, align);
    }
    if x < Ceilp(addr, align) {
      TimesOrder(q, Quot(addr + align - 1, align), align);
      TimesMono(q + 1, Quot(addr + align - 1, align), align);
      TimesAdd(q, 1, align);
    }
  }

  // ---- The engine

  /** Two spaces share no address. */
  ghost predicate Apart(s: Space, t: Space) {
    s.base + s.Size() <= t.base || t.base + t.Size() <= s.base
  }

  ghost predicate SpacesOk(p2size: nat, spaces: seq<Space>) {
    && |spaces| <= MAX_SPACES
    && (forall i: nat {:trigger spaces[i]} :: i < |spaces| ==> SpaceOk(p2size, spaces[i]))
    && forall i: nat, j: nat {:trigger spaces[i], spaces[j]} :: i < j < |spaces| ==> Apart(spaces[i], spaces[j])
  }

  ghost predicate Full(s: Space)
    requires s.alloc.Valid()
  {
    RootFree(s.alloc.order, s.alloc.st) == {}
  }

  /** The address is that of slot n of space i, in use. */
  ghost predicate InUse(p2size: nat, spaces: seq<Space>, addr: nat, i: nat, n: nat)
    requires SpacesOk(p2size, spaces)
  {
    i < |spaces| && n in Slots(spaces[i].alloc) && addr == spaces[i].Address(n)
  }

  /** Some slot in use has this address. */
  ghost predicate Held(p2size: nat, spaces: seq<Space>, addr: nat)
    requires SpacesOk(p2size, spaces)
  {
    exists i: nat, n: nat :: InUse(p2size, spaces, addr, i, n)
  }

  /** Nothing but the counters of the space changed, so every slot keeps its address. */
  predicate SamePlace(before: Space, after: Space) {
    after.base == before.base && after.alloc == before.alloc.(st := after.alloc.st)
  }

  /** From before to after, slot n of space i was handed out at this address. */
  ghost predicate HandedOut(p2size: nat, before: seq<Space>, after: seq<Space>, addr: nat, i: nat, n: nat)
    requires SpacesOk(p2size, before) && SpacesOk(p2size, after)
  {
    && i < |before| == |after| && after == before[i := after[i]] && SamePlace(before[i], after[i])
    && n !in Slots(before[i].alloc) && Slots(after[i].alloc) == Slots(before[i].alloc) + {n}
    && InUse(p2size, after, addr, i, n)
  }

  /** The slot that the engine takes next: in the first space that is not full, the one that malloc takes. */
  ghost predicate NextSlot(p2size: nat, spaces: seq<Space>, i: nat, n: nat)
    requires SpacesOk(p2size, spaces)
  {
    && i < |spaces| && (forall l: nat {:trigger spaces[l]} :: l < i ==> Full(spaces[l])) && !Full(spaces[i])
    && n == MallocNode(spaces[i].alloc, Pow2(p2size))
  }

  /** The next slot was handed out, at this address. */
  ghost predicate TookNext(p2size: nat, before: seq<Space>, after: seq<Space>, addr: nat)
    requires SpacesOk(p2size, before) && SpacesOk(p2size, after)
  {
    exists i: nat, n: nat :: NextSlot(p2size, before, i, n) && HandedOut(p2size, before, after, addr, i, n)
  }

  /** Number of sandboxes. */
  function Total(spaces: seq<Space>): nat {
    if spaces == [] then 0 else Total(spaces[..|spaces| - 1]) + spaces[|spaces| - 1].active
  }

  /** Number of slots for sandboxes. */
  function Capacity(spaces: seq<Space>): nat {
    if spaces == [] then 0 else Capacity(spaces[..|spaces| - 1]) + Usable(spaces[|spaces| - 1].alloc)
  }

  /** Spaces of a single slot. */
  function Cramped(spaces: seq<Space>): nat {
    if spaces == [] then 0 else Cramped(spaces[..|spaces| - 1]) + if spaces[|spaces| - 1].alloc.slots < 2 then 1 else 0
  }

  /** What lfi_maxprocs answers. */
  function MaxProcsOf(spaces: seq<Space>): nat { (Capacity(spaces) - Cramped(spaces)) % U64 }

  /** Addresses of used slots are aligned, and different slots have disjoint memory. */
  lemma {:induction false} SlotsApart(p2size: nat, spaces: seq<Space>, i: nat, n: nat, j: nat, m: nat)
    requires SpacesOk(p2size, spaces) && i <= j < |spaces| && (i, n) != (j, m)
    requires IsSlot(spaces[i].alloc, n) && IsSlot(spaces[j].alloc, m)
    ensures var x, y := spaces[i].Address(n), spaces[j].Address(m);
            x + Pow2(p2size) <= y || y + Pow2(p2size) <= x
  {
    assert SpaceOk(p2size, spaces[i]) && SpaceOk(p2size, spaces[j]);
    SlotInSpace(spaces[i], n);
    SlotInSpace(spaces[j], m);
    if i == j {
      SlotsOfSpace(spaces[i], if n < m then n else m, if n < m then m else n);
    }
  }

  lemma {:induction false} SlotsOfSpace(s: Space, n: nat, m: nat)
    requires s.alloc.Valid() && IsSlot(s.alloc, n) && IsSlot(s.alloc, m) && n < m
    ensures s.Address(n) + s.alloc.Alignment() <= s.Address(m)
  {
    SlotInSpace(s, n);
    SlotInSpace(s, m);
    TimesMono(n - s.alloc.LeafBase() + 1, m - s.alloc.LeafBase(), s.alloc.Alignment());
  }

  /** A slot of the space: a guard or one for sandboxes. */
  predicate IsSlot(a: Arena, n: nat) {
    a.order.levels >= 1 && a.LeafBase() <= n < a.LeafBase() + a.slots && IsNode(a.order, n)
  }

  lemma {:induction false} SlotInSpace(s: Space, n: nat)
    requires s.alloc.Valid() && IsSlot(s.alloc, n)
    ensures s.base <= s.Address(n) && s.Address(n) + s.alloc.Alignment() <= s.base + s.Size()
    ensures s.Address(n) == s.base + Times(n - s.alloc.LeafBase(), s.alloc.Alignment())
  {
    SlotIsLeaf(s.alloc, n);
    TimesMono(n - s.alloc.LeafBase() + 1, s.alloc.slots, s.alloc.Alignment());
  }

  lemma {:induction false} SlotAligned(p2size: nat, s: Space, n: nat)
    requires SpaceOk(p2size, s) && IsSlot(s.alloc, n)
    ensures Rem(s.Address(n), Pow2(p2size)) == 0
  {
    SlotInSpace(s, n);
    var d, k := Pow2(p2size), n - s.alloc.LeafBase();
    QuotRem(s.base, d);
    TimesAdd(Quot(s.base, d), k, d);
    DivTimes(Quot(s.base, d) + k, d);
  }

  // ---- Counting sandboxes

  lemma {:induction false} TotalUpdate(spaces: seq<Space>, i: nat, s: Space)
    requires i < |spaces|
    ensures Total(spaces[i := s]) + spaces[i].active == Total(spaces) + s.active
  {
    var last := |spaces| - 1;
    var init := spaces[..last];
    if i < last {
      TotalUpdate(init, i, s);
      assert spaces[i := s][..last] == init[i := s];
    } else {
      assert spaces[i := s][..last] == init;
    }
  }

  /** The engine never runs more sandboxes than it has slots for, and is full when it does. */
  lemma {:induction false} TotalWithinCapacity(p2size: nat, spaces: seq<Space>)
    requires SpacesOk(p2size, spaces)
    ensures Total(spaces) <= Capacity(spaces)
    ensures Total(spaces) == Capacity(spaces) <==>
              forall i: nat {:trigger spaces[i]} :: i < |spaces| ==> Full(spaces[i])
  {
    hide Apart, OnlySlots, Guarded, Slots, Arena.Valid, RootFree;
    if spaces != [] {
      var last := |spaces| - 1;
      var init := spaces[..last];
      assert forall i: nat {:trigger init[i]} :: i < last ==> init[i] == spaces[i];
      TotalWithinCapacity(p2size, init);
      FullIffAllUsed(p2size, spaces[last]);
      assert forall i: nat {:trigger spaces[i]} :: i < last ==> spaces[i] == init[i];
    }
  }

  lemma {:induction false} TotalPrefix(spaces: seq<Space>, i: nat)
    requires i < |spaces|
    ensures Total(spaces[..i + 1]) == Total(spaces[..i]) + spaces[i].active
    ensures Capacity(spaces[..i + 1]) == Capacity(spaces[..i]) + Usable(spaces[i].alloc)
    ensures Cramped(spaces[..i + 1]) == Cramped(spaces[..i]) + if spaces[i].alloc.slots < 2 then 1 else 0
  {
    assert spaces[..i + 1][..i] == spaces[..i];
  }

  class Engine {
    const p2size: nat
    var spaces: seq<Space>

    ghost predicate Valid()
      reads this
    {
      SpacesOk(p2size, spaces)
    }

    constructor (p2size: nat)
      ensures Valid() && spaces == [] && this.p2size == if p2size == 0 then 32 else p2size
    {
      this.p2size := if p2size == 0 then 32 else p2size;
      spaces := [];
    }

    /** addspace, for memory base..base + size that the kernel just found unused. The address of
        the allocator is zero when there was no memory for it; mapped tells whether the kernel
        then let the region be mapped. */
    method AddSpace(base: nat, size: nat, at: nat, mapped: bool) returns (ok: bool)
      requires Valid() && Ceilp(base, Pow2(p2size)) <= Truncp(base + size, Pow2(p2size))
      requires var alignSize := Truncp(base + size, Pow2(p2size)) - Ceilp(base, Pow2(p2size));
               alignSize <= U64 / 2 && Quot(alignSize, Pow2(p2size)) <= MAX_SLOTS
      requires forall i: nat {:trigger spaces[i]} :: i < |spaces| ==>
                 base + size <= spaces[i].base || spaces[i].base + spaces[i].Size() <= base
      modifies this
      ensures Valid()
      ensures var alignBase, alignEnd := Ceilp(base, Pow2(p2size)), Truncp(base + size, Pow2(p2size));
              && (ok <==> |old(spaces)| < MAX_SPACES && mapped
                          && !InitRefuses(at, alignBase, alignEnd - alignBase, Pow2(p2size)))
              && (ok ==> spaces == old(spaces) + [FreshSpace(p2size, alignBase, alignEnd - alignBase)])
              && (!ok ==> spaces == old(spaces))
    {
      var procSize := Pow2(p2size);
      var alignBase := Ceilp(base, procSize);
      var alignSize: nat := Truncp(base + size, procSize) - alignBase;
      AlignedRegion(base, size, procSize);
      assert IsPow2(procSize);
      ok := false;
      if |spaces| < MAX_SPACES {
        var refused := at == 0 || alignBase == 0 || at == alignBase || at % WORD != 0 || alignBase % WORD != 0
          || alignSize < procSize;
        if !refused && mapped {
          NewSpaceOk(p2size, spaces, base, size, alignBase, alignSize);
          spaces := spaces + [FreshSpace(p2size, alignBase, alignSize)];
          ok := true;
        }
      }
    }

    /** isfull */
    method IsFull() returns (full: bool)
      requires Valid()
      ensures full <==> forall i: nat {:trigger spaces[i]} :: i < |spaces| ==> Full(spaces[i])
    {
      for i := 0 to |spaces|
        invariant forall k: nat {:trigger spaces[k]} :: k < i ==> Full(spaces[k])
      {
        var f := SpaceFull(spaces[i]);
        if !f {
          return false;
        }
      }
      return true;
    }

    /** buddy_is_full on the allocator of a space */
    method SpaceFull(s: Space) returns (full: bool)
      requires SpaceOk(p2size, s)
      ensures full <==> Full(s)
    {
      FullIffNoRoom(s.alloc.order, s.alloc.st);
      full := s.alloc.st[1] == s.alloc.order.levels;
    }

    /** allocslot never fails while the engine is not full: the slot it answers was in nobody's
        hands. */
    method AllocSlot() returns (addr: nat, ghost i: nat, ghost n: nat)
      requires Valid() && exists k: nat :: k < |spaces| && !Full(spaces[k])
      modifies this
      ensures Valid() && HandedOut(p2size, old(spaces), spaces, addr, i, n)
      ensures NextSlot(p2size, old(spaces), i, n)
    {
      for k := 0 to |spaces|
        invariant spaces == old(spaces) && Valid()
        invariant forall l: nat {:trigger spaces[l]} :: l < k ==> Full(spaces[l])
      {
        var f := SpaceFull(spaces[k]);
        if !f {
          addr := TakeSlot(k);
          return addr, k, MallocNode(old(spaces)[k].alloc, Pow2(p2size));
        }
      }
      assert false;
    }

    /** A slot of a space that is not full. */
    method TakeSlot(k: nat) returns (addr: nat)
      requires Valid() && k < |spaces| && !Full(spaces[k])
      modifies this
      ensures Valid() && HandedOut(p2size, old(spaces), spaces, addr, k, MallocNode(old(spaces)[k].alloc, Pow2(p2size)))
    {
      var s := spaces[k];
      SlotGiven(p2size, s);
      var (alloc, offset) := Malloc(s.alloc, Pow2(p2size));
      KeepsPlace(p2size, spaces, k, s.(active := s.active + 1, alloc := alloc));
      spaces := spaces[k := s.(active := s.active + 1, alloc := alloc)];
      addr := s.base + offset.value;
      SlotIsLeaf(alloc, MallocNode(s.alloc, Pow2(p2size)));
      SameOffset(s.alloc, alloc, MallocNode(s.alloc, Pow2(p2size)));
    }

    /** deleteslot of a slot in use frees that slot and touches nothing else; its assertion holds. */
    method DeleteSlot(addr: nat, ghost i: nat, ghost n: nat)
      requires Valid() && InUse(p2size, spaces, addr, i, n)
      modifies this
      ensures Valid() && |spaces| == |old(spaces)| && spaces == old(spaces)[i := spaces[i]]
      ensures SamePlace(old(spaces)[i], spaces[i])
      ensures Slots(spaces[i].alloc) == Slots(old(spaces)[i].alloc) - {n}
      ensures spaces[i].active == old(spaces)[i].active - 1
    {
      ghost var before := spaces;
      for k := 0 to |spaces|
        invariant Valid() && |spaces| == |before|
        invariant if k <= i then spaces == before else SlotFreed(p2size, before, spaces, i, n)
      {
        WhoseSlot(p2size, before, addr, i, n, k);
        SamePlaces(p2size, before, spaces, i, n, k);
        if spaces[k].base <= addr < spaces[k].base + spaces[k].Size() {
          ReturnSlot(addr, k, n);
        }
      }
    }

    method ReturnSlot(addr: nat, k: nat, ghost n: nat)
      requires Valid() && InUse(p2size, spaces, addr, k, n)
      modifies this
      ensures Valid() && |spaces| == |old(spaces)| && SlotFreed(p2size, old(spaces), spaces, k, n)
    {
      var s := spaces[k];
      SlotTakenBack(p2size, s, n);
      SlotIsLeaf(s.alloc, n);
      var (alloc, b) := SafeFree(s.alloc, addr - s.base, Pow2(p2size));
      assert b;
      KeepsPlace(p2size, spaces, k, s.(active := s.active - 1, alloc := alloc));
      spaces := spaces[k := s.(active := s.active - 1, alloc := alloc)];
    }

    /** lfi_numprocs */
    method NumProcs() returns (total: nat)
      requires Valid()
      ensures total == Total(spaces)
    {
      total := 0;
      for i := 0 to |spaces|
        invariant total == Total(spaces[..i])
      {
        TotalPrefix(spaces, i);
        total := total + spaces[i].active;
      }
      assert spaces[..|spaces|] == spaces;
    }

    /** lfi_maxprocs, in 64-bit arithmetic: a space of one slot counts as 2^64 - 1, which takes
        one from the rest. */
    method MaxProcs() returns (total: nat)
      requires Valid()
      ensures total == MaxProcsOf(spaces)
      ensures Cramped(spaces) <= Capacity(spaces) ==> total == Capacity(spaces) - Cramped(spaces)
      ensures Capacity(spaces) < Cramped(spaces) ==> total == U64 - (Cramped(spaces) - Capacity(spaces))
    {
      hide SpaceOk, Apart;
      total := 0;
      ghost var wraps: int := 0;
      for i := 0 to |spaces|
        invariant 0 <= total < U64 && total + wraps * U64 == Capacity(spaces[..i]) - Cramped(spaces[..i])
        invariant Cramped(spaces[..i]) <= i
      {
        TotalPrefix(spaces, i);
        var slots := SlotCount(spaces[i]);
        ghost var k := Wrap(total, slots - 2);
        wraps := wraps + k;
        total := (total + (slots - 2) % U64) % U64;
      }
      assert spaces[..|spaces|] == spaces;
      CapacityFits(p2size, spaces);
      Unwrapped(total, wraps, Capacity(spaces) - Cramped(spaces));
    }

    method SlotCount(s: Space) returns (slots: nat)
      requires SpaceOk(p2size, s)
      ensures slots == s.alloc.slots >= 1
    {
      DivTimes(s.alloc.slots, Pow2(p2size));
      QuotIs(s.Size(), Pow2(p2size));
      slots := s.Size() / Pow2(p2size);
    }

    /** lfi_addproc as far as slots go: gotMemory and ready tell whether the process object and
        its memory could be had. When its memory cannot be had, the slot stays taken for good. */
    method AddProc(gotMemory: bool, ready: bool) returns (addr: Option<nat>)
      requires Valid()
      modifies this
      ensures Valid()
      ensures addr.Some? <==> gotMemory && ready && Total(old(spaces)) < Capacity(old(spaces))
      ensures Total(spaces) == Total(old(spaces))
                               + if gotMemory && Total(old(spaces)) < Capacity(old(spaces)) then 1 else 0
      ensures !gotMemory || Total(old(spaces)) == Capacity(old(spaces)) ==> spaces == old(spaces)
      ensures gotMemory && Total(old(spaces)) < Capacity(old(spaces)) ==>
                exists slot: nat :: TookNext(p2size, old(spaces), spaces, slot) && (ready ==> addr == Some(slot))
    {
      hide HandedOut, NextSlot, Full, SpaceOk, Apart;
      TotalWithinCapacity(p2size, spaces);
      addr := None;
      var full := IsFull();
      if !full && gotMemory {
        ghost var before := spaces;
        var slot, i, n := AllocSlot();
        HandedOutCounts(p2size, before, spaces, slot, i, n);
        assert TookNext(p2size, before, spaces, slot);
        if ready {
          addr := Some(slot);
        }
      }
    }
  }

  /** A 64-bit sum differs from the true one by a multiple of 2^64. */
  lemma {:induction false} Wrap(total: nat, x: int) returns (k: int)
    ensures (total + x % U64) % U64 + k * U64 == total + x
  {
    k := x / U64 + (total + x % U64) / U64;
  }

  lemma {:induction false} Unwrapped(total: nat, wraps: int, x: int)
    requires total < U64 && total + wraps * U64 == x
    ensures total == x % U64
    ensures 0 <= x < U64 ==> total == x
    ensures -U64 <= x < 0 ==> total == U64 + x
  {
  }

  lemma {:induction false} CapacityFits(p2size: nat, spaces: seq<Space>)
    requires SpacesOk(p2size, spaces)
    ensures Capacity(spaces) <= |spaces| * MAX_SLOTS < U64 && Cramped(spaces) <= |spaces|
  {
    hide Arena.Valid, OnlySlots, Guarded, Apart;
    if spaces != [] {
      var last := |spaces| - 1;
      var init := spaces[..last];
      assert forall i: nat {:trigger init[i]} :: i < last ==> init[i] == spaces[i];
      assert SpaceOk(p2size, spaces[last]);
      CapacityFits(p2size, init);
    }
  }

  /** lfi_numprocs is within lfi_maxprocs exactly if the slots that spaces of a single slot take away
      are still free, or so few that the difference wraps. */
  lemma {:induction false} ProcsWithinMaxIff(p2size: nat, spaces: seq<Space>)
    requires SpacesOk(p2size, spaces)
    ensures Total(spaces) <= MaxProcsOf(spaces) <==>
              Total(spaces) + Cramped(spaces) <= Capacity(spaces) || Capacity(spaces) < Cramped(spaces)
    ensures Cramped(spaces) == 0 ==> Total(spaces) <= MaxProcsOf(spaces) == Capacity(spaces)
  {
    hide SpacesOk;
    TotalWithinCapacity(p2size, spaces);
    CapacityFits(p2size, spaces);
    SpacesFew(p2size, spaces);
    Unwrapped(MaxProcsOf(spaces), (Capacity(spaces) - Cramped(spaces)) / U64, Capacity(spaces) - Cramped(spaces));
  }

  lemma {:induction false} SpacesFew(p2size: nat, spaces: seq<Space>)
    requires SpacesOk(p2size, spaces)
    ensures |spaces| <= MAX_SPACES
  {
  }

  /** A region of a single slot is taken by addspace, and counts as -1. */
  lemma {:induction false} OneSlotSpace(p2size: nat, base: nat, at: nat)
    requires at != 0 && base != 0 && at != base && at % WORD == 0 && base % WORD == 0 && Rem(base, Pow2(p2size)) == 0
    ensures !InitRefuses(at, base, Pow2(p2size), Pow2(p2size))
    ensures var spaces := [FreshSpace(p2size, base, Pow2(p2size))];
            SpacesOk(p2size, spaces) && Cramped(spaces) == 1 && MaxProcsOf(spaces) == U64 - 1
  {
    hide FreshSpace;
    DivTimes(1, Pow2(p2size));
    TimesIs(1, Pow2(p2size));
    FreshSpaceOk(p2size, base, Pow2(p2size));
    var s := FreshSpace(p2size, base, Pow2(p2size));
    assert s.alloc.slots == 1 by { OneSlot(p2size, s); }
    assert [s][..0] == [];
    assert Capacity([s]) == 0 && Cramped([s]) == 1;
    Unwrapped(U64 - 1, -1, -1);
  }

  lemma {:induction false} OneSlot(p2size: nat, s: Space)
    requires SpaceOk(p2size, s) && s.Size() == Pow2(p2size)
    ensures s.alloc.slots == 1
  {
    DivTimes(s.alloc.slots, Pow2(p2size));
    DivTimes(1, Pow2(p2size));
    TimesIs(1, Pow2(p2size));
  }

  lemma {:induction false} NewSpaceOk(p2size: nat, spaces: seq<Space>, base: nat, size: nat, alignBase: nat,
          alignSize: nat)
    requires SpacesOk(p2size, spaces) && |spaces| < MAX_SPACES && Pow2(p2size) <= alignSize
    requires base <= alignBase && alignBase + alignSize <= base + size
    requires Rem(alignBase, Pow2(p2size)) == 0 && Rem(alignSize, Pow2(p2size)) == 0
    requires Quot(alignSize, Pow2(p2size)) <= MAX_SLOTS
    requires forall i: nat {:trigger spaces[i]} :: i < |spaces| ==>
               base + size <= spaces[i].base || spaces[i].base + spaces[i].Size() <= base
    ensures SpacesOk(p2size, spaces + [FreshSpace(p2size, alignBase, alignSize)])
  {
    FreshSpaceOk(p2size, alignBase, alignSize);
  }

  /** A space that keeps its place may be replaced. */
  lemma {:induction false} KeepsPlace(p2size: nat, spaces: seq<Space>, k: nat, s: Space)
    requires SpacesOk(p2size, spaces) && k < |spaces| && SpaceOk(p2size, s)
    requires s.base == spaces[k].base && s.Size() == spaces[k].Size()
    ensures SpacesOk(p2size, spaces[k := s])
  {
  }

  /** From before to after, slot n of space i came free. */
  ghost predicate SlotFreed(p2size: nat, before: seq<Space>, after: seq<Space>, i: nat, n: nat)
    requires SpacesOk(p2size, before) && SpacesOk(p2size, after)
  {
    && i < |before| == |after| && after == before[i := after[i]] && SamePlace(before[i], after[i])
    && Slots(after[i].alloc) == Slots(before[i].alloc) - {n}
    && after[i].active == before[i].active - 1
  }

  lemma {:induction false} SamePlaces(p2size: nat, before: seq<Space>, after: seq<Space>, i: nat, n: nat, k: nat)
    requires SpacesOk(p2size, before) && SpacesOk(p2size, after) && k < |before| == |after|
    requires before == after || SlotFreed(p2size, before, after, i, n)
    ensures after[k].base == before[k].base && after[k].Size() == before[k].Size()
  {
  }

  /** The address of a slot in use lies in its own space and in no other. */
  lemma {:induction false} WhoseSlot(p2size: nat, spaces: seq<Space>, addr: nat, i: nat, n: nat, k: nat)
    requires SpacesOk(p2size, spaces) && i < |spaces| && k < |spaces|
    requires IsSlot(spaces[i].alloc, n) && addr == spaces[i].Address(n)
    ensures spaces[k].base <= addr < spaces[k].base + spaces[k].Size() <==> k == i
  {
    SlotInSpace(spaces[i], n);
  }

  lemma {:induction false} HandedOutCounts(p2size: nat, before: seq<Space>, after: seq<Space>, addr: nat, i: nat,
          n: nat)
    requires SpacesOk(p2size, before) && SpacesOk(p2size, after) && HandedOut(p2size, before, after, addr, i, n)
    ensures Total(after) == Total(before) + 1
  {
    TotalUpdate(before, i, after[i]);
  }

  // ---- The addresses in the clients' hands

  /** A slot in use has one address, and no other slot has it. */
  lemma {:induction false} OneHolder(p2size: nat, spaces: seq<Space>, addr: nat, i: nat, n: nat, j: nat, m: nat)
    requires SpacesOk(p2size, spaces) && InUse(p2size, spaces, addr, i, n) && InUse(p2size, spaces, addr, j, m)
    ensures i == j && n == m
  {
    SlotIsLeaf(spaces[i].alloc, n);
    SlotIsLeaf(spaces[j].alloc, m);
    if (i, n) != (j, m) {
      if i <= j {
        SlotsApart(p2size, spaces, i, n, j, m);
      } else {
        SlotsApart(p2size, spaces, j, m, i, n);
      }
    }
  }

  lemma {:induction false} AddressKept(s: Space, t: Space, n: nat)
    requires SamePlace(s, t) && IsNode(s.alloc.order, n)
    ensures s.Address(n) == t.Address(n)
  {
    SameOffset(s.alloc, t.alloc, n);
  }

  /** Handing out a slot adds its address to those in use, where it was not, and changes no other. */
  lemma {:induction false} HandedOutAdds(p2size: nat, before: seq<Space>, after: seq<Space>, addr: nat, i: nat, n: nat)
    requires SpacesOk(p2size, before) && SpacesOk(p2size, after) && HandedOut(p2size, before, after, addr, i, n)
    ensures !Held(p2size, before, addr)
    ensures forall x: nat :: Held(p2size, after, x) <==> Held(p2size, before, x) || x == addr
  {
    hide SpacesOk;
    forall x: nat, j: nat, m: nat | InUse(p2size, before, x, j, m) ensures InUse(p2size, after, x, j, m) && x != addr {
      StillInUse(p2size, before, after, x, j, m, i);
      if x == addr {
        OneHolder(p2size, after, addr, i, n, j, m);
      }
    }
    forall x: nat, j: nat, m: nat | InUse(p2size, after, x, j, m) && x != addr
      ensures InUse(p2size, before, x, j, m)
    {
      StillInUse(p2size, after, before, x, j, m, i);
    }
  }

  /** Taking a slot back takes its address away, and changes no other. */
  lemma {:induction false} FreedTakesAway(p2size: nat, before: seq<Space>, after: seq<Space>, addr: nat, i: nat, n: nat)
    requires SpacesOk(p2size, before) && SpacesOk(p2size, after) && SlotFreed(p2size, before, after, i, n)
    requires InUse(p2size, before, addr, i, n)
    ensures forall x: nat :: Held(p2size, after, x) <==> Held(p2size, before, x) && x != addr
  {
    hide SpacesOk;
    forall x: nat, j: nat, m: nat | InUse(p2size, before, x, j, m) && x != addr ensures InUse(p2size, after, x, j, m) {
      StillInUse(p2size, before, after, x, j, m, i);
    }
    forall x: nat, j: nat, m: nat | InUse(p2size, after, x, j, m) ensures InUse(p2size, before, x, j, m) && x != addr {
      StillInUse(p2size, after, before, x, j, m, i);
      if x == addr {
        OneHolder(p2size, before, addr, i, n, j, m);
      }
    }
  }

  /** A slot that both states use has the same address in both. */
  lemma {:induction false} StillInUse(
      p2size: nat, before: seq<Space>, after: seq<Space>, x: nat, j: nat, m: nat, i: nat)
    requires SpacesOk(p2size, before) && SpacesOk(p2size, after) && InUse(p2size, before, x, j, m)
    requires i < |before| == |after| && after == before[i := after[i]] && SamePlace(before[i], after[i])
    ensures j < |after| && IsNode(after[j].alloc.order, m) && x == after[j].Address(m)
    ensures m in Slots(after[j].alloc) ==> InUse(p2size, after, x, j, m)
  {
    SlotIsLeaf(before[j].alloc, m);
    if j == i {
      AddressKept(before[i], after[i], m);
    }
  }

  // ---- More sandboxes than slots for them

  /** A space of one slot and one of three, with a sandbox in it: lfi_numprocs is one and lfi_maxprocs
      is zero. Both spaces are what addspace makes, and the sandbox is what allocslot makes. */
  lemma {:induction false} MoreProcsThanMax(p2size: nat, base: nat, far: nat) returns (spaces: seq<Space>)
    requires Rem(base, Pow2(p2size)) == 0 && Rem(far, Pow2(p2size)) == 0 && base + Pow2(p2size) <= far
    ensures SpacesOk(p2size, spaces) && |spaces| == 2
    ensures spaces[0] == FreshSpace(p2size, base, Pow2(p2size))
    ensures ThreeSlots(p2size) && var s := FreshSpace(p2size, far, Times(3, Pow2(p2size)));
            spaces[1] == Space(s.base, 1, s.alloc.(st := spaces[1].alloc.st)) && spaces[1].active == s.active + 1
    ensures Total(spaces) == 1 && MaxProcsOf(spaces) == 0
  {
    hide FreshSpace, SpaceOk, Malloc;
    var one, three := Pow2(p2size), Times(3, Pow2(p2size));
    OneSlotSize(p2size);
    ThreeSlotSize(p2size);
    FreshSpaceOk(p2size, base, one);
    FreshSpaceOk(p2size, far, three);
    var s, t := FreshSpace(p2size, base, one), FreshSpace(p2size, far, three);
    SlotsBySize(p2size, s, 1);
    SlotsBySize(p2size, t, 3);
    var u := OneTaken(p2size, t);
    spaces := [s, u];
    TwoSpaces(s, u);
    Unwrapped(0, 0, 0);
  }

  predicate ThreeSlots(p2size: nat) { Pow2(p2size) <= Times(3, Pow2(p2size)) }

  lemma {:induction false} OneSlotSize(p2size: nat)
    ensures Rem(Pow2(p2size), Pow2(p2size)) == 0 && Quot(Pow2(p2size), Pow2(p2size)) == 1
    ensures Times(1, Pow2(p2size)) == Pow2(p2size)
  {
    DivTimes(1, Pow2(p2size));
    TimesIs(1, Pow2(p2size));
  }

  lemma {:induction false} ThreeSlotSize(p2size: nat)
    ensures ThreeSlots(p2size)
    ensures Rem(Times(3, Pow2(p2size)), Pow2(p2size)) == 0 && Quot(Times(3, Pow2(p2size)), Pow2(p2size)) == 3
  {
    DivTimes(3, Pow2(p2size));
    TimesIs(1, Pow2(p2size));
    TimesMono(1, 3, Pow2(p2size));
  }

  lemma {:induction false} SlotsBySize(p2size: nat, s: Space, k: nat)
    requires SpaceOk(p2size, s) && s.Size() == Times(k, Pow2(p2size))
    ensures s.alloc.slots == k
  {
    DivTimes(s.alloc.slots, Pow2(p2size));
    DivTimes(k, Pow2(p2size));
  }

  /** A sandbox in an empty space that has a slot for it. */
  lemma {:induction false} OneTaken(p2size: nat, s: Space) returns (t: Space)
    requires SpaceOk(p2size, s) && Slots(s.alloc) == {} && s.alloc.slots == 3
    ensures SpaceOk(p2size, t) && t == Space(s.base, 1, s.alloc.(st := t.alloc.st)) && s.active == 0
  {
    hide Malloc;
    FullIffAllUsed(p2size, s);
    SlotGiven(p2size, s);
    MallocGives(s.alloc, Pow2(p2size));
    t := Space(s.base, s.active + 1, Malloc(s.alloc, Pow2(p2size)).0);
  }

  lemma {:induction false} TwoSpaces(s: Space, u: Space)
    requires s.active == 0 && u.active == 1 && s.alloc.slots == 1 && u.alloc.slots == 3
    ensures Total([s, u]) == 1 && Capacity([s, u]) == 1 && Cramped([s, u]) == 1
  {
    var one, two := [s], [s, u];
    assert one[..|one| - 1] == [];
    assert two[..|two| - 1] == one;
    assert Total(one) == Capacity(one) == 0 && Cramped(one) == 1;
  }
}
