/** The buddy allocator object of buddy.h, proved against the calls on values in ArenaCalls. */
module BuddyClass {
  import opened Numbers
  import opened Options
  import opened PowersOfTwo
  import opened Products
  import opened BuddyBitset
  import opened TreeLayout
  import opened StatusTree
  import opened TreeWalk
  import opened BuddyTreeClass
  import opened Arenas
  import opened ArenaCalls
  import opened ArenaRuns

  /** is_valid_alignment: ceiling_power_of_two leaves a power of two alone. */
  method IsValidAlignment(alignment: nat) returns (ok: bool)
    requires alignment < U64
    ensures ok <==> IsPow2(alignment)
  {
    var c := CeilingPowerOfTwo(alignment);
    ok := c == alignment;
    Pow2IsCeil(alignment);
  }

  ghost predicate IsPow2(x: nat) {
    exists k: nat :: x == Pow2(k)
  }

  lemma {:induction false} Pow2IsCeil(x: nat)
    requires x < U64
    ensures IsPow2(x) <==> x == CeilPow2(x)
    ensures IsPow2(x) ==> x <= U64 / 2
  {
    if k: nat :| x == Pow2(k) {
      CeilPow2Is(x, k);
      Pow2Sixty4();
      Pow2Mono(if k > 63 then 64 else k, if k > 63 then k else 63);
    }
    assert x == CeilPow2(x) ==> x == Pow2(CeilLog2(x));
  }

  /** buddy_tree_order_for_memory: right for up to 2^63 slots, where ceiling_power_of_two is. */
  method OrderForMemory(memorySize: nat, alignment: nat) returns (order: nat)
    requires 1 <= alignment <= memorySize < U64
    ensures order == CeilLog2(Quot(memorySize, alignment)) + 1 <==> Quot(memorySize, alignment) <= U64 / 2
  {
    var blocks := memorySize / alignment;
    QuotIs(memorySize, alignment);
    QuotRem(memorySize, alignment);
    assert blocks <= memorySize by { SlotsAtMost(blocks, alignment); }
    var c := CeilingPowerOfTwo(blocks);
    order := HighestBitPosition(c);
    OrderBits(blocks, c);
  }

  lemma {:induction false} OrderBits(blocks: nat, c: nat)
    requires blocks < U64 && c <= U64 / 2 && (c == CeilPow2(blocks) <==> blocks <= U64 / 2)
    ensures HighestBit(c) == CeilLog2(blocks) + 1 <==> blocks <= U64 / 2
  {
    var e := CeilLog2(blocks);
    Pow2Sixty4();
    if blocks <= U64 / 2 {
      HighestBitOfPow2(e);
    } else {
      HighestBitBelow(c, 64);
      if e < 64 {
        Pow2Mono(e, 63);
      }
    }
  }

  lemma {:induction false} SlotsAtMost(x: nat, y: nat)
    requires y >= 1
    ensures x <= Times(x, y)
  {
    TimesMono(1, y, x);
    TimesIs(1, x);
    TimesComm(x, y);
  }

  lemma {:induction false} HighestBitOfPow2(e: nat)
    ensures HighestBit(Pow2(e)) == e + 1
  {
    if e > 0 {
      HighestBitOfPow2(e - 1);
    }
  }

  class Buddy {
    var memorySize: nat
    var alignment: nat
    var main: nat
    const tree: BuddyTree
    ghost const alignBits: nat
    ghost const slots: nat

    ghost function Abstract(): Arena
      reads this, tree
    {
      Arena(tree.order, alignBits, slots, tree.status)
    }

    ghost predicate Valid()
      reads this, tree, tree.bits, tree.bits.bytes, tree.sizeForOrder
    {
      tree.Valid() && Sizes() && Abstract().Valid()
    }

    /** What Valid says about sizes. */
    ghost predicate Sizes()
      reads this, tree
    {
      && tree.order.levels >= 1 && slots >= 1
      && CeilPow2(slots) == Pow2(tree.order.levels - 1)
      && alignment == Pow2(alignBits)
      && memorySize == Times(slots, Pow2(alignBits)) <= U64 / 2
    }

    constructor (main: nat, memorySize: nat, alignment: nat, treeOrder: nat, ghost k: nat, ghost n: nat)
      requires alignment == Pow2(k) && memorySize == Times(n, Pow2(k)) <= U64 / 2 && n >= 1
      requires treeOrder == CeilLog2(n) + 1 <= 31
      ensures Valid() && fresh(tree) && fresh(tree.bits) && fresh(tree.bits.bytes) && fresh(tree.sizeForOrder)
      ensures this.main == main && this.memorySize == memorySize && this.alignment == alignment
      ensures Abstract() == InitArena(k, n)
    {
      hide InitStatuses, CeilPow2, CeilLog2, Times, Pow2;
      this.main := main;
      this.memorySize := memorySize;
      this.alignment := alignment;
      tree := new BuddyTree(Order(treeOrder));
      alignBits := k;
      slots := n;
      new;
      ToggleVirtualSlots();
      InitialArena(Abstract(), k, n);
    }

    /** size_for_depth */
    method SizeForDepth(depth: nat) returns (size: nat)
      requires Sizes() && 1 <= depth <= tree.order.levels
      ensures size == Pow2(tree.order.levels - depth + alignBits)
    {
      var eff := EffectiveMemorySize();
      size := Shr(eff, depth - 1);
      Pow2Add(tree.order.levels - depth + alignBits, depth - 1);
      ShrExact(Pow2(tree.order.levels - depth + alignBits), depth - 1);
    }

    method EffectiveMemorySize() returns (eff: nat)
      requires Sizes()
      ensures eff == Pow2(tree.order.levels - 1 + alignBits)
    {
      eff := CeilingPowerOfTwo(memorySize);
      TimesIs(slots, Pow2(alignBits));
      CeilPow2Scale(slots, alignBits);
      Pow2Add(tree.order.levels - 1, alignBits);
    }

    /** One round of the loop of buddy_toggle_virtual_slots. */
    method MaskStep(pos: Pos, delta: nat, ghost count: nat, ghost goal: Statuses)
      returns (done: bool, nextPos: Pos, nextDelta: nat, ghost nextCount: nat)
      requires tree.Valid() && Sizes()
      requires TailPending(tree.order, alignBits, tree.status, pos, delta, count, goal)
      modifies tree`status, tree.bits, tree.bits.bytes
      ensures tree.Valid() && tree.order == old(tree.order)
      ensures done ==> tree.status == goal
      ensures !done ==> TailPending(tree.order, alignBits, tree.status, nextPos, nextDelta, nextCount, goal)
      ensures nextPos.depth >= pos.depth && (!done ==> pos.depth < nextPos.depth <= tree.order.levels)
    {
      hide TailPending, MarkTail;
      ghost var order, st := tree.order, tree.status;
      PendingPlace(order, alignBits, st, pos, delta, count, goal);
      TailSizes(order, alignBits, pos, count);
      var size := SizeForDepth(pos.depth);
      nextPos, nextDelta, nextCount, done := pos, delta, count, false;
      if delta == size {
        tree.Mark(pos);
        done := true;
      } else if delta <= size / 2 {
        TailGoesRight(order, alignBits, st, pos, delta, count, goal);
        nextPos := RightChild(pos);
      } else {
        nextCount := MaskRight(pos, delta, count, goal);
        nextDelta := delta - size / 2;
        nextPos := LeftChild(pos);
      }
    }

    /** Masks the whole right child of pos; what is left of the tail lies below the left child. */
    method MaskRight(pos: Pos, ghost delta: nat, ghost count: nat, ghost goal: Statuses) returns (ghost nextCount: nat)
      requires tree.Valid() && TailPending(tree.order, alignBits, tree.status, pos, delta, count, goal)
      requires Pow2(MaxStatus(tree.order, pos.index) - 1) / 2 < count < Pow2(MaxStatus(tree.order, pos.index) - 1)
      modifies tree`status, tree.bits, tree.bits.bytes
      ensures tree.Valid() && pos.depth < tree.order.levels
      ensures nextCount + Pow2(MaxStatus(tree.order, pos.index) - 1) / 2 == count
      ensures TailPending(tree.order, alignBits, tree.status, LeftChild(pos), Times(nextCount, Pow2(alignBits)),
                nextCount, goal)
    {
      hide MarkTail, Times, MaxStatus, StatusTree.Mark, MemoHolds, Encodes, OkExcept;
      TailGoesLeft(tree.order, alignBits, tree.status, pos, delta, count, goal);
      tree.Mark(RightChild(pos));
      nextCount := count - Pow2(MaxStatus(tree.order, pos.index) - 1) / 2;
    }

    /** Masks the leaves past the end of the memory, working down the right spine in bytes. */
    method ToggleVirtualSlots()
      requires tree.Valid() && Sizes() && tree.status == Zeros(tree.order)
      modifies tree`status, tree.bits, tree.bits.bytes
      ensures tree.Valid() && tree.status == InitStatuses(tree.order, slots)
    {
      hide TailPending, MarkTail, MemoHolds;
      var eff := EffectiveMemorySize();
      SlotsInTree(tree.order, alignBits, slots);
      if eff == memorySize {
        return;
      }
      var delta: nat := eff - memorySize;
      ghost var count: nat := Pow2(tree.order.levels - 1) - slots;
      ghost var goal := InitStatuses(tree.order, slots);
      RightHalfPending(tree.order, alignBits, slots);
      var pos := RightChild(Root());
      while delta != 0
        invariant tree.Valid() && pos.depth <= tree.order.levels
        invariant TailPending(tree.order, alignBits, tree.status, pos, delta, count, goal)
        decreases tree.order.levels - pos.depth
      {
        var done;
        ghost var c: nat;
        done, pos, delta, c := MaskStep(pos, delta, count, goal);
        count := c;
        if done {
          return;
        }
      }
      PendingIsPositive(tree.order, alignBits, tree.status, pos, delta, count, goal);
    }

    /** depth_for_size */
    method DepthForSize(requested: nat) returns (depth: nat)
      requires Sizes()
      ensures depth == ArenaCalls.DepthForSize(Abstract(), requested)
    {
      var req := if requested < alignment then alignment else requested;
      depth := 1;
      var eff := EffectiveMemorySize();
      ghost var goal := DepthFor(eff, req);
      var more := FitsTwice(eff, req);
      while more
        invariant eff >= 0 && depth - 1 + DepthFor(eff, req) == goal
        invariant more <==> Quot(eff, req) / 2 != 0
        decreases eff
      {
        DepthForStep(eff, req);
        depth := depth + 1;
        eff := eff / 2;
        more := FitsTwice(eff, req);
      }
    }

    /** (eff / req) >> 1: does the request fit half of eff? */
    method FitsTwice(eff: nat, req: nat) returns (fits: bool)
      requires req >= 1
      ensures fits <==> Quot(eff, req) / 2 != 0
    {
      QuotIs(eff, req);
      fits := (eff / req) / 2 != 0;
    }

    /** address_for_position */
    method AddressForPosition(pos: Pos) returns (addr: nat)
      requires tree.Sized() && Sizes() && WellPlaced(tree.order, pos)
      ensures addr == main + Abstract().OffsetOf(pos.index)
    {
      hide Arena.OffsetOf, Arena.SizeOf, Pow2, RowIndex;
      PosInTree(tree.order, pos);
      FieldOfPos(tree.order, pos);
      var blockSize := SizeForDepth(pos.depth);
      addr := main + blockSize * RowIndex(pos);
      OffsetBySize(Abstract(), pos);
    }

    /** The address of a block at this offset. */
    function At(off: Option<nat>): Option<nat>
      reads this
    {
      match off case None => None case Some(o) => Some(main + o)
    }

    method Malloc(requested: nat) returns (addr: Option<nat>)
      requires Valid()
      modifies tree`status, tree.bits, tree.bits.bytes
      ensures Valid() && main == old(main)
      ensures Abstract() == ArenaCalls.Malloc(old(Abstract()), requested).0
      ensures addr == At(ArenaCalls.Malloc(old(Abstract()), requested).1)
    {
      MallocIs(Abstract(), requested);
      var req := if requested == 0 then 1 else requested;
      addr := None;
      if req <= memorySize {
        var pos := FindForSize(req);
        if tree.ValidPos(pos) {
          addr := Take(pos);
        }
      }
    }

    /** Marks a free position and answers its address. */
    method Take(pos: Pos) returns (addr: Option<nat>)
      requires Valid() && WellPlaced(tree.order, pos) && FreeNode(tree.order, tree.status, pos.index)
      modifies tree`status, tree.bits, tree.bits.bytes
      ensures Valid() && main == old(main)
      ensures Abstract() == old(Abstract()).(st := Mark(tree.order, old(tree.status), pos.index))
      ensures Abstract().Block(pos.index)
      ensures addr == Some(main + old(Abstract()).OffsetOf(pos.index))
    {
      hide Arena.OffsetOf, FirstLeaf, StatusTree.Mark;
      ghost var a := Abstract();
      MarkValid(a, pos.index);
      var at := AddressForPosition(pos);
      tree.Mark(pos);
      return Some(at);
    }

    /** The lookup malloc and realloc share: a free position that fits, or the invalid one. */
    method FindForSize(req: nat) returns (pos: Pos)
      requires Valid() && 1 <= req <= memorySize
      ensures pos.index == MallocNode(Abstract(), req)
      ensures pos.index != 0 ==> WellPlaced(tree.order, pos)
    {
      var targetDepth := DepthForSize(req);
      DepthForSizeFits(Abstract(), req);
      pos := tree.FindFree(targetDepth);
    }

    /** position_for_address, for an address inside the memory. */
    method PositionForAddress(addr: nat) returns (pos: Pos)
      requires Valid() && main <= addr < main + memorySize
      ensures pos.index == PositionFor(Abstract(), addr - main)
      ensures pos.index != 0 ==> WellPlaced(tree.order, pos)
    {
      var offset := addr - main;
      LookupIs(Abstract(), offset);
      var leaf, rest := DeepestPosition(offset);
      pos := INVALID_POS;
      if rest == 0 {
        pos := OwnerAt(leaf, addr);
      }
    }

    /** The node that owns the leaf, if it also begins at this address. */
    method OwnerAt(leaf: Pos, addr: nat) returns (pos: Pos)
      requires tree.Valid() && Sizes() && WellPlaced(tree.order, leaf) && main <= addr
      ensures pos.index == var n := Owner(tree.status, leaf.index);
                           if n == 0 || Abstract().OffsetOf(n) != addr - main then 0 else n
      ensures pos.index != 0 ==> WellPlaced(tree.order, pos)
    {
      pos := FirstBusy(leaf);
      if pos.index != 0 {
        var at := AddressForPosition(pos);
        if at != addr {
          pos := INVALID_POS;
        }
      }
    }

    /** deepest_position_for_offset, together with offset % alignment. */
    method DeepestPosition(offset: nat) returns (pos: Pos, rest: nat)
      requires Sizes()
      ensures pos == Pos(Abstract().LeafAt(offset), tree.order.levels)
      ensures rest == Rem(offset, Abstract().Alignment())
    {
      QuotIs(offset, alignment);
      pos := Pos(Pow2(tree.order.levels - 1) + offset / alignment, tree.order.levels);
      rest := offset % alignment;
    }

    /** Walks up from pos to the first node with a non-zero status. */
    method FirstBusy(leaf: Pos) returns (pos: Pos)
      requires tree.Valid() && WellPlaced(tree.order, leaf)
      ensures pos.index == Owner(tree.status, leaf.index)
      ensures if pos.index != 0 then WellPlaced(tree.order, pos) else pos == INVALID_POS
    {
      pos := leaf;
      var status := tree.Status(pos);
      while status == 0
        invariant WellPlaced(tree.order, pos) && status == tree.status[pos.index]
        invariant Owner(tree.status, pos.index) == Owner(tree.status, leaf.index)
        decreases pos.index
      {
        if pos.index == 1 {
          return INVALID_POS;
        }
        ParentWellPlaced(tree.order, pos);
        pos := Parent(pos);
        status := tree.Status(pos);
      }
    }

    /** Gives back the position found for an address; a partly used one stays as it is. */
    method GiveBack(pos: Pos, ghost off: nat)
      requires Valid() && off < memorySize
      requires WellPlaced(tree.order, pos) && pos.index == PositionFor(Abstract(), off)
      modifies tree`status, tree.bits, tree.bits.bytes
      ensures Valid() && main == old(main)
      ensures Abstract() == ArenaCalls.Free(old(Abstract()), off)
    {
      FoundIs(Abstract(), off);
      FreeTakesBack(Abstract(), off);
      tree.Release(pos);
    }

    method Free(addr: nat)
      requires Valid()
      modifies tree`status, tree.bits, tree.bits.bytes
      ensures Valid() && main == old(main)
      ensures Abstract() == if addr < main then old(Abstract()) else ArenaCalls.Free(old(Abstract()), addr - main)
    {
      if main <= addr < main + memorySize {
        var pos := PositionForAddress(addr);
        if tree.ValidPos(pos) {
          GiveBack(pos, addr - main);
        }
      }
    }

    method SafeFree(addr: nat, requested: nat) returns (ok: bool)
      requires Valid()
      modifies tree`status, tree.bits, tree.bits.bytes
      ensures Valid() && main == old(main)
      ensures (Abstract(), ok) ==
              if addr < main then (old(Abstract()), false)
              else ArenaCalls.SafeFree(old(Abstract()), addr - main, requested)
    {
      ok := false;
      if main <= addr < main + memorySize {
        var pos := PositionForAddress(addr);
        if tree.ValidPos(pos) {
          SafeFreeIs(Abstract(), addr - main, requested);
          ok := SizeFits(pos, requested);
          if ok {
            GiveBack(pos, addr - main);
          }
        }
      }
    }

    /** Does the request fit the block at pos, and not half of it? */
    method SizeFits(pos: Pos, requested: nat) returns (fits: bool)
      requires Valid() && WellPlaced(tree.order, pos)
      ensures fits <==> var size := Abstract().SizeOf(pos.index);
                        size / 2 < Max(requested, Abstract().Alignment()) <= size
    {
      var blockSize := SizeAt(pos);
      var req := if requested < alignment then alignment else requested;
      fits := !(req > blockSize) && !(req <= blockSize / 2);
    }

    method ReserveRange(addr: nat, requested: nat)
      requires Valid()
      modifies tree`status, tree.bits, tree.bits.bytes
      ensures Valid() && main == old(main)
      ensures Abstract() == if addr < main then old(Abstract()) else Reserve(old(Abstract()), addr - main, requested)
    {
      hide RangePending, MarkLeaves, SlotsLeft;
      if requested == 0 || addr < main || addr + requested > main + memorySize {
        return;
      }
      ReserveIs(Abstract(), addr - main, requested);
      var leaf, _ := DeepestPosition(addr - main);
      MarkRange(leaf, requested, SlotsFor(Abstract(), requested));
    }

    /** Advances one leaf at a time; a last part of a slot takes a whole leaf. */
    method MarkRange(first: Pos, size: nat, ghost slotCount: nat)
      requires tree.Valid() && Sizes() && SlotsLeft(size, alignment, slotCount)
      requires first.index >= 1 && first.index + slotCount <= Pow2(tree.order.levels) && Shape(tree.order, tree.status)
      requires RangePending(tree.order, tree.status, first, slotCount,
                 MarkLeaves(tree.order, tree.status, first.index, slotCount))
      modifies tree`status, tree.bits, tree.bits.bytes
      ensures tree.Valid()
      ensures tree.status == MarkLeaves(tree.order, old(tree.status), first.index, slotCount)
    {
      hide StatusTree.Mark, MemoHolds, OkExcept;
      var pos, requested: nat := first, size;
      ghost var count: nat := slotCount;
      ghost var goal := MarkLeaves(tree.order, tree.status, first.index, slotCount);
      while requested != 0
        invariant tree.Valid() && alignment >= 1 && count >= 0 && requested >= 0
                    && SlotsLeft(requested, alignment, count)
        invariant RangePending(tree.order, tree.status, pos, count, goal)
        decreases requested
      {
        TakeLeaf(tree.order, tree.status, pos, count, goal);
        tree.Mark(pos);
        SlotTaken(requested, alignment, count);
        requested := if requested < alignment then 0 else requested - alignment;
        count := count - 1;
        pos := Pos(pos.index + 1, pos.depth);
      }
    }

    // ---- Walks over the whole tree

    /** buddy_is_full */
    method IsFull() returns (full: bool)
      requires Valid()
      ensures full <==> RootFree(tree.order, tree.status) == {}
    {
      RootWellPlaced(tree.order);
      FullIffNoRoom(tree.order, tree.status);
      var status := tree.Status(Root());
      full := status == tree.order.levels;
    }

    /** What is left to count from pos on. */
    ghost predicate Counting(pos: Pos, leaves: nat)
      reads tree
    {
      && TreeOk(tree.order, tree.status) && WellPlaced(tree.order, pos)
      && leaves + FreeLeaves(tree.order, tree.status, pos.index) + FreeAfter(tree.order, tree.status, pos.index)
         == |RootFree(tree.order, tree.status)|
    }

    /** buddy_arena_free_size */
    method ArenaFreeSize() returns (result: nat)
      requires Valid()
      ensures result == FreeBytes(Abstract())
    {
      result := 0;
      var pos := Root();
      RootWellPlaced(tree.order);
      AllRoom(tree.order, tree.status);
      ghost var leaves := 0;
      var more := true;
      while more
        invariant result >= 0 && leaves >= 0 && result == Times(leaves, alignment)
        invariant if more then Counting(pos, leaves) else leaves == |RootFree(tree.order, tree.status)|
        decreases more,
                  if more then Room(tree.order, pos.index) else 0,
                  if more then MaxStatus(tree.order, pos.index) else 0
      {
        ghost var n;
        WalkProgress(tree.order, pos.index);
        more, pos, result, n := CountNode(pos, result, leaves);
        leaves := n;
      }
    }

    /** The body of that loop. */
    method CountNode(pos: Pos, sum: nat, ghost leaves: nat)
            returns (more: bool, next: Pos, result: nat, ghost counted: nat)
      requires Valid() && Counting(pos, leaves) && sum == Times(leaves, alignment)
      ensures result == Times(counted, alignment)
      ensures if more then Counting(next, counted) else counted == |RootFree(tree.order, tree.status)|
      ensures more ==>
                || next.index == NextUp(pos.index)
                || (2 * pos.index < Pow2(tree.order.levels) && next.index == 2 * pos.index)
    {
      hide FreeLeaves, FreeAfter, NextUp, Times, Encodes, MemoHolds, Depth, OkExcept;
      FreeStep(tree.order, tree.status, pos.index);
      PosInTree(tree.order, pos);
      var status := tree.Status(pos);
      result, counted := sum, leaves;
      var goingUp := false;
      if status == tree.order.levels - pos.depth + 1 {
        goingUp := true;
      } else if status == 0 {
        goingUp := true;
        var size := SizeForDepth(pos.depth);
        result := result + size;
        counted := leaves + Pow2(tree.order.levels - pos.depth);
        Pow2Times(tree.order.levels - pos.depth, alignBits);
        TimesAdd(leaves, Pow2(tree.order.levels - pos.depth), alignment);
      }
      more, next := tree.Walk(pos, goingUp);
    }

    /** What the callback answers for block n. */
    ghost function Reported<R>(fp: (nat, nat) -> Option<R>, n: nat): Option<R>
      requires IsNode(tree.order, n)
      reads this, tree
    {
      fp(main + Abstract().OffsetOf(n), Abstract().SizeOf(n))
    }

    /** Every block but the last one of seen was reported in vain; the last one decides. */
    ghost predicate Answers<R>(fp: (nat, nat) -> Option<R>, seen: seq<nat>, result: Option<R>)
      reads this, tree
    {
      forall k: nat {:trigger seen[k]} :: k < |seen| ==>
        IsNode(tree.order, seen[k]) && Reported(fp, seen[k]) == if k == |seen| - 1 then result else None
    }

    /** buddy_walk with a callback that does not change the allocator; seen are the nodes reported
        to it, in the order of the calls. */
    method WalkBlocks<R>(fp: (nat, nat) -> Option<R>) returns (result: Option<R>, seen: seq<nat>)
      requires Valid()
      ensures if result.None? then AllBlocks(Abstract(), seen) else BlocksUpTo(Abstract(), seen)
      ensures Answers(fp, seen, result)
    {
      result, seen := None, [];
      var pos := Root();
      RootWellPlaced(tree.order);
      WalkBegins(Abstract());
      var more := true;
      while more
        invariant result == None && Answers(fp, seen, None)
        invariant if more then WellPlaced(tree.order, pos) && WalkedTo(Abstract(), seen, pos.index)
                  else AllBlocks(Abstract(), seen)
        decreases more,
                  if more then Room(tree.order, pos.index) else 0,
                  if more then MaxStatus(tree.order, pos.index) else 0
      {
        WalkProgress(tree.order, pos.index);
        var stop;
        result, stop, more, pos, seen := VisitNode(fp, pos, seen);
        if stop {
          return;
        }
      }
    }

    /** The body of that loop; stop tells that it returned. */
    method VisitNode<R>(fp: (nat, nat) -> Option<R>, pos: Pos, seen: seq<nat>)
      returns (result: Option<R>, stop: bool, more: bool, next: Pos, met: seq<nat>)
      requires Valid() && WellPlaced(tree.order, pos) && WalkedTo(Abstract(), seen, pos.index)
                 && Answers(fp, seen, None)
      ensures Answers(fp, met, result)
      ensures stop ==> if result.None? then AllBlocks(Abstract(), met) else BlocksUpTo(Abstract(), met)
      ensures !stop ==> result == None
      ensures !stop && !more ==> AllBlocks(Abstract(), met)
      ensures !stop && more ==> WellPlaced(tree.order, next) && WalkedTo(Abstract(), met, next.index)
      ensures !stop && more ==>
                || next.index == NextUp(pos.index)
                || (2 * pos.index < Pow2(tree.order.levels) && next.index == 2 * pos.index)
    {
      var idle, live := Classify(pos);
      result, stop, more, next, met := None, false, true, pos, seen;
      if live {
        result, stop, met := ReportBlock(fp, pos, seen);
      }
      if !stop {
        WalkOn(Abstract(), seen, pos.index);
        more, next := tree.Walk(pos, idle || live);
      }
    }

    /** Is the node idle, and is it handed out on its own? For the latter its left child decides. */
    method Classify(pos: Pos) returns (idle: bool, live: bool)
      requires Valid() && WellPlaced(tree.order, pos)
      ensures idle <==> tree.status[pos.index] == 0
      ensures live <==> Live(tree.order, tree.status, pos.index)
    {
      PosInTree(tree.order, pos);
      LiveStep(tree.order, tree.status, pos.index);
      var status := tree.Status(pos);
      idle, live := status == 0, false;
      if status == tree.order.levels - pos.depth + 1 {
        live := true;
        var left := LeftChild(pos);
        if tree.ValidPos(left) {
          ChildrenWellPlaced(tree.order, pos);
          var leftStatus := tree.Status(left);
          live := leftStatus == 0;
        }
      }
    }

    /** Hands a block to the callback; stops at the first virtual one, or at an answer. */
    method ReportBlock<R>(fp: (nat, nat) -> Option<R>, pos: Pos, seen: seq<nat>)
      returns (result: Option<R>, stop: bool, met: seq<nat>)
      requires Valid() && WellPlaced(tree.order, pos) && Live(tree.order, tree.status, pos.index)
      requires WalkedTo(Abstract(), seen, pos.index) && Answers(fp, seen, None)
      ensures Answers(fp, met, result)
      ensures stop ==> if result.None? then AllBlocks(Abstract(), met) else BlocksUpTo(Abstract(), met)
      ensures !stop ==> result == None && Abstract().Block(pos.index) && met == seen + [pos.index]
    {
      hide AllBlocks, BlocksUpTo, WalkedTo, Arena.SizeOf, Arena.OffsetOf;
      InMemoryTest(Abstract(), pos.index);
      WalkMeets(Abstract(), seen, pos.index);
      var posSize := SizeAt(pos);
      var addr := AddressForPosition(pos);
      result, stop, met := None, false, seen;
      if addr - main + posSize > memorySize {
        stop := true;
      } else {
        result := fp(addr, posSize);
        met := seen + [pos.index];
        stop := result.Some?;
      }
    }

    // ---- Resizing a block

    /** The C library's memmove within the arena: every byte is read before any is written. */
    method Memmove(arena: array<bv8>, dest: nat, source: nat, count: nat)
      requires dest + count <= arena.Length && source + count <= arena.Length
      modifies arena
      ensures Copied(old(arena[..]), arena[..], dest, source, count)
    {
      forall k | dest <= k < dest + count {
        arena[k] := arena[source + (k - dest)];
      }
    }

    /** Is the array part of the allocator's own state? */
    ghost predicate UsesArray(arena: array<bv8>)
      reads this, tree
    {
      arena as object in {tree.bits.bytes as object, tree.sizeForOrder as object}
    }

    /** realloc of block n, whose bytes are those of the arena behind main. */
    method Realloc(arena: array<bv8>, addr: nat, requested: nat, ghost n: nat) returns (result: Option<nat>)
      requires Valid() && arena.Length == memorySize && !UsesArray(arena)
      requires Abstract().Block(n) && addr == main + Abstract().OffsetOf(n)
      modifies tree`status, tree.bits, tree.bits.bytes, arena
      ensures Valid() && main == old(main)
      ensures Abstract() == ArenaRuns.Realloc(old(Abstract()), addr - main, requested).0
      ensures result == At(ArenaRuns.Realloc(old(Abstract()), addr - main, requested).1)
      ensures result.None? ==> arena[..] == old(arena[..])
      ensures result.Some? ==> exists m: nat ::
                && BlockMoved(old(Abstract()), old(arena[..]), arena[..], n, m)
                && Abstract().Block(m) && result.value == main + old(Abstract()).OffsetOf(m)
    {
      hide ArenaRuns.Realloc;
      BlockIsFound(Abstract(), n);
      if requested == 0 || requested > memorySize {
        ReallocEarly(Abstract(), main, addr, requested);
        if requested == 0 {
          Free(addr);
        }
        return None;
      }
      var origin := PositionForAddress(addr);
      result := MoveBlock(arena, origin, requested, addr - main);
    }

    /** The part of realloc behind its early returns. */
    method MoveBlock(arena: array<bv8>, origin: Pos, requested: nat, ghost off: nat) returns (result: Option<nat>)
      requires Valid() && arena.Length == memorySize && !UsesArray(arena)
      requires WellPlaced(tree.order, origin) && Abstract().Block(origin.index)
                 && off == Abstract().OffsetOf(origin.index) && 1 <= requested <= memorySize
      modifies tree`status, tree.bits, tree.bits.bytes, arena
      ensures Valid() && main == old(main)
      ensures Abstract() == ArenaRuns.Realloc(old(Abstract()), off, requested).0
      ensures result == At(ArenaRuns.Realloc(old(Abstract()), off, requested).1)
      ensures result.None? ==> arena[..] == old(arena[..])
      ensures result.Some? ==> exists m: nat ::
                && BlockMoved(old(Abstract()), old(arena[..]), arena[..], origin.index, m)
                && Abstract().Block(m) && result.value == main + old(Abstract()).OffsetOf(m)
    {
      hide ArenaRuns.Realloc, StatusTree.Mark, StatusTree.Release, FreeNode, BlockMoved, MemoHolds,
        MallocNode;
      ghost var a := Abstract();
      ReallocIs(a, origin.index, requested);
      var newPos := GiveUpAndFind(origin, requested);
      if newPos.index == 0 {
        PutBack(origin);
        return None;
      }
      MoveBytes(arena, origin, newPos, a);
      result := Take(newPos);
    }

    /** Releases the block at origin and looks for a place for its successor. */
    method GiveUpAndFind(origin: Pos, requested: nat) returns (newPos: Pos)
      requires Valid() && 1 <= requested <= memorySize
      requires WellPlaced(tree.order, origin) && Abstract().Block(origin.index)
      modifies tree`status, tree.bits, tree.bits.bytes
      ensures Valid() && main == old(main)
      ensures Abstract() == old(Abstract()).(st := Release(tree.order, old(tree.status), origin.index))
      ensures newPos.index == MallocNode(Abstract(), requested)
      ensures newPos.index != 0 ==> WellPlaced(tree.order, newPos)
    {
      hide ArenaRuns.Realloc, StatusTree.Mark, StatusTree.Release, MallocNode;
      ReallocIs(Abstract(), origin.index, requested);
      tree.Release(origin);
      newPos := FindForSize(requested);
    }

    method PutBack(origin: Pos)
      requires Valid() && WellPlaced(tree.order, origin) && FreeNode(tree.order, tree.status, origin.index)
      modifies tree`status, tree.bits, tree.bits.bytes
      ensures Valid() && main == old(main)
      ensures Abstract() == old(Abstract()).(st := Mark(tree.order, old(tree.status), origin.index))
    {
      MarkValid(Abstract(), origin.index);
      tree.Mark(origin);
    }

    /** Brings the bytes of the block at origin to newPos, unless it stays where it is. */
    method MoveBytes(arena: array<bv8>, origin: Pos, newPos: Pos, ghost a: Arena)
      requires tree.Sized() && Sizes() && !UsesArray(arena)
      requires WellPlaced(tree.order, origin) && WellPlaced(tree.order, newPos)
      requires a.Valid() && Abstract() == a.(st := tree.status) && arena.Length == a.MemorySize()
      requires a.Block(origin.index) && FreeNode(a.order, Release(a.order, a.st, origin.index), newPos.index)
      modifies arena
      ensures BlockMoved(a, old(arena[..]), arena[..], origin.index, newPos.index)
    {
      if newPos.index == origin.index {
        StayIsSafe(a, origin.index, arena[..]);
      } else {
        ghost var before := arena[..];
        NewPlaceInMemory(a, origin.index, newPos.index);
        SameGeometry(a, Abstract(), origin.index);
        SameGeometry(a, Abstract(), newPos.index);
        CopyBlock(arena, origin, newPos);
        MoveIsSafe(a, origin.index, newPos.index, before, arena[..]);
      }
    }

    /** Copies the part of the block at origin that fits the block at newPos. */
    method CopyBlock(arena: array<bv8>, origin: Pos, newPos: Pos)
      requires tree.Sized() && Sizes() && WellPlaced(tree.order, origin) && WellPlaced(tree.order, newPos)
      requires Abstract().OffsetOf(origin.index) + Abstract().SizeOf(origin.index) <= arena.Length
      requires Abstract().OffsetOf(newPos.index) + Abstract().SizeOf(newPos.index) <= arena.Length
      requires !UsesArray(arena)
      modifies arena
      ensures var a := Abstract();
              Copied(old(arena[..]), arena[..], a.OffsetOf(newPos.index), a.OffsetOf(origin.index),
                     Min(a.SizeOf(origin.index), a.SizeOf(newPos.index)))
    {
      hide Arena.OffsetOf, Arena.SizeOf, Copied;
      var source := AddressForPosition(origin);
      var dest := AddressForPosition(newPos);
      var count := SmallerSize(origin, newPos);
      Memmove(arena, dest - main, source - main, count);
    }

    method SizeAt(pos: Pos) returns (size: nat)
      requires Sizes() && WellPlaced(tree.order, pos)
      ensures size == Abstract().SizeOf(pos.index)
    {
      PosInTree(tree.order, pos);
      FieldOfPos(tree.order, pos);
      OffsetBySize(Abstract(), pos);
      size := SizeForDepth(pos.depth);
    }

    /** The size of the deeper of two positions. */
    method SmallerSize(p: Pos, q: Pos) returns (size: nat)
      requires Sizes() && WellPlaced(tree.order, p) && WellPlaced(tree.order, q)
      ensures size == Min(Abstract().SizeOf(p.index), Abstract().SizeOf(q.index))
    {
      hide Arena.OffsetOf, Arena.SizeOf, FieldStart, Depth;
      PosInTree(tree.order, p);
      PosInTree(tree.order, q);
      FieldOfPos(tree.order, p);
      FieldOfPos(tree.order, q);
      OffsetBySize(Abstract(), p);
      OffsetBySize(Abstract(), q);
      var depth := if p.depth > q.depth then p.depth else q.depth;
      size := SizeForDepth(depth);
      Pow2Mono(tree.order.levels - depth + alignBits, tree.order.levels - p.depth + alignBits);
      Pow2Mono(tree.order.levels - depth + alignBits, tree.order.levels - q.depth + alignBits);
    }
  }

  lemma {:induction false} ReallocEarly(a: Arena, main: nat, addr: nat, requested: nat)
    requires a.Valid() && main <= addr && (requested == 0 || requested > a.MemorySize())
    ensures ArenaRuns.Realloc(a, addr - main, requested)
            == (if requested == 0 then ArenaCalls.Free(a, addr - main) else a, None)
  {
  }

  /** BUDDY_ALIGNOF of the header, and of size_t, on the 64-bit machines. */
  const WORD := 8

  /** What makes buddy_init_alignment refuse. */
  ghost predicate InitRefuses(at: nat, main: nat, memorySize: nat, alignment: nat) {
    || at == 0 || main == 0 || at == main
    || !IsPow2(alignment)
    || at % WORD != 0 || main % WORD != 0
    || memorySize < alignment
  }

  /** buddy_init_alignment: a null pointer is the address zero. The memory is cut down to whole
      slots, and there may be up to 2^30 of them. */
  method Init(at: nat, main: nat, memorySize: nat, alignment: nat) returns (buddy: Option<Buddy>)
    requires memorySize <= U64 / 2 && alignment < U64
    requires alignment >= 1 ==> CeilLog2(Quot(memorySize, alignment)) <= 30
    ensures buddy.None? <==> InitRefuses(at, main, memorySize, alignment)
    ensures buddy.Some? ==>
              && var b := buddy.value;
              && b.Valid() && fresh(b) && fresh(b.tree)
              && fresh(b.tree.bits) && fresh(b.tree.bits.bytes) && fresh(b.tree.sizeForOrder)
              && b.main == main
              && b.Abstract() == InitArena(CeilLog2(alignment), Quot(memorySize, alignment))
  {
    var valid := IsValidAlignment(alignment);
    if at == 0 || main == 0 || at == main || !valid || at % WORD != 0 || main % WORD != 0 {
      return None;
    }
    var size := TrimmedSize(memorySize, alignment);
    TrimmedSlots(memorySize, alignment);
    if size < alignment {
      return None;
    }
    var treeOrder := OrderForMemory(size, alignment);
    SlotsAtMost(Quot(memorySize, alignment), alignment);
    Pow2IsCeil(alignment);
    var b := new Buddy(main, size, alignment, treeOrder, CeilLog2(alignment), Quot(memorySize, alignment));
    buddy := Some(b);
  }

  method TrimmedSize(memorySize: nat, alignment: nat) returns (size: nat)
    requires alignment >= 1
    ensures size == Times(Quot(memorySize, alignment), alignment)
  {
    QuotIs(memorySize, alignment);
    QuotRem(memorySize, alignment);
    size := memorySize;
    if memorySize % alignment != 0 {
      size := memorySize - memorySize % alignment;
    }
  }

  lemma {:induction false} TrimmedSlots(memorySize: nat, alignment: nat)
    requires alignment >= 1
    ensures var n := Quot(memorySize, alignment);
            && Times(n, alignment) <= memorySize
            && Quot(Times(n, alignment), alignment) == n
            && (memorySize < alignment <==> n == 0)
            && (Times(n, alignment) < alignment <==> n == 0)
  {
    QuotRem(memorySize, alignment);
    DivTimes(Quot(memorySize, alignment), alignment);
    if Quot(memorySize, alignment) > 0 {
      SlotsAtMost(1, alignment);
      TimesMono(1, Quot(memorySize, alignment), alignment);
      TimesIs(1, alignment);
    }
  }

  /** The last count leaves below pos are still to be masked; delta is their size in bytes. */
  ghost predicate TailPending(order: Order, k: nat, st: Statuses, pos: Pos, delta: nat, count: nat, goal: Statuses) {
    && TreeOk(order, st)
    && WellPlaced(order, pos)
    && FreeNode(order, st, pos.index)
    && 1 <= count <= Pow2(MaxStatus(order, pos.index) - 1)
    && delta == Times(count, Pow2(k))
    && MarkTail(order, st, pos.index, count) == goal
  }

  lemma {:induction false} PendingPlace(order: Order, k: nat, st: Statuses, pos: Pos, delta: nat, count: nat,
          goal: Statuses)
    requires TailPending(order, k, st, pos, delta, count, goal)
    ensures WellPlaced(order, pos) && TreeOk(order, st) && FreeNode(order, st, pos.index)
    ensures 1 <= count <= Pow2(MaxStatus(order, pos.index) - 1) && delta == Times(count, Pow2(k))
    ensures count == Pow2(MaxStatus(order, pos.index) - 1) ==> goal == Mark(order, st, pos.index)
  {
  }

  lemma {:induction false} PendingIsPositive(order: Order, k: nat, st: Statuses, pos: Pos, delta: nat, count: nat,
          goal: Statuses)
    requires TailPending(order, k, st, pos, delta, count, goal)
    ensures delta > 0
  {
    SlotsAtMost(count, Pow2(k));
  }

  lemma {:induction false} TailGoesRight(order: Order, k: nat, st: Statuses, pos: Pos, delta: nat, count: nat,
          goal: Statuses)
    requires TailPending(order, k, st, pos, delta, count, goal)
    requires Pow2(MaxStatus(order, pos.index) - 1) > 1 && count <= Pow2(MaxStatus(order, pos.index) - 1) / 2
    ensures TailPending(order, k, st, RightChild(pos), delta, count, goal) && pos.depth < order.levels
  {
    TailInRight(order, st, pos.index, count);
    ChildrenWellPlaced(order, pos);
  }

  lemma {:induction false} TailGoesLeft(order: Order, k: nat, st: Statuses, pos: Pos, delta: nat, count: nat,
          goal: Statuses)
    requires TailPending(order, k, st, pos, delta, count, goal)
    requires Pow2(MaxStatus(order, pos.index) - 1) / 2 < count < Pow2(MaxStatus(order, pos.index) - 1)
    ensures 2 * pos.index + 1 < Pow2(order.levels) && FreeNode(order, st, 2 * pos.index + 1) && pos.depth < order.levels
    ensures WellPlaced(order, RightChild(pos))
    ensures var c := count - Pow2(MaxStatus(order, pos.index) - 1) / 2;
            TailPending(order, k, Mark(order, st, 2 * pos.index + 1), LeftChild(pos), Times(c, Pow2(k)), c, goal)
  {
    HalfWidth(order, pos.index);
    ChildrenWellPlaced(order, pos);
    RightIsFree(order, st, pos.index);
    RightMarked(order, st, pos.index);
  }

  lemma {:induction false} RightIsFree(order: Order, st: Statuses, n: nat)
    requires TreeOk(order, st) && FreeNode(order, st, n) && 2 * n + 1 < Pow2(order.levels)
    ensures FreeNode(order, st, 2 * n + 1) && TreeOk(order, Mark(order, st, 2 * n + 1))
  {
    ChildFree(order, st, n, 2 * n + 1);
    MarkFree(order, st, 2 * n + 1);
  }

  lemma {:induction false} PosInTree(order: Order, pos: Pos)
    requires WellPlaced(order, pos)
    ensures pos.depth <= order.levels
  {
    NodeDepth(order, pos.index);
  }

  lemma {:induction false} RightHalfPending(order: Order, k: nat, slots: nat)
    requires order.levels >= 1 && slots >= 1 && CeilPow2(slots) == Pow2(order.levels - 1)
               && slots != Pow2(order.levels - 1)
    ensures order.levels >= 2
    ensures var count := Pow2(order.levels - 1) - slots;
            TailPending(order, k, Zeros(order), RightChild(Root()), Times(count, Pow2(k)), count,
              InitStatuses(order, slots))
  {
    TailFits(order, slots);
    ZerosOk(order);
    assert Depth(order, 3) == 2;
  }

  /** Comparing bytes is comparing leaves. */
  lemma {:induction false} TailSizes(order: Order, k: nat, pos: Pos, count: nat)
    requires WellPlaced(order, pos) && 1 <= count <= Pow2(MaxStatus(order, pos.index) - 1)
    ensures pos.depth <= order.levels && pos.depth >= 1
    ensures var width, size, delta :=
              Pow2(MaxStatus(order, pos.index) - 1), Pow2(order.levels - pos.depth + k), Times(count, Pow2(k));
            && (delta == size <==> count == width)
            && (delta != size ==> width > 1 && (delta <= size / 2 <==> count <= width / 2))
            && (delta != size && count > width / 2 ==>
              delta >= size / 2 && delta - size / 2 == Times(count - width / 2, Pow2(k)))
  {
    PosInTree(order, pos);
    var h := MaxStatus(order, pos.index) - 1;
    Pow2Times(h, k);
    TimesOrder(count, Pow2(h), Pow2(k));
    if h > 0 {
      Pow2Times(h - 1, k);
      TimesOrder(count, Pow2(h - 1), Pow2(k));
      if count > Pow2(h - 1) {
        TimesAdd(Pow2(h - 1), count - Pow2(h - 1), Pow2(k));
      }
    }
  }

  lemma {:induction false} InitialArena(a: Arena, k: nat, n: nat)
    requires n >= 1 && a.order == Order(CeilLog2(n) + 1) && a.alignBits == k && a.slots == n
    requires a.st == InitStatuses(a.order, n)
    ensures a == InitArena(k, n) && a.Valid()
  {
    InitValid(k, n);
  }

  lemma {:induction false} DepthForStep(eff: nat, req: nat)
    requires req >= 1
    ensures if Quot(eff, req) / 2 == 0 then DepthFor(eff, req) == 1
            else eff > 0 && DepthFor(eff, req) == 1 + DepthFor(eff / 2, req)
  {
    QuotientBelowTwo(eff, req);
  }

  /** malloc in two cases. */
  lemma {:induction false} MallocIs(a: Arena, requested: nat)
    requires a.Valid()
    ensures MallocNode(a, requested) == MallocNode(a, Request(requested))
    ensures MallocNode(a, requested) == 0 ==> ArenaCalls.Malloc(a, requested) == (a, None)
    ensures MallocNode(a, requested) != 0 ==>
              && FreeNode(a.order, a.st, MallocNode(a, requested))
              && ArenaCalls.Malloc(a, requested) ==
                 (a.(st := Mark(a.order, a.st, MallocNode(a, requested))), Some(a.OffsetOf(MallocNode(a, requested))))
    ensures Request(requested) > a.MemorySize() ==> MallocNode(a, requested) == 0
  {
    MallocFinds(a, requested);
  }

  /** The leaves pos, pos + 1, ... are still to be marked, count of them. */
  ghost predicate RangePending(order: Order, st: Statuses, pos: Pos, count: nat, goal: Statuses) {
    && TreeOk(order, st)
    && pos.depth == order.levels && Pow2(order.levels - 1) <= pos.index && pos.index + count <= Pow2(order.levels)
    && MarkLeaves(order, st, pos.index, count) == goal
  }

  lemma {:induction false} TakeLeaf(order: Order, st: Statuses, pos: Pos, count: nat, goal: Statuses)
    requires RangePending(order, st, pos, count, goal) && count > 0
    ensures WellPlaced(order, pos) && 2 * pos.index >= Pow2(order.levels)
    ensures RangePending(order, Mark(order, st, pos.index), Pos(pos.index + 1, pos.depth), count - 1, goal)
  {
    DepthIs(order, pos.index, order.levels);
    MarkLeaf(order, st, pos.index);
  }

  /** count slots is what the request still needs, rounded up. */
  ghost predicate SlotsLeft(requested: nat, alignment: nat, count: nat) {
    && requested <= Times(count, alignment)
    && (count > 0 ==> Times(count - 1, alignment) < requested)
    && (count == 0 <==> requested == 0)
  }

  lemma {:induction false} SlotTaken(requested: nat, alignment: nat, count: nat)
    requires SlotsLeft(requested, alignment, count) && requested > 0
    ensures count > 0
    ensures SlotsLeft(if requested < alignment then 0 else requested - alignment, alignment, count - 1)
  {
    if count > 1 {
      assert Times(count - 1, alignment) == Times(count - 2, alignment) + alignment;
    }
  }

  lemma {:induction false} SlotsForLeft(a: Arena, requested: nat)
    requires requested >= 1
    ensures SlotsLeft(requested, a.Alignment(), SlotsFor(a, requested))
  {
    QuotRem(requested + a.Alignment() - 1, a.Alignment());
  }

  /** What reserving a range in memory amounts to. */
  lemma {:induction false} ReserveIs(a: Arena, off: nat, requested: nat)
    requires a.Valid() && requested >= 1 && off + requested <= a.MemorySize()
    ensures var leaf, count := a.LeafAt(off), SlotsFor(a, requested);
            && SlotsLeft(requested, a.Alignment(), count)
            && leaf + count <= Pow2(a.order.levels)
            && Reserve(a, off, requested) == a.(st := MarkLeaves(a.order, a.st, leaf, count))
            && Reserve(a, off, requested).Valid()
            && RangePending(a.order, a.st, Pos(leaf, a.order.levels), count, MarkLeaves(a.order, a.st, leaf, count))
  {
    ReservedInMemory(a, off, requested);
    MarkLeavesValid(a, a.LeafAt(off), SlotsFor(a, requested));
    SlotsForLeft(a, requested);
  }

  /** position_for_address, case by case. */
  lemma {:induction false} LookupIs(a: Arena, off: nat)
    requires a.Valid() && off < a.MemorySize()
    ensures WellPlaced(a.order, Pos(a.LeafAt(off), a.order.levels))
    ensures Rem(off, a.Alignment()) != 0 ==> PositionFor(a, off) == 0
    ensures Rem(off, a.Alignment()) == 0 ==>
              PositionFor(a, off) == var n := Owner(a.st, a.LeafAt(off));
                                     if n == 0 || a.OffsetOf(n) != off then 0 else n
  {
    OffsetInTree(a, off);
    DepthIs(a.order, a.LeafAt(off), a.order.levels);
  }

  lemma {:induction false} SafeFreeIs(a: Arena, off: nat, requested: nat)
    requires a.Valid() && off < a.MemorySize() && PositionFor(a, off) != 0
    ensures var n := PositionFor(a, off);
            ArenaCalls.SafeFree(a, off, requested) ==
            if a.SizeOf(n) / 2 < Max(requested, a.Alignment()) <= a.SizeOf(n)
            then (ArenaCalls.Free(a, off), true) else (a, false)
  {
  }

  lemma {:induction false} SameOffset(a: Arena, b: Arena, n: nat)
    requires a.order == b.order && a.alignBits == b.alignBits && IsNode(a.order, n)
    ensures a.OffsetOf(n) == b.OffsetOf(n) && a.SizeOf(n) == b.SizeOf(n)
  {
  }

  lemma {:induction false} OffsetBySize(a: Arena, pos: Pos)
    requires WellPlaced(a.order, pos) && pos.depth <= a.order.levels && pos.index >= Pow2(pos.depth - 1)
    ensures a.OffsetOf(pos.index) == Pow2(a.order.levels - pos.depth + a.alignBits) * RowIndex(pos)
    ensures a.SizeOf(pos.index) == Pow2(a.order.levels - pos.depth + a.alignBits)
  {
    Pow2Times(a.order.levels - pos.depth, a.alignBits);
    TimesIs(Pow2(a.order.levels - pos.depth + a.alignBits), RowIndex(pos));
  }

  lemma {:induction false} SlotsInTree(order: Order, k: nat, slots: nat)
    requires order.levels >= 1 && slots >= 1 && CeilPow2(slots) == Pow2(order.levels - 1)
    ensures Times(slots, Pow2(k)) <= Pow2(order.levels - 1 + k)
    ensures Pow2(order.levels - 1 + k) - Times(slots, Pow2(k)) == Times(Pow2(order.levels - 1) - slots, Pow2(k))
    ensures Pow2(order.levels - 1 + k) == Times(slots, Pow2(k)) <==> slots == Pow2(order.levels - 1)
  {
    Pow2Times(order.levels - 1, k);
    TimesAdd(slots, Pow2(order.levels - 1) - slots, Pow2(k));
    SlotsAtMost(Pow2(order.levels - 1) - slots, Pow2(k));
  }
}
