/** The pre-order walk of buddy.h on status trees: what is still ahead of a position, how much
    room is free, and which nodes a full walk reports. */
module TreeWalk {
  import opened PowersOfTwo
  import opened Products
  import opened TreeLayout
  import opened StatusTree
  import opened Arenas
  import opened ArenaCalls

  /** Where the walk goes once the subtree of node i is finished; zero at the end. */
  function NextUp(i: nat): (j: nat) {
    if i <= 1 then 0 else if i % 2 == 1 then NextUp(i / 2) else i + 1
  }

  lemma {:induction false} NextUpIsNode(order: Order, i: nat)
    requires IsNode(order, i) && NextUp(i) != 0
    ensures IsNode(order, NextUp(i)) && FirstLeaf(order, NextUp(i)) == EndLeaf(order, i)
    ensures NextUp(i) >= 2
  {
    assert Pow2(order.levels) == 2 * Pow2(order.levels - 1);
    LeafWidth(order, i / 2);
    if i % 2 == 1 {
      NextUpIsNode(order, i / 2);
      TimesTwice(i / 2, Pow2(MaxStatus(order, i) - 1));
    } else {
      TimesAdd(i, 1, Pow2(MaxStatus(order, i) - 1));
      TimesIs(1, Pow2(MaxStatus(order, i) - 1));
    }
  }

  // ---- Free room

  /** buddy_arena_free_size in leaves, recursively: a node's status settles its whole subtree
      unless it is partly used. */
  function FreeLeaves(order: Order, st: Statuses, i: nat): (n: nat)
    requires Shape(order, st) && IsNode(order, i)
    decreases |st| - i
  {
    if st[i] == MaxStatus(order, i) then 0
    else if st[i] == 0 then Pow2(MaxStatus(order, i) - 1)
    else if 2 * i + 1 < |st| then FreeLeaves(order, st, 2 * i) + FreeLeaves(order, st, 2 * i + 1)
    else 0
  }

  /** The free leaves that the walk meets after it is done with node i. */
  function FreeAfter(order: Order, st: Statuses, i: nat): (n: nat)
    requires Shape(order, st) && IsNode(order, i)
    decreases i
  {
    if i == 1 then 0 else
      assert i / 2 < i && Pow2(order.levels) == 2 * Pow2(order.levels - 1);
      if i % 2 == 1 then FreeAfter(order, st, i / 2)
      else FreeLeaves(order, st, i + 1) + FreeAfter(order, st, i / 2)
  }

  lemma {:induction false} FreeAfterNext(order: Order, st: Statuses, i: nat)
    requires Shape(order, st) && IsNode(order, i)
    ensures NextUp(i) == 0 ==> FreeAfter(order, st, i) == 0
    ensures NextUp(i) != 0 ==>
              && IsNode(order, NextUp(i))
              && FreeAfter(order, st, i) == FreeLeaves(order, st, NextUp(i)) + FreeAfter(order, st, NextUp(i))
    decreases i
  {
    hide FreeLeaves, EndLeaf, FirstLeaf;
    if NextUp(i) != 0 {
      NextUpIsNode(order, i);
    }
    if i > 1 && i % 2 == 1 {
      FreeAfterNext(order, st, i / 2);
    }
  }

  /** One step of the walk: a settled node is skipped with its subtree, any other is entered. */
  lemma {:induction false} FreeStep(order: Order, st: Statuses, i: nat)
    requires TreeOk(order, st) && IsNode(order, i)
    ensures var settled := st[i] == MaxStatus(order, i) || st[i] == 0;
            && (!settled ==>
                  && 2 * i + 1 < |st| && IsNode(order, 2 * i)
                  && FreeLeaves(order, st, i) + FreeAfter(order, st, i)
                     == FreeLeaves(order, st, 2 * i) + FreeAfter(order, st, 2 * i))
            && (settled ==>
              FreeLeaves(order, st, i) == if st[i] == MaxStatus(order, i) then 0 else Pow2(MaxStatus(order, i) - 1))
            && (settled && NextUp(i) == 0 ==> FreeAfter(order, st, i) == 0)
            && (settled && NextUp(i) != 0 ==>
                  && IsNode(order, NextUp(i))
                  && FreeAfter(order, st, i) == FreeLeaves(order, st, NextUp(i)) + FreeAfter(order, st, NextUp(i)))
  {
    FreeAfterNext(order, st, i);
    LeafWidth(order, i);
    assert NodeOk(order, st, i);
    assert Pow2(order.levels) == 2 * Pow2(order.levels - 1);
  }

  /** How far the walk still has to go: to the right first, then down. */
  function Room(order: Order, i: nat): (r: nat)
    requires IsNode(order, i)
  {
    if FirstLeaf(order, i) <= Pow2(order.levels) then Pow2(order.levels) - FirstLeaf(order, i) else 0
  }

  lemma {:induction false} WalkProgress(order: Order, i: nat)
    requires IsNode(order, i)
    ensures NextUp(i) != 0 ==> IsNode(order, NextUp(i)) && Room(order, NextUp(i)) < Room(order, i)
    ensures 2 * i < Pow2(order.levels) ==>
              Room(order, 2 * i) == Room(order, i) && MaxStatus(order, 2 * i) < MaxStatus(order, i)
  {
    LeafRange(order, i);
    if NextUp(i) != 0 {
      NextUpIsNode(order, i);
      LeafRange(order, NextUp(i));
    }
    if 2 * i < Pow2(order.levels) {
      LeafWidth(order, i);
      ChildLeaves(order, i);
    }
  }

  /** The leaves below node i that nobody holds. */
  ghost function FreeLeafSet(order: Order, st: Statuses, i: nat): set<nat>
    requires Shape(order, st) && IsNode(order, i)
  {
    set leaf: nat | FirstLeaf(order, i) <= leaf < EndLeaf(order, i) && FreeNode(order, st, leaf)
  }

  function Interval(lo: nat, n: nat, lazy: nat := LAZY): (s: set<nat>)
    ensures forall k: nat :: k in s <==> lo <= k < lo + n
  {
    if n == 0 then {} else Interval(lo, n - 1, lazy) + {lo + n - 1}
  }

  lemma {:induction false} IntervalSize(lo: nat, n: nat)
    ensures |Interval(lo, n)| == n
  {
    if n > 0 {
      IntervalSize(lo, n - 1);
    }
  }

  lemma {:induction false} FullHasNoFreeLeaf(order: Order, st: Statuses, i: nat)
    requires TreeOk(order, st) && IsNode(order, i) && st[i] == MaxStatus(order, i)
    ensures FreeLeafSet(order, st, i) == {}
  {
    LeafRange(order, i);
    forall leaf: nat | leaf in FreeLeafSet(order, st, i) ensures false {
      assert Pow2(order.levels) == 2 * Pow2(order.levels - 1);
      LeavesUnder(order, i, leaf);
      NodeDepth(order, leaf);
      FreeBoundsAncestor(order, st, leaf, i);
    }
  }

  lemma {:induction false} FreeHasAllLeaves(order: Order, st: Statuses, i: nat)
    requires TreeOk(order, st) && FreeNode(order, st, i)
    ensures FreeLeafSet(order, st, i) == Interval(FirstLeaf(order, i), Pow2(MaxStatus(order, i) - 1))
  {
    LeafRange(order, i);
    forall leaf: nat | FirstLeaf(order, i) <= leaf < EndLeaf(order, i) ensures FreeNode(order, st, leaf) {
      assert Pow2(order.levels) == 2 * Pow2(order.levels - 1);
      LeavesUnder(order, i, leaf);
      FreeNotOwned(order, st, i, leaf);
    }
  }

  /** The recursive count is the number of free leaves. */
  lemma {:induction false} FreeLeavesCount(order: Order, st: Statuses, i: nat)
    requires TreeOk(order, st) && IsNode(order, i)
    requires NothingAbove(order, st, i)
    ensures FreeLeaves(order, st, i) == |FreeLeafSet(order, st, i)|
    decreases |st| - i
  {
    if st[i] == MaxStatus(order, i) {
      FullHasNoFreeLeaf(order, st, i);
    } else if st[i] == 0 {
      FreeHasAllLeaves(order, st, i);
      IntervalSize(FirstLeaf(order, i), Pow2(MaxStatus(order, i) - 1));
    } else {
      PartlyUsed(order, st, i);
      FreeLeavesCount(order, st, 2 * i);
      FreeLeavesCount(order, st, 2 * i + 1);
      ChildSets(order, st, i);
    }
  }

  lemma {:induction false} PartlyUsed(order: Order, st: Statuses, i: nat)
    requires TreeOk(order, st) && IsNode(order, i) && NothingAbove(order, st, i)
    requires st[i] != 0 && st[i] != MaxStatus(order, i)
    ensures 2 * i + 1 < |st| && NothingAbove(order, st, 2 * i) && NothingAbove(order, st, 2 * i + 1)
  {
    LeafWidth(order, i);
    assert NodeOk(order, st, i);
    assert Pow2(order.levels) == 2 * Pow2(order.levels - 1);
    NothingAboveChild(order, st, i, 2 * i);
    NothingAboveChild(order, st, i, 2 * i + 1);
  }

  lemma {:induction false} NothingAboveChild(order: Order, st: Statuses, i: nat, c: nat)
    requires Shape(order, st) && c / 2 == i && !Live(order, st, i) && NothingAbove(order, st, i)
    ensures NothingAbove(order, st, c)
  {
    forall n: nat | Above(n, c) ensures !Live(order, st, n) {
      assert Under(i, n);
    }
  }

  lemma {:induction false} ChildSets(order: Order, st: Statuses, i: nat)
    requires Shape(order, st) && IsNode(order, i) && 2 * i + 1 < |st|
    ensures |FreeLeafSet(order, st, i)| == |FreeLeafSet(order, st, 2 * i)| + |FreeLeafSet(order, st, 2 * i + 1)|
  {
    ChildLeaves(order, i);
    var l, r := FreeLeafSet(order, st, 2 * i), FreeLeafSet(order, st, 2 * i + 1);
    LeafRange(order, 2 * i);
    LeafRange(order, 2 * i + 1);
    assert FreeLeafSet(order, st, i) == l + r;
    assert l !! r;
  }

  lemma {:induction false} ChildLeaves(order: Order, i: nat)
    requires IsNode(order, i) && 2 * i < Pow2(order.levels)
    ensures 2 * i + 1 < Pow2(order.levels)
    ensures FirstLeaf(order, 2 * i) == FirstLeaf(order, i)
    ensures EndLeaf(order, 2 * i) == FirstLeaf(order, 2 * i + 1)
    ensures EndLeaf(order, 2 * i + 1) == EndLeaf(order, i)
  {
    LeafWidth(order, i);
    assert Pow2(order.levels) == 2 * Pow2(order.levels - 1);
    TimesTwice(i, Pow2(MaxStatus(order, 2 * i) - 1));
  }

  ghost function RootFree(order: Order, st: Statuses): set<nat>
    requires TreeOk(order, st)
  {
    RootIsNode(order);
    FreeLeafSet(order, st, 1)
  }

  lemma {:induction false} RootIsNode(order: Order)
    requires order.levels >= 1
    ensures IsNode(order, 1) && FirstLeaf(order, 1) == Pow2(order.levels - 1) && EndLeaf(order, 1) == Pow2(order.levels)
    ensures MaxStatus(order, 1) == order.levels
  {
    Pow2Mono(1, order.levels);
    assert MaxStatus(order, 1) == order.levels;
    TimesIs(1, Pow2(order.levels - 1));
    assert FirstLeaf(order, 1) == Pow2(order.levels - 1);
    assert Pow2(order.levels) == 2 * Pow2(order.levels - 1);
  }

  /** The count from the root on is the number of free leaves. */
  lemma {:induction false} AllRoom(order: Order, st: Statuses)
    requires TreeOk(order, st)
    ensures IsNode(order, 1)
    ensures FreeLeaves(order, st, 1) + FreeAfter(order, st, 1) == |RootFree(order, st)|
  {
    RootIsNode(order);
    FreeLeavesCount(order, st, 1);
  }

  /** A tree is full, by the status of its root, exactly when no leaf is free. */
  lemma {:induction false} FullIffNoRoom(order: Order, st: Statuses)
    requires TreeOk(order, st)
    ensures IsNode(order, 1) && MaxStatus(order, 1) == order.levels
    ensures st[1] == order.levels <==> RootFree(order, st) == {}
  {
    RootIsNode(order);
    if st[1] == order.levels {
      FullHasNoFreeLeaf(order, st, 1);
    } else {
      StatusAtMostMax(order, st, 1);
      DescendFinds(order, st, 1, order.levels - 1);
      var leaf := Descend(st, 1, order.levels - 1);
      DepthBrackets(order, leaf);
      assert leaf in RootFree(order, st);
    }
  }

  /** buddy_arena_free_size */
  ghost function FreeBytes(a: Arena): nat
    requires a.Valid()
  {
    Times(|RootFree(a.order, a.st)|, a.Alignment())
  }

  /** A leaf is free exactly when no block holds it. */
  lemma {:induction false} LeafFreeIff(order: Order, st: Statuses, leaf: nat)
    requires TreeOk(order, st) && IsNode(order, leaf) && 2 * leaf >= Pow2(order.levels)
    ensures FreeNode(order, st, leaf) <==> forall m: nat :: Under(leaf, m) ==> !Live(order, st, m)
  {
    assert NodeOk(order, st, leaf);
    LeafWidth(order, leaf);
    assert Under(leaf, leaf);
    if FreeNode(order, st, leaf) {
      forall m: nat | Under(leaf, m) ensures !Live(order, st, m) {
        assert m == leaf || Above(m, leaf);
      }
    } else if forall m: nat :: Under(leaf, m) ==> !Live(order, st, m) {
      forall m: nat | Above(m, leaf) ensures !Live(order, st, m) {
        assert Under(leaf, m);
      }
    }
  }

  /** mark takes the leaves of the node away from the free ones, and only those. */
  lemma {:induction false} MarkTakesRoom(order: Order, st: Statuses, n: nat)
    requires TreeOk(order, st) && FreeNode(order, st, n)
    ensures TreeOk(order, Mark(order, st, n))
    ensures |RootFree(order, st)| == |RootFree(order, Mark(order, st, n))| + Pow2(MaxStatus(order, n) - 1)
  {
    var r := Mark(order, st, n);
    MarkFree(order, st, n);
    RootIsNode(order);
    LeafRange(order, n);
    FreeHasAllLeaves(order, st, n);
    IntervalSize(FirstLeaf(order, n), Pow2(MaxStatus(order, n) - 1));
    var leaves := FreeLeafSet(order, st, n);
    forall leaf: nat | Pow2(order.levels - 1) <= leaf < Pow2(order.levels)
      ensures FreeNode(order, r, leaf) <==>
                FreeNode(order, st, leaf) && !(FirstLeaf(order, n) <= leaf < EndLeaf(order, n))
    {
      LeafAfterMark(order, st, n, leaf);
    }
    assert leaves <= RootFree(order, st);
    assert RootFree(order, r) == RootFree(order, st) - leaves;
  }

  lemma {:induction false} LeafAfterMark(order: Order, st: Statuses, n: nat, leaf: nat)
    requires TreeOk(order, st) && FreeNode(order, st, n) && IsNode(order, leaf) && 2 * leaf >= Pow2(order.levels)
    ensures FreeNode(order, Mark(order, st, n), leaf) <==>
              FreeNode(order, st, leaf) && !(FirstLeaf(order, n) <= leaf < EndLeaf(order, n))
  {
    MarkFree(order, st, n);
    LeafFreeIff(order, st, leaf);
    LeafFreeIff(order, Mark(order, st, n), leaf);
    LeavesUnder(order, n, leaf);
  }

  /** release gives them back. */
  lemma {:induction false} ReleaseGivesRoom(order: Order, st: Statuses, n: nat)
    requires TreeOk(order, st) && Live(order, st, n)
    ensures TreeOk(order, Release(order, st, n))
    ensures |RootFree(order, Release(order, st, n))| == |RootFree(order, st)| + Pow2(MaxStatus(order, n) - 1)
  {
    ReleaseLive(order, st, n);
    MarkUndoesRelease(order, st, n);
    MarkTakesRoom(order, Release(order, st, n), n);
  }

  /** malloc lowers the free size by exactly the size of the block it hands out. */
  lemma {:induction false} MallocTakesRoom(a: Arena, requested: nat)
    requires a.Valid() && Malloc(a, requested).1.Some?
    ensures Malloc(a, requested).0.Valid() && IsNode(a.order, MallocNode(a, requested))
    ensures FreeBytes(a) == FreeBytes(Malloc(a, requested).0) + a.SizeOf(MallocNode(a, requested))
  {
    var n := MallocNode(a, requested);
    MallocGives(a, requested);
    MallocFinds(a, requested);
    MarkTakesRoom(a.order, a.st, n);
    TimesAdd(|RootFree(a.order, Mark(a.order, a.st, n))|, Pow2(MaxStatus(a.order, n) - 1), a.Alignment());
  }

  /** free raises it by the size of the block given back. */
  lemma {:induction false} FreeGivesRoom(a: Arena, n: nat)
    requires a.Valid() && a.Block(n)
    ensures Free(a, a.OffsetOf(n)).Valid()
    ensures FreeBytes(Free(a, a.OffsetOf(n))) == FreeBytes(a) + a.SizeOf(n)
  {
    BlockIsFound(a, n);
    FreeTakesBack(a, a.OffsetOf(n));
    ReleaseGivesRoom(a.order, a.st, n);
    TimesAdd(|RootFree(a.order, a.st)|, Pow2(MaxStatus(a.order, n) - 1), a.Alignment());
  }

  /** While no block is handed out, all of the memory is free. */
  lemma {:induction false} EmptyArenaRoom(a: Arena)
    requires a.Valid() && forall n: nat :: !a.Block(n)
    ensures FreeBytes(a) == a.MemorySize()
  {
    HalfTree(a);
    RootIsNode(a.order);
    forall leaf: nat | a.LeafBase() <= leaf < Pow2(a.order.levels)
      ensures FreeNode(a.order, a.st, leaf) <==> leaf < a.LeafBase() + a.slots
    {
      EmptyLeaf(a, leaf);
    }
    assert RootFree(a.order, a.st) == Interval(a.LeafBase(), a.slots);
    IntervalSize(a.LeafBase(), a.slots);
  }

  lemma {:induction false} EmptyLeaf(a: Arena, leaf: nat)
    requires a.Valid() && a.LeafBase() <= leaf < Pow2(a.order.levels)
    requires forall n: nat :: !a.Block(n)
    ensures FreeNode(a.order, a.st, leaf) <==> leaf < a.LeafBase() + a.slots
  {
    HalfTree(a);
    LeafFreeIff(a.order, a.st, leaf);
    if leaf < a.LeafBase() + a.slots {
      forall m: nat | Under(leaf, m) ensures !Live(a.order, a.st, m) {
        if Live(a.order, a.st, m) {
          LeavesUnder(a.order, m, leaf);
          assert a.Block(m);
        }
      }
    } else {
      assert a.HeldBack(leaf);
      OwnerIs(a.order, a.st, leaf);
    }
  }

  // ---- The blocks a walk reports

  /** The handed-out nodes below node i, in the order of the walk. */
  function LiveList(order: Order, st: Statuses, i: nat): (l: seq<nat>)
    requires Shape(order, st) && IsNode(order, i)
    decreases |st| - i
  {
    if st[i] == 0 then []
    else if Live(order, st, i) then [i]
    else if 2 * i + 1 < |st| then LiveList(order, st, 2 * i) + LiveList(order, st, 2 * i + 1)
    else []
  }

  function LiveAfter(order: Order, st: Statuses, i: nat): (l: seq<nat>)
    requires Shape(order, st) && IsNode(order, i)
    decreases i
  {
    if i == 1 then [] else
      assert i / 2 < i && Pow2(order.levels) == 2 * Pow2(order.levels - 1);
      if i % 2 == 1 then LiveAfter(order, st, i / 2)
      else LiveList(order, st, i + 1) + LiveAfter(order, st, i / 2)
  }

  lemma {:induction false} LiveAfterNext(order: Order, st: Statuses, i: nat)
    requires Shape(order, st) && IsNode(order, i)
    ensures NextUp(i) == 0 ==> LiveAfter(order, st, i) == []
    ensures NextUp(i) != 0 ==>
              && IsNode(order, NextUp(i))
              && LiveAfter(order, st, i) == LiveList(order, st, NextUp(i)) + LiveAfter(order, st, NextUp(i))
    decreases i
  {
    if NextUp(i) != 0 {
      NextUpIsNode(order, i);
    }
    if i > 1 && i % 2 == 1 {
      LiveAfterNext(order, st, i / 2);
    }
  }

  /** What the walk reports from node i on. */
  function LiveAhead(order: Order, st: Statuses, i: nat): (l: seq<nat>)
    requires Shape(order, st) && IsNode(order, i)
  {
    LiveList(order, st, i) + LiveAfter(order, st, i)
  }

  /** One step: an idle node is skipped, a block is reported, any other node is entered. */
  lemma {:induction false} LiveStep(order: Order, st: Statuses, i: nat)
    requires TreeOk(order, st) && IsNode(order, i)
    ensures Live(order, st, i) <==> st[i] == MaxStatus(order, i) && (2 * i < |st| ==> st[2 * i] == 0)
    ensures st[i] != 0 && !Live(order, st, i) ==>
              2 * i + 1 < |st| && IsNode(order, 2 * i) && LiveAhead(order, st, 2 * i) == LiveAhead(order, st, i)
    ensures st[i] == 0 || Live(order, st, i) ==>
              && (NextUp(i) != 0 ==> IsNode(order, NextUp(i)))
              && LiveAhead(order, st, i) == (if Live(order, st, i) then [i] else []) +
                                            if NextUp(i) == 0 then [] else LiveAhead(order, st, NextUp(i))
  {
    hide LiveAhead, NextUp, Live;
    LiveIsFull(order, st, i);
    if st[i] != 0 && !Live(order, st, i) {
      LiveEnters(order, st, i);
    } else {
      LiveLeaves(order, st, i);
    }
  }

  lemma {:induction false} LiveEnters(order: Order, st: Statuses, i: nat)
    requires TreeOk(order, st) && IsNode(order, i) && st[i] != 0 && !Live(order, st, i)
    ensures 2 * i + 1 < |st| && IsNode(order, 2 * i) && LiveAhead(order, st, 2 * i) == LiveAhead(order, st, i)
  {
    hide MaxStatus;
    LeafWidth(order, i);
    assert NodeOk(order, st, i);
    assert Pow2(order.levels) == 2 * Pow2(order.levels - 1);
    assert LiveAfter(order, st, 2 * i) == LiveList(order, st, 2 * i + 1) + LiveAfter(order, st, i);
  }

  lemma {:induction false} LiveLeaves(order: Order, st: Statuses, i: nat)
    requires TreeOk(order, st) && IsNode(order, i) && (st[i] == 0 || Live(order, st, i))
    ensures NextUp(i) != 0 ==> IsNode(order, NextUp(i))
    ensures LiveAhead(order, st, i) == (if Live(order, st, i) then [i] else []) +
                                       if NextUp(i) == 0 then [] else LiveAhead(order, st, NextUp(i))
  {
    hide NextUp, MaxStatus;
    LiveAfterNext(order, st, i);
    LeafWidth(order, i);
  }

  lemma {:induction false} LiveIsFull(order: Order, st: Statuses, i: nat)
    requires TreeOk(order, st) && IsNode(order, i)
    ensures Live(order, st, i) <==> st[i] == MaxStatus(order, i) && (2 * i < |st| ==> st[2 * i] == 0)
  {
    assert NodeOk(order, st, i);
    LeafWidth(order, i);
  }

  /** l lists nodes by address: each ends where the next begins, or before. */
  ghost predicate ByAddress(order: Order, l: seq<nat>) {
    && (forall k: nat {:trigger l[k]} :: k < |l| ==> IsNode(order, l[k]))
    && forall j: nat, k: nat :: j < k < |l| ==> EndLeaf(order, l[j]) <= FirstLeaf(order, l[k])
  }

  ghost predicate Within(order: Order, l: seq<nat>, lo: nat, hi: nat) {
    forall k: nat {:trigger l[k]} :: k < |l| ==>
      IsNode(order, l[k]) && lo <= FirstLeaf(order, l[k]) && EndLeaf(order, l[k]) <= hi
  }

  /** The list holds exactly the handed-out nodes, each once, by address. */
  lemma {:induction false} LiveListIs(order: Order, st: Statuses, i: nat)
    requires TreeOk(order, st) && IsNode(order, i)
    ensures var l := LiveList(order, st, i);
            && ByAddress(order, l) && Within(order, l, FirstLeaf(order, i), EndLeaf(order, i))
            && forall n: nat :: n in l ==> Live(order, st, n)
    decreases |st| - i
  {
    if st[i] != 0 && !Live(order, st, i) && 2 * i + 1 < |st| {
      var a, b := LiveList(order, st, 2 * i), LiveList(order, st, 2 * i + 1);
      LiveListIs(order, st, 2 * i);
      LiveListIs(order, st, 2 * i + 1);
      ChildLeaves(order, i);
      ListsJoin(order, a, b, FirstLeaf(order, i), EndLeaf(order, 2 * i), EndLeaf(order, i));
    }
  }

  lemma {:induction false} ListsJoin(order: Order, a: seq<nat>, b: seq<nat>, lo: nat, mid: nat, hi: nat)
    requires ByAddress(order, a) && ByAddress(order, b)
    requires Within(order, a, lo, mid) && Within(order, b, mid, hi) && lo <= mid <= hi
    ensures ByAddress(order, a + b) && Within(order, a + b, lo, hi)
  {
  }

  lemma {:induction false} LiveListComplete(order: Order, st: Statuses, i: nat, n: nat)
    requires TreeOk(order, st) && IsNode(order, i) && Live(order, st, n) && Under(n, i)
    ensures n in LiveList(order, st, i)
    decreases |st| - i
  {
    assert NodeOk(order, st, i);
    if n != i {
      if st[i] == 0 || Live(order, st, i) {
        ZeroBelow(order, st, i, n);
      }
      UnderChild(n, i);
      var c := if Under(n, 2 * i) then 2 * i else 2 * i + 1;
      UnderIsNode(order, n, c);
      assert Pow2(order.levels) == 2 * Pow2(order.levels - 1);
      LiveListComplete(order, st, c, n);
    }
  }

  /** seen are the blocks the walk met before it came to node i. */
  ghost predicate WalkedTo(a: Arena, seen: seq<nat>, i: nat)
    requires a.Valid()
  {
    && IsNode(a.order, i) && IsNode(a.order, 1)
    && LiveList(a.order, a.st, 1) == seen + LiveAhead(a.order, a.st, i)
    && forall n: nat :: n in seen ==> a.Block(n)
  }

  /** All blocks, each exactly once, by address. */
  ghost predicate AllBlocks(a: Arena, seen: seq<nat>)
    requires a.Valid()
  {
    ByAddress(a.order, seen) && forall n: nat :: n in seen <==> a.Block(n)
  }

  /** The blocks up to the last one of seen. */
  ghost predicate BlocksUpTo(a: Arena, seen: seq<nat>)
    requires a.Valid()
  {
    && ByAddress(a.order, seen) && seen != []
    && (forall n: nat :: n in seen ==> a.Block(n))
    && forall n: nat :: a.Block(n) ==> n in seen || EndLeaf(a.order, seen[|seen| - 1]) <= FirstLeaf(a.order, n)
  }

  lemma {:induction false} WalkBegins(a: Arena)
    requires a.Valid()
    ensures WalkedTo(a, [], 1)
  {
    RootIsNode(a.order);
    assert LiveAfter(a.order, a.st, 1) == [];
  }

  /** At the end of the walk, or where the first virtual block turns up, all blocks were seen. */
  lemma {:induction false} WalkEnds(a: Arena, seen: seq<nat>, rest: seq<nat>)
    requires a.Valid() && IsNode(a.order, 1) && LiveList(a.order, a.st, 1) == seen + rest
    requires forall n: nat :: n in seen ==> a.Block(n)
    requires rest == [] || !a.Block(rest[0])
    ensures AllBlocks(a, seen)
  {
    var l := seen + rest;
    LiveListIs(a.order, a.st, 1);
    assert forall k: nat :: k < |seen| ==> seen[k] == l[k];
    forall n: nat | a.Block(n) ensures n in seen {
      UnderRoot(n);
      LiveListComplete(a.order, a.st, 1, n);
      var k: nat :| k < |l| && l[k] == n;
      if k >= |seen| {
        VirtualTail(a, l, |seen|, k);
      }
    }
  }

  /** What the walk has seen when it leaves node i. */
  lemma {:induction false} WalkOn(a: Arena, seen: seq<nat>, i: nat)
    requires a.Valid() && WalkedTo(a, seen, i) && (Live(a.order, a.st, i) ==> a.Block(i))
    ensures var met, settled := if a.Block(i) then seen + [i] else seen, a.st[i] == 0 || Live(a.order, a.st, i);
            && (!settled ==> 2 * i < Pow2(a.order.levels) && WalkedTo(a, met, 2 * i))
            && (settled && NextUp(i) != 0 ==> WalkedTo(a, met, NextUp(i)))
            && (settled && NextUp(i) == 0 ==> AllBlocks(a, met))
  {
    hide LiveList, LiveAfter, LiveAhead, NextUp, AllBlocks;
    LiveStep(a.order, a.st, i);
    if (a.st[i] == 0 || Live(a.order, a.st, i)) && NextUp(i) == 0 {
      WalkEnds(a, if a.Block(i) then seen + [i] else seen, []);
    }
  }

  /** What stopping at block i amounts to. */
  lemma {:induction false} WalkMeets(a: Arena, seen: seq<nat>, i: nat)
    requires a.Valid() && WalkedTo(a, seen, i) && Live(a.order, a.st, i)
    ensures if a.Block(i) then BlocksUpTo(a, seen + [i]) else AllBlocks(a, seen)
  {
    LiveStep(a.order, a.st, i);
    var rest := if NextUp(i) == 0 then [] else LiveAhead(a.order, a.st, NextUp(i));
    assert LiveList(a.order, a.st, 1) == seen + ([i] + rest) == (seen + [i]) + rest;
    if a.Block(i) {
      WalkStops(a, seen + [i], rest);
    } else {
      WalkEnds(a, seen, [i] + rest);
    }
  }

  lemma {:induction false} VirtualTail(a: Arena, l: seq<nat>, j: nat, k: nat)
    requires a.Valid() && ByAddress(a.order, l) && j <= k < |l| && Live(a.order, a.st, l[j]) && !a.Block(l[j])
    ensures !a.Block(l[k])
  {
    if j < k {
      LeafRange(a.order, l[j]);
    }
  }

  lemma {:induction false} WalkStops(a: Arena, seen: seq<nat>, rest: seq<nat>)
    requires a.Valid() && IsNode(a.order, 1) && LiveList(a.order, a.st, 1) == seen + rest && seen != []
    requires forall n: nat :: n in seen ==> a.Block(n)
    ensures BlocksUpTo(a, seen)
  {
    var l := seen + rest;
    LiveListIs(a.order, a.st, 1);
    assert forall k: nat :: k < |seen| ==> seen[k] == l[k];
    forall n: nat | a.Block(n) ensures n in seen || EndLeaf(a.order, seen[|seen| - 1]) <= FirstLeaf(a.order, n) {
      UnderRoot(n);
      LiveListComplete(a.order, a.st, 1, n);
      var k: nat :| k < |l| && l[k] == n;
    }
  }

  /** The test for a virtual block, in bytes. */
  lemma {:induction false} InMemoryTest(a: Arena, n: nat)
    requires a.Valid() && Live(a.order, a.st, n)
    ensures a.Block(n) <==> a.OffsetOf(n) + a.SizeOf(n) <= a.MemorySize()
  {
    LeafRange(a.order, n);
    OffsetIsLeaves(a, n);
    if a.Block(n) {
      BlockInMemory(a, n);
    }
    TimesOrder(EndLeaf(a.order, n) - a.LeafBase(), a.slots, a.Alignment());
  }
}
