/** The buddy allocator on values: an arena cut into blocks, and the calls that change it.

    alignment is 2^alignBits; the arena has slots * alignment bytes of memory; the tree covers the
    next power of two, and the leaves past the end of the memory are held by virtual blocks. */
module Arenas {
  import opened PowersOfTwo
  import opened Products
  import opened TreeLayout
  import opened StatusTree

  /** buddy_tree_index: the index of a node within its row. */
  function RowPosition(order: Order, n: nat): nat
    requires IsNode(order, n)
  {
    RowOfNode(order, n);
    n - Pow2(Depth(order, n) - 1)
  }

  datatype Arena = Arena(order: Order, alignBits: nat, slots: nat, st: Statuses) {
    function Alignment(): (a: nat) ensures a >= 1 { Pow2(alignBits) }
    function MemorySize(): nat { Times(slots, Alignment()) }
    function LeafBase(): nat requires order.levels >= 1 { Pow2(order.levels - 1) }

    ghost predicate Sized() {
      && order.levels >= 1
      && slots >= 1
      && CeilPow2(slots) == Pow2(order.levels - 1)
      && Shape(order, st)
    }

    /** The leaf for offset off; the program adds off / alignment to the leftmost leaf. */
    function LeafAt(off: nat): nat requires order.levels >= 1 { LeafBase() + Quot(off, Alignment()) }

    function SizeOf(n: nat): nat
      requires IsNode(order, n)
    {
      Times(Pow2(MaxStatus(order, n) - 1), Alignment())
    }

    /** address_for_position, relative to the start of the arena. */
    function OffsetOf(n: nat): nat
      requires IsNode(order, n)
    {
      Times(SizeOf(n), RowPosition(order, n))
    }

    /** The leaf is past the end of the memory. */
    predicate VirtualLeaf(leaf: nat)
      requires order.levels >= 1
    {
      LeafBase() + slots <= leaf < Pow2(order.levels)
    }

    /** A virtual leaf is held by a block that begins past the end of the memory. */
    ghost predicate HeldBack(leaf: nat)
      requires Sized() && IsNode(order, leaf)
    {
      var o := Owner(st, leaf);
      o != 0 && Live(order, st, o) && FirstLeaf(order, o) >= LeafBase() + slots
    }

    ghost predicate Valid() {
      && Sized()
      && TreeOk(order, st)
      && forall leaf: nat {:trigger HeldBack(leaf)} :: IsNode(order, leaf) && VirtualLeaf(leaf) ==> HeldBack(leaf)
    }

    /** A block a caller may hold: handed out, and in memory. */
    predicate Block(n: nat)
      requires Shape(order, st)
    {
      Live(order, st, n) && FirstLeaf(order, n) < LeafBase() + slots
    }
  }

  lemma {:induction false} RowOfNode(order: Order, n: nat)
    requires IsNode(order, n)
    ensures Pow2(Depth(order, n) - 1) <= n && Depth(order, n) <= order.levels
  {
    DepthBrackets(order, n);
    NodeDepth(order, n);
  }

  /** One past the last leaf below node n. */
  function EndLeaf(order: Order, n: nat): nat
    requires IsNode(order, n)
  {
    FirstLeaf(order, n) + Pow2(MaxStatus(order, n) - 1)
  }

  lemma {:induction false} LeafRange(order: Order, n: nat)
    requires IsNode(order, n)
    ensures order.levels >= 1
    ensures Pow2(order.levels - 1) <= FirstLeaf(order, n) < EndLeaf(order, n) <= Pow2(order.levels)
    ensures FirstLeaf(order, n) - Pow2(order.levels - 1) == Times(RowPosition(order, n), Pow2(MaxStatus(order, n) - 1))
  {
    RowOfNode(order, n);
    DepthBrackets(order, n);
    RowLeaves(Depth(order, n), MaxStatus(order, n) - 1, n);
  }

  /** A node of the row d, with h rows below it, in leaves. */
  lemma {:induction false} RowLeaves(d: nat, h: nat, n: nat)
    requires d >= 1 && Pow2(d - 1) <= n < Pow2(d)
    ensures Pow2(d - 1 + h) <= Times(n, Pow2(h))
    ensures Times(n, Pow2(h)) + Pow2(h) <= Pow2(d + h)
    ensures Times(n, Pow2(h)) - Pow2(d - 1 + h) == Times(n - Pow2(d - 1), Pow2(h))
  {
    hide Times, Pow2;
    Pow2Times(d - 1, h);
    Pow2Times(d, h);
    TimesAdd(n - Pow2(d - 1), Pow2(d - 1), Pow2(h));
    TimesMono(n + 1, Pow2(d), Pow2(h));
    TimesAdd(n, 1, Pow2(h));
    TimesIs(1, Pow2(h));
  }

  lemma {:induction false} Pow2Times(a: nat, b: nat)
    ensures Times(Pow2(a), Pow2(b)) == Pow2(a + b)
  {
    Pow2Add(a, b);
    TimesIs(Pow2(a), Pow2(b));
  }

  /** In bytes: a block is exactly its leaves. */
  lemma {:induction false} OffsetIsLeaves(a: Arena, n: nat)
    requires a.order.levels >= 1 && IsNode(a.order, n)
    ensures FirstLeaf(a.order, n) >= a.LeafBase()
    ensures a.OffsetOf(n) == Times(FirstLeaf(a.order, n) - a.LeafBase(), a.Alignment())
    ensures a.OffsetOf(n) + a.SizeOf(n) == Times(EndLeaf(a.order, n) - a.LeafBase(), a.Alignment())
  {
    LeafRange(a.order, n);
    var k, p, q := RowPosition(a.order, n), Pow2(MaxStatus(a.order, n) - 1), a.Alignment();
    TimesAssoc(k, p, q);
    TimesComm(k, Times(p, q));
    TimesAdd(Times(k, p), p, q);
  }

  /** Two blocks have no leaf in common. */
  lemma {:induction false} LiveLeavesDisjoint(order: Order, st: Statuses, n: nat, m: nat)
    requires TreeOk(order, st) && Live(order, st, n) && Live(order, st, m) && n != m
    ensures EndLeaf(order, n) <= FirstLeaf(order, m) || EndLeaf(order, m) <= FirstLeaf(order, n)
  {
    LeafRange(order, n);
    LeafRange(order, m);
    var f, g := FirstLeaf(order, n), FirstLeaf(order, m);
    var leaf := if f <= g then g else f;
    LeavesUnder(order, n, leaf);
    LeavesUnder(order, m, leaf);
    if Under(leaf, n) && Under(leaf, m) {
      OwnerOfLive(order, st, n, leaf);
      OwnerOfLive(order, st, m, leaf);
    }
  }

  /** A live node that reaches past the end of the memory begins past it. */
  lemma {:induction false} BlockInMemory(a: Arena, n: nat)
    requires a.Valid() && a.Block(n)
    ensures EndLeaf(a.order, n) <= a.LeafBase() + a.slots
  {
    LeafRange(a.order, n);
    var leaf := EndLeaf(a.order, n) - 1;
    if leaf >= a.LeafBase() + a.slots {
      assert a.HeldBack(leaf);
      LeavesUnder(a.order, n, leaf);
      OwnerOfLive(a.order, a.st, n, leaf);
    }
  }

  /** What every reachable arena guarantees about the blocks in the callers' hands. */
  ghost predicate Safe(a: Arena)
    requires a.order.levels >= 1 && Shape(a.order, a.st)
  {
    && (forall n: nat :: a.Block(n) ==>
          a.OffsetOf(n) + a.SizeOf(n) <= a.MemorySize() && IsMultiple(a.OffsetOf(n), a.SizeOf(n)))
    && (forall n: nat, m: nat :: a.Block(n) && a.Block(m) && n != m ==>
          || a.OffsetOf(n) + a.SizeOf(n) <= a.OffsetOf(m)
          || a.OffsetOf(m) + a.SizeOf(m) <= a.OffsetOf(n))
  }

  /** size is a power of two and x a multiple of it. */
  ghost predicate IsMultiple(x: nat, size: nat) {
    (exists e: nat :: size == Pow2(e)) && exists k: nat :: x == Times(size, k)
  }

  lemma {:induction false} BlockFits(a: Arena, n: nat)
    requires a.Valid() && a.Block(n)
    ensures a.OffsetOf(n) + a.SizeOf(n) <= a.MemorySize()
    ensures IsMultiple(a.OffsetOf(n), a.SizeOf(n))
  {
    OffsetIsLeaves(a, n);
    BlockInMemory(a, n);
    TimesMono(EndLeaf(a.order, n) - a.LeafBase(), a.slots, a.Alignment());
    Pow2Times(MaxStatus(a.order, n) - 1, a.alignBits);
    assert a.SizeOf(n) == Pow2(MaxStatus(a.order, n) - 1 + a.alignBits);
    assert a.OffsetOf(n) == Times(a.SizeOf(n), RowPosition(a.order, n));
  }

  lemma {:induction false} BlocksApart(a: Arena, n: nat, m: nat)
    requires a.Valid() && a.Block(n) && a.Block(m) && n != m
    ensures a.OffsetOf(n) + a.SizeOf(n) <= a.OffsetOf(m) || a.OffsetOf(m) + a.SizeOf(m) <= a.OffsetOf(n)
  {
    LiveLeavesDisjoint(a.order, a.st, n, m);
    OffsetIsLeaves(a, n);
    OffsetIsLeaves(a, m);
    if EndLeaf(a.order, n) <= FirstLeaf(a.order, m) {
      TimesMono(EndLeaf(a.order, n) - a.LeafBase(), FirstLeaf(a.order, m) - a.LeafBase(), a.Alignment());
    } else {
      TimesMono(EndLeaf(a.order, m) - a.LeafBase(), FirstLeaf(a.order, n) - a.LeafBase(), a.Alignment());
    }
  }

  lemma {:induction false} ValidIsSafe(a: Arena)
    requires a.Valid()
    ensures Safe(a)
  {
    forall n: nat | a.Block(n)
      ensures a.OffsetOf(n) + a.SizeOf(n) <= a.MemorySize() && IsMultiple(a.OffsetOf(n), a.SizeOf(n))
    {
      BlockFits(a, n);
    }
    forall n: nat, m: nat | a.Block(n) && a.Block(m) && n != m
      ensures a.OffsetOf(n) + a.SizeOf(n) <= a.OffsetOf(m) || a.OffsetOf(m) + a.SizeOf(m) <= a.OffsetOf(n)
    {
      BlocksApart(a, n, m);
    }
  }
}
