/** Where buddy.h keeps the status of each node of a tree of a given order.

    Node 1 is the root and node i has the children 2 * i and 2 * i + 1. A node at depth d owns
    order.levels - d + 1 bits. Reading the nodes in index order, the fields follow one another without
    a gap: FieldStart is the sum of the widths of all the nodes before this one. The program
    computes the same number from the depth, the index within the row and a memo table. */
module TreeLayout {
  import opened PowersOfTwo
  import opened BuddyBitset

  /** The order of a tree: how many rows of nodes it has. */
  datatype Order = Order(levels: nat)

  /** The depth of node i in such a tree; the root has depth one. */
  function Depth(order: Order, i: nat, lazy: nat := LAZY): (d: nat)
    requires i >= 1
    ensures d >= 1
  {
    if i == 1 then 1 else 1 + Depth(order, i / 2, lazy)
  }

  lemma {:induction false} DepthBrackets(order: Order, i: nat)
    requires i >= 1
    ensures Pow2(Depth(order, i) - 1) <= i < Pow2(Depth(order, i))
  {
    if i > 1 {
      DepthBrackets(order, i / 2);
    }
  }

  lemma {:induction false} DepthIs(order: Order, i: nat, d: nat)
    requires d >= 1 && Pow2(d - 1) <= i < Pow2(d)
    ensures Depth(order, i) == d
  {
    if d > 1 {
      Pow2Mono(1, d - 1);
      DepthIs(order, i / 2, d - 1);
    }
  }

  predicate IsNode(order: Order, i: nat) {
    1 <= i < Pow2(order.levels)
  }

  /** The status of a node that is completely used, and the width of its field. */
  function MaxStatus(order: Order, i: nat): (w: nat)
    requires IsNode(order, i)
    ensures w >= 1
    ensures w == order.levels + 1 - Depth(order, i)
  {
    NodeDepth(order, i);
    order.levels + 1 - Depth(order, i)
  }

  lemma {:induction false} NodeDepth(order: Order, i: nat)
    requires IsNode(order, i)
    ensures Depth(order, i) <= order.levels
  {
    DepthBrackets(order, i);
    if order.levels < Depth(order, i) {
      Pow2Mono(order.levels, Depth(order, i) - 1);
    }
  }

  /** The nodes that have no children are those of status at most one. */
  lemma {:induction false} LeafWidth(order: Order, i: nat)
    requires IsNode(order, i)
    ensures MaxStatus(order, i) == 1 <==> 2 * i >= Pow2(order.levels)
    ensures 2 * i < Pow2(order.levels) ==>
              && MaxStatus(order, 2 * i) == MaxStatus(order, i) - 1
              && MaxStatus(order, 2 * i + 1) == MaxStatus(order, i) - 1
  {
    DepthBrackets(order, i);
    if 2 * i < Pow2(order.levels) {
      assert Depth(order, 2 * i) == Depth(order, i) + 1 && Depth(order, 2 * i + 1) == Depth(order, i) + 1;
      assert 2 * i + 1 < Pow2(order.levels);
    } else {
      NodeDepth(order, i);
      if Depth(order, i) < order.levels {
        Pow2Mono(Depth(order, i) + 1, order.levels);
      }
    }
  }

  /** The first bit of the field of node i, or the end of the last field for i == 2^order. */
  function FieldStart(order: Order, i: nat, lazy: nat := LAZY): (at: nat)
    requires 1 <= i <= Pow2(order.levels)
  {
    if i == 1 then 0 else FieldStart(order, i - 1, lazy) + MaxStatus(order, i - 1)
  }

  /** Fields do not overlap: every field ends before the field of any later node begins. */
  lemma {:induction false} FieldsInOrder(order: Order, i: nat, j: nat)
    requires 1 <= i < j <= Pow2(order.levels)
    ensures FieldStart(order, i) + MaxStatus(order, i) <= FieldStart(order, j)
    decreases j
  {
    if i < j - 1 {
      FieldsInOrder(order, i, j - 1);
    }
  }

  /** Nor do they leave a gap: every bit in front of node n belongs to the field of some node. */
  lemma {:induction false} FieldOfBit(order: Order, n: nat, bit: nat) returns (i: nat)
    requires 1 <= n <= Pow2(order.levels) && bit < FieldStart(order, n)
    ensures 1 <= i < n && FieldStart(order, i) <= bit < FieldStart(order, i) + MaxStatus(order, i)
    decreases n
  {
    if bit >= FieldStart(order, n - 1) {
      i := n - 1;
    } else {
      i := FieldOfBit(order, n - 1, bit);
    }
  }

  /** The nodes of one row are spaced by their common width. */
  lemma {:induction false} RowStart(order: Order, d: nat, k: nat)
    requires 1 <= d <= order.levels && k <= Pow2(d - 1)
    ensures Pow2(d - 1) + k <= Pow2(order.levels)
    ensures FieldStart(order, Pow2(d - 1) + k) == FieldStart(order, Pow2(d - 1)) + (order.levels + 1 - d) * k
  {
    Pow2Mono(d, order.levels);
    if k > 0 {
      RowStart(order, d, k - 1);
      DepthIs(order, Pow2(d - 1) + k - 1, d);
      MulSucc(order.levels + 1 - d, k);
    }
  }

  /** size_for_order(order, to): the number of bits in all rows of fields wider than stop. */
  method SizeForOrder(o: Order, stop: nat) returns (result: nat)
    requires stop <= o.levels
    ensures Pow2(o.levels - stop) <= Pow2(o.levels)
    ensures result == FieldStart(o, Pow2(o.levels - stop))
  {
    result := 0;
    var multi := 1;
    var order := o.levels;
    Pow2Mono(o.levels - stop, o.levels);
    while order != stop
      invariant stop <= order <= o.levels
      invariant multi == Pow2(o.levels - order) <= Pow2(o.levels)
      invariant result == FieldStart(o, multi)
    {
      RowStart(o, o.levels - order + 1, multi);
      result := result + order * multi;
      order := order - 1;
      multi := multi * 2;
      Pow2Mono(o.levels - order, o.levels);
    }
  }

  /** Bits of the whole tree. */
  function TreeBits(order: Order): (bits: nat) {
    FieldStart(order, Pow2(order.levels))
  }

  /** The C struct position: an index together with its depth. */
  datatype Pos = Pos(index: nat, depth: nat)

  const INVALID_POS := Pos(0, 0)

  predicate WellPlaced(order: Order, pos: Pos) {
    IsNode(order, pos.index) && pos.depth == Depth(order, pos.index)
  }

  datatype InternalPos = InternalPos(localOffset: nat, bitsetLocation: nat)

  /** buddy_tree_index: clearing the highest bit of the index leaves the index within the row. */
  function RowIndex(pos: Pos): nat
    requires pos.depth >= 1 && pos.index >= Pow2(pos.depth - 1)
  {
    pos.index - Pow2(pos.depth - 1)
  }

  lemma {:induction false} FieldOfPos(order: Order, pos: Pos)
    requires WellPlaced(order, pos)
    ensures pos.depth <= order.levels && pos.index >= Pow2(pos.depth - 1)
    ensures Pow2(pos.depth - 1) <= Pow2(order.levels)
    ensures FieldStart(order, pos.index) ==
            FieldStart(order, Pow2(pos.depth - 1)) + (order.levels + 1 - pos.depth) * RowIndex(pos)
  {
    NodeDepth(order, pos.index);
    DepthBrackets(order, pos.index);
    RowStart(order, pos.depth, RowIndex(pos));
  }

  /* The memory block of a tree: a header, then data[], which holds the bitset and behind it
     the memo table of order.levels + 1 words of eight bytes. */

  function PaddedBitset(order: Order): (bytes: nat) {
    var b := BitsetSizeof(TreeBits(order));
    if b % 8 != 0 then b + b % 8 else b
  }

  function MemoWord(order: Order): (word: nat) {
    PaddedBitset(order) / 8 + 1
  }

  const TREE_HEADER := 24

  function TreeSizeof(order: Order): (bytes: nat) {
    TREE_HEADER + PaddedBitset(order) + (order.levels + 2) * 8
  }

  /** The padding does not round up to a multiple of eight, and yet the memo table lies behind
      every byte of the bitset and within the size the caller reserved. */
  lemma {:induction false} MemoBehindBitset(order: Order, i: nat)
    requires i <= order.levels
    ensures BitsetSizeof(TreeBits(order)) <= 8 * (MemoWord(order) + i)
    ensures TREE_HEADER + 8 * (MemoWord(order) + i) + 8 <= TreeSizeof(order)
  {
  }
}
