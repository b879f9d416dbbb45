/** The allocation tree of buddy.h: statuses packed in unary into one bitset.

    The ghost field status is the tree on values; Valid ties it to the bits. Positions are handed
    around as in C, as an index together with its depth. */
module BuddyTreeClass {
  import opened PowersOfTwo
  import opened BuddyBitset
  import opened TreeLayout
  import opened StatusTree
  import opened TreeWalk

  function Root(): Pos { Pos(1, 1) }
  function LeftChild(pos: Pos): Pos { Pos(2 * pos.index, pos.depth + 1) }
  function RightChild(pos: Pos): Pos { Pos(2 * pos.index + 1, pos.depth + 1) }
  function Parent(pos: Pos): Pos { Pos(pos.index / 2, if pos.depth == 0 then 0 else pos.depth - 1) }

  /** buddy_tree_sibling flips the lowest bit of the index. */
  function Sibling(pos: Pos): Pos {
    Pos(if pos.index % 2 == 0 then pos.index + 1 else pos.index - 1, pos.depth)
  }

  /** index ^ (index + 1): the trailing one bits of the index and the zero above them. */
  function XorSuccessor(i: nat, lazy: nat := LAZY): (x: nat) {
    if i % 2 == 0 then 1 else 2 * XorSuccessor(i / 2, lazy) + 1
  }

  /** The neighbour to the right; the last node of a row has none. */
  function RightAdjacent(pos: Pos): Pos {
    if XorSuccessor(pos.index) > pos.index then INVALID_POS else Pos(pos.index + 1, pos.depth)
  }

  lemma {:induction false} RightOfEven(order: Order, pos: Pos)
    requires WellPlaced(order, pos) && pos.index > 1 && pos.index % 2 == 0
    ensures RightAdjacent(pos) == Pos(pos.index + 1, pos.depth) && WellPlaced(order, RightAdjacent(pos))
  {
    NextIsNode(order, pos.index);
    assert XorSuccessor(pos.index) == 1;
  }

  /** The node count is even, so an even node has a right neighbour, at the same depth. */
  lemma {:induction false} NextIsNode(order: Order, i: nat)
    requires IsNode(order, i) && i > 1 && i % 2 == 0
    ensures IsNode(order, i + 1) && Depth(order, i + 1) == Depth(order, i)
  {
    hide Pow2;
    EvenRow(order, i);
    assert (i + 1) / 2 == i / 2;
  }

  lemma {:induction false} EvenRow(order: Order, i: nat)
    requires IsNode(order, i) && i > 1 && i % 2 == 0
    ensures i + 1 < Pow2(order.levels)
  {
    hide Depth;
    var half := Pow2(order.levels - 1);
    assert Pow2(order.levels) == 2 * half;
  }

  lemma {:induction false} ParentWellPlaced(order: Order, pos: Pos)
    requires WellPlaced(order, pos) && pos.index > 1
    ensures WellPlaced(order, Parent(pos))
  {
  }

  lemma {:induction false} ChildrenWellPlaced(order: Order, pos: Pos)
    requires WellPlaced(order, pos) && 2 * pos.index < Pow2(order.levels)
    ensures WellPlaced(order, LeftChild(pos)) && WellPlaced(order, RightChild(pos))
    ensures pos.depth < order.levels
  {
    NodeDepth(order, 2 * pos.index);
    assert Pow2(order.levels) == 2 * Pow2(order.levels - 1);
  }

  lemma {:induction false} RootWellPlaced(order: Order)
    requires order.levels >= 1
    ensures WellPlaced(order, Root()) && Pow2(order.levels) >= 2 && MaxStatus(order, 1) == order.levels
  {
    Pow2Mono(1, order.levels);
  }

  lemma {:induction false} ChildFields(order: Order, pos: Pos)
    requires WellPlaced(order, pos) && pos.depth < order.levels
    ensures 2 * pos.index + 1 < Pow2(order.levels)
    ensures WellPlaced(order, LeftChild(pos)) && WellPlaced(order, RightChild(pos))
    ensures MaxStatus(order, 2 * pos.index) == MaxStatus(order, 2 * pos.index + 1) == order.levels - pos.depth
    ensures FieldStart(order, 2 * pos.index + 1) == FieldStart(order, 2 * pos.index) + (order.levels - pos.depth)
  {
    LeafWidth(order, pos.index);
    ChildrenWellPlaced(order, pos);
    SiblingField(order, 2 * pos.index);
  }

  lemma {:induction false} FieldInBitset(order: Order, i: nat)
    requires IsNode(order, i)
    ensures FieldStart(order, i) + MaxStatus(order, i) <= TreeBits(order) <= 8 * BitsetSizeof(TreeBits(order))
  {
    FieldsInOrder(order, i, Pow2(order.levels));
  }

  lemma {:induction false} SiblingField(order: Order, i: nat)
    requires IsNode(order, i) && i > 1
    ensures var s := if i % 2 == 0 then i + 1 else i - 1;
            && IsNode(order, s)
            && MaxStatus(order, s) == MaxStatus(order, i)
            && FieldStart(order, s) == FieldStart(order, i) + MaxStatus(order, i) - 2 * MaxStatus(order, i) * (i % 2)
  {
    LeafWidth(order, i / 2);
    assert Pow2(order.levels) == 2 * Pow2(order.levels - 1);
  }

  ghost predicate FieldHolds(order: Order, m: seq<bool>, st: Statuses, i: nat)
    requires IsNode(order, i) && i < |st|
  {
    Unary(m, FieldStart(order, i), MaxStatus(order, i), st[i])
  }

  /** Every field of the bitset holds the status of its node. */
  ghost predicate Encodes(order: Order, m: seq<bool>, st: Statuses) {
    && Shape(order, st)
    && |m| == 8 * BitsetSizeof(TreeBits(order))
    && forall i: nat {:trigger FieldHolds(order, m, st, i)} :: IsNode(order, i) ==> FieldHolds(order, m, st, i)
  }

  lemma {:induction false} FieldRead(order: Order, m: seq<bool>, st: Statuses, i: nat)
    requires Encodes(order, m, st) && IsNode(order, i)
    ensures FieldHolds(order, m, st, i)
    ensures CountTrue(m, FieldStart(order, i), FieldStart(order, i) + MaxStatus(order, i)) == st[i]
  {
    assert FieldHolds(order, m, st, i);
    UnaryCount(m, FieldStart(order, i), MaxStatus(order, i), st[i], MaxStatus(order, i));
  }

  /** The statuses determine every bit of the tree. */
  lemma {:induction false} SameStatusSameBits(order: Order, m1: seq<bool>, m2: seq<bool>, st: Statuses, bit: nat)
    requires Encodes(order, m1, st) && Encodes(order, m2, st) && bit < TreeBits(order)
    ensures TreeBits(order) <= |m1| == |m2| && m1[bit] == m2[bit]
  {
    var i := FieldOfBit(order, Pow2(order.levels), bit);
    FieldInBitset(order, i);
    assert FieldHolds(order, m1, st, i) && FieldHolds(order, m2, st, i);
  }

  /** A shortened read is still exact when the status is known to fit the span. */
  lemma {:induction false} PrefixRead(order: Order, m: seq<bool>, st: Statuses, i: nat, span: nat)
    requires Encodes(order, m, st) && IsNode(order, i) && st[i] <= span <= MaxStatus(order, i)
    ensures FieldStart(order, i) + span <= |m|
    ensures CountTrue(m, FieldStart(order, i), FieldStart(order, i) + span) == st[i]
  {
    assert FieldHolds(order, m, st, i);
    UnaryCount(m, FieldStart(order, i), MaxStatus(order, i), st[i], span);
  }

  /** Entry k of the memo table: the size of all rows of fields wider than k. */
  ghost predicate MemoHolds(order: Order, entry: nat, k: nat)
    requires k <= order.levels
  {
    Pow2(order.levels - k) <= Pow2(order.levels) && entry == FieldStart(order, Pow2(order.levels - k))
  }

  class BuddyTree {
    var order: Order
    var upperPosBound: nat
    const bits: Bitset
    const sizeForOrder: array<nat>
    ghost var status: Statuses

    ghost predicate Sized()
      reads this, sizeForOrder
    {
      && order.levels >= 1
      && upperPosBound == Pow2(order.levels)
      && sizeForOrder.Length == order.levels + 1 && sizeForOrder as object != bits.bytes as object
      && forall k: nat :: k <= order.levels ==> MemoHolds(order, sizeForOrder[k], k)
    }

    ghost predicate Valid()
      reads this, bits, bits.bytes, sizeForOrder
    {
      Sized() && bits.Valid() && Encodes(order, bits.bitmap, status)
    }

    constructor (treeOrder: Order)
      requires 1 <= treeOrder.levels <= 31
      ensures Valid() && fresh(bits) && fresh(bits.bytes) && fresh(sizeForOrder)
      ensures order == treeOrder && status == Zeros(treeOrder)
    {
      order := treeOrder;
      upperPosBound := Pow2(treeOrder.levels);
      var total := SizeForOrder(treeOrder, 0);
      bits := new Bitset(BitsetSizeof(total));
      sizeForOrder := new nat[treeOrder.levels + 1](_ => 0);
      status := Zeros(treeOrder);
      new;
      PopulateSizeForOrder();
      forall i: nat | IsNode(order, i)
        ensures FieldHolds(order, bits.bitmap, status, i)
      {
        FieldInBitset(order, i);
      }
    }

    method PopulateSizeForOrder()
      requires sizeForOrder.Length == order.levels + 1
      modifies sizeForOrder
      ensures forall k: nat :: k <= order.levels ==> MemoHolds(order, sizeForOrder[k], k)
    {
      for i := 0 to order.levels + 1
        invariant forall k: nat :: k < i ==> MemoHolds(order, sizeForOrder[k], k)
      {
        var size := SizeForOrder(order, i);
        sizeForOrder[i] := size;
      }
    }

    predicate ValidPos(pos: Pos)
      reads this
    {
      pos.index != 0 && pos.index < upperPosBound
    }

    method InternalPosition(pos: Pos) returns (p: InternalPos)
      requires Sized() && WellPlaced(order, pos)
      ensures p == InternalPos(MaxStatus(order, pos.index), FieldStart(order, pos.index))
    {
      FieldOfPos(order, pos);
      var localOffset := order.levels - pos.depth + 1;
      var totalOffset := sizeForOrder[localOffset];
      assert MemoHolds(order, totalOffset, localOffset);
      assert order.levels - localOffset == pos.depth - 1;
      p := InternalPos(localOffset, totalOffset + localOffset * RowIndex(pos));
    }

    method WriteUnary(at: nat, w: nat, value: nat)
      requires bits.Valid() && value <= w && w > 0 && at + w <= |bits.bitmap|
      modifies bits, bits.bytes
      ensures bits.Valid() && Overwritten(old(bits.bitmap), bits.bitmap, at, w, value)
    {
      bits.ClearRange(at, at + w - 1);
      if value != 0 {
        bits.SetRange(at, at + value - 1);
      }
    }

    method WriteToInternalPosition(p: InternalPos, value: nat, ghost i: nat)
      requires Valid() && IsNode(order, i)
      requires p == InternalPos(MaxStatus(order, i), FieldStart(order, i)) && value <= p.localOffset
      modifies bits, bits.bytes, `status
      ensures Valid() && status == old(status)[i := value]
    {
      FieldRead(order, bits.bitmap, status, i);
      WriteUnary(p.bitsetLocation, p.localOffset, value);
      FieldWritten(order, old(bits.bitmap), bits.bitmap, i, value, status);
      status := status[i := value];
    }

    /** Reads the field at p, or a prefix of it when the caller shortened p.localOffset. */
    method ReadFromInternalPosition(p: InternalPos) returns (value: nat)
      requires bits.Valid() && p.bitsetLocation < |bits.bitmap|
      requires bits.bitmap[p.bitsetLocation] ==> p.localOffset > 0 && p.bitsetLocation + p.localOffset <= |bits.bitmap|
      ensures value == if bits.bitmap[p.bitsetLocation]
                       then CountTrue(bits.bitmap, p.bitsetLocation, p.bitsetLocation + p.localOffset) else 0
    {
      var first := bits.Test(p.bitsetLocation);
      if !first {
        return 0;
      }
      value := bits.CountRange(p.bitsetLocation, p.bitsetLocation + p.localOffset - 1);
    }

    /** The field of node i, read in full. */
    method ReadNode(p: InternalPos, ghost i: nat) returns (value: nat)
      requires Valid() && IsNode(order, i)
      requires p == InternalPos(MaxStatus(order, i), FieldStart(order, i))
      ensures value == status[i]
    {
      FieldRead(order, bits.bitmap, status, i);
      value := ReadFromInternalPosition(p);
    }

    /** Single-bit probe: is the status of node i at least value? */
    method CompareWithInternalPosition(p: InternalPos, value: nat, ghost i: nat) returns (atLeast: bool)
      requires Valid() && IsNode(order, i) && 1 <= value <= MaxStatus(order, i)
      requires p.bitsetLocation == FieldStart(order, i)
      ensures atLeast <==> status[i] >= value
    {
      FieldRead(order, bits.bitmap, status, i);
      atLeast := bits.Test(p.bitsetLocation + value - 1);
    }

    method Status(pos: Pos) returns (value: nat)
      requires Valid() && WellPlaced(order, pos)
      ensures value == status[pos.index]
    {
      var p := InternalPosition(pos);
      value := ReadNode(p, pos.index);
    }

    /** One level of the walk: the status the parent should have and the one it has. */
    method ReadParent(pos: Pos, p: InternalPos, size: nat)
      returns (parent: Pos, parentInternal: InternalPos, target: nat, stored: nat)
      requires Valid() && WellPlaced(order, pos) && pos.index != 1
      requires p == InternalPos(MaxStatus(order, pos.index), FieldStart(order, pos.index))
      requires status[pos.index] == size
      ensures parent == Parent(pos) && WellPlaced(order, parent) && 2 * parent.index + 1 < |status|
      ensures parentInternal == InternalPos(MaxStatus(order, parent.index), FieldStart(order, parent.index))
      ensures target == Combine(status[2 * parent.index], status[2 * parent.index + 1]) <= parentInternal.localOffset
      ensures stored == status[parent.index]
    {
      hide MemoHolds, FieldStart;
      SiblingField(order, pos.index);
      var s := p.(bitsetLocation := p.bitsetLocation + p.localOffset - 2 * p.localOffset * (pos.index % 2));
      var sizeSibling := ReadNode(s, Sibling(pos).index);
      parent := Parent(pos);
      parentInternal := InternalPosition(parent);
      stored := ReadNode(parentInternal, parent.index);
      target := if size != 0 || sizeSibling != 0 then (if size <= sizeSibling then size else sizeSibling) + 1 else 0;
      ParentFits(order, status, bits.bitmap, parent.index);
    }

    /** pos is a node whose status is current, and the walk up from it goes far enough. */
    ghost predicate Climbing(pos: Pos, p: InternalPos, size: nat)
      reads this
    {
      && Shape(order, status)
      && WellPlaced(order, pos)
      && p == InternalPos(MaxStatus(order, pos.index), FieldStart(order, pos.index))
      && status[pos.index] == size
      && Climbable(status, pos.index)
    }

    /** The body of the loop of update_parent_chain; done tells that it returned early. */
    method UpdateParent(pos: Pos, p: InternalPos, size: nat)
      returns (done: bool, parent: Pos, parentInternal: InternalPos, target: nat)
      requires Valid() && Climbing(pos, p, size) && pos.index != 1
      modifies bits, bits.bytes, `status
      ensures Valid() && parent.index == pos.index / 2
      ensures done ==> status == old(status) == Repair(old(status), pos.index)
      ensures !done ==> Climbing(parent, parentInternal, target)
      ensures !done ==> Repair(status, parent.index) == Repair(old(status), pos.index)
    {
      var sizeParent;
      parent, parentInternal, target, sizeParent := ReadParent(pos, p, size);
      RepairStep(status, pos.index, parent.index, target);
      ClimbStep(status, pos.index, parent.index, target);
      done := target == sizeParent;
      if done {
        UnchangedWrite(status, parent.index, target);
      } else {
        WriteToInternalPosition(parentInternal, target, parent.index);
      }
    }

    /** The walk to the root stops as soon as a parent already carries the right status. The
        result is nevertheless that of recomputing every ancestor. */
    method UpdateParentChain(pos0: Pos, p0: InternalPos, size0: nat)
      requires Valid() && Climbing(pos0, p0, size0)
      modifies bits, bits.bytes, `status
      ensures Valid() && status == Repair(old(status), pos0.index)
    {
      var pos, p, sizeCurrent := pos0, p0, size0;
      ghost var goal := Repair(status, pos0.index);
      while pos.index != 1
        invariant Valid() && Climbing(pos, p, sizeCurrent)
        invariant Repair(status, pos.index) == goal
        decreases pos.index
      {
        var done;
        done, pos, p, sizeCurrent := UpdateParent(pos, p, sizeCurrent);
        if done {
          return;
        }
      }
    }

    method Mark(pos: Pos)
      requires Valid() && TreeOk(order, status) && WellPlaced(order, pos)
      requires 2 * pos.index >= Pow2(order.levels) || NothingAbove(order, status, pos.index)
      modifies bits, bits.bytes, `status
      ensures Valid() && status == StatusTree.Mark(order, old(status), pos.index)
    {
      MarkClimbs(order, status, pos.index);
      var p := InternalPosition(pos);
      WriteToInternalPosition(p, p.localOffset, pos.index);
      UpdateParentChain(pos, p, p.localOffset);
    }

    /** A node that is not completely used is left alone. */
    method Release(pos: Pos)
      requires Valid() && TreeOk(order, status) && WellPlaced(order, pos)
      requires status[pos.index] == MaxStatus(order, pos.index) ==> Live(order, status, pos.index)
      modifies bits, bits.bytes, `status
      ensures Valid() && status == StatusTree.Release(order, old(status), pos.index)
    {
      var p := InternalPosition(pos);
      var value := ReadNode(p, pos.index);
      if value != p.localOffset {
        return;
      }
      NoLiveAbove(order, status, pos.index);
      ChainFromTree(order, status, pos.index);
      ChainAfterWrite(status, pos.index, 0);
      WriteToInternalPosition(p, 0, pos.index);
      UpdateParentChain(pos, p, 0);
    }

    /** One level of find_free: which child of pos serves a request t levels below the children.
        Two single-bit probes and at most one shortened read replace reading both statuses. */
    method ChooseChild(pos: Pos, t: nat) returns (child: Pos)
      requires Valid() && WellPlaced(order, pos) && t + pos.depth < order.levels
      ensures WellPlaced(order, child) && child.depth == pos.depth + 1
      ensures 2 * pos.index + 1 < |status|
      ensures child.index == if status[2 * pos.index] > t then 2 * pos.index + 1
                             else if status[2 * pos.index + 1] > t then 2 * pos.index
                             else if status[2 * pos.index] >= status[2 * pos.index + 1] then 2 * pos.index
                             else 2 * pos.index + 1
    {
      hide FieldStart;
      ChildFields(order, pos);
      var left := LeftChild(pos);
      var right := Sibling(left);
      var leftInternal := InternalPosition(left);
      var rightInternal := leftInternal.(bitsetLocation := leftInternal.bitsetLocation + leftInternal.localOffset);
      var leftBusy := CompareWithInternalPosition(leftInternal, t + 1, left.index);
      if leftBusy {
        return right;
      }
      var rightBusy := CompareWithInternalPosition(rightInternal, t + 1, right.index);
      if rightBusy {
        return left;
      }
      var rightStatus := ReadPrefix(rightInternal.(localOffset := t), right.index);
      if rightStatus != 0 {
        FieldRead(order, bits.bitmap, status, right.index);
        var leftAtLeast := CompareWithInternalPosition(leftInternal, rightStatus, left.index);
        return if leftAtLeast then left else right;
      }
      return left;
    }

    /** A read whose span was shortened to a bound of the status is still exact. */
    method ReadPrefix(p: InternalPos, ghost i: nat) returns (value: nat)
      requires Valid() && IsNode(order, i) && p.bitsetLocation == FieldStart(order, i)
      requires status[i] <= p.localOffset <= MaxStatus(order, i)
      ensures value == status[i]
    {
      FieldRead(order, bits.bitmap, status, i);
      PrefixRead(order, bits.bitmap, status, i, p.localOffset);
      value := ReadFromInternalPosition(p);
    }

    method FindFree(targetDepth: nat) returns (found: Pos)
      requires Valid() && 1 <= targetDepth <= order.levels
      ensures found.index == StatusTree.FindFree(status, targetDepth)
      ensures found.index == 0 ==> found == INVALID_POS
      ensures found.index != 0 ==> WellPlaced(order, found) && found.depth == targetDepth
    {
      RootWellPlaced(order);
      var pos := Root();
      var targetStatus := targetDepth - 1;
      var rootStatus := Status(pos);
      if rootStatus > targetStatus {
        return INVALID_POS;
      }
      var currentDepth := 1;
      ghost var goal := Descend(status, 1, targetDepth - 1);
      while currentDepth != targetDepth
        invariant WellPlaced(order, pos) && pos.depth == currentDepth <= targetDepth
        invariant targetStatus == targetDepth - currentDepth
        invariant Descend(status, pos.index, targetStatus) == goal
        decreases targetDepth - currentDepth
      {
        targetStatus := targetStatus - 1;
        currentDepth := currentDepth + 1;
        pos := ChooseChild(pos, targetStatus);
      }
      return pos;
    }

    /** One step of the stateful pre-order walk; goingUp tells that the subtree of pos is done. */
    method Walk(pos: Pos, goingUp: bool) returns (more: bool, next: Pos)
      requires Sized() && WellPlaced(order, pos)
      ensures var j := if !goingUp && 2 * pos.index < Pow2(order.levels) then 2 * pos.index else NextUp(pos.index);
              (more <==> j != 0) && (more ==> WellPlaced(order, next) && next.index == j)
    {
      var up := goingUp;
      next := pos;
      if !up {
        if ValidPos(LeftChild(next)) {
          ChildrenWellPlaced(order, next);
          return true, LeftChild(next);
        }
        up := true;
      }
      while up
        invariant WellPlaced(order, next)
        invariant up ==> NextUp(next.index) == NextUp(pos.index)
        invariant !up ==> next.index == NextUp(pos.index)
        decreases up, next.index
      {
        if next.index == 1 {
          return false, next;
        } else if next.index % 2 == 1 {
          ParentWellPlaced(order, next);
          next := Parent(next);
        } else {
          RightOfEven(order, next);
          next := RightAdjacent(next);
          up := false;
        }
      }
      more := true;
    }
  }

  ghost predicate Overwritten(before: seq<bool>, after: seq<bool>, at: nat, w: nat, value: nat) {
    && |after| == |before|
    && forall k: nat :: k < |after| ==>
         (after[k] <==> if at <= k < at + w then k < at + value else before[k])
  }

  /** A write to the field of node i changes the status of node i and of no other node. */
  lemma {:induction false} FieldWritten(order: Order, before: seq<bool>, after: seq<bool>, i: nat, value: nat,
          st: Statuses)
    requires Encodes(order, before, st) && IsNode(order, i) && value <= MaxStatus(order, i)
    requires Overwritten(before, after, FieldStart(order, i), MaxStatus(order, i), value)
    ensures Encodes(order, after, st[i := value])
  {
    forall n: nat | IsNode(order, n) ensures FieldHolds(order, after, st[i := value], n) {
      OtherField(order, before, after, i, value, st, n);
    }
  }

  lemma {:induction false} OtherField(order: Order, before: seq<bool>, after: seq<bool>, i: nat, value: nat,
          st: Statuses, n: nat)
    requires Encodes(order, before, st) && IsNode(order, i) && value <= MaxStatus(order, i) && IsNode(order, n)
    requires Overwritten(before, after, FieldStart(order, i), MaxStatus(order, i), value)
    ensures FieldHolds(order, after, st[i := value], n)
  {
    FieldInBitset(order, n);
    if n < i {
      FieldsInOrder(order, n, i);
    } else if i < n {
      FieldsInOrder(order, i, n);
    }
    assert FieldHolds(order, before, st, n);
  }

  lemma {:induction false} ParentFits(order: Order, st: Statuses, m: seq<bool>, i: nat)
    requires Encodes(order, m, st) && IsNode(order, i) && 2 * i + 1 < |st|
    ensures Combine(st[2 * i], st[2 * i + 1]) <= MaxStatus(order, i)
  {
    LeafWidth(order, i);
    FieldRead(order, m, st, 2 * i);
    FieldRead(order, m, st, 2 * i + 1);
  }

  lemma {:induction false} ChainAfterWrite(st: Statuses, i: nat, v: nat)
    requires 1 <= i < |st| && ChainOk(st, i / 2)
    ensures ChainOk(st[i := v], (i / 2) / 2)
  {
    if i > 1 {
      ChainFrame(st, (i / 2) / 2, i, v);
    }
  }

  /** One round of the walk: an early exit is in order, and otherwise the walk may go on. */
  lemma {:induction false} ClimbStep(st: Statuses, i: nat, p: nat, target: nat)
    requires 1 < i < |st| && Climbable(st, i) && p == i / 2 && 2 * p + 1 < |st|
    requires target == Combine(st[2 * p], st[2 * p + 1])
    ensures target == st[p] ==> ChainOk(st, p / 2)
    ensures target != st[p] ==> Climbable(st[p := target], p)
  {
    if ChainOk(st, p / 2) {
      ChainAfterWrite(st, p, target);
    }
  }

  /** Marking a leaf, or a node with nothing handed out above it. */
  lemma {:induction false} MarkClimbs(order: Order, st: Statuses, i: nat)
    requires TreeOk(order, st) && IsNode(order, i)
    requires 2 * i >= Pow2(order.levels) || NothingAbove(order, st, i)
    ensures Climbable(st[i := MaxStatus(order, i)], i)
  {
    hide Climbable;
    if NothingAbove(order, st, i) {
      ChainFromTree(order, st, i);
      ChainAfterWrite(st, i, MaxStatus(order, i));
      ChainClimbs(st[i := MaxStatus(order, i)], i);
    } else {
      LeafWidth(order, i);
      var n: nat :| Above(n, i) && Live(order, st, n);
      BuriedClimbs(order, st, st[i := 1], i, n);
    }
  }

  lemma {:induction false} ChainClimbs(st: Statuses, i: nat)
    requires i < |st| && ChainOk(st, (i / 2) / 2)
    ensures Climbable(st, i)
  {
  }

  lemma {:induction false} RepairStep(st: Statuses, i: nat, p: nat, target: nat)
    requires 1 < i < |st| && |st| % 2 == 0 && p == i / 2 && target == Combine(st[2 * p], st[2 * p + 1])
    ensures Repair(st, i) == Repair(st[p := target], p)
  {
  }

  lemma {:induction false} UnchangedWrite(st: Statuses, i: nat, v: nat)
    requires i < |st| && |st| % 2 == 0 && st[i] == v && ChainOk(st, i / 2)
    ensures Repair(st[i := v], i) == st
  {
    assert st[i := v] == st;
    RepairStops(st, i);
  }

}
