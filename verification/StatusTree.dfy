/** The status tree of buddy.h on values: one number per node, saying how busy its subtree is.

    A used node carries its maximum; a node whose children are both idle carries zero; any other
    node carries one more than the less busy child. Position 0 of the sequence is not a node. */
module StatusTree {
  import opened PowersOfTwo
  import opened Products
  import opened TreeLayout

  type Statuses = seq<nat>

  predicate Shape(order: Order, st: Statuses) {
    order.levels >= 1 && |st| == Pow2(order.levels) && st[0] == 0
  }

  /** The empty tree. */
  function Zeros(order: Order): (st: Statuses) {
    seq(Pow2(order.levels), _ => 0)
  }

  /** The status update_parent_chain gives to the parent of two nodes. */
  function Combine(a: nat, b: nat): nat {
    if a == 0 && b == 0 then 0 else (if a <= b then a else b) + 1
  }

  /** What buddy_tree_check_invariant tests at one node. */
  ghost predicate NodeOk(order: Order, st: Statuses, i: nat)
    requires Shape(order, st) && IsNode(order, i)
  {
    if 2 * i < |st| then
      st[i] == Combine(st[2 * i], st[2 * i + 1])
      || (st[2 * i] == st[2 * i + 1] == 0 && st[i] == MaxStatus(order, i))
    else
      st[i] <= 1
  }

  ghost predicate OkExcept(order: Order, st: Statuses, q: nat)
    requires Shape(order, st)
  {
    forall i: nat {:trigger NodeOk(order, st, i)} :: IsNode(order, i) && i != q ==> NodeOk(order, st, i)
  }

  ghost predicate TreeOk(order: Order, st: Statuses) {
    Shape(order, st) && OkExcept(order, st, 0)
  }

  /** Node i itself was handed out, not merely filled up from below. */
  predicate Live(order: Order, st: Statuses, i: nat)
    requires Shape(order, st)
  {
    && IsNode(order, i)
    && st[i] == MaxStatus(order, i)
    && (2 * i < |st| ==> st[2 * i] == 0 && st[2 * i + 1] == 0)
  }

  /** Node m lies in the subtree of node n. */
  predicate Under(m: nat, n: nat, lazy: nat := LAZY) {
    m >= n && n >= 1 && (m == n || Under(m / 2, n, lazy))
  }

  predicate Above(n: nat, m: nat) {
    m > 1 && Under(m / 2, n)
  }

  /** Nothing at, above or below node i is handed out. */
  ghost predicate FreeNode(order: Order, st: Statuses, i: nat)
    requires Shape(order, st)
  {
    IsNode(order, i) && st[i] == 0 && NothingAbove(order, st, i)
  }

  /** No node above node i is handed out. */
  ghost predicate NothingAbove(order: Order, st: Statuses, i: nat)
    requires Shape(order, st)
  {
    forall n: nat :: Above(n, i) ==> !Live(order, st, n)
  }

  // ---- Recomputing the ancestors

  /** update_parent_chain without its early exit: recompute every ancestor of node i. */
  function Repair(st: Statuses, i: nat): (r: Statuses)
    requires i < |st| && |st| % 2 == 0
    ensures |r| == |st| && r[0] == st[0]
    decreases i
  {
    if i <= 1 then st else
      var p := i / 2;
      Repair(st[p := Combine(st[2 * p], st[2 * p + 1])], p)
  }

  function Mark(order: Order, st: Statuses, i: nat): (r: Statuses)
    requires Shape(order, st) && IsNode(order, i)
    ensures Shape(order, r)
  {
    Repair(st[i := MaxStatus(order, i)], i)
  }

  function Release(order: Order, st: Statuses, i: nat): (r: Statuses)
    requires Shape(order, st) && IsNode(order, i)
    ensures Shape(order, r)
  {
    if st[i] != MaxStatus(order, i) then st else Repair(st[i := 0], i)
  }

  lemma {:induction false} RepairFrame(st: Statuses, i: nat, m: nat)
    requires i < |st| && |st| % 2 == 0 && m < |st| && !Above(m, i)
    ensures Repair(st, i)[m] == st[m]
    decreases i
  {
    if i > 1 {
      var p := i / 2;
      assert Under(p, p);
      RepairFrame(st[p := Combine(st[2 * p], st[2 * p + 1])], p, m);
    }
  }

  lemma {:induction false} SetFrame(order: Order, st: Statuses, p: nat, v: nat, n: nat)
    requires Shape(order, st) && IsNode(order, p) && IsNode(order, n) && n != p && n != p / 2
    ensures NodeOk(order, st[p := v], n) == NodeOk(order, st, n)
    ensures Live(order, st[p := v], n) == Live(order, st, n)
  {
  }

  lemma {:induction false} RepairOk(order: Order, st: Statuses, i: nat)
    requires Shape(order, st) && IsNode(order, i) && OkExcept(order, st, i / 2)
    ensures TreeOk(order, Repair(st, i))
    decreases i
  {
    if i > 1 {
      var p := i / 2;
      var st' := st[p := Combine(st[2 * p], st[2 * p + 1])];
      forall n: nat | IsNode(order, n) && n != p / 2 ensures NodeOk(order, st', n) {
        if n != p {
          SetFrame(order, st, p, st'[p], n);
        }
      }
      RepairOk(order, st', p);
    }
  }

  /** Recomputing leaves the handed-out nodes alone, except that no ancestor of i is one. */
  lemma {:induction false} RepairLive(order: Order, st: Statuses, i: nat, m: nat)
    requires Shape(order, st) && IsNode(order, i)
    ensures Shape(order, Repair(st, i))
    ensures Live(order, Repair(st, i), m) <==> Live(order, st, m) && !Above(m, i)
    decreases i
  {
    if i > 1 {
      var p := i / 2;
      var st' := st[p := Combine(st[2 * p], st[2 * p + 1])];
      RepairLive(order, st', p, m);
      assert Above(m, i) <==> m == p || Above(m, p) by {
        assert Under(p, m) <==> m == p || Above(m, p);
      }
      if IsNode(order, m) && m != p && !Above(m, p) {
        assert m != p / 2 by {
          if p > 1 { assert Under(p / 2, p / 2); }
        }
        SetFrame(order, st, p, st'[p], m);
      }
    }
  }

  // ---- What a zero and a handed-out node say about the nodes below

  lemma {:induction false} ZeroBelow(order: Order, st: Statuses, n: nat, i: nat)
    requires TreeOk(order, st) && IsNode(order, i) && Above(n, i)
    requires st[n] == 0 || Live(order, st, n)
    ensures st[i] == 0
  {
    var p := i / 2;
    if p != n {
      ZeroBelow(order, st, n, p);
    }
    assert NodeOk(order, st, p);
  }

  lemma {:induction false} StatusAtMostMax(order: Order, st: Statuses, i: nat)
    requires TreeOk(order, st) && IsNode(order, i)
    ensures st[i] <= MaxStatus(order, i)
    decreases |st| - i
  {
    assert NodeOk(order, st, i);
    LeafWidth(order, i);
    if 2 * i < |st| {
      StatusAtMostMax(order, st, 2 * i);
      StatusAtMostMax(order, st, 2 * i + 1);
    }
  }

  /** A tree is determined by the nodes that were handed out. */
  lemma {:induction false} SameLiveSameStatus(order: Order, s: Statuses, t: Statuses, i: nat)
    requires TreeOk(order, s) && TreeOk(order, t) && IsNode(order, i)
    requires forall m: nat :: Live(order, s, m) == Live(order, t, m)
    ensures s[i] == t[i]
    decreases |s| - i
  {
    assert NodeOk(order, s, i) && NodeOk(order, t, i);
    assert Live(order, s, i) == Live(order, t, i);
    LeafWidth(order, i);
    if 2 * i < |s| {
      SameLiveSameStatus(order, s, t, 2 * i);
      SameLiveSameStatus(order, s, t, 2 * i + 1);
    }
  }

  lemma {:induction false} SameLiveSameTree(order: Order, s: Statuses, t: Statuses)
    requires TreeOk(order, s) && TreeOk(order, t)
    requires forall m: nat :: Live(order, s, m) == Live(order, t, m)
    ensures s == t
  {
    forall i: nat | 1 <= i < |s| ensures s[i] == t[i] {
      SameLiveSameStatus(order, s, t, i);
    }
  }

  // ---- mark and release

  lemma {:induction false} FreeHasNoLiveParent(order: Order, st: Statuses, i: nat)
    requires TreeOk(order, st) && FreeNode(order, st, i)
    ensures !Live(order, st, i)
    ensures i > 1 ==> !Live(order, st, i / 2)
    ensures 2 * i < |st| ==> st[2 * i] == st[2 * i + 1] == 0
  {
    assert NodeOk(order, st, i);
    if i > 1 {
      assert Above(i / 2, i) by { assert Under(i / 2, i / 2); }
    }
  }

  lemma {:induction false} SetMaxLive(order: Order, st: Statuses, i: nat, m: nat)
    requires TreeOk(order, st) && FreeNode(order, st, i)
    ensures Live(order, st[i := MaxStatus(order, i)], m) <==> Live(order, st, m) || m == i
  {
    FreeHasNoLiveParent(order, st, i);
    if IsNode(order, m) && m != i && m != i / 2 {
      SetFrame(order, st, i, MaxStatus(order, i), m);
    }
  }

  lemma {:induction false} MarkLive(order: Order, st: Statuses, i: nat, m: nat)
    requires TreeOk(order, st) && FreeNode(order, st, i)
    ensures Live(order, Mark(order, st, i), m) <==> Live(order, st, m) || m == i
  {
    SetMaxLive(order, st, i, m);
    RepairLive(order, st[i := MaxStatus(order, i)], i, m);
    AboveIsSmaller(i, i);
  }

  /** mark keeps the invariant at every node and hands out exactly one more node. */
  lemma {:induction false} MarkFree(order: Order, st: Statuses, i: nat)
    requires TreeOk(order, st) && FreeNode(order, st, i)
    ensures TreeOk(order, Mark(order, st, i))
    ensures forall m: nat :: Live(order, Mark(order, st, i), m) <==> Live(order, st, m) || m == i
  {
    var st' := st[i := MaxStatus(order, i)];
    FreeHasNoLiveParent(order, st, i);
    LeafWidth(order, i);
    forall n: nat | IsNode(order, n) && n != i / 2 ensures NodeOk(order, st', n) {
      if n != i { SetFrame(order, st, i, st'[i], n); }
    }
    RepairOk(order, st', i);
    forall m: nat ensures Live(order, Mark(order, st, i), m) <==> Live(order, st, m) || m == i {
      MarkLive(order, st, i, m);
    }
  }

  lemma {:induction false} AboveIsSmaller(n: nat, m: nat)
    ensures Above(n, m) ==> n <= m / 2 && n < m
  {
  }

  lemma {:induction false} ReleasedLive(order: Order, st: Statuses, i: nat, m: nat)
    requires TreeOk(order, st) && Live(order, st, i)
    ensures Live(order, Release(order, st, i), m) <==> Live(order, st, m) && m != i
    ensures Above(m, i) ==> !Live(order, Release(order, st, i), m)
  {
    var st' := st[i := 0];
    RepairLive(order, st', i, m);
    if Above(m, i) && Live(order, st, m) {
      ZeroBelow(order, st, m, i);
    }
    if i > 1 { assert Under(i / 2, i / 2); }
    if IsNode(order, m) && m != i && m != i / 2 {
      SetFrame(order, st, i, 0, m);
    }
  }

  lemma {:induction false} EmptiedOk(order: Order, st: Statuses, i: nat, n: nat)
    requires TreeOk(order, st) && Live(order, st, i) && IsNode(order, n) && n != i / 2
    ensures NodeOk(order, st[i := 0], n)
  {
    if n != i {
      SetFrame(order, st, i, 0, n);
    } else {
      assert NodeOk(order, st, i);
    }
  }

  /** release of a handed-out node keeps the invariant and takes back exactly that node. */
  lemma {:induction false} ReleaseLive(order: Order, st: Statuses, i: nat)
    requires TreeOk(order, st) && Live(order, st, i)
    ensures TreeOk(order, Release(order, st, i))
    ensures forall m: nat :: Live(order, Release(order, st, i), m) <==> Live(order, st, m) && m != i
    ensures FreeNode(order, Release(order, st, i), i)
  {
    hide Repair, NodeOk;
    var st' := st[i := 0];
    forall n: nat | IsNode(order, n) && n != i / 2 ensures NodeOk(order, st', n) {
      EmptiedOk(order, st, i, n);
    }
    RepairOk(order, st', i);
    forall m: nat
      ensures Live(order, Release(order, st, i), m) <==> Live(order, st, m) && m != i
      ensures Above(m, i) ==> !Live(order, Release(order, st, i), m)
    {
      ReleasedLive(order, st, i, m);
    }
    AboveIsSmaller(i, i);
    RepairFrame(st', i, i);
  }

  /** mark and then release, or release and then mark, gives back the very same tree. */
  lemma {:induction false} ReleaseUndoesMark(order: Order, st: Statuses, i: nat)
    requires TreeOk(order, st) && FreeNode(order, st, i)
    ensures Release(order, Mark(order, st, i), i) == st
  {
    MarkFree(order, st, i);
    FreeHasNoLiveParent(order, st, i);
    ReleaseLive(order, Mark(order, st, i), i);
    SameLiveSameTree(order, Release(order, Mark(order, st, i), i), st);
  }

  lemma {:induction false} MarkUndoesRelease(order: Order, st: Statuses, i: nat)
    requires TreeOk(order, st) && Live(order, st, i)
    ensures Mark(order, Release(order, st, i), i) == st
  {
    ReleaseLive(order, st, i);
    MarkFree(order, Release(order, st, i), i);
    SameLiveSameTree(order, Mark(order, Release(order, st, i), i), st);
  }

  // ---- The early exit

  /** Node i and all its ancestors carry the status their children call for. */
  predicate ChainOk(st: Statuses, i: nat) {
    i == 0 || (2 * i + 1 < |st| && st[i] == Combine(st[2 * i], st[2 * i + 1]) && ChainOk(st, i / 2))
  }

  /** Once a recomputed status equals the stored one, the rest of the walk would change nothing. */
  lemma {:induction false} RepairStops(st: Statuses, i: nat)
    requires i < |st| && |st| % 2 == 0 && ChainOk(st, i / 2)
    ensures Repair(st, i) == st
    decreases i
  {
    if i > 1 {
      var p := i / 2;
      assert st[p := Combine(st[2 * p], st[2 * p + 1])] == st;
      RepairStops(st, p);
    }
  }

  lemma {:induction false} ChainFrame(st: Statuses, i: nat, q: nat, v: nat)
    requires ChainOk(st, i) && 2 * i + 1 < q < |st|
    ensures ChainOk(st[q := v], i)
  {
    if i > 0 {
      ChainFrame(st, i / 2, q, v);
    }
  }

  lemma {:induction false} ChainFromTree(order: Order, st: Statuses, i: nat)
    requires TreeOk(order, st) && IsNode(order, i)
    requires NothingAbove(order, st, i)
    ensures ChainOk(st, i / 2)
  {
    if i > 1 {
      var p := i / 2;
      assert Above(p, i) by { assert Under(p, p); }
      assert NodeOk(order, st, p);
      forall n: nat | Above(n, p) ensures !Live(order, st, n) {
        assert Under(p, n);
      }
      ChainFromTree(order, st, p);
    }
  }

  lemma {:induction false} NoLiveAbove(order: Order, st: Statuses, i: nat)
    requires TreeOk(order, st) && Live(order, st, i)
    ensures NothingAbove(order, st, i)
  {
    forall n: nat | Above(n, i) ensures !Live(order, st, n) {
      if Live(order, st, n) {
        ZeroBelow(order, st, n, i);
      }
    }
  }

  /** Marking a node that is handed out already changes nothing. */
  lemma {:induction false} MarkAgain(order: Order, st: Statuses, i: nat)
    requires TreeOk(order, st) && Live(order, st, i)
    ensures Mark(order, st, i) == st
  {
    NoLiveAbove(order, st, i);
    ChainFromTree(order, st, i);
    RepairStops(st, i);
    assert st[i := MaxStatus(order, i)] == st;
  }

  /** Marking a leaf always hands it out. A node above it that was handed out no longer is: it counts
      as partly used from then on. */
  lemma {:induction false} MarkLeaf(order: Order, st: Statuses, i: nat)
    requires TreeOk(order, st) && IsNode(order, i) && 2 * i >= |st|
    ensures TreeOk(order, Mark(order, st, i))
    ensures forall m: nat :: Live(order, Mark(order, st, i), m) <==> m == i || (Live(order, st, m) && !Above(m, i))
  {
    hide Repair;
    LeafWidth(order, i);
    var st' := st[i := 1];
    forall n: nat | IsNode(order, n) && n != i / 2 ensures NodeOk(order, st', n) {
      if n != i { SetFrame(order, st, i, 1, n); }
    }
    RepairOk(order, st', i);
    forall m: nat ensures Live(order, Mark(order, st, i), m) <==> m == i || (Live(order, st, m) && !Above(m, i)) {
      MarkLeafLive(order, st, i, m);
    }
  }

  lemma {:induction false} MarkLeafLive(order: Order, st: Statuses, i: nat, m: nat)
    requires TreeOk(order, st) && IsNode(order, i) && 2 * i >= |st| && MaxStatus(order, i) == 1
    ensures Live(order, Mark(order, st, i), m) <==> m == i || (Live(order, st, m) && !Above(m, i))
  {
    hide Repair;
    RepairLive(order, st[i := 1], i, m);
    AboveIsSmaller(i, i);
    if m == i / 2 && i > 1 {
      assert Under(i / 2, i / 2);
    } else if IsNode(order, m) && m != i {
      SetFrame(order, st, i, 1, m);
    }
  }

  /** The walk up from node i does not stop before all is right: either nothing above its parent needs
      repair, or the parent does and so on. */
  ghost predicate Climbable(st: Statuses, i: nat)
    requires i < |st|
    decreases i
  {
    || i <= 1
    || ChainOk(st, (i / 2) / 2)
    || (2 * (i / 2) + 1 < |st| && st[i / 2] != Combine(st[2 * (i / 2)], st[2 * (i / 2) + 1])
        && Climbable(st[i / 2 := Combine(st[2 * (i / 2)], st[2 * (i / 2) + 1])], i / 2))
  }

  /** s is st, but for node j and for what is below it. */
  ghost predicate ChangedBelow(st: Statuses, s: Statuses, j: nat) {
    |s| == |st| && forall m: nat :: m < |s| && !Under(m, j) ==> s[m] == st[m]
  }

  lemma {:induction false} SameChain(st: Statuses, s: Statuses, j: nat, k: nat)
    requires ChangedBelow(st, s, j) && ChainOk(st, k) && 2 * k + 1 < j
    ensures ChainOk(s, k)
    decreases k
  {
    if k > 0 {
      SameChain(st, s, j, k / 2);
    }
  }

  /** Below a handed-out node everything is idle, so the walk goes on at least up to that node. */
  lemma {:induction false} BuriedClimbs(order: Order, st: Statuses, s: Statuses, j: nat, n: nat)
    requires TreeOk(order, st) && Live(order, st, n) && IsNode(order, j) && Above(n, j)
    requires ChangedBelow(st, s, j) && s[j] == 1
    ensures Climbable(s, j)
    decreases j
  {
    var p := j / 2;
    Neighbours(order, st, s, j, n);
    var t := s[p := 1];
    if p == n {
      NoLiveAbove(order, st, n);
      ChainFromTree(order, st, n);
      if n > 1 {
        SameChain(st, s, j, n / 2);
        ChainAfterSet(s, n, 1);
      }
    } else {
      ZeroBelow(order, st, n, p);
      forall m: nat | m < |t| && !Under(m, p) ensures t[m] == st[m] {
        if Under(m, j) { UnderParent(m, j); }
        assert m != p by { assert Under(p, p); }
      }
      BuriedClimbs(order, st, t, p, n);
    }
  }

  lemma {:induction false} ChainAfterSet(st: Statuses, i: nat, v: nat)
    requires 1 < i < |st| && ChainOk(st, i / 2)
    ensures ChainOk(st[i := v], (i / 2) / 2)
  {
    ChainFrame(st, (i / 2) / 2, i, v);
  }

  /** The sibling of node j is idle, and its parent is not what the two call for. */
  lemma {:induction false} Neighbours(order: Order, st: Statuses, s: Statuses, j: nat, n: nat)
    requires TreeOk(order, st) && Live(order, st, n) && IsNode(order, j) && Above(n, j)
    requires ChangedBelow(st, s, j) && s[j] == 1
    ensures j > 1 && 2 * (j / 2) + 1 < |s| && Combine(s[2 * (j / 2)], s[2 * (j / 2) + 1]) == 1
    ensures s[j / 2] == st[j / 2] != 1
  {
    var p, o := j / 2, if j % 2 == 0 then j + 1 else j - 1;
    AboveIsSmaller(n, j);
    assert IsNode(order, o);
    assert o / 2 == p;
    assert !Under(o, j) by { assert o / 2 < j; }
    assert !Under(p, j);
    ZeroBelow(order, st, n, o);
    if p == n {
      LeafWidth(order, n);
    } else {
      ZeroBelow(order, st, n, p);
    }
  }

  // ---- From a leaf to the block that owns it

  /** The first node with a non-zero status on the way from i to the root, or zero. */
  function Owner(st: Statuses, i: nat): (o: nat)
    requires i < |st|
    ensures o <= i
  {
    if i == 0 then 0 else if st[i] != 0 then i else Owner(st, i / 2)
  }

  lemma {:induction false} OwnerOfLive(order: Order, st: Statuses, n: nat, i: nat)
    requires TreeOk(order, st) && Live(order, st, n) && IsNode(order, i) && Under(i, n)
    ensures Owner(st, i) == n
  {
    if i != n {
      assert Above(n, i);
      ZeroBelow(order, st, n, i);
      OwnerOfLive(order, st, n, i / 2);
    }
  }

  /** The walk from a leaf meets a handed-out node, a partly used one, or nothing. */
  lemma {:induction false} OwnerIs(order: Order, st: Statuses, i: nat)
    requires TreeOk(order, st) && IsNode(order, i)
    requires 2 * i < |st| ==> st[2 * i] == 0 || st[2 * i + 1] == 0
    ensures var o := Owner(st, i); o != 0 ==>
              Under(i, o) && st[o] != 0 && (st[o] == MaxStatus(order, o) ==> Live(order, st, o))
  {
    assert NodeOk(order, st, i);
    LeafWidth(order, i);
    if st[i] == 0 && i > 1 {
      OwnerIs(order, st, i / 2);
    }
  }

  // ---- find_free

  /** The descent of find_free on whole statuses: k levels down from node i, at each level into
      the child that can still serve the request, the busier one if both can. */
  function Descend(st: Statuses, i: nat, k: nat): (r: nat)
    requires i >= 1
    decreases k
  {
    if k == 0 || 2 * i + 1 >= |st| then i
    else if st[2 * i] > k - 1 then Descend(st, 2 * i + 1, k - 1)
    else if st[2 * i + 1] > k - 1 then Descend(st, 2 * i, k - 1)
    else Descend(st, if st[2 * i] >= st[2 * i + 1] then 2 * i else 2 * i + 1, k - 1)
  }

  function FindFree(st: Statuses, depth: nat): (r: nat)
    requires depth >= 1 && |st| >= 2
  {
    if st[1] > depth - 1 then 0 else Descend(st, 1, depth - 1)
  }

  lemma {:induction false} DescendFinds(order: Order, st: Statuses, i: nat, k: nat)
    requires TreeOk(order, st) && IsNode(order, i) && st[i] <= k < MaxStatus(order, i)
    requires NothingAbove(order, st, i)
    ensures var r := Descend(st, i, k);
            FreeNode(order, st, r) && Depth(order, r) == Depth(order, i) + k
    decreases k
  {
    if k > 0 {
      assert NodeOk(order, st, i);
      LeafWidth(order, i);
      var c := if st[2 * i] > k - 1 then 2 * i + 1
               else if st[2 * i + 1] > k - 1 then 2 * i
               else if st[2 * i] >= st[2 * i + 1] then 2 * i else 2 * i + 1;
      assert st[c] <= k - 1;
      forall n: nat | Above(n, c) ensures !Live(order, st, n) {
        assert Under(i, n);
      }
      DescendFinds(order, st, c, k - 1);
    }
  }

  /** A free node k levels below node a bounds the status of a by k. */
  lemma {:induction false} FreeBoundsAncestor(order: Order, st: Statuses, i: nat, a: nat)
    requires TreeOk(order, st) && FreeNode(order, st, i) && Under(i, a)
    ensures Depth(order, a) <= Depth(order, i) && st[a] <= Depth(order, i) - Depth(order, a)
    decreases i - a
  {
    if i != a {
      UnderChild(i, a);
      var c := if Under(i, 2 * a) then 2 * a else 2 * a + 1;
      UnderIsNode(order, i, c);
      FreeBoundsAncestor(order, st, i, c);
      assert NodeOk(order, st, a);
      assert Above(a, i);
    }
  }

  lemma {:induction false} UnderChild(i: nat, a: nat)
    requires Under(i, a) && i != a
    ensures Under(i, 2 * a) || Under(i, 2 * a + 1)
  {
    if i / 2 == a {
      assert i == 2 * a || i == 2 * a + 1;
    } else {
      UnderChild(i / 2, a);
    }
  }

  lemma {:induction false} UnderIsNode(order: Order, i: nat, a: nat)
    requires IsNode(order, i) && Under(i, a)
    ensures IsNode(order, a)
  {
  }

  /** find_free answers with a free node of the wanted depth whenever there is one, else zero. */
  lemma {:induction false} FindFreeExact(order: Order, st: Statuses, depth: nat)
    requires TreeOk(order, st) && 1 <= depth <= order.levels
    ensures var r := FindFree(st, depth);
            if r != 0 then FreeNode(order, st, r) && Depth(order, r) == depth
            else forall i: nat :: FreeNode(order, st, i) ==> Depth(order, i) != depth
  {
    assert MaxStatus(order, 1) == order.levels by { Pow2Mono(1, order.levels); }
    if st[1] <= depth - 1 {
      AboveIsSmaller(1, 1);
      DescendFinds(order, st, 1, depth - 1);
    } else {
      forall i: nat | FreeNode(order, st, i) ensures Depth(order, i) != depth {
        UnderRoot(i);
        FreeBoundsAncestor(order, st, i, 1);
      }
    }
  }

  lemma {:induction false} UnderRoot(i: nat)
    requires i >= 1
    ensures Under(i, 1)
  {
    if i > 1 { UnderRoot(i / 2); }
  }

  // ---- Which free node find_free takes

  /** The paths from the root to r and to i part below a node: r lies below its child a, i below b. Child a
      is the busier one, or the left one of two that are as busy. */
  ghost predicate Turns(st: Statuses, r: nat, i: nat, a: nat, b: nat) {
    && a < |st| && b < |st| && a / 2 == b / 2 && a != b && Under(r, a) && Under(i, b)
    && (st[a] > st[b] || (st[a] == st[b] && a < b))
  }

  ghost predicate Preferred(st: Statuses, r: nat, i: nat) { exists a: nat, b: nat :: Turns(st, r, i, a, b) }

  lemma {:induction false} DescendIsUnder(st: Statuses, i: nat, k: nat)
    requires i >= 1
    ensures Under(Descend(st, i, k), i)
    decreases k
  {
    if k > 0 && 2 * i + 1 < |st| {
      DescendIsUnder(st, 2 * i, k - 1);
      DescendIsUnder(st, 2 * i + 1, k - 1);
      UnderParent(Descend(st, 2 * i, k - 1), 2 * i);
      UnderParent(Descend(st, 2 * i + 1, k - 1), 2 * i + 1);
    }
  }

  lemma {:induction false} DescendPrefers(order: Order, st: Statuses, i: nat, k: nat, m: nat)
    requires TreeOk(order, st) && IsNode(order, i) && FreeNode(order, st, m) && Under(m, i)
    requires Depth(order, m) == Depth(order, i) + k && m != Descend(st, i, k)
    ensures Preferred(st, Descend(st, i, k), m)
    decreases k
  {
    hide NodeOk, NothingAbove;
    UnderChild(m, i);
    var e := if Under(m, 2 * i) then 2 * i else 2 * i + 1;
    UnderIsNode(order, m, e);
    LeafWidth(order, i);
    FreeBoundsAncestor(order, st, m, e);
    DescendIsUnder(st, 2 * i, k - 1);
    DescendIsUnder(st, 2 * i + 1, k - 1);
    var r := Descend(st, i, k);
    if r == Descend(st, e, k - 1) {
      DescendPrefers(order, st, e, k - 1, m);
    } else {
      assert Turns(st, r, m, if e == 2 * i then 2 * i + 1 else 2 * i, e);
    }
  }

  /** A free node is taken only before all others of its depth that it is preferred to. */
  lemma {:induction false} FindFreePrefers(order: Order, st: Statuses, depth: nat, i: nat)
    requires TreeOk(order, st) && 1 <= depth <= order.levels
    requires FreeNode(order, st, i) && Depth(order, i) == depth && i != FindFree(st, depth)
    ensures FindFree(st, depth) != 0 && Preferred(st, FindFree(st, depth), i)
  {
    assert MaxStatus(order, 1) == order.levels by { Pow2Mono(1, order.levels); }
    UnderRoot(i);
    FreeBoundsAncestor(order, st, i, 1);
    DescendPrefers(order, st, 1, depth - 1, i);
    FindFreeExact(order, st, depth);
  }

  // ---- Which leaves a node covers

  /** The first leaf below node i, as a node index. */
  function FirstLeaf(order: Order, i: nat): nat
    requires IsNode(order, i)
  {
    Times(i, Pow2(MaxStatus(order, i) - 1))
  }

  lemma {:induction false} LeavesUnder(order: Order, i: nat, leaf: nat)
    requires IsNode(order, i) && IsNode(order, leaf) && 2 * leaf >= Pow2(order.levels)
    ensures Under(leaf, i) <==> FirstLeaf(order, i) <= leaf < FirstLeaf(order, i) + Pow2(MaxStatus(order, i) - 1)
    decreases Pow2(order.levels) - i
  {
    hide MaxStatus, Times;
    LeafWidth(order, i);
    if 2 * i < Pow2(order.levels) {
      LeavesUnder(order, 2 * i, leaf);
      LeavesUnder(order, 2 * i + 1, leaf);
      UnderEither(leaf, i);
      var h := Pow2(MaxStatus(order, i) - 2);
      assert Pow2(MaxStatus(order, i) - 1) == 2 * h;
      TimesTwice(i, h);
    } else {
      TimesIs(i, 1);
      assert leaf / 2 < i ==> !Under(leaf / 2, i);
    }
  }

  lemma {:induction false} UnderEither(m: nat, i: nat)
    requires i >= 1 && m != i
    ensures Under(m, i) <==> Under(m, 2 * i) || Under(m, 2 * i + 1)
  {
    if Under(m, i) {
      UnderChild(m, i);
    }
    if Under(m, 2 * i) { UnderParent(m, 2 * i); }
    if Under(m, 2 * i + 1) { UnderParent(m, 2 * i + 1); }
  }

  lemma {:induction false} UnderParent(m: nat, c: nat)
    requires Under(m, c) && c >= 2
    ensures Under(m, c / 2)
  {
    if m != c {
      UnderParent(m / 2, c);
    } else {
      assert Under(c / 2, c / 2);
    }
  }
}
