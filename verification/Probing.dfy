/** Open addressing with linear probing, on sequences of entries: the invariant of ht.c, and what
    the three kinds of change to the entries do to it. */
module Probing {

  datatype Entry = Entry(key: nat, val: nat, filled: bool)

  const EMPTY := Entry(0, 0, false)

  type Hash = nat -> nat

  /** The first slot tried for a key: hash & (cap - 1), for a power of two. */
  function Home(hash: Hash, cap: nat, key: nat): (h: nat)
    requires cap >= 1
    ensures h < cap
  {
    hash(key) % cap
  }

  /** Steps from slot a on to slot b. */
  function Dist(cap: nat, a: nat, b: nat): (d: nat)
    requires a < cap && b < cap
    ensures d < cap
  {
    if b >= a then b - a else b + cap - a
  }

  function Next(cap: nat, i: nat): (j: nat)
    requires i < cap
    ensures j < cap
  {
    if i + 1 >= cap then 0 else i + 1
  }

  /** Every slot from a up to, but not including, b is filled. */
  ghost predicate FilledBetween(es: seq<Entry>, a: nat, b: nat)
    requires a < |es| && b < |es|
  {
    forall s: nat {:trigger es[s]} :: s < |es| && Dist(|es|, a, s) < Dist(|es|, a, b) ==> es[s].filled
  }

  /** The entry in slot i is found by probing from its home. */
  ghost predicate Reachable(hash: Hash, es: seq<Entry>, i: nat)
    requires i < |es|
  {
    FilledBetween(es, Home(hash, |es|, es[i].key), i)
  }

  ghost predicate UniqueKeys(es: seq<Entry>) {
    forall i: nat, j: nat {:trigger es[i], es[j]} :: i < j < |es| && es[i].filled && es[j].filled ==>
      es[i].key != es[j].key
  }

  /** The filled slots hold exactly the pairs of the map. */
  ghost predicate Represents(es: seq<Entry>, m: map<nat, nat>) {
    && UniqueKeys(es)
    && (forall i: nat {:trigger es[i]} :: i < |es| && es[i].filled ==> es[i].key in m && m[es[i].key] == es[i].val)
    && forall k: nat {:trigger k in m} :: k in m ==> Holds(es, k)
  }

  ghost predicate Holds(es: seq<Entry>, k: nat) {
    exists i: nat :: i < |es| && es[i].filled && es[i].key == k
  }

  ghost predicate TableOk(hash: Hash, es: seq<Entry>, m: map<nat, nat>) {
    && |es| >= 1 && Represents(es, m)
    && forall i: nat {:trigger Reachable(hash, es, i)} :: i < |es| && es[i].filled ==> Reachable(hash, es, i)
  }

  /** The keys of the first n slots, all of them filled. */
  ghost function KeysUpTo(es: seq<Entry>, n: nat): set<nat>
    requires n <= |es|
  {
    set i: nat | i < n :: es[i].key
  }

  lemma {:induction false} KeysAreMany(es: seq<Entry>, n: nat)
    requires n <= |es| && UniqueKeys(es) && forall i: nat {:trigger es[i]} :: i < n ==> es[i].filled
    ensures |KeysUpTo(es, n)| == n
  {
    if n > 0 {
      KeysAreMany(es, n - 1);
      var last := es[n - 1].key;
      assert last !in KeysUpTo(es, n - 1);
      assert KeysUpTo(es, n) == KeysUpTo(es, n - 1) + {last};
    }
  }

  lemma {:induction false} SubsetIsSmaller(s: set<nat>, t: set<nat>)
    requires s <= t
    ensures |s| <= |t|
  {
    assert t == s + (t - s);
  }

  lemma {:induction false} FullTable(es: seq<Entry>, m: map<nat, nat>)
    requires Represents(es, m) && forall i: nat :: i < |es| ==> es[i].filled
    ensures |es| <= |m|
  {
    KeysAreMany(es, |es|);
    assert KeysUpTo(es, |es|) <= m.Keys;
    SubsetIsSmaller(KeysUpTo(es, |es|), m.Keys);
    assert |m.Keys| == |m|;
  }

  /** A table with fewer pairs than slots has an empty slot, so every probe ends. */
  lemma {:induction false} SomeSlotIsEmpty(es: seq<Entry>, m: map<nat, nat>) returns (hole: nat)
    requires Represents(es, m) && |m| < |es|
    ensures hole < |es| && !es[hole].filled
  {
    if forall i: nat :: i < |es| ==> es[i].filled {
      FullTable(es, m);
    }
    hole :| hole < |es| && !es[hole].filled;
  }

  /** Where probing for a key ends: at the first slot that is empty or has the key. */
  ghost predicate IsSpot(hash: Hash, es: seq<Entry>, key: nat, i: nat) {
    && i < |es|
    && FilledBetween(es, Home(hash, |es|, key), i)
    && (forall s: nat {:trigger es[s]} ::
      s < |es| && Dist(|es|, Home(hash, |es|, key), s) < Dist(|es|, Home(hash, |es|, key), i) ==> es[s].key != key)
    && (es[i].filled ==> es[i].key == key)
  }

  /** The probe decides whether the key is there. */
  lemma {:induction false} SpotDecides(hash: Hash, es: seq<Entry>, m: map<nat, nat>, key: nat, i: nat)
    requires TableOk(hash, es, m) && IsSpot(hash, es, key, i)
    ensures es[i].filled <==> key in m
    ensures es[i].filled ==> m[key] == es[i].val
  {
    if key in m {
      assert Holds(es, key);
      var j: nat :| j < |es| && es[j].filled && es[j].key == key;
      assert Reachable(hash, es, j);
    }
  }

  lemma {:induction false} SameHome(hash: Hash, es: seq<Entry>, m: map<nat, nat>, key: nat, val: nat, i: nat)
    requires TableOk(hash, es, m) && IsSpot(hash, es, key, i)
    ensures Represents(es[i := Entry(key, val, true)], m[key := val])
  {
    SpotDecides(hash, es, m, key, i);
    PairSet(es, m, key, val, i);
  }

  /** Setting a pair in its own slot, or in an empty one. */
  lemma {:induction false} PairSet(es: seq<Entry>, m: map<nat, nat>, key: nat, val: nat, i: nat)
    requires Represents(es, m) && i < |es| && (if es[i].filled then es[i].key == key else key !in m)
    ensures Represents(es[i := Entry(key, val, true)], m[key := val])
  {
    var after := es[i := Entry(key, val, true)];
    forall k: nat | k in m[key := val] ensures Holds(after, k) {
      if k == key {
        assert after[i].key == k;
      } else {
        assert Holds(es, k);
        var j: nat :| j < |es| && es[j].filled && es[j].key == k;
        assert after[j] == es[j];
      }
    }
  }

  /** Filling the spot of a key, or overwriting the value there, keeps the invariant. */
  lemma {:induction false} PutKeeps(hash: Hash, es: seq<Entry>, m: map<nat, nat>, key: nat, val: nat, i: nat)
    requires TableOk(hash, es, m) && IsSpot(hash, es, key, i)
    ensures TableOk(hash, es[i := Entry(key, val, true)], m[key := val])
  {
    var after := es[i := Entry(key, val, true)];
    SameHome(hash, es, m, key, val, i);
    forall j: nat | j < |after| && after[j].filled ensures Reachable(hash, after, j) {
      if j != i {
        assert Reachable(hash, es, j);
        StaysFilled(es, after, Home(hash, |es|, es[j].key), j);
      } else {
        StaysFilled(es, after, Home(hash, |es|, key), i);
      }
    }
  }

  lemma {:induction false} StaysFilled(es: seq<Entry>, after: seq<Entry>, a: nat, b: nat)
    requires |es| == |after| && a < |es| && b < |es| && FilledBetween(es, a, b)
    requires forall s: nat {:trigger after[s]} :: s < |es| && es[s].filled ==> after[s].filled
    ensures FilledBetween(after, a, b)
  {
  }

  // ---- Removing

  /** While the cluster behind a removed entry is put in again: r is the removed slot, d says how far
      the work has come, and total where the cluster ends. Entries still to come may have holes in
      front of them, but only in the part that is done. */
  ghost predicate Rehashing(hash: Hash, es: seq<Entry>, m: map<nat, nat>, r: nat, d: nat, total: nat) {
    && r < |es| && 1 <= d <= total < |es|
    && Represents(es, m)
    && (forall i: nat {:trigger es[i]} :: i < |es| && d <= Dist(|es|, r, i) < total ==> es[i].filled)
    && (forall i: nat {:trigger es[i]} :: i < |es| && Dist(|es|, r, i) == total ==> !es[i].filled)
    && forall i: nat {:trigger Waiting(hash, es, r, d, total, i)} :: i < |es| && es[i].filled ==>
      Waiting(hash, es, r, d, total, i)
  }

  /** What holds for the filled slot i. */
  ghost predicate Waiting(hash: Hash, es: seq<Entry>, r: nat, d: nat, total: nat, i: nat)
    requires r < |es| && i < |es|
  {
    if d <= Dist(|es|, r, i) < total then AlmostReachable(hash, es, r, d, i) else Reachable(hash, es, i)
  }

  ghost predicate AlmostReachable(hash: Hash, es: seq<Entry>, r: nat, d: nat, i: nat)
    requires r < |es| && i < |es|
  {
    var h := Home(hash, |es|, es[i].key);
    forall s: nat {:trigger es[s]} :: s < |es| && Dist(|es|, h, s) < Dist(|es|, h, i) ==>
      es[s].filled || Dist(|es|, r, s) < d
  }

  /** Taking out a pair. */
  lemma {:induction false} PairCleared(es: seq<Entry>, m: map<nat, nat>, i: nat)
    requires Represents(es, m) && i < |es| && es[i].filled
    ensures Represents(es[i := es[i].(filled := false)], m - {es[i].key})
  {
    var after := es[i := es[i].(filled := false)];
    forall k: nat | k in m - {es[i].key} ensures Holds(after, k) {
      assert Holds(es, k);
      var j: nat :| j < |es| && es[j].filled && es[j].key == k;
      assert after[j] == es[j];
    }
  }

  /** The distance from r to the first empty slot behind it. */
  lemma {:induction false} ClusterEnds(es: seq<Entry>, r: nat, hole: nat, d: nat) returns (total: nat)
    requires r < |es| && hole < |es| && !es[hole].filled && hole != r
    requires 1 <= d <= Dist(|es|, r, hole)
    requires forall i: nat {:trigger es[i]} :: i < |es| && 1 <= Dist(|es|, r, i) < d ==> es[i].filled
    ensures d <= total < |es|
    ensures forall i: nat {:trigger es[i]} :: i < |es| && 1 <= Dist(|es|, r, i) < total ==> es[i].filled
    ensures forall i: nat {:trigger es[i]} :: i < |es| && Dist(|es|, r, i) == total ==> !es[i].filled
    decreases |es| - d
  {
    var at := if r + d < |es| then r + d else r + d - |es|;
    assert Dist(|es|, r, at) == d;
    if es[at].filled {
      total := ClusterEnds(es, r, hole, d + 1);
    } else {
      total := d;
    }
  }

  /** Taking out the entry of slot r leaves only the rest of its cluster to be put in again. */
  lemma {:induction false} RemovalBegins(hash: Hash, es: seq<Entry>, m: map<nat, nat>, r: nat, total: nat)
    requires TableOk(hash, es, m) && r < |es| && es[r].filled && 1 <= total < |es|
    requires forall i: nat {:trigger es[i]} :: i < |es| && 1 <= Dist(|es|, r, i) < total ==> es[i].filled
    requires forall i: nat {:trigger es[i]} :: i < |es| && Dist(|es|, r, i) == total ==> !es[i].filled
    ensures Rehashing(hash, es[r := es[r].(filled := false)], m - {es[r].key}, r, 1, total)
  {
    hide Represents;
    var after := es[r := es[r].(filled := false)];
    PairCleared(es, m, r);
    forall i: nat | i < |es| && after[i].filled ensures Waiting(hash, after, r, 1, total, i) {
      assert Reachable(hash, es, i);
      OutsideCluster(hash, es, after, r, total, i);
    }
  }

  /** An entry in front of whose slot r lies on its way belongs to the cluster behind r. */
  lemma {:induction false} OutsideCluster(hash: Hash, es: seq<Entry>, after: seq<Entry>, r: nat, total: nat, i: nat)
    requires r < |es| && after == es[r := es[r].(filled := false)] && 1 <= total < |es|
    requires i < |es| && i != r && es[i].filled && Reachable(hash, es, i)
    requires forall i: nat {:trigger es[i]} :: i < |es| && Dist(|es|, r, i) == total ==> !es[i].filled
    ensures Waiting(hash, after, r, 1, total, i)
  {
    var h := Home(hash, |es|, es[i].key);
    var end := if r + total < |es| then r + total else r + total - |es|;
    assert Dist(|es|, r, end) == total && !es[end].filled;
    if Dist(|es|, r, i) >= total {
      assert !(Dist(|es|, h, r) < Dist(|es|, h, i));
    }
  }

  /** Putting in again the entry of the next slot of the cluster: it lands there or before, and all
      that is done stays done. */
  lemma {:induction false} RehashStep(hash: Hash, es: seq<Entry>, m: map<nat, nat>, r: nat, d: nat, total: nat,
          idx: nat, p: nat)
    requires Rehashing(hash, es, m, r, d, total) && idx < |es| && Dist(|es|, r, idx) == d < total
    requires IsSpot(hash, es[idx := es[idx].(filled := false)], es[idx].key, p)
    ensures var cleared := es[idx := es[idx].(filled := false)];
            && !cleared[p].filled
            && Rehashing(hash, cleared[p := Entry(es[idx].key, es[idx].val, true)], m, r, d + 1, total)
  {
    hide Represents;
    var cleared := es[idx := es[idx].(filled := false)];
    var after := cleared[p := Entry(es[idx].key, es[idx].val, true)];
    SpotIsFree(hash, es, m, idx, cleared, p);
    PairMoved(es, m, idx, p);
    assert Waiting(hash, es, r, d, total, idx);
    LandsBefore(hash, es, r, d, total, idx, cleared, p);
    MovedWaits(hash, es, m, r, d, total, idx, p, after);
  }

  /** Moving a pair to another slot. */
  lemma {:induction false} PairMoved(es: seq<Entry>, m: map<nat, nat>, idx: nat, p: nat)
    requires Represents(es, m) && idx < |es| && es[idx].filled && p < |es|
    requires !es[idx := es[idx].(filled := false)][p].filled
    ensures Represents(es[idx := es[idx].(filled := false)][p := Entry(es[idx].key, es[idx].val, true)], m)
  {
    var x := es[idx];
    PairCleared(es, m, idx);
    assert m[x.key] == x.val;
    PairSet(es[idx := x.(filled := false)], m - {x.key}, x.key, x.val, p);
    assert (m - {x.key})[x.key := x.val] == m;
  }

  lemma {:induction false} MovedWaits(hash: Hash, es: seq<Entry>, m: map<nat, nat>, r: nat, d: nat, total: nat,
          idx: nat, p: nat, after: seq<Entry>)
    requires Rehashing(hash, es, m, r, d, total) && idx < |es| && Dist(|es|, r, idx) == d < total
    requires IsSpot(hash, es[idx := es[idx].(filled := false)], es[idx].key, p) && !(d < Dist(|es|, r, p) <= total)
    requires !es[idx := es[idx].(filled := false)][p].filled
    requires after == es[idx := es[idx].(filled := false)][p := Entry(es[idx].key, es[idx].val, true)]
    ensures forall i: nat {:trigger Waiting(hash, after, r, d + 1, total, i)} ::
              i < |after| && after[i].filled ==> Waiting(hash, after, r, d + 1, total, i)
  {
    hide Represents;
    forall i: nat | i < |es| && after[i].filled ensures Waiting(hash, after, r, d + 1, total, i) {
      if i != p {
        assert es[i].filled && i != idx;
        assert Waiting(hash, es, r, d, total, i);
        StillWaiting(hash, es, r, d, total, idx, p, after, i);
      } else {
        StaysFilled(es[idx := es[idx].(filled := false)], after, Home(hash, |es|, es[idx].key), p);
      }
    }
  }

  lemma {:induction false} SpotIsFree(hash: Hash, es: seq<Entry>, m: map<nat, nat>, idx: nat, cleared: seq<Entry>,
          p: nat)
    requires Represents(es, m) && idx < |es| && es[idx].filled && cleared == es[idx := es[idx].(filled := false)]
    requires IsSpot(hash, cleared, es[idx].key, p)
    ensures !cleared[p].filled
  {
  }

  /** The spot is not behind idx in the cluster, nor its end. */
  lemma {:induction false} LandsBefore(hash: Hash, es: seq<Entry>, r: nat, d: nat, total: nat, idx: nat,
          cleared: seq<Entry>, p: nat)
    requires r < |es| && 1 <= d < total < |es| && idx < |es| && Dist(|es|, r, idx) == d
    requires forall i: nat {:trigger es[i]} :: i < |es| && Dist(|es|, r, i) == total ==> !es[i].filled
    requires AlmostReachable(hash, es, r, d, idx)
    requires cleared == es[idx := es[idx].(filled := false)] && IsSpot(hash, cleared, es[idx].key, p)
    ensures !(d < Dist(|es|, r, p) <= total)
  {
    var h := Home(hash, |es|, es[idx].key);
    var end := if r + total < |es| then r + total else r + total - |es|;
    assert Dist(|es|, r, end) == total && !es[end].filled;
    assert !cleared[idx].filled;
    assert Dist(|es|, h, p) <= Dist(|es|, h, idx);
    assert !(Dist(|es|, h, end) < Dist(|es|, h, idx));
  }

  /** What the step leaves true of the other entries. */
  lemma {:induction false} StillWaiting(hash: Hash, es: seq<Entry>, r: nat, d: nat, total: nat, idx: nat, p: nat,
          after: seq<Entry>, i: nat)
    requires r < |es| && 1 <= d < total < |es| && idx < |es| && Dist(|es|, r, idx) == d && p < |es|
    requires |after| == |es| && i < |es| && i != p && i != idx && after[i] == es[i] && es[i].filled
    requires forall s: nat {:trigger after[s]} :: s < |es| && s != idx && es[s].filled ==> after[s].filled
    requires forall i: nat {:trigger es[i]} :: i < |es| && Dist(|es|, r, i) == total ==> !es[i].filled
    requires Waiting(hash, es, r, d, total, i)
    ensures Waiting(hash, after, r, d + 1, total, i)
  {
    var h := Home(hash, |es|, es[i].key);
    var end := if r + total < |es| then r + total else r + total - |es|;
    assert Dist(|es|, r, end) == total && !es[end].filled;
    if !(d <= Dist(|es|, r, i) < total) {
      assert !(Dist(|es|, h, end) < Dist(|es|, h, i));
      assert !(Dist(|es|, h, idx) < Dist(|es|, h, i));
    }
  }

  /** At the end of the cluster the table is in order again. */
  lemma {:induction false} RehashEnds(hash: Hash, es: seq<Entry>, m: map<nat, nat>, r: nat, d: nat, total: nat,
          idx: nat)
    requires Rehashing(hash, es, m, r, d, total) && idx < |es| && Dist(|es|, r, idx) == d
    ensures d <= total && (es[idx].filled <==> d < total)
    ensures d == total ==> TableOk(hash, es, m)
  {
    if d == total {
      forall i: nat | i < |es| && es[i].filled ensures Reachable(hash, es, i) {
        assert Waiting(hash, es, r, d, total, i);
      }
    }
  }

  lemma {:induction false} NextDist(cap: nat, r: nat, i: nat)
    requires r < cap && i < cap && Dist(cap, r, i) + 1 < cap
    ensures Dist(cap, r, Next(cap, i)) == Dist(cap, r, i) + 1
  {
  }
}
