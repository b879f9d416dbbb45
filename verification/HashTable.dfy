/** The hash table object of ht.c: a finite map, whatever the hash function. */
module HashTableClass {
  import opened PowersOfTwo
  import opened Probing

  /** pow2ceil, by doubling */
  method PowerCeil(num: nat) returns (power: nat)
    requires num <= U64 / 2
    ensures power == CeilPow2(num)
  {
    power := 1;
    ghost var e := 0;
    if num <= 1 {
      assert CeilPow2(num) == 1;
    }
    while power < num
      invariant power == Pow2(e) && (power == 1 || power < 2 * num)
      decreases num - power
    {
      power := power * 2;
      e := e + 1;
    }
    if num >= 1 {
      CeilPow2Is(num, e);
    }
  }

  /** In 64-bit arithmetic the doubling ever reaches the number exactly if it is at most 2^63; beyond
      that the loop runs on zero for ever. */
  lemma {:induction false} DoublingReachesIff(num: nat)
    requires num < U64
    ensures (exists k: nat {:trigger Pow2(k)} :: Pow2(k) % U64 >= num) <==> num <= U64 / 2
  {
    Pow2Sixty4();
    if num <= U64 / 2 {
      assert Pow2(63) % U64 >= num;
    } else {
      forall k: nat ensures Pow2(k) % U64 < num {
        PowerWraps(k);
      }
    }
  }

  lemma {:induction false} PowerWraps(k: nat)
    ensures Pow2(k) % U64 <= U64 / 2
  {
    Pow2Sixty4();
    if k >= 64 {
      Pow2Add(64, k - 64);
      assert U64 * Pow2(k - 64) % U64 == 0;
    } else {
      Pow2Mono(k, 63);
    }
  }

  /** Probes for a key from its home on; the table has an empty slot. */
  method Probe(entries: array<Entry>, hash: Hash, key: nat, ghost hole: nat) returns (idx: nat)
    requires hole < entries.Length && !entries[hole].filled
    ensures IsSpot(hash, entries[..], key, idx)
  {
    ghost var home := Home(hash, entries.Length, key);
    var cap := entries.Length;
    idx := Home(hash, cap, key);
    while entries[idx].filled && entries[idx].key != key
      invariant idx < cap && Dist(cap, home, idx) <= Dist(cap, home, hole)
      invariant forall s: nat {:trigger entries[s]} :: s < cap && Dist(cap, home, s) < Dist(cap, home, idx) ==>
                  entries[s].filled && entries[s].key != key
      decreases cap - Dist(cap, home, idx)
    {
      assert idx != hole;
      NextDist(cap, home, idx);
      idx := Next(cap, idx);
    }
  }

  /** The part of ht_put behind its check: fill the spot of the key, or overwrite the value there. */
  method Insert(entries: array<Entry>, hash: Hash, key: nat, val: nat, ghost hole: nat)
          returns (added: bool, ghost idx: nat)
    requires hole < entries.Length && !entries[hole].filled
    modifies entries
    ensures IsSpot(hash, old(entries[..]), key, idx)
    ensures entries[..] == old(entries[..])[idx := Entry(key, val, true)]
    ensures added <==> !old(entries[..])[idx].filled
  {
    var i := Probe(entries, hash, key, hole);
    added := !entries[i].filled;
    entries[i] := Entry(key, val, true);
    idx := i;
  }

  class HashTable {
    var entries: array<Entry>
    var cap: nat
    var len: nat
    const hash: Hash
    ghost var contents: map<nat, nat>

    ghost predicate Valid()
      reads this, entries
    {
      && cap == entries.Length && (exists k: nat :: cap == Pow2(k))
      && TableOk(hash, entries[..], contents)
      && len == |contents| && 2 * len <= cap
    }

    /** ht_alloc when there is memory */
    constructor (hash: Hash, capHint: nat)
      requires capHint <= U64 / 2
      ensures Valid() && contents == map[] && cap == CeilPow2(capHint) && this.hash == hash && fresh(entries)
    {
      var c := PowerCeil(capHint);
      this.hash := hash;
      cap := c;
      len := 0;
      entries := new Entry[c](_ => EMPTY);
      contents := map[];
      new;
      assert cap == Pow2(CeilLog2(capHint));
    }

    /** ht_get */
    method Get(key: nat) returns (val: nat, found: bool)
      requires Valid()
      ensures found <==> key in contents
      ensures val == if key in contents then contents[key] else 0
    {
      ghost var hole := SomeSlotIsEmpty(entries[..], contents);
      var idx := Probe(entries, hash, key, hole);
      SpotDecides(hash, entries[..], contents, key, idx);
      found := entries[idx].filled;
      val := if found then entries[idx].val else 0;
    }

    /** resize; room tells whether the allocation succeeds. The temporary table starts with the old
        length, yet no insertion into it asks for another resize. */
    method Resize(newCap: nat, room: bool) returns (ok: bool)
      requires Valid() && newCap >= 1 && (exists k: nat :: newCap == Pow2(k)) && 4 * len <= newCap
      modifies this
      ensures Valid() && contents == old(contents) && len == old(len) && ok == room
      ensures if ok then cap == newCap && fresh(entries) else cap == old(cap) && entries == old(entries)
    {
      if !room {
        return false;
      }
      var bigger := new Entry[newCap](_ => EMPTY);
      Rebuild(bigger);
      entries := bigger;
      cap := newCap;
      ok := true;
    }

    /** Inserts all pairs into an empty array. */
    method Rebuild(target: array<Entry>)
      requires Valid() && target != entries && target.Length >= 1 && 4 * len <= target.Length
      requires forall i: nat :: i < target.Length ==> target[i] == EMPTY
      modifies target
      ensures TableOk(hash, target[..], contents)
    {
      hide Collected, TableOk;
      var newLen := len;
      ghost var done: map<nat, nat> := map[];
      ghost var es := entries[..];
      EmptyOk(hash, target[..]);
      CollectedNone(es, contents, hash);
      for i := 0 to cap
        invariant TableOk(hash, target[..], done) && newLen == len + |done|
        invariant entries[..] == es && Collected(es, i, contents, done)
      {
        if entries[i].filled {
          CollectedFew(es, i, contents, done);
          newLen := Transfer(target, entries[i].key, entries[i].val, newLen, done);
          done := done[entries[i].key := entries[i].val];
        } else {
          CollectedSkip(es, i, contents, done);
        }
      }
      CollectedAll(es, contents, done);
    }

    /** ht_put into the new array; its check for space never strikes. */
    method Transfer(target: array<Entry>, key: nat, val: nat, len0: nat, ghost done: map<nat, nat>)
            returns (newLen: nat)
      requires TableOk(hash, target[..], done) && key !in done
      requires len0 == len + |done| && |done| < len && 4 * len <= target.Length
      modifies target
      ensures TableOk(hash, target[..], done[key := val]) && newLen == len0 + 1
    {
      assert len0 < target.Length / 2;
      ghost var before := target[..];
      ghost var hole := SomeSlotIsEmpty(before, done);
      ghost var idx;
      var added;
      added, idx := Insert(target, hash, key, val, hole);
      SpotDecides(hash, before, done, key, idx);
      PutKeeps(hash, before, done, key, val, idx);
      newLen := len0 + if added then 1 else 0;
    }

    /** ht_put; it fails only for lack of memory, and then changes nothing. */
    method Put(key: nat, val: nat, room: bool) returns (ok: bool)
      requires Valid()
      modifies this, entries
      ensures Valid() && (entries == old(entries) || fresh(entries))
      ensures ok <==> room || old(len) < old(cap) / 2
      ensures contents == if ok then old(contents)[key := val] else old(contents)
      ensures cap == if old(len) >= old(cap) / 2 && room then 2 * old(cap) else old(cap)
    {
      if len >= cap / 2 {
        HalfFull(len, cap);
        var resized := Resize(cap * 2, room);
        if !resized {
          return false;
        }
      }
      PutHere(key, val);
      ok := true;
    }

    method PutHere(key: nat, val: nat)
      requires Valid() && len < cap / 2
      modifies this, entries
      ensures Valid() && entries == old(entries) && cap == old(cap) && contents == old(contents)[key := val]
    {
      ghost var before := entries[..];
      ghost var hole := SomeSlotIsEmpty(before, contents);
      ghost var idx;
      var added;
      added, idx := Insert(entries, hash, key, val, hole);
      SpotDecides(hash, before, contents, key, idx);
      PutKeeps(hash, before, contents, key, val, idx);
      contents := contents[key := val];
      if added {
        len := len + 1;
      }
    }

    /** ht_remove; a failed allocation means only that the table stays larger than it need be. */
    method Remove(key: nat, room: bool) returns (ok: bool)
      requires Valid()
      modifies this, entries
      ensures Valid() && (entries == old(entries) || fresh(entries))
      ensures contents == old(contents) - {key}
      ensures ok <==> room || key !in old(contents) || len == 0 || len > old(cap) / 8
      ensures cap == if key in old(contents) && 0 < len <= old(cap) / 8 && room then old(cap) / 2 else old(cap)
    {
      ghost var hole := SomeSlotIsEmpty(entries[..], contents);
      var idx := Probe(entries, hash, key, hole);
      SpotDecides(hash, entries[..], contents, key, idx);
      ok := true;
      if !entries[idx].filled {
        assert contents - {key} == contents;
        return;
      }
      TakeOut(idx, hole);
      if len > 0 && len <= cap / 8 {
        HalfCap(cap);
        ok := Resize(cap / 2, room);
      }
    }

    /** Empties slot r and puts the rest of its cluster in again. */
    method TakeOut(r: nat, ghost hole: nat)
      requires Valid() && r < cap && entries[r].filled && hole < cap && !entries[hole].filled
      modifies this, entries
      ensures Valid() && entries == old(entries) && cap == old(cap)
      ensures contents == old(contents) - {old(entries[r].key)}
    {
      hide Rehashing, TableOk, Represents;
      ghost var es := entries[..];
      ghost var total := ClusterEnds(es, r, hole, 1);
      RepresentsPair(hash, es, contents, r);
      RemovalBegins(hash, es, contents, r, total);
      contents := contents - {entries[r].key};
      entries[r] := entries[r].(filled := false);
      len := len - 1;
      var idx: nat := Next(cap, r);
      NextDist(cap, r, r);
      ghost var d: nat := 1;
      assert entries[..] == es[r := es[r].(filled := false)];
      while entries[idx].filled
        invariant entries == old(entries) && cap == old(cap) == entries.Length
        invariant contents == old(contents) - {old(entries[r].key)} && len == |contents| && 2 * len < cap
        invariant idx < cap && Dist(cap, r, idx) == d && d >= 1
        invariant Rehashing(hash, entries[..], contents, r, d, total)
        decreases total - d
      {
        RehashEnds(hash, entries[..], contents, r, d, total, idx);
        Again(idx, r, d, total);
        NextDist(cap, r, idx);
        idx := Next(cap, idx);
        d := d + 1;
      }
      RehashEnds(hash, entries[..], contents, r, d, total, idx);
    }

    /** Takes out the entry of one slot and puts it in again; the table is far from full. */
    method Again(idx: nat, ghost r: nat, ghost d: nat, ghost total: nat)
      requires cap == entries.Length && idx < cap && Rehashing(hash, entries[..], contents, r, d, total)
      requires Dist(cap, r, idx) == d < total && len == |contents| && 2 * len < cap
      modifies this`len, entries
      ensures Rehashing(hash, entries[..], contents, r, d + 1, total)
      ensures len == old(len)
    {
      ghost var es := entries[..];
      var key, val := entries[idx].key, entries[idx].val;
      SomePair(es, contents, idx);
      entries[idx] := entries[idx].(filled := false);
      len := len - 1;
      assert entries[..] == es[idx := es[idx].(filled := false)];
      assert len < cap / 2;
      ghost var p;
      var added;
      added, p := Insert(entries, hash, key, val, idx);
      RehashStep(hash, es, contents, r, d, total, idx, p);
      if added {
        len := len + 1;
      }
    }
  }

  lemma {:induction false} EmptyOk(hash: Hash, es: seq<Entry>)
    requires |es| >= 1 && forall i: nat :: i < |es| ==> es[i] == EMPTY
    ensures TableOk(hash, es, map[])
  {
  }

  lemma {:induction false} HalfFull(len: nat, cap: nat)
    requires len >= cap / 2 && 2 * len <= cap && exists k: nat :: cap == Pow2(k)
    ensures 4 * len <= cap * 2 && len < (cap * 2) / 2
    ensures exists k: nat :: cap * 2 == Pow2(k)
  {
    var k: nat :| cap == Pow2(k);
    assert Pow2(k + 1) == cap * 2;
  }

  lemma {:induction false} HalfCap(cap: nat)
    requires cap >= 2 && exists k: nat :: cap == Pow2(k)
    ensures exists k: nat :: cap / 2 == Pow2(k)
  {
    var k: nat :| cap == Pow2(k);
    assert cap == 2 * Pow2(k - 1);
  }

  lemma {:induction false} RepresentsPair(hash: Hash, es: seq<Entry>, m: map<nat, nat>, i: nat)
    requires TableOk(hash, es, m) && i < |es| && es[i].filled
    ensures es[i].key in m && |m - {es[i].key}| == |m| - 1
  {
    assert (m - {es[i].key}).Keys == m.Keys - {es[i].key};
    assert |m.Keys| == |m| && |(m - {es[i].key}).Keys| == |m - {es[i].key}|;
  }

  lemma {:induction false} SomePair(es: seq<Entry>, m: map<nat, nat>, i: nat)
    requires Represents(es, m) && i < |es| && es[i].filled
    ensures |m| >= 1
  {
    assert es[i].key in m;
  }

  /** done holds the pairs of the first i slots. */
  ghost predicate Collected(es: seq<Entry>, i: nat, m: map<nat, nat>, done: map<nat, nat>) {
    && i <= |es| && Represents(es, m)
    && (forall k: nat {:trigger k in done} :: k in done ==> k in m && done[k] == m[k])
    && (forall s: nat {:trigger es[s]} :: s < i && es[s].filled ==> es[s].key in done)
    && forall k: nat {:trigger k in done} :: k in done ==> exists s: nat :: s < i && es[s].filled && es[s].key == k
  }

  lemma {:induction false} CollectedNone(es: seq<Entry>, m: map<nat, nat>, hash: Hash)
    requires TableOk(hash, es, m)
    ensures Collected(es, 0, m, map[])
  {
  }

  lemma {:induction false} CollectedSkip(es: seq<Entry>, i: nat, m: map<nat, nat>, done: map<nat, nat>)
    requires Collected(es, i, m, done) && i < |es| && !es[i].filled
    ensures Collected(es, i + 1, m, done)
  {
  }

  /** As long as a pair is missing, fewer than all were collected. */
  lemma {:induction false} CollectedFew(es: seq<Entry>, i: nat, m: map<nat, nat>, done: map<nat, nat>)
    requires Collected(es, i, m, done) && i < |es| && es[i].filled
    ensures |done| < |m|
    ensures es[i].key !in done && Collected(es, i + 1, m, done[es[i].key := es[i].val])
  {
    hide Holds, UniqueKeys;
    KeyIsNew(es, i, m, done);
    ProperSubset(done.Keys, m.Keys, es[i].key);
  }

  lemma {:induction false} KeyIsNew(es: seq<Entry>, i: nat, m: map<nat, nat>, done: map<nat, nat>)
    requires Collected(es, i, m, done) && i < |es| && es[i].filled
    ensures es[i].key !in done
  {
  }

  lemma {:induction false} ProperSubset(s: set<nat>, t: set<nat>, x: nat)
    requires s <= t && x in t && x !in s
    ensures |s| < |t|
  {
    SubsetIsSmaller(s + {x}, t);
  }

  lemma {:induction false} CollectedAll(es: seq<Entry>, m: map<nat, nat>, done: map<nat, nat>)
    requires Collected(es, |es|, m, done)
    ensures done == m
  {
    forall k: nat | k in m ensures k in done {
      assert Holds(es, k);
    }
  }
}
