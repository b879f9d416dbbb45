/** The char-backed bitset of buddy.h: bit k lives in byte k / 8 at index k % 8. */
module BuddyBitset {
  import opened ByteBits

  function BitsetSizeof(elements: nat): (bytes: nat)
    ensures forall k: nat {:trigger k / 8} :: k < elements ==> k / 8 < bytes
    ensures 8 * bytes < elements + 8
  {
    (elements + 8 - 1) / 8
  }

  predicate BitAt(s: seq<bv8>, k: nat)
    requires k / 8 < |s|
  {
    Bit(s[k / 8], k % 8)
  }

  /** How many of the bits lo..hi are set. */
  function CountBits(s: seq<bv8>, lo: nat, hi: nat): (n: nat)
    requires lo <= hi <= 8 * |s|
    decreases hi - lo
  {
    if lo == hi then 0 else (if BitAt(s, lo) then 1 else 0) + CountBits(s, lo + 1, hi)
  }

  lemma {:induction false} CountSplit(s: seq<bv8>, lo: nat, mid: nat, hi: nat)
    requires lo <= mid <= hi <= 8 * |s|
    ensures CountBits(s, lo, hi) == CountBits(s, lo, mid) + CountBits(s, mid, hi)
    decreases mid - lo
  {
    if lo < mid {
      CountSplit(s, lo + 1, mid, hi);
    }
  }

  method BitsetTest(bitset: array<bv8>, pos: nat) returns (isSet: bool)
    requires pos / 8 < bitset.Length
    ensures isSet == BitAt(bitset[..], pos)
  {
    var bucket, index := pos / 8, pos % 8;
    isSet := bitset[bucket] & IndexMask(index) != 0;
  }

  lemma {:induction false} AllBitsConstant()
    ensures forall i: nat | i < 8 :: !Bit(0, i) && Bit(255, i)
  {
    forall i: nat | i < 8 ensures !Bit(0, i) && Bit(255, i) { BitConstants(i); }
  }

  /** Byte j after the bits fromPos..toPos of the bitset, both included, are cleared. */
  ghost predicate ClearByte(before: bv8, after: bv8, j: nat, fromPos: nat, toPos: nat) {
    forall i: nat {:trigger Bit(after, i)} | i < 8 ::
      Bit(after, i) <==> Bit(before, i) && !(fromPos <= 8 * j + i <= toPos)
  }

  lemma {:induction false} ClearByMask(b: bv8, bucket: nat, lo: nat, hi: nat, fromPos: nat, toPos: nat)
    requires lo < 8 && hi < 8 && fromPos < 8 * bucket + 8 && 8 * bucket <= toPos
    requires lo == if 8 * bucket <= fromPos then fromPos - 8 * bucket else 0
    requires hi == if toPos < 8 * bucket + 7 then toPos - 8 * bucket else 7
    ensures ClearByte(b, b & !CharMask(lo, hi), bucket, fromPos, toPos)
  {
    forall i: nat | i < 8
      ensures Bit(b & !CharMask(lo, hi), i) <==> Bit(b, i) && !(fromPos <= 8 * bucket + i <= toPos)
    {
      ClearOneBit(b, lo, hi, i);
    }
  }

  lemma {:induction false} ClearOneBit(b: bv8, lo: nat, hi: nat, i: nat)
    requires lo < 8 && hi < 8 && i < 8
    ensures Bit(b & !CharMask(lo, hi), i) <==> Bit(b, i) && !(lo <= i <= hi)
  {
    hide Bit, CharMask;
    CharMaskBit(lo, hi, i);
    BitLogic(b, !CharMask(lo, hi), i);
    BitLogic(CharMask(lo, hi), b, i);
  }

  method ClearMasked(bitset: array<bv8>, bucket: nat, lo: nat, hi: nat, ghost fromPos: nat, ghost toPos: nat)
    requires bucket < bitset.Length && lo < 8 && hi < 8 && fromPos < 8 * bucket + 8 && 8 * bucket <= toPos
    requires lo == if 8 * bucket <= fromPos then fromPos - 8 * bucket else 0
    requires hi == if toPos < 8 * bucket + 7 then toPos - 8 * bucket else 7
    modifies bitset
    ensures forall j: nat :: j < bitset.Length && j != bucket ==> bitset[j] == old(bitset[j])
    ensures ClearByte(old(bitset[bucket]), bitset[bucket], bucket, fromPos, toPos)
  {
    ClearByMask(bitset[bucket], bucket, lo, hi, fromPos, toPos);
    bitset[bucket] := bitset[bucket] & !CharMask(lo, hi);
  }

  lemma {:induction false} ClearBits(before: seq<bv8>, after: seq<bv8>, fromPos: nat, toPos: nat)
    requires |before| == |after|
    requires forall j: nat :: j < |after| ==> ClearByte(before[j], after[j], j, fromPos, toPos)
    ensures forall k: nat {:trigger BitAt(after, k)} :: k / 8 < |after| ==>
              (BitAt(after, k) <==> BitAt(before, k) && !(fromPos <= k <= toPos))
  {
    forall k: nat | k / 8 < |after|
      ensures BitAt(after, k) <==> BitAt(before, k) && !(fromPos <= k <= toPos)
    {
      assert ClearByte(before[k / 8], after[k / 8], k / 8, fromPos, toPos);
      assert k == 8 * (k / 8) + k % 8;
    }
  }

  method BitsetClearRange(bitset: array<bv8>, fromPos: nat, toPos: nat)
    requires fromPos <= toPos && toPos / 8 < bitset.Length
    modifies bitset
    ensures forall k: nat {:trigger BitAt(bitset[..], k)} :: k / 8 < bitset.Length ==>
              (BitAt(bitset[..], k) <==> BitAt(old(bitset[..]), k) && !(fromPos <= k <= toPos))
  {
    var fromBucket, toBucket := fromPos / 8, toPos / 8;
    var fromIndex, toIndex := fromPos % 8, toPos % 8;
    ghost var before := bitset[..];
    if fromBucket == toBucket {
      ClearMasked(bitset, fromBucket, fromIndex, toIndex, fromPos, toPos);
    } else {
      ClearMasked(bitset, fromBucket, fromIndex, 7, fromPos, toPos);
      ClearMasked(bitset, toBucket, 0, toIndex, fromPos, toPos);
      fromBucket := fromBucket + 1;
      while fromBucket != toBucket
        invariant fromPos / 8 < fromBucket <= toBucket
        invariant forall j: nat :: j < bitset.Length ==>
                    if fromBucket <= j < toBucket then bitset[j] == before[j]
                    else ClearByte(before[j], bitset[j], j, fromPos, toPos)
      {
        AllBitsConstant();
        bitset[fromBucket] := 0;
        fromBucket := fromBucket + 1;
      }
    }
    ClearBits(before, bitset[..], fromPos, toPos);
  }

  /** Byte j after the bits fromPos..toPos of the bitset, both included, are set. */
  ghost predicate SetByte(before: bv8, after: bv8, j: nat, fromPos: nat, toPos: nat) {
    forall i: nat {:trigger Bit(after, i)} | i < 8 ::
      Bit(after, i) <==> Bit(before, i) || fromPos <= 8 * j + i <= toPos
  }

  lemma {:induction false} SetByMask(b: bv8, bucket: nat, lo: nat, hi: nat, fromPos: nat, toPos: nat)
    requires lo < 8 && hi < 8 && fromPos < 8 * bucket + 8 && 8 * bucket <= toPos
    requires lo == if 8 * bucket <= fromPos then fromPos - 8 * bucket else 0
    requires hi == if toPos < 8 * bucket + 7 then toPos - 8 * bucket else 7
    ensures SetByte(b, b | CharMask(lo, hi), bucket, fromPos, toPos)
  {
    forall i: nat | i < 8
      ensures Bit(b | CharMask(lo, hi), i) <==> Bit(b, i) || fromPos <= 8 * bucket + i <= toPos
    {
      SetOneBit(b, lo, hi, i);
    }
  }

  lemma {:induction false} SetOneBit(b: bv8, lo: nat, hi: nat, i: nat)
    requires lo < 8 && hi < 8 && i < 8
    ensures Bit(b | CharMask(lo, hi), i) <==> Bit(b, i) || lo <= i <= hi
  {
    hide Bit, CharMask;
    CharMaskBit(lo, hi, i);
    BitLogic(b, CharMask(lo, hi), i);
    BitLogic(CharMask(lo, hi), b, i);
  }

  method SetMasked(bitset: array<bv8>, bucket: nat, lo: nat, hi: nat, ghost fromPos: nat, ghost toPos: nat)
    requires bucket < bitset.Length && lo < 8 && hi < 8 && fromPos < 8 * bucket + 8 && 8 * bucket <= toPos
    requires lo == if 8 * bucket <= fromPos then fromPos - 8 * bucket else 0
    requires hi == if toPos < 8 * bucket + 7 then toPos - 8 * bucket else 7
    modifies bitset
    ensures forall j: nat :: j < bitset.Length && j != bucket ==> bitset[j] == old(bitset[j])
    ensures SetByte(old(bitset[bucket]), bitset[bucket], bucket, fromPos, toPos)
  {
    SetByMask(bitset[bucket], bucket, lo, hi, fromPos, toPos);
    bitset[bucket] := bitset[bucket] | CharMask(lo, hi);
  }

  lemma {:induction false} SetBits(before: seq<bv8>, after: seq<bv8>, fromPos: nat, toPos: nat)
    requires |before| == |after|
    requires forall j: nat :: j < |after| ==> SetByte(before[j], after[j], j, fromPos, toPos)
    ensures forall k: nat {:trigger BitAt(after, k)} :: k / 8 < |after| ==>
              (BitAt(after, k) <==> BitAt(before, k) || fromPos <= k <= toPos)
  {
    forall k: nat | k / 8 < |after|
      ensures BitAt(after, k) <==> BitAt(before, k) || fromPos <= k <= toPos
    {
      assert SetByte(before[k / 8], after[k / 8], k / 8, fromPos, toPos);
      assert k == 8 * (k / 8) + k % 8;
    }
  }

  method BitsetSetRange(bitset: array<bv8>, fromPos: nat, toPos: nat)
    requires fromPos <= toPos && toPos / 8 < bitset.Length
    modifies bitset
    ensures forall k: nat {:trigger BitAt(bitset[..], k)} :: k / 8 < bitset.Length ==>
              (BitAt(bitset[..], k) <==> BitAt(old(bitset[..]), k) || fromPos <= k <= toPos)
  {
    var fromBucket, toBucket := fromPos / 8, toPos / 8;
    var fromIndex, toIndex := fromPos % 8, toPos % 8;
    ghost var before := bitset[..];
    if fromBucket == toBucket {
      SetMasked(bitset, fromBucket, fromIndex, toIndex, fromPos, toPos);
    } else {
      SetMasked(bitset, fromBucket, fromIndex, 7, fromPos, toPos);
      SetMasked(bitset, toBucket, 0, toIndex, fromPos, toPos);
      fromBucket := fromBucket + 1;
      while fromBucket != toBucket
        invariant fromPos / 8 < fromBucket <= toBucket
        invariant forall j: nat :: j < bitset.Length ==>
                    if fromBucket <= j < toBucket then bitset[j] == before[j]
                    else SetByte(before[j], bitset[j], j, fromPos, toPos)
      {
        AllBitsConstant();
        bitset[fromBucket] := 255;
        fromBucket := fromBucket + 1;
      }
    }
    SetBits(before, bitset[..], fromPos, toPos);
  }

  lemma {:induction false} MaskedCountFrom(s: seq<bv8>, b: bv8, bucket: nat, lo: nat, hi: nat, at: nat)
    requires bucket < |s| && lo <= hi < 8 && at <= 8
    requires forall i: nat {:trigger Bit(b, i)} | i < 8 :: Bit(b, i) <==> Bit(s[bucket], i) && lo <= i <= hi
    ensures Popcount(b, at) ==
            if hi < at then 0 else CountBits(s, 8 * bucket + if at <= lo then lo else at, 8 * bucket + hi + 1)
    decreases 8 - at
  {
    if at < 8 {
      MaskedCountFrom(s, b, bucket, lo, hi, at + 1);
      BitAtByte(s, bucket, at);
    }
  }

  lemma {:induction false} MaskedBits(b: bv8, lo: nat, hi: nat)
    requires lo < 8 && hi < 8
    ensures forall i: nat {:trigger Bit(b & CharMask(lo, hi), i)} | i < 8 ::
              Bit(b & CharMask(lo, hi), i) <==> Bit(b, i) && lo <= i <= hi
  {
    hide Bit, CharMask;
    forall i: nat | i < 8 ensures Bit(b & CharMask(lo, hi), i) <==> Bit(b, i) && lo <= i <= hi {
      BitLogic(b, CharMask(lo, hi), i);
      CharMaskBit(lo, hi, i);
    }
  }

  /** popcount of one byte under a range mask: the set bits of that stretch of the bitset. */
  method MaskedPopcount(s: seq<bv8>, bucket: nat, lo: nat, hi: nat) returns (n: nat)
    requires bucket < |s| && lo <= hi < 8
    ensures n == CountBits(s, 8 * bucket + lo, 8 * bucket + hi + 1)
  {
    hide Bit, CharMask, Popcount, CountBits;
    MaskedBits(s[bucket], lo, hi);
    MaskedCountFrom(s, s[bucket] & CharMask(lo, hi), bucket, lo, hi, 0);
    n := Popcount(s[bucket] & CharMask(lo, hi), 0);
  }

  lemma {:induction false} BitAtByte(s: seq<bv8>, bucket: nat, i: nat)
    requires bucket < |s| && i < 8
    ensures BitAt(s, 8 * bucket + i) == Bit(s[bucket], i)
  {
    assert (8 * bucket + i) / 8 == bucket;
  }

  lemma {:induction false} ByteCount(s: seq<bv8>, bucket: nat, at: nat)
    requires bucket < |s| && at <= 8
    ensures Popcount(s[bucket], at) == CountBits(s, 8 * bucket + at, 8 * bucket + 8)
    decreases 8 - at
  {
    if at < 8 {
      ByteCount(s, bucket, at + 1);
      BitAtByte(s, bucket, at);
    }
  }

  lemma {:induction false} CountNextByte(s: seq<bv8>, lo: nat, bucket: nat)
    requires lo <= 8 * bucket && bucket < |s|
    ensures CountBits(s, lo, 8 * bucket + 8) == CountBits(s, lo, 8 * bucket) + Popcount(s[bucket], 0)
  {
    ByteCount(s, bucket, 0);
    CountSplit(s, lo, 8 * bucket, 8 * bucket + 8);
  }

  method BitsetCountRange(bitset: array<bv8>, fromPos: nat, toPos: nat) returns (result: nat)
    requires fromPos <= toPos && toPos / 8 < bitset.Length
    ensures result == CountBits(bitset[..], fromPos, toPos + 1)
  {
    hide CountBits, Popcount;
    var fromBucket, toBucket := fromPos / 8, toPos / 8;
    var fromIndex, toIndex := fromPos % 8, toPos % 8;
    var s := bitset[..];
    if fromBucket == toBucket {
      result := MaskedPopcount(s, fromBucket, fromIndex, toIndex);
      return;
    }
    result := MaskedPopcount(s, fromBucket, fromIndex, 7);
    var last := MaskedPopcount(s, toBucket, 0, toIndex);
    result := result + last;
    fromBucket := fromBucket + 1;
    while fromBucket != toBucket
      invariant fromPos / 8 < fromBucket <= toBucket
      invariant result == CountBits(s, fromPos, 8 * fromBucket) + last
    {
      CountNextByte(s, fromPos, fromBucket);
      result := result + Popcount(s[fromBucket], 0);
      fromBucket := fromBucket + 1;
    }
    CountSplit(s, fromPos, 8 * toBucket, toPos + 1);
  }

  // ---- The bitset as a sequence of bits

  /** How many of the bits lo..hi are set. */
  function CountTrue(m: seq<bool>, lo: nat, hi: nat): (n: nat)
    requires lo <= hi <= |m|
    decreases hi - lo
  {
    if lo == hi then 0 else (if m[lo] then 1 else 0) + CountTrue(m, lo + 1, hi)
  }

  lemma {:induction false} CountTrueSplit(m: seq<bool>, lo: nat, mid: nat, hi: nat)
    requires lo <= mid <= hi <= |m|
    ensures CountTrue(m, lo, hi) == CountTrue(m, lo, mid) + CountTrue(m, mid, hi)
    decreases mid - lo
  {
    if lo < mid {
      CountTrueSplit(m, lo + 1, mid, hi);
    }
  }

  /** m shows the bits of the bytes s. */
  ghost predicate Shows(s: seq<bv8>, m: seq<bool>) {
    |m| == 8 * |s| && forall k: nat {:trigger BitAt(s, k)} :: k < |m| ==> BitAt(s, k) == m[k]
  }

  lemma {:induction false} CountShown(s: seq<bv8>, m: seq<bool>, lo: nat, hi: nat)
    requires Shows(s, m) && lo <= hi <= |m|
    ensures CountBits(s, lo, hi) == CountTrue(m, lo, hi)
    decreases hi - lo
  {
    if lo < hi {
      CountShown(s, m, lo + 1, hi);
    }
  }

  class Bitset {
    const bytes: array<bv8>
    ghost var bitmap: seq<bool>

    ghost predicate Valid()
      reads this, bytes
    {
      Shows(bytes[..], bitmap)
    }

    constructor (size: nat)
      ensures Valid() && fresh(bytes) && bytes.Length == size
      ensures bitmap == seq(8 * size, _ => false)
    {
      bytes := new bv8[size](_ => 0);
      bitmap := seq(8 * size, _ => false);
      new;
      AllBitsConstant();
    }

    method Test(pos: nat) returns (isSet: bool)
      requires Valid() && pos < |bitmap|
      ensures isSet == bitmap[pos]
    {
      isSet := BitsetTest(bytes, pos);
    }

    method ClearRange(fromPos: nat, toPos: nat)
      requires Valid() && fromPos <= toPos < |bitmap|
      modifies bytes, `bitmap
      ensures Valid() && |bitmap| == |old(bitmap)|
      ensures forall k: nat :: k < |bitmap| ==> (bitmap[k] <==> old(bitmap)[k] && !(fromPos <= k <= toPos))
    {
      BitsetClearRange(bytes, fromPos, toPos);
      ghost var before := bitmap;
      bitmap := seq(|before|, k requires 0 <= k < |before| => before[k] && !(fromPos <= k <= toPos));
    }

    method SetRange(fromPos: nat, toPos: nat)
      requires Valid() && fromPos <= toPos < |bitmap|
      modifies bytes, `bitmap
      ensures Valid() && |bitmap| == |old(bitmap)|
      ensures forall k: nat :: k < |bitmap| ==> (bitmap[k] <==> old(bitmap)[k] || fromPos <= k <= toPos)
    {
      BitsetSetRange(bytes, fromPos, toPos);
      ghost var before := bitmap;
      bitmap := seq(|before|, k requires 0 <= k < |before| => before[k] || fromPos <= k <= toPos);
    }

    method CountRange(fromPos: nat, toPos: nat) returns (result: nat)
      requires Valid() && fromPos <= toPos < |bitmap|
      ensures result == CountTrue(bitmap, fromPos, toPos + 1)
    {
      result := BitsetCountRange(bytes, fromPos, toPos);
      CountShown(bytes[..], bitmap, fromPos, toPos + 1);
    }
  }

  /** A unary field of width w holding v: the first v bits are set, the others are clear. */
  ghost predicate Unary(m: seq<bool>, at: nat, w: nat, v: nat) {
    && v <= w && at + w <= |m|
    && forall k: nat :: at <= k < at + w ==> (m[k] <==> k < at + v)
  }

  lemma {:induction false} UnaryCount(m: seq<bool>, at: nat, w: nat, v: nat, span: nat)
    requires Unary(m, at, w, v) && span <= w
    ensures CountTrue(m, at, at + span) == if v <= span then v else span
    decreases span
  {
    if span > 0 {
      UnaryCount(m, at, w, v, span - 1);
      CountTrueSplit(m, at, at + span - 1, at + span);
    }
  }
}
