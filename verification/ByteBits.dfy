/** The bits of a byte, least significant first, and the range masks of buddy.h. */
module ByteBits {

  function IndexMask(i: nat): (m: bv8)
    requires i < 8
    ensures m & (m - 1) == 0 && m != 0
  {
    match i
    case 0 => 1 case 1 => 2 case 2 => 4 case 3 => 8
    case 4 => 16 case 5 => 32 case 6 => 64 case _ => 128
  }

  predicate Bit(b: bv8, i: nat)
    requires i < 8
  {
    b & IndexMask(i) != 0
  }

  /** One row of bitset_char_mask, read at index hi. */
  function MaskRow(c0: bv8, c1: bv8, c2: bv8, c3: bv8, c4: bv8, c5: bv8, c6: bv8, c7: bv8, hi: nat): bv8
    requires hi < 8
  {
    match hi
    case 0 => c0 case 1 => c1 case 2 => c2 case 3 => c3
    case 4 => c4 case 5 => c5 case 6 => c6 case _ => c7
  }

  /** bitset_char_mask[lo][hi]: the bits lo..hi, both included. */
  function CharMask(lo: nat, hi: nat): (m: bv8)
    requires lo < 8 && hi < 8
  {
    match lo
    case 0 => MaskRow(  1,   3,   7,  15,  31,  63, 127, 255, hi)
    case 1 => MaskRow(  0,   2,   6,  14,  30,  62, 126, 254, hi)
    case 2 => MaskRow(  0,   0,   4,  12,  28,  60, 124, 252, hi)
    case 3 => MaskRow(  0,   0,   0,   8,  24,  56, 120, 248, hi)
    case 4 => MaskRow(  0,   0,   0,   0,  16,  48, 112, 240, hi)
    case 5 => MaskRow(  0,   0,   0,   0,   0,  32,  96, 224, hi)
    case 6 => MaskRow(  0,   0,   0,   0,   0,   0,  64, 192, hi)
    case _ => MaskRow(  0,   0,   0,   0,   0,   0,   0, 128, hi)
  }

  lemma {:induction false} CharMaskBit(lo: nat, hi: nat, i: nat)
    requires lo < 8 && hi < 8 && i < 8
    ensures Bit(CharMask(lo, hi), i) <==> lo <= i <= hi
  {
  }

  /** For a mask m of a single bit, and, or, exclusive or and complement act bit by bit. */
  lemma {:induction false} OneBit(a: bv8, b: bv8, m: bv8)
    requires m & (m - 1) == 0 && m != 0
    ensures a & b & m != 0 <==> a & m != 0 && b & m != 0
    ensures (a | b) & m != 0 <==> a & m != 0 || b & m != 0
    ensures (a ^ b) & m != 0 <==> ((a & m != 0) != (b & m != 0))
    ensures !a & m != 0 <==> !(a & m != 0)
  {
  }

  lemma {:induction false} BitLogic(a: bv8, b: bv8, i: nat)
    requires i < 8
    ensures Bit(a & b, i) <==> Bit(a, i) && Bit(b, i)
    ensures Bit(a | b, i) <==> Bit(a, i) || Bit(b, i)
    ensures Bit(a ^ b, i) <==> (Bit(a, i) != Bit(b, i))
    ensures Bit(!a, i) <==> !Bit(a, i)
  {
    OneBit(a, b, IndexMask(i));
  }

  lemma {:induction false} BitConstants(i: nat)
    requires i < 8
    ensures !Bit(0, i) && Bit(255, i)
  {
  }

  /** Set bits of b at positions lo..8. popcount_lookup[b] is Popcount(b, 0). */
  function Popcount(b: bv8, lo: nat): (n: nat)
    requires lo <= 8
    decreases 8 - lo
  {
    if lo == 8 then 0 else (if Bit(b, lo) then 1 else 0) + Popcount(b, lo + 1)
  }
}
