/** Bytes read from the highest bit down, as the FSB hash reads them, and what joining two shifted
    bytes does to the bits. */
module FsbBits {
  import opened ByteBits

  /** Bit j of a byte, counted from the highest. */
  predicate HighBit(x: bv8, j: nat)
    requires j < 8
  {
    Bit(x, 7 - j)
  }

  /** x << k and x >> k, for shifts below the width */
  function Shl(x: bv8, k: nat): bv8
    requires k < 8
  {
    match k
    case 0 => x case 1 => x << 1 case 2 => x << 2 case 3 => x << 3
    case 4 => x << 4 case 5 => x << 5 case 6 => x << 6 case _ => x << 7
  }

  function Shr(x: bv8, k: nat): bv8
    requires k < 8
  {
    match k
    case 0 => x case 1 => x >> 1 case 2 => x >> 2 case 3 => x >> 3
    case 4 => x >> 4 case 5 => x >> 5 case 6 => x >> 6 case _ => x >> 7
  }

  lemma {:induction false} ShlStep(x: bv8, k: nat)
    requires 0 < k < 8
    ensures Shl(x, k) == Shl(x, k - 1) << 1
  {
  }

  lemma {:induction false} ShrStep(x: bv8, k: nat)
    requires 0 < k < 8
    ensures Shr(x, k) == Shr(x, k - 1) >> 1
  {
  }

  lemma {:induction false} ShlOnce(x: bv8, j: nat)
    requires j < 8
    ensures HighBit(x << 1, j) <==> j + 1 < 8 && HighBit(x, j + 1)
  {
  }

  lemma {:induction false} ShrOnce(x: bv8, j: nat)
    requires j < 8
    ensures HighBit(x >> 1, j) <==> j >= 1 && HighBit(x, j - 1)
  {
  }

  /** Shifting moves the bits, and zeros come in. */
  lemma {:induction false} ShiftedLeft(x: bv8, k: nat, j: nat)
    requires k < 8 && j < 8
    ensures HighBit(Shl(x, k), j) <==> j + k < 8 && HighBit(x, j + k)
  {
    hide HighBit, Shl;
    if k == 0 {
      assert Shl(x, 0) == x by { ShlNone(x); }
    } else {
      ShlStep(x, k);
      ShlOnce(Shl(x, k - 1), j);
      if j + 1 < 8 {
        ShiftedLeft(x, k - 1, j + 1);
      }
    }
  }

  lemma {:induction false} ShiftedRight(x: bv8, k: nat, j: nat)
    requires k < 8 && j < 8
    ensures HighBit(Shr(x, k), j) <==> j >= k && HighBit(x, j - k)
  {
    hide HighBit, Shr;
    if k == 0 {
      assert Shr(x, 0) == x by { ShlNone(x); }
    } else {
      ShrStep(x, k);
      ShrOnce(Shr(x, k - 1), j);
      if j >= 1 {
        ShiftedRight(x, k - 1, j - 1);
      }
    }
  }

  lemma {:induction false} ShlNone(x: bv8)
    ensures Shl(x, 0) == x && Shr(x, 0) == x
  {
  }

  /** The bits lo.. of a byte, counted from the highest, are zero. */
  ghost predicate TailZero(x: bv8, lo: nat) {
    forall j: nat {:trigger HighBit(x, j)} :: lo <= j < 8 ==> !HighBit(x, j)
  }

  /** The last k bits of a, and then the first ones of b. */
  predicate JoinBit(a: bv8, b: bv8, k: nat, j: nat)
    requires k <= 8 && j < 8
  {
    if j < k then HighBit(a, 8 - k + j) else HighBit(b, j - k)
  }

  lemma {:induction false} JoinedByOr(a: bv8, b: bv8, k: nat, j: nat)
    requires 1 <= k < 8 && j < 8
    ensures HighBit(Shl(a, 8 - k) | Shr(b, k), j) == JoinBit(a, b, k, j)
  {
    hide Shl, Shr, HighBit;
    ShiftedLeft(a, 8 - k, j);
    ShiftedRight(b, k, j);
    OrBits(Shl(a, 8 - k), Shr(b, k), j);
  }

  lemma {:induction false} JoinedByXor(a: bv8, b: bv8, k: nat, j: nat)
    requires 1 <= k < 8 && j < 8
    ensures HighBit(Shl(a, 8 - k) ^ Shr(b, k), j) == JoinBit(a, b, k, j)
  {
    hide Shl, Shr, HighBit;
    ShiftedLeft(a, 8 - k, j);
    ShiftedRight(b, k, j);
    XorBits(Shl(a, 8 - k), Shr(b, k), j);
  }

  lemma {:induction false} OrBits(x: bv8, y: bv8, j: nat)
    requires j < 8
    ensures HighBit(x | y, j) == (HighBit(x, j) || HighBit(y, j))
  {
    BitLogic(x, y, 7 - j);
  }

  lemma {:induction false} XorBits(x: bv8, y: bv8, j: nat)
    requires j < 8
    ensures HighBit(x ^ y, j) == (HighBit(x, j) != HighBit(y, j))
  {
    BitLogic(x, y, 7 - j);
  }

  /** The last k of the first cue bits of a byte whose other bits are zero, and then the first bits
      of b. */
  lemma {:induction false} JoinedTail(last: bv8, b: bv8, cue: nat, k: nat, j: nat)
    requires 1 <= k <= cue < 8 && TailZero(last, cue) && j < 8
    ensures HighBit(Shl(last, cue - k) ^ Shr(b, k), j) == if j < k then HighBit(last, cue - k + j)
              else HighBit(b, j - k)
  {
    hide Shl, Shr, HighBit;
    ShiftedLeft(last, cue - k, j);
    ShiftedRight(b, k, j);
    XorBits(Shl(last, cue - k), Shr(b, k), j);
  }

  /** The last k bits of a, the first cue bits of a byte whose other bits are zero, and then the
      first bits of b. */
  lemma {:induction false} JoinedThree(a: bv8, last: bv8, b: bv8, cue: nat, k: nat, j: nat)
    requires 1 <= k && 1 <= cue && k + cue < 8 && TailZero(last, cue) && j < 8
    ensures HighBit((Shl(a, 8 - k) | Shr(last, k)) ^ Shr(b, k + cue), j) ==
            if j < k then HighBit(a, 8 - k + j) else if j < k + cue then HighBit(last, j - k)
              else HighBit(b, j - k - cue)
  {
    hide Shl, Shr, HighBit;
    JoinedByOr(a, last, k, j);
    ShiftedRight(b, k + cue, j);
    XorBits(Shl(a, 8 - k) | Shr(last, k), Shr(b, k + cue), j);
  }

  lemma {:induction false} XorZero(x: bv8)
    ensures 0 ^ x == x
  {
  }
}
