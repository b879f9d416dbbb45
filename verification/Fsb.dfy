/** The bit operations of the FSB hash: five ways of filling the result bytes of shift_and_truncate
    against one rotation. */
module Fsb {
  import opened FsbBits

  type Bytes = seq<bv8>

  /** Bit i of a vector of bytes. */
  predicate VecBit(v: Bytes, i: nat)
    requires i < 8 * |v|
  {
    HighBit(v[i / 8], i % 8)
  }

  /** A vector of p bits: the last byte is not full, and its other bits are zero. */
  ghost predicate IsVector(v: Bytes, p: nat) {
    p % 8 != 0 && |v| == p / 8 + 1 && TailZero(v[|v| - 1], p % 8)
  }

  /** The sizes of the hash: vectors of p bits, results of r bits. */
  predicate SizesOk(p: nat, r: nat) { p % 8 != 0 && r % 8 == 0 && 0 < r < p }

  /** Bit j of the vector rotated to the right by shift. */
  predicate RotatedBit(v: Bytes, p: nat, shift: nat, j: nat)
    requires p <= 8 * |v| && shift < p && j < p
  {
    VecBit(v, if j < shift then j + p - shift else j - shift)
  }

  /** The first r bits of the rotated vector. */
  ghost predicate IsRotation(out: Bytes, v: Bytes, p: nat, r: nat, shift: nat)
    requires p <= 8 * |v| && shift < p && r <= p
  {
    8 * |out| == r && forall j: nat {:trigger VecBit(out, j)} :: j < r ==> VecBit(out, j) == RotatedBit(v, p, shift, j)
  }

  /** Byte pos of the result is right. */
  ghost predicate ByteOk(o: bv8, v: Bytes, p: nat, shift: nat, pos: nat)
    requires p <= 8 * |v| && shift < p && 8 * pos + 8 <= p
  {
    forall j: nat {:trigger HighBit(o, j)} :: j < 8 ==> HighBit(o, j) == RotatedBit(v, p, shift, 8 * pos + j)
  }

  lemma {:induction false} BytesMakeRotation(out: Bytes, v: Bytes, p: nat, r: nat, shift: nat)
    requires p <= 8 * |v| && shift < p && r <= p && 8 * |out| == r
    requires forall pos: nat {:trigger ByteOk(out[pos], v, p, shift, pos)} :: pos < |out| ==>
               ByteOk(out[pos], v, p, shift, pos)
    ensures IsRotation(out, v, p, r, shift)
  {
    hide HighBit, RotatedBit;
    forall j: nat | j < r ensures VecBit(out, j) == RotatedBit(v, p, shift, j) {
      assert ByteOk(out[j / 8], v, p, shift, j / 8);
      assert HighBit(out[j / 8], j % 8) == RotatedBit(v, p, shift, 8 * (j / 8) + j % 8);
    }
  }

  // ---- One byte

  /** The byte shows eight bits of the vector. */
  ghost predicate Shows(o: bv8, v: Bytes, from: nat)
    requires from + 8 <= 8 * |v|
  {
    forall j: nat {:trigger HighBit(o, j)} :: j < 8 ==> HighBit(o, j) == VecBit(v, from + j)
  }

  lemma {:induction false} WholeShows(v: Bytes, i: nat)
    requires i < |v|
    ensures Shows(v[i], v, 8 * i)
  {
    hide HighBit;
  }

  lemma {:induction false} WindowBit(v: Bytes, i: nat, k: nat, j: nat)
    requires i + 1 < |v| && 1 <= k < 8 && j < 8
    ensures JoinBit(v[i], v[i + 1], k, j) == VecBit(v, 8 * i + 8 - k + j)
  {
    hide HighBit;
  }

  /** Two neighbouring bytes joined. */
  lemma {:induction false} WindowShows(o: bv8, v: Bytes, i: nat, k: nat)
    requires i + 1 < |v| && 1 <= k < 8
    requires o == Shl(v[i], 8 - k) | Shr(v[i + 1], k) || o == Shl(v[i], 8 - k) ^ Shr(v[i + 1], k)
    ensures Shows(o, v, 8 * i + 8 - k)
  {
    forall j: nat | j < 8 ensures HighBit(o, j) == VecBit(v, 8 * i + 8 - k + j) {
      WindowShowsBit(o, v, i, k, j);
    }
  }

  lemma {:induction false} WindowShowsBit(o: bv8, v: Bytes, i: nat, k: nat, j: nat)
    requires i + 1 < |v| && 1 <= k < 8 && j < 8
    requires o == Shl(v[i], 8 - k) | Shr(v[i + 1], k) || o == Shl(v[i], 8 - k) ^ Shr(v[i + 1], k)
    ensures HighBit(o, j) == VecBit(v, 8 * i + 8 - k + j)
  {
    hide HighBit, Shl, Shr, VecBit, JoinBit;
    JoinedByOr(v[i], v[i + 1], k, j);
    JoinedByXor(v[i], v[i + 1], k, j);
    WindowBit(v, i, k, j);
  }

  /** A byte behind the rotated-in bits, and one among them. */
  lemma {:induction false} BehindOk(o: bv8, v: Bytes, p: nat, shift: nat, pos: nat)
    requires p <= 8 * |v| && shift < p && 8 * pos + 8 <= p && shift <= 8 * pos
    requires Shows(o, v, 8 * pos - shift)
    ensures ByteOk(o, v, p, shift, pos)
  {
    hide HighBit, VecBit;
  }

  lemma {:induction false} FrontOk(o: bv8, v: Bytes, p: nat, shift: nat, pos: nat)
    requires p <= 8 * |v| && shift < p && 8 * pos + 8 <= shift
    requires Shows(o, v, 8 * pos + p - shift)
    ensures ByteOk(o, v, p, shift, pos)
  {
    hide HighBit, VecBit;
  }

  /** The byte in which the rotated-in bits end with the last k bits of the vector. */
  lemma {:induction false} TailOk(o: bv8, v: Bytes, p: nat, shift: nat, pos: nat, k: nat)
    requires IsVector(v, p) && shift < p && 8 * pos + 8 <= p && shift == 8 * pos + k && 1 <= k <= p % 8
    requires o == Shl(v[|v| - 1], p % 8 - k) ^ Shr(v[0], k)
    ensures ByteOk(o, v, p, shift, pos)
  {
    forall j: nat | j < 8 ensures HighBit(o, j) == RotatedBit(v, p, shift, 8 * pos + j) {
      TailBit(o, v, p, shift, pos, k, j);
    }
  }

  lemma {:induction false} TailBit(o: bv8, v: Bytes, p: nat, shift: nat, pos: nat, k: nat, j: nat)
    requires IsVector(v, p) && shift < p && 8 * pos + 8 <= p && shift == 8 * pos + k && 1 <= k <= p % 8 && j < 8
    requires o == Shl(v[|v| - 1], p % 8 - k) ^ Shr(v[0], k)
    ensures HighBit(o, j) == RotatedBit(v, p, shift, 8 * pos + j)
  {
    hide HighBit, Shl, Shr, TailZero, VecBit;
    var last: nat := |v| - 1;
    JoinedTail(v[last], v[0], p % 8, k, j);
    if j < k {
      assert 8 * pos + j + p - shift == 8 * last + (p % 8 - k + j);
      BitOfByte(v, last, p % 8 - k + j);
    } else {
      BitOfByte(v, 0, j - k);
    }
  }

  lemma {:induction false} BitOfByte(v: Bytes, b: nat, j: nat)
    requires b < |v| && j < 8
    ensures VecBit(v, 8 * b + j) == HighBit(v[b], j)
  {
    assert (8 * b + j) / 8 == b && (8 * b + j) % 8 == j;
  }

  /** The byte in which they end with a whole short last byte, behind k bits of the one before. */
  lemma {:induction false} ThreeOk(o: bv8, v: Bytes, p: nat, shift: nat, pos: nat, k: nat)
    requires IsVector(v, p) && |v| >= 2 && shift < p && 8 * pos + 8 <= p
    requires shift == 8 * pos + k + p % 8 && 1 <= k && k + p % 8 < 8
    requires o == (Shl(v[|v| - 2], 8 - k) | Shr(v[|v| - 1], k)) ^ Shr(v[0], k + p % 8)
    ensures ByteOk(o, v, p, shift, pos)
  {
    forall j: nat | j < 8 ensures HighBit(o, j) == RotatedBit(v, p, shift, 8 * pos + j) {
      ThreeBit(o, v, p, shift, pos, k, j);
    }
  }

  lemma {:induction false} ThreeBit(o: bv8, v: Bytes, p: nat, shift: nat, pos: nat, k: nat, j: nat)
    requires IsVector(v, p) && |v| >= 2 && shift < p && 8 * pos + 8 <= p && j < 8
    requires shift == 8 * pos + k + p % 8 && 1 <= k && k + p % 8 < 8
    requires o == (Shl(v[|v| - 2], 8 - k) | Shr(v[|v| - 1], k)) ^ Shr(v[0], k + p % 8)
    ensures HighBit(o, j) == RotatedBit(v, p, shift, 8 * pos + j)
  {
    hide HighBit, Shl, Shr, TailZero;
    JoinedThree(v[|v| - 2], v[|v| - 1], v[0], p % 8, k, j);
    ThreeBitAt(v, p, shift, pos, k, j);
  }

  lemma {:induction false} ThreeBitAt(v: Bytes, p: nat, shift: nat, pos: nat, k: nat, j: nat)
    requires p % 8 != 0 && |v| == p / 8 + 1 && |v| >= 2 && shift < p && 8 * pos + 8 <= p && j < 8
    requires shift == 8 * pos + k + p % 8 && 1 <= k && k + p % 8 < 8
    ensures RotatedBit(v, p, shift, 8 * pos + j) ==
            if j < k then HighBit(v[|v| - 2], 8 - k + j) else if j < k + p % 8 then HighBit(v[|v| - 1], j - k)
              else HighBit(v[0], j - k - p % 8)
  {
    hide HighBit;
    var last := |v| - 1;
    assert j < k + p % 8 ==> 8 * pos + j + p - shift == 8 * last - k + j;
  }

  // ---- Filling the result

  /** The first n bytes of the result are right, and the others still zero. */
  ghost predicate FilledTo(out: Bytes, v: Bytes, p: nat, r: nat, shift: nat, n: nat)
    requires IsVector(v, p) && SizesOk(p, r) && shift < r
  {
    && 8 * |out| == r && n <= |out|
    && (forall pos: nat {:trigger ByteOk(out[pos], v, p, shift, pos)} :: pos < n ==> ByteOk(out[pos], v, p, shift, pos))
    && forall pos: nat {:trigger out[pos]} :: n <= pos < |out| ==> out[pos] == 0
  }

  lemma {:induction false} FillOne(before: Bytes, after: Bytes, o: bv8, v: Bytes, p: nat, r: nat, shift: nat, n: nat)
    requires IsVector(v, p) && SizesOk(p, r) && shift < r && FilledTo(before, v, p, r, shift, n) && n < |before|
    requires after == before[n := o] && ByteOk(o, v, p, shift, n)
    ensures FilledTo(after, v, p, r, shift, n + 1)
  {
    hide ByteOk;
    forall pos: nat | pos < n + 1 ensures ByteOk(after[pos], v, p, shift, pos) {
      if pos < n {
        assert ByteOk(before[pos], v, p, shift, pos);
      }
    }
  }

  /** Writes one byte that joins bytes i and i + 1 of the vector. */
  method JoinInto(truncated: array<bv8>, v: Bytes, i: nat, k: nat, pos: nat, ghost p: nat, ghost r: nat,
          ghost shift: nat)
    requires IsVector(v, p) && SizesOk(p, r) && shift < r && FilledTo(truncated[..], v, p, r, shift, pos)
               && pos < truncated.Length
    requires i + 1 < |v| && 1 <= k < 8 && 8 * pos - shift == 8 * i + 8 - k
    modifies truncated
    ensures FilledTo(truncated[..], v, p, r, shift, pos + 1)
  {
    hide Shl, Shr, ByteOk, Shows;
    ghost var before := truncated[..];
    ghost var o := Shl(v[i], 8 - k) ^ Shr(v[i + 1], k);
    XorZero(Shl(v[i], 8 - k));
    truncated[pos] := truncated[pos] ^ Shl(v[i], 8 - k);
    truncated[pos] := truncated[pos] ^ Shr(v[i + 1], k);
    WindowShows(o, v, i, k);
    BehindOk(o, v, p, shift, pos);
    FillOne(before, truncated[..], o, v, p, r, shift, pos);
  }

  /** The loops that fill the rest of the result, from byte first on, with the vector's bytes. */
  method FillRest(truncated: array<bv8>, v: Bytes, first: nat, k: nat, ghost p: nat, ghost r: nat, ghost shift: nat)
    requires IsVector(v, p) && SizesOk(p, r) && shift < r && FilledTo(truncated[..], v, p, r, shift, first)
    requires 1 <= k < 8 && 8 * first - shift == 8 - k
    modifies truncated
    ensures FilledTo(truncated[..], v, p, r, shift, truncated.Length)
  {
    hide FilledTo;
    FilledLength(truncated[..], v, p, r, shift, first);
    for position := first to truncated.Length
      invariant FilledTo(truncated[..], v, p, r, shift, position)
    {
      JoinInto(truncated, v, position - first, k, position, p, r, shift);
    }
  }

  lemma {:induction false} FilledLength(out: Bytes, v: Bytes, p: nat, r: nat, shift: nat, n: nat)
    requires IsVector(v, p) && SizesOk(p, r) && shift < r && FilledTo(out, v, p, r, shift, n)
    ensures 8 * |out| == r && n <= |out| && |out| < |v|
  {
  }

  /** A shift within the bits of the last byte. */
  method ShiftWithinTail(truncated: array<bv8>, v: Bytes, p: nat, ghost r: nat, shift: nat)
    requires IsVector(v, p) && SizesOk(p, r) && 1 <= shift < r && shift <= p % 8
    requires FilledTo(truncated[..], v, p, r, shift, 0)
    modifies truncated
    ensures FilledTo(truncated[..], v, p, r, shift, truncated.Length)
  {
    hide Shl, Shr, FilledTo, ByteOk;
    FilledLength(truncated[..], v, p, r, shift, 0);
    ghost var before := truncated[..];
    var startingByte := |v| - 1;
    truncated[0] := Shl(v[startingByte], p % 8 - shift);
    truncated[0] := truncated[0] ^ Shr(v[0], shift);
    TailOk(truncated[0], v, p, shift, 0, shift);
    FillOne(before, truncated[..], truncated[0], v, p, r, shift, 0);
    FillRest(truncated, v, 1, shift, p, r, shift);
  }

  /** The bytes in front of the one in which the rotated-in bits end. */
  method FillFront(truncated: array<bv8>, v: Bytes, start: nat, rest: nat, count: nat, ghost p: nat, ghost r: nat,
          ghost shift: nat)
    requires IsVector(v, p) && SizesOk(p, r) && shift < r && FilledTo(truncated[..], v, p, r, shift, 0)
    requires 1 <= rest < 8 && start + count < |v| && p - shift == 8 * start + 8 - rest && 8 * count <= shift
               && count <= truncated.Length
    modifies truncated
    ensures FilledTo(truncated[..], v, p, r, shift, count)
  {
    hide Shl, Shr, FilledTo, ByteOk, Shows;
    FilledLength(truncated[..], v, p, r, shift, 0);
    for position := 0 to count
      invariant FilledTo(truncated[..], v, p, r, shift, position)
    {
      ghost var before := truncated[..];
      var o := Shl(v[start + position], 8 - rest) | Shr(v[start + position + 1], rest);
      truncated[position] := o;
      WindowShows(o, v, start + position, rest);
      FrontOk(o, v, p, shift, position);
      FillOne(before, truncated[..], o, v, p, r, shift, position);
    }
  }

  /** The rotated-in bits begin inside a byte of the vector. */
  method ShiftAcross(truncated: array<bv8>, v: Bytes, p: nat, ghost r: nat, shift: nat)
    requires IsVector(v, p) && SizesOk(p, r) && shift < r && p % 8 < shift && (shift - p % 8) % 8 != 0
    requires FilledTo(truncated[..], v, p, r, shift, 0)
    modifies truncated
    ensures FilledTo(truncated[..], v, p, r, shift, truncated.Length)
  {
    hide Shl, Shr, FilledTo, ByteOk;
    FilledLength(truncated[..], v, p, r, shift, 0);
    var cue := p % 8;
    var bytesToShift := (shift - cue - 1) / 8 + 2;
    var start := |v| - bytesToShift;
    var rest := (shift - cue) % 8;
    if cue >= 8 - rest {
      FillFront(truncated, v, start, rest, bytesToShift - 1, p, r, shift);
      var x := cue - (8 - rest);
      if x > 0 {
        EndInTail(truncated, v, cue, bytesToShift - 1, x, p, r, shift);
        FillRest(truncated, v, bytesToShift, x, p, r, shift);
      } else {
        CopyRest(truncated, v, bytesToShift - 1, p, r, shift);
      }
    } else {
      FillFront(truncated, v, start, rest, bytesToShift - 2, p, r, shift);
      EndInThree(truncated, v, cue, rest, bytesToShift - 2, p, r, shift);
      FillRest(truncated, v, bytesToShift - 1, rest + cue, p, r, shift);
    }
  }

  /** The last bits of the vector, and the first ones. */
  method EndInTail(truncated: array<bv8>, v: Bytes, cue: nat, pos: nat, x: nat, ghost p: nat, ghost r: nat,
          ghost shift: nat)
    requires IsVector(v, p) && SizesOk(p, r) && shift < r && FilledTo(truncated[..], v, p, r, shift, pos)
               && pos < truncated.Length
    requires cue == p % 8 && 1 <= x <= cue && shift == 8 * pos + x
    modifies truncated
    ensures FilledTo(truncated[..], v, p, r, shift, pos + 1)
  {
    hide Shl, Shr, ByteOk;
    ghost var before := truncated[..];
    var last := v[|v| - 1];
    XorZero(Shl(last, cue - x));
    truncated[pos] := truncated[pos] ^ Shl(last, cue - x);
    truncated[pos] := truncated[pos] ^ Shr(v[0], x);
    TailOk(truncated[pos], v, p, shift, pos, x);
    FillOne(before, truncated[..], truncated[pos], v, p, r, shift, pos);
  }

  /** The bits of three bytes meet in one. */
  method EndInThree(truncated: array<bv8>, v: Bytes, cue: nat, rest: nat, pos: nat, ghost p: nat, ghost r: nat,
          ghost shift: nat)
    requires IsVector(v, p) && SizesOk(p, r) && shift < r && FilledTo(truncated[..], v, p, r, shift, pos)
               && pos < truncated.Length
    requires cue == p % 8 && 1 <= rest && rest + cue < 8 && shift == 8 * pos + rest + cue && |v| >= 2
    modifies truncated
    ensures FilledTo(truncated[..], v, p, r, shift, pos + 1)
  {
    hide Shl, Shr, ByteOk;
    ghost var before := truncated[..];
    truncated[pos] := Shl(v[|v| - 2], 8 - rest) | Shr(v[|v| - 1], rest);
    truncated[pos] := truncated[pos] ^ Shr(v[0], rest + cue);
    ThreeOk(truncated[pos], v, p, shift, pos, rest);
    FillOne(before, truncated[..], truncated[pos], v, p, r, shift, pos);
  }

  /** The rest of the result starts at a byte of the vector. */
  method CopyRest(truncated: array<bv8>, v: Bytes, first: nat, ghost p: nat, ghost r: nat, ghost shift: nat)
    requires IsVector(v, p) && SizesOk(p, r) && shift < r && FilledTo(truncated[..], v, p, r, shift, first)
    requires shift == 8 * first
    modifies truncated
    ensures FilledTo(truncated[..], v, p, r, shift, truncated.Length)
  {
    hide FilledTo, ByteOk, Shows;
    FilledLength(truncated[..], v, p, r, shift, first);
    for position := first to truncated.Length
      invariant FilledTo(truncated[..], v, p, r, shift, position)
    {
      ghost var before := truncated[..];
      truncated[position] := v[position - first];
      WholeShows(v, position - first);
      BehindOk(v[position - first], v, p, shift, position);
      FillOne(before, truncated[..], v[position - first], v, p, r, shift, position);
    }
  }

  /** The rotated-in bits begin at a byte of the vector. */
  method ShiftByBytes(truncated: array<bv8>, v: Bytes, p: nat, ghost r: nat, shift: nat)
    requires IsVector(v, p) && SizesOk(p, r) && shift < r && p % 8 < shift && (shift - p % 8) % 8 == 0
    requires FilledTo(truncated[..], v, p, r, shift, 0)
    modifies truncated
    ensures FilledTo(truncated[..], v, p, r, shift, truncated.Length)
  {
    hide Shl, Shr, FilledTo, ByteOk, Shows;
    FilledLength(truncated[..], v, p, r, shift, 0);
    var cue := p % 8;
    var bytesToShift := (shift - cue - 1) / 8 + 2;
    var start := |v| - bytesToShift;
    for position := 0 to bytesToShift - 1
      invariant FilledTo(truncated[..], v, p, r, shift, position)
    {
      ghost var before := truncated[..];
      truncated[position] := v[start + position];
      WholeShows(v, start + position);
      FrontOk(v[start + position], v, p, shift, position);
      FillOne(before, truncated[..], v[start + position], v, p, r, shift, position);
    }
    LastWhole(truncated, v, bytesToShift - 1, cue, p, r, shift);
    FillRest(truncated, v, bytesToShift, cue, p, r, shift);
  }

  /** The last byte of the vector, filled up with the first bits. */
  method LastWhole(truncated: array<bv8>, v: Bytes, pos: nat, cue: nat, ghost p: nat, ghost r: nat, ghost shift: nat)
    requires IsVector(v, p) && SizesOk(p, r) && shift < r && FilledTo(truncated[..], v, p, r, shift, pos)
               && pos < truncated.Length
    requires cue == p % 8 && shift == 8 * pos + cue
    modifies truncated
    ensures FilledTo(truncated[..], v, p, r, shift, pos + 1)
  {
    hide Shl, Shr, ByteOk;
    ghost var before := truncated[..];
    ShlNone(v[|v| - 1]);
    truncated[pos] := v[|v| - 1];
    truncated[pos] := truncated[pos] ^ Shr(v[0], cue);
    TailOk(truncated[pos], v, p, shift, pos, cue);
    FillOne(before, truncated[..], truncated[pos], v, p, r, shift, pos);
  }

  /** shift_and_truncate: whatever the branch, the first r bits of the vector rotated to the right. */
  method ShiftAndTruncate(v: Bytes, p: nat, r: nat, shift: nat) returns (out: Bytes)
    requires IsVector(v, p) && SizesOk(p, r) && shift < r
    ensures IsRotation(out, v, p, r, shift)
  {
    hide FilledTo, ByteOk;
    var truncated := new bv8[r / 8](_ => 0);
    NothingFilled(truncated[..], v, p, r, shift);
    if shift == 0 {
      CopyRest(truncated, v, 0, p, r, shift);
    } else if shift <= p % 8 {
      ShiftWithinTail(truncated, v, p, r, shift);
    } else if (shift - p % 8) % 8 != 0 {
      ShiftAcross(truncated, v, p, r, shift);
    } else {
      ShiftByBytes(truncated, v, p, r, shift);
    }
    out := truncated[..];
    AllFilled(out, v, p, r, shift);
  }

  lemma {:induction false} NothingFilled(out: Bytes, v: Bytes, p: nat, r: nat, shift: nat)
    requires IsVector(v, p) && SizesOk(p, r) && shift < r && 8 * |out| == r
    requires forall i: nat :: i < |out| ==> out[i] == 0
    ensures FilledTo(out, v, p, r, shift, 0)
  {
  }

  lemma {:induction false} AllFilled(out: Bytes, v: Bytes, p: nat, r: nat, shift: nat)
    requires IsVector(v, p) && SizesOk(p, r) && shift < r && FilledTo(out, v, p, r, shift, |out|)
    ensures IsRotation(out, v, p, r, shift)
  {
    BytesMakeRotation(out, v, p, r, shift);
  }
}
