/** The compression function of the FSB hash: cutting the message into batches of five or six bits,
    the indices they make, and the vectors these choose. */
module FsbCompress {
  import opened Products
  import opened FsbBits
  import opened Fsb

  const PI_LENGTH := 272384

  /** The numbers of one member of the family; k is the size of a batch. */
  datatype Params = Params(n: nat, w: nat, r: nat, p: nat, s: nat) {
    function BatchSize(): nat requires s >= r && w > 0 { (s - r) / w }

    /** What an index of one batch spans. */
    function Span(): nat { if s - r == 6 * w then 16384 else 8192 }

    predicate Ok() {
      && SizesOk(p, r) && w > 0 && r == 8 * w && s % 8 == 0
      && (s - r == 5 * w || s - r == 6 * w)
      && n == w * Span()
    }

    function VectorLength(): nat { p / 8 + 1 }

    /** Where the vector that an index chooses begins in the table. */
    function VectorStart(index: nat): nat requires r > 0 { Times(Quot(index, r), VectorLength()) }

    predicate Fits(index: nat, total: nat) requires r > 0 { VectorStart(index) + VectorLength() <= total }
  }

  const FSB160 := Params(1310720, 80, 640, 653, 1120)
  const FSB224 := Params(1835008, 112, 896, 907, 1568)
  const FSB256 := Params(2097152, 128, 1024, 1061, 1792)
  const FSB384 := Params(1507328, 184, 1472, 1483, 2392)
  const FSB512 := Params(2031616, 248, 1984, 1987, 3224)

  predicate IsMember(q: Params) { q == FSB160 || q == FSB224 || q == FSB256 || q == FSB384 || q == FSB512 }

  /** The vectors that the indices below n can choose all lie in the table. */
  lemma {:induction false} MembersAreOk(q: Params, index: nat)
    requires IsMember(q) && index < q.n
    ensures q.Ok() && q.Fits(index, PI_LENGTH)
  {
    hide Times, Quot;
    TimesIs(2048, q.r);
    TimesIs(1024, q.r);
    TimesIs(2048, q.VectorLength());
    TimesIs(1024, q.VectorLength());
    InTable(index, q.r, if q == FSB384 || q == FSB512 then 1024 else 2048, q.VectorLength());
  }

  lemma {:induction false} InTable(index: nat, r: nat, count: nat, length: nat)
    requires r > 0 && index < Times(count, r)
    ensures Times(Quot(index, r), length) + length <= Times(count, length)
  {
    var chosen := Quot(index, r);
    QuotRem(index, r);
    if chosen >= count {
      TimesMono(count, chosen, r);
    }
    TimesMono(chosen + 1, count, length);
    TimesAdd(chosen, 1, length);
    TimesIs(1, length);
  }

  // ---- Vectors

  /** define_iv: a piece of the table with the spare bits of its last byte cleared. */
  method DefineIv(pi: Bytes, p: nat, index: nat) returns (v: Bytes)
    requires p % 8 != 0 && Times(index, p / 8 + 1) + p / 8 + 1 <= |pi|
    ensures IsVector(v, p)
    ensures forall i: nat {:trigger VecBit(v, i)} :: i < p ==>
              VecBit(v, i) == VecBit(pi, 8 * Times(index, p / 8 + 1) + i)
  {
    hide HighBit;
    var length := p / 8 + 1;
    var shift := 8 - p % 8;
    var from := index * length;
    TimesIs(index, length);
    var piece := pi[from..from + length];
    var last := Shl(Shr(piece[length - 1], shift), shift);
    v := piece[..length - 1] + [last];
    ClearedTail(piece[length - 1], shift);
    forall i: nat | i < p ensures VecBit(v, i) == VecBit(pi, 8 * from + i) {
      ClearedVector(pi, from, v, p, last, i);
    }
  }

  /** Shifting right and back clears the bits that were shifted out. */
  lemma {:induction false} ClearedTail(x: bv8, k: nat)
    requires 1 <= k < 8
    ensures TailZero(Shl(Shr(x, k), k), 8 - k)
    ensures forall j: nat {:trigger HighBit(x, j)} :: j < 8 - k ==> HighBit(Shl(Shr(x, k), k), j) == HighBit(x, j)
  {
    hide HighBit, Shl, Shr;
    forall j: nat | j < 8
      ensures HighBit(Shl(Shr(x, k), k), j) == (j < 8 - k && HighBit(x, j))
    {
      ShiftedLeft(Shr(x, k), k, j);
      if j + k < 8 {
        ShiftedRight(x, k, j + k);
      }
    }
  }

  lemma {:induction false} ClearedVector(pi: Bytes, from: nat, v: Bytes, p: nat, last: bv8, i: nat)
    requires p % 8 != 0 && from + p / 8 + 1 <= |pi| && i < p
    requires v == pi[from..from + p / 8] + [last]
    requires forall j: nat {:trigger HighBit(pi[from + p / 8], j)} :: j < p % 8 ==>
               HighBit(last, j) == HighBit(pi[from + p / 8], j)
    ensures VecBit(v, i) == VecBit(pi, 8 * from + i)
  {
    hide HighBit, VecBit;
    var b, j := i / 8, i % 8;
    BitOfByte(v, b, j);
    BitOfByte(pi, from + b, j);
    assert 8 * from + i == 8 * (from + b) + j;
    if b == p / 8 {
      assert HighBit(pi[from + p / 8], j) == HighBit(last, j);
    }
  }

  // ---- Batches

  /** The byte holds size bits of the message, from bit position on, right-aligned. */
  ghost predicate IsBatch(o: bv8, message: Bytes, position: nat, size: nat)
    requires size <= 8 && position + size <= 8 * |message|
  {
    forall j: nat {:trigger HighBit(o, j)} :: j < 8 ==>
      HighBit(o, j) == (j >= 8 - size && VecBit(message, position + j - (8 - size)))
  }

  /** One batch, from one byte or two. */
  method CutBatch(message: Bytes, position: nat, size: nat) returns (o: bv8)
    requires 5 <= size <= 6 && position + size <= 8 * |message|
    ensures IsBatch(o, message, position, size)
  {
    hide HighBit, Shl, Shr, VecBit;
    var factor := 8 - size;
    var initialByte := position / 8;
    var initialBit := position % 8;
    var switch := (initialBit + size - 1) / 8;
    if switch == 1 {
      o := Shr(Shl(message[initialByte], initialBit) | Shr(message[initialByte + 1], 8 - initialBit), factor);
    } else {
      o := Shr(Shl(message[initialByte], initialBit), factor);
    }
    forall j: nat | j < 8
      ensures HighBit(o, j) == (j >= 8 - size && VecBit(message, position + j - (8 - size)))
    {
      BatchBit(o, message, position, size, j);
    }
  }

  lemma {:induction false} BatchBit(o: bv8, message: Bytes, position: nat, size: nat, j: nat)
    requires 5 <= size <= 6 && position + size <= 8 * |message| && j < 8
    requires var (i, b) := (position / 8, position % 8);
             o == if (b + size - 1) / 8 == 1
                  then Shr(Shl(message[i], b) | Shr(message[i + 1], 8 - b), 8 - size)
                  else Shr(Shl(message[i], b), 8 - size)
    ensures HighBit(o, j) == (j >= 8 - size && VecBit(message, position + j - (8 - size)))
  {
    hide HighBit, Shl, Shr;
    var i, b, f := position / 8, position % 8, 8 - size;
    if (b + size - 1) / 8 == 1 {
      ShiftedRight(Shl(message[i], b) | Shr(message[i + 1], 8 - b), f, j);
      if j >= f {
        OrBits(Shl(message[i], b), Shr(message[i + 1], 8 - b), j - f);
        ShiftedLeft(message[i], b, j - f);
        ShiftedRight(message[i + 1], 8 - b, j - f);
      }
    } else {
      ShiftedRight(Shl(message[i], b), f, j);
      if j >= f {
        ShiftedLeft(message[i], b, j - f);
      }
    }
  }

  /** dividing_bits: batch i is bits i * size .. of the message; the last one is read from the end. */
  method DividingBits(message: Bytes, size: nat, w: nat) returns (batches: Bytes)
    requires (size == 5 || size == 6) && w > 0 && w * size == 8 * |message|
    ensures |batches| == w
    ensures forall i: nat {:trigger batches[i]} :: i < w ==>
              i * size + size <= 8 * |message| && IsBatch(batches[i], message, i * size, size)
  {
    hide IsBatch;
    var bits := new bv8[w](_ => 0);
    for i := 0 to w - 1
      invariant forall k: nat {:trigger bits[k]} :: k < i ==>
                  k * size + size <= 8 * |message| && IsBatch(bits[k], message, k * size, size)
    {
      BatchInMessage(i, size, w);
      var o := CutBatch(message, i * size, size);
      bits[i] := o;
    }
    var factor := 8 - size;
    bits[w - 1] := Shr(Shl(message[|message| - 1], factor), factor);
    LastBatch(message, size, w);
    batches := bits[..];
  }

  lemma {:induction false} BatchInMessage(i: nat, size: nat, w: nat)
    requires i < w && (size == 5 || size == 6)
    ensures i * size + size <= w * size
  {
  }

  lemma {:induction false} LastBatch(message: Bytes, size: nat, w: nat)
    requires (size == 5 || size == 6) && w > 0 && w * size == 8 * |message|
    ensures (w - 1) * size + size == 8 * |message|
    ensures IsBatch(Shr(Shl(message[|message| - 1], 8 - size), 8 - size), message, (w - 1) * size, size)
  {
    hide HighBit, Shl, Shr, VecBit;
    var last, position := message[|message| - 1], (w - 1) * size;
    var o := Shr(Shl(last, 8 - size), 8 - size);
    forall j: nat | j < 8
      ensures HighBit(o, j) == (j >= 8 - size && VecBit(message, position + j - (8 - size)))
    {
      LastBatchBit(message, position, size, j);
    }
  }

  lemma {:induction false} LastBatchBit(message: Bytes, position: nat, size: nat, j: nat)
    requires 5 <= size <= 6 && j < 8 && position + size == 8 * |message|
    ensures var last, f := message[|message| - 1], 8 - size;
            HighBit(Shr(Shl(last, f), f), j) == (j >= f && VecBit(message, position + j - f))
  {
    hide HighBit, Shl, Shr;
    var last, f := message[|message| - 1], 8 - size;
    ShiftedRight(Shl(last, f), f, j);
    if j >= f {
      ShiftedLeft(last, f, j - f);
    }
  }

  // ---- Indices

  /** A batch is a number of that many bits. */
  lemma {:induction false} BatchIsSmall(o: bv8, message: Bytes, position: nat, size: nat)
    requires 5 <= size <= 6 && position + size <= 8 * |message| && IsBatch(o, message, position, size)
    ensures (o as nat) < if size == 6 then 64 else 32
  {
    assert !HighBit(o, 0) && !HighBit(o, 1);
    if size == 5 {
      assert !HighBit(o, 2);
    }
    HighBitsZero(o);
  }

  lemma {:induction false} HighBitsZero(o: bv8)
    ensures o & 128 == 0 && o & 64 == 0 ==> o < 64
    ensures o & 128 == 0 && o & 64 == 0 && o & 32 == 0 ==> o < 32
  {
  }

  const U32 := 0x1_0000_0000

  /** computing_w_indices: W_i = i * (n / w) + IV_i + M_i * 2^(r / w), in 32 bits. Index i lies in
      the ith of w equal parts of 0..n, so the indices differ and choose vectors of the table. */
  method ComputeIndices(q: Params, hash: Bytes, message: Bytes) returns (indices: seq<nat>, batches: Bytes)
    requires IsMember(q) && |hash| == q.r / 8 && 8 * |message| == q.s - q.r
    ensures |indices| == |batches| == q.w == |hash|
    ensures forall i: nat {:trigger batches[i]} :: i < q.w ==>
              var size := q.BatchSize();
              size <= 8 && i * size + size <= 8 * |message| && IsBatch(batches[i], message, i * size, size)
    ensures forall i: nat {:trigger indices[i]} :: i < q.w ==>
              && indices[i] == i * q.Span() + hash[i] as nat + 256 * batches[i] as nat
              && i * q.Span() <= indices[i] < (i + 1) * q.Span() <= q.n
  {
    hide IsBatch, Params.Span, Params.Fits;
    MembersAreOk(q, 0);
    var size := (q.s - q.r) / q.w;
    BatchSizeIs(q);
    batches := DividingBits(message, size, q.w);
    assert size == q.BatchSize();
    forall i: nat | i < q.w
      ensures i * size + size <= 8 * |message| && IsBatch(batches[i], message, i * size, size)
    {
      assert batches[i] == batches[i];
    }
    forall i: nat | i < q.w ensures (batches[i] as nat) < if size == 6 then 64 else 32 {
      BatchIsSmall(batches[i], message, i * size, size);
    }
    indices := AddUp(q, hash, batches);
  }

  /** Index i is made of the byte and the batch, and lies in its part. */
  predicate IndexOk(q: Params, i: nat, iv: nat, batch: nat, index: nat) {
    && index == i * q.Span() + iv + 256 * batch
    && i * q.Span() <= index < (i + 1) * q.Span() <= q.n
  }

  /** The loop of computing_w_indices, in 32-bit arithmetic. */
  method AddUp(q: Params, hash: Bytes, batches: Bytes) returns (indices: seq<nat>)
    requires IsMember(q) && |hash| == |batches| == q.w
    requires forall i: nat {:trigger batches[i]} :: i < q.w ==>
               (batches[i] as nat) < if (q.s - q.r) / q.w == 6 then 64 else 32
    ensures |indices| == q.w
    ensures forall i: nat {:trigger indices[i]} :: i < q.w ==>
              IndexOk(q, i, hash[i] as nat, batches[i] as nat, indices[i])
  {
    hide IndexOk, Params.Span;
    indices := [];
    for i := 0 to q.w
      invariant |indices| == i
      invariant forall k: nat {:trigger indices[k]} :: k < i ==>
                  IndexOk(q, k, hash[k] as nat, batches[k] as nat, indices[k])
    {
      var index := ((i * q.n / q.w) % U32 + hash[i] as nat + (batches[i] as nat * 256) % U32) % U32;
      IndexInPart(q, i, hash[i] as nat, batches[i] as nat, index);
      indices := indices + [index];
    }
  }

  lemma {:induction false} BatchSizeIs(q: Params)
    requires IsMember(q)
    ensures var size := (q.s - q.r) / q.w;
            (size == 5 || size == 6) && q.w * size == q.s - q.r && q.w > 0 && q.r / 8 == q.w
    ensures q.Span() == if (q.s - q.r) / q.w == 6 then 16384 else 8192
  {
  }

  lemma {:induction false} IndexInPart(q: Params, i: nat, iv: nat, batch: nat, index: nat)
    requires IsMember(q) && i < q.w && iv < 256
    requires batch < if (q.s - q.r) / q.w == 6 then 64 else 32
    requires index == ((i * q.n / q.w) % U32 + iv + (batch * 256) % U32) % U32
    ensures IndexOk(q, i, iv, batch, index)
  {
    hide Params.Span;
    MembersAreOk(q, 0);
    BatchSizeIs(q);
    var part := i * q.Span();
    PartBegins(i, q.w, q.Span());
    NextPart(i, q.w, q.Span());
    NoWrap(part, iv, batch, q.Span(), q.n, index);
  }

  lemma {:induction false} NextPart(i: nat, w: nat, span: nat)
    requires i < w
    ensures (i + 1) * span == i * span + span <= w * span
  {
    assert w * span == (i + 1) * span + (w - i - 1) * span;
  }

  /** No sum of the three terms wraps. */
  lemma {:induction false} NoWrap(part: nat, iv: nat, batch: nat, span: nat, n: nat, index: nat)
    requires part + span <= n < U32 && iv < 256 && 256 * batch + 256 <= span
    requires index == (part % U32 + iv + (batch * 256) % U32) % U32
    ensures index == part + iv + 256 * batch && part <= index < part + span
  {
  }

  lemma {:induction false} PartBegins(i: nat, w: nat, span: nat)
    requires w > 0
    ensures i * (w * span) / w == i * span
  {
    assert i * (w * span) == (i * span) * w;
    TimesIs(i * span, w);
    DivTimes(i * span, w);
    QuotIs((i * span) * w, w);
  }

  // ---- The compression function

  /** The exclusive or of bit j of all chosen rotated vectors. */
  ghost predicate XorOfBits(pi: Bytes, q: Params, indices: seq<nat>, n: nat, j: nat)
    requires SizesOk(q.p, q.r) && n <= |indices| && j < q.r
    requires forall i: nat {:trigger indices[i]} :: i < |indices| ==> q.Fits(indices[i], |pi|)
    decreases n
  {
    n > 0 && XorOfBits(pi, q, indices, n - 1, j) != ChosenBit(pi, q, indices[n - 1], j)
  }

  /** Bit j of the vector an index chooses, rotated as the index says. */
  predicate ChosenBit(pi: Bytes, q: Params, index: nat, j: nat)
    requires SizesOk(q.p, q.r) && j < q.r && q.Fits(index, |pi|)
  {
    QuotRem(index, q.r);
    var shift := Rem(index, q.r);
    VecBit(pi, 8 * q.VectorStart(index) + if j < shift then j + q.p - shift else j - shift)
  }

  /** The loop of compress: every result bit is the exclusive or of the bits at its place in the
      chosen vectors, each rotated to the right by its own shift. */
  method XorVectors(pi: Bytes, q: Params, indices: seq<nat>) returns (hash: Bytes)
    requires q.Ok()
    requires forall i: nat {:trigger indices[i]} :: i < |indices| ==> q.Fits(indices[i], |pi|)
    ensures 8 * |hash| == q.r && forall j: nat {:trigger VecBit(hash, j)} :: j < q.r ==>
              VecBit(hash, j) == XorOfBits(pi, q, indices, |indices|, j)
  {
    hide VecBit, ChosenBit;
    hash := seq(q.r / 8, _ => 0);
    NoBits(hash);
    for i := 0 to |indices|
      invariant 8 * |hash| == q.r
      invariant forall j: nat {:trigger VecBit(hash, j)} :: j < q.r ==>
                  VecBit(hash, j) == XorOfBits(pi, q, indices, i, j)
    {
      QuotIs(indices[i], q.r);
      QuotRem(indices[i], q.r);
      var chosen := indices[i] / q.r;
      var shift := indices[i] % q.r;
      var vector := DefineIv(pi, q.p, chosen);
      var truncated := ShiftAndTruncate(vector, q.p, q.r, shift);
      var next := seq(|hash|, (k: nat) requires k < |hash| => hash[k] ^ truncated[k]);
      forall j: nat | j < q.r ensures VecBit(next, j) == XorOfBits(pi, q, indices, i + 1, j) {
        XorBit(hash, truncated, next, j);
        assert VecBit(truncated, j) == RotatedBit(vector, q.p, shift, j);
        RotatedIsChosen(pi, q, indices[i], vector, j);
      }
      hash := next;
    }
  }

  lemma {:induction false} NoBits(v: Bytes)
    requires forall i: nat :: i < |v| ==> v[i] == 0
    ensures forall j: nat {:trigger VecBit(v, j)} :: j < 8 * |v| ==> !VecBit(v, j)
  {
  }

  lemma {:induction false} XorBit(a: Bytes, b: Bytes, c: Bytes, j: nat)
    requires |a| == |b| == |c| && j < 8 * |a| && forall k: nat {:trigger c[k]} :: k < |c| ==> c[k] == a[k] ^ b[k]
    ensures VecBit(c, j) == (VecBit(a, j) != VecBit(b, j))
  {
    hide HighBit;
    XorBits(a[j / 8], b[j / 8], j % 8);
  }

  lemma {:induction false} RotatedIsChosen(pi: Bytes, q: Params, index: nat, vector: Bytes, j: nat)
    requires q.Ok() && j < q.r && q.Fits(index, |pi|)
    requires |vector| == q.VectorLength()
    requires forall i: nat {:trigger VecBit(vector, i)} :: i < q.p ==>
               VecBit(vector, i) == VecBit(pi, 8 * q.VectorStart(index) + i)
    ensures Rem(index, q.r) < q.p && RotatedBit(vector, q.p, Rem(index, q.r), j) == ChosenBit(pi, q, index, j)
  {
    hide VecBit;
    QuotRem(index, q.r);
  }

  /** The indices that a hash and a block of the message make. */
  ghost predicate AreIndices(q: Params, hash: Bytes, message: Bytes, indices: seq<nat>)
    requires IsMember(q) && |hash| == q.r / 8 && 8 * |message| == q.s - q.r
  {
    |indices| == q.w && forall i: nat {:trigger indices[i]} :: i < q.w ==> IsIndex(q, hash, message, i, indices[i])
  }

  ghost predicate IsIndex(q: Params, hash: Bytes, message: Bytes, i: nat, index: nat)
    requires IsMember(q) && |hash| == q.r / 8 && 8 * |message| == q.s - q.r && i < q.w
  {
    BatchSizeIs(q);
    BatchInMessage(i, q.BatchSize(), q.w);
    exists batch: bv8 ::
      && IsBatch(batch, message, i * q.BatchSize(), q.BatchSize())
      && index == i * q.Span() + hash[i] as nat + 256 * batch as nat
  }

  /** Is next the exclusive or of the first r bits of the vectors that the indices choose, each
      rotated as its index says? */
  ghost predicate IsXorOf(pi: Bytes, q: Params, indices: seq<nat>, next: Bytes)
    requires SizesOk(q.p, q.r)
    requires forall i: nat {:trigger indices[i]} :: i < |indices| ==> q.Fits(indices[i], |pi|)
  {
    8 * |next| == q.r && forall j: nat {:trigger VecBit(next, j)} :: j < q.r ==>
      VecBit(next, j) == XorOfBits(pi, q, indices, |indices|, j)
  }

  ghost predicate IsCompressed(pi: Bytes, q: Params, hash: Bytes, message: Bytes, next: Bytes)
    requires IsMember(q) && |pi| == PI_LENGTH && |hash| == q.r / 8 && 8 * |message| == q.s - q.r
  {
    MembersAreOk(q, 0);
    exists indices: seq<nat> ::
      AreIndices(q, hash, message, indices) && AllFit(q, indices, |pi|) && IsXorOf(pi, q, indices, next)
  }

  ghost predicate AllFit(q: Params, indices: seq<nat>, total: nat)
    requires q.r > 0
  {
    forall i: nat {:trigger indices[i]} :: i < |indices| ==> q.Fits(indices[i], total)
  }

  /** compress: the indices come from the old hash and the message, and choose the vectors whose
      exclusive or is the new hash. */
  method Compress(pi: Bytes, q: Params, hash: Bytes, message: Bytes) returns (next: Bytes)
    requires IsMember(q) && |pi| == PI_LENGTH && |hash| == q.r / 8 && 8 * |message| == q.s - q.r
    ensures IsCompressed(pi, q, hash, message, next)
  {
    hide VecBit, IsBatch, XorOfBits, Params.Fits;
    MembersAreOk(q, 0);
    var indices, batches := ComputeIndices(q, hash, message);
    forall i: nat | i < q.w ensures IsIndex(q, hash, message, i, indices[i]) && q.Fits(indices[i], |pi|) {
      BatchSizeIs(q);
      assert IsBatch(batches[i], message, i * q.BatchSize(), q.BatchSize());
      MembersAreOk(q, indices[i]);
    }
    next := XorVectors(pi, q, indices);
    assert AreIndices(q, hash, message, indices) && AllFit(q, indices, |pi|) && IsXorOf(pi, q, indices, next);
  }

  /** There is only one result for each hash and message. */
  lemma {:induction false} CompressIsUnique(pi: Bytes, q: Params, hash: Bytes, message: Bytes, a: Bytes, b: Bytes)
    requires IsMember(q) && |pi| == PI_LENGTH && |hash| == q.r / 8 && 8 * |message| == q.s - q.r
    requires IsCompressed(pi, q, hash, message, a) && IsCompressed(pi, q, hash, message, b)
    ensures a == b
  {
    hide VecBit, XorOfBits, Params.Fits, AreIndices;
    MembersAreOk(q, 0);
    var v: seq<nat> :| AreIndices(q, hash, message, v) && AllFit(q, v, |pi|) && IsXorOf(pi, q, v, a);
    var w: seq<nat> :| AreIndices(q, hash, message, w) && AllFit(q, w, |pi|) && IsXorOf(pi, q, w, b);
    IndicesAreUnique(q, hash, message, v, w);
    forall j: nat | j < q.r ensures VecBit(a, j) == VecBit(b, j) {
    }
    SameBitsSameBytes(a, b);
  }

  lemma {:induction false} IndicesAreUnique(q: Params, hash: Bytes, message: Bytes, v: seq<nat>, w: seq<nat>)
    requires IsMember(q) && |hash| == q.r / 8 && 8 * |message| == q.s - q.r
    requires AreIndices(q, hash, message, v) && AreIndices(q, hash, message, w)
    ensures v == w
  {
    hide IsBatch, IsIndex;
    forall i: nat | i < q.w ensures v[i] == w[i] {
      IndexIsUnique(q, hash, message, i, v[i], w[i]);
    }
  }

  lemma {:induction false} IndexIsUnique(q: Params, hash: Bytes, message: Bytes, i: nat, x: nat, y: nat)
    requires IsMember(q) && |hash| == q.r / 8 && 8 * |message| == q.s - q.r && i < q.w
    requires IsIndex(q, hash, message, i, x) && IsIndex(q, hash, message, i, y)
    ensures x == y
  {
    hide IsBatch;
    BatchSizeIs(q);
    BatchInMessage(i, q.BatchSize(), q.w);
    var a: bv8 :| IsBatch(a, message, i * q.BatchSize(), q.BatchSize())
      && x == i * q.Span() + hash[i] as nat + 256 * a as nat;
    var b: bv8 :| IsBatch(b, message, i * q.BatchSize(), q.BatchSize())
      && y == i * q.Span() + hash[i] as nat + 256 * b as nat;
    BatchIsUnique(a, b, message, i * q.BatchSize(), q.BatchSize());
  }

  lemma {:induction false} BatchIsUnique(a: bv8, b: bv8, message: Bytes, position: nat, size: nat)
    requires size <= 8 && position + size <= 8 * |message| && IsBatch(a, message, position, size)
               && IsBatch(b, message, position, size)
    ensures a == b
  {
    hide HighBit, VecBit;
    forall j: nat | j < 8 ensures HighBit(a, j) == HighBit(b, j) {
    }
    SameBitsSameByte(a, b);
  }

  lemma {:induction false} SameBitsSameByte(a: bv8, b: bv8)
    requires forall j: nat {:trigger HighBit(a, j)} :: j < 8 ==> HighBit(a, j) == HighBit(b, j)
    ensures a == b
  {
    assert HighBit(a, 0) == HighBit(b, 0) && HighBit(a, 1) == HighBit(b, 1) && HighBit(a, 2) == HighBit(b, 2)
             && HighBit(a, 3) == HighBit(b, 3);
    assert HighBit(a, 4) == HighBit(b, 4) && HighBit(a, 5) == HighBit(b, 5) && HighBit(a, 6) == HighBit(b, 6)
             && HighBit(a, 7) == HighBit(b, 7);
  }

  lemma {:induction false} SameBitsSameBytes(a: Bytes, b: Bytes)
    requires |a| == |b| && forall j: nat {:trigger VecBit(a, j)} :: j < 8 * |a| ==> VecBit(a, j) == VecBit(b, j)
    ensures a == b
  {
    hide HighBit;
    forall i: nat | i < |a| ensures a[i] == b[i] {
      forall j: nat | j < 8 ensures HighBit(a[i], j) == HighBit(b[i], j) {
        assert VecBit(a, 8 * i + j) == VecBit(b, 8 * i + j);
      }
      SameBitsSameByte(a[i], b[i]);
    }
  }
}
