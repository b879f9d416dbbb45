/** Powers of two, and the two bit-scanning helpers at the bottom of buddy.h. */
module PowersOfTwo {

  /** A number nothing is known about. The recursive functions of arithmetic pass it along, and
      no caller ever gives it: it keeps the verifier from evaluating them on constants, which it
      would do without end where an argument is only partly known. */
  const LAZY: nat

  /** 2^n */
  function Pow2(n: nat, lazy: nat := LAZY): (p: nat)
    ensures p >= 1
  {
    if n == 0 then 1 else 2 * Pow2(n - 1, lazy)
  }

  lemma {:induction false} SmallPowers()
    ensures Pow2(0) == 1 && Pow2(1) == 2 && Pow2(2) == 4 && Pow2(3) == 8
    ensures Pow2(4) == 16 && Pow2(5) == 32 && Pow2(6) == 64 && Pow2(7) == 128 && Pow2(8) == 256
  {
    assert Pow2(3) == 2 * Pow2(2) == 4 * Pow2(1);
    assert Pow2(6) == 2 * Pow2(5) == 4 * Pow2(4) == 8 * Pow2(3);
    assert Pow2(8) == 2 * Pow2(7);
  }

  lemma {:induction false} Pow2Add(a: nat, b: nat)
    ensures Pow2(a + b) == Pow2(a) * Pow2(b)
  {
    if a > 0 {
      Pow2Add(a - 1, b);
      assert Pow2(a) * Pow2(b) == 2 * (Pow2(a - 1) * Pow2(b));
    }
  }

  lemma {:induction false} Pow2Mono(a: nat, b: nat)
    requires a <= b
    ensures Pow2(a) <= Pow2(b)
    decreases b
  {
    if a < b {
      Pow2Mono(a, b - 1);
    }
  }

  lemma {:induction false} Pow2StrictMono(a: nat, b: nat)
    requires a < b
    ensures 2 * Pow2(a) <= Pow2(b)
  {
    Pow2Mono(a + 1, b);
  }

  /** The least power of two that is at least v, and at least one. */
  function CeilPow2(v: nat, lazy: nat := LAZY): (p: nat)
    ensures v <= p && 1 <= p
    ensures v >= 1 ==> p < 2 * v
  {
    if v <= 1 then 1 else 2 * CeilPow2((v + 1) / 2, lazy)
  }

  lemma {:induction false} CeilPow2Is(v: nat, e: nat)
    requires v >= 1 && v <= Pow2(e) < 2 * v
    ensures CeilPow2(v) == Pow2(e)
  {
    if v > 1 {
      CeilPow2Is((v + 1) / 2, e - 1);
    }
  }

  /** Every value of CeilPow2 is a power of two: this names its exponent. */
  function CeilLog2(v: nat, lazy: nat := LAZY): (e: nat)
    ensures CeilPow2(v) == Pow2(e)
  {
    if v <= 1 then 0 else 1 + CeilLog2((v + 1) / 2, lazy)
  }

  lemma {:induction false} CeilPow2Scale(v: nat, k: nat)
    requires v >= 1
    ensures CeilPow2(v * Pow2(k)) == CeilPow2(v) * Pow2(k)
  {
    var e := CeilLog2(v);
    Pow2Add(e, k);
    ScaleBounds(v, Pow2(e), Pow2(k));
    CeilPow2Is(v * Pow2(k), e + k);
  }

  lemma {:induction false} ScaleBounds(v: nat, p: nat, q: nat)
    requires 1 <= v <= p < 2 * v && q >= 1
    ensures 1 <= v * q <= p * q < 2 * (v * q)
  {
    assert v * q >= 1 * q;
    assert p * q <= (2 * v - 1) * q == 2 * (v * q) - q;
  }

  const U64 := 0x1_0000_0000_0000_0000

  /** The position, counted from one, of the highest set bit of v; zero for zero. */
  function HighestBit(v: nat, lazy: nat := LAZY): (r: nat) {
    if v == 0 then 0 else 1 + HighestBit(v / 2, lazy)
  }

  lemma {:induction false} HighestBitBrackets(v: nat)
    requires v > 0
    ensures HighestBit(v) >= 1 && Pow2(HighestBit(v) - 1) <= v < Pow2(HighestBit(v))
  {
    if v > 1 {
      HighestBitBrackets(v / 2);
    }
  }

  lemma {:induction false} HighestBitBelow(v: nat, e: nat)
    requires v < Pow2(e)
    ensures HighestBit(v) <= e
  {
    if v > 0 {
      HighestBitBelow(v / 2, e - 1);
    }
  }

  const ALL_SET: seq<nat> := [4294967295, 65535, 255, 15, 7, 3, 1]
  const COUNT: seq<nat> := [32, 16, 8, 4, 2, 1, 1]

  /** What is left of a 64-bit value before each of the seven rounds, and after the last one. */
  ghost const ROUND_BOUND: seq<nat> := [U64 - 1, 4294967295, 65535, 255, 15, 6, 3, 1]

  lemma {:induction false} RoundConstants(i: nat)
    requires i < 7
    ensures Pow2(COUNT[i]) - 1 <= ALL_SET[i]
    ensures ROUND_BOUND[i] < (ROUND_BOUND[i + 1] + 1) * Pow2(COUNT[i])
    ensures ALL_SET[i] - 1 <= ROUND_BOUND[i + 1]
  {
    SmallPowers();
    Pow2Add(8, 8);
    Pow2Add(16, 16);
    assert Pow2(16) == 65536 && Pow2(32) == 4294967296;
  }

  /** v >> c */
  function Shr(v: nat, c: nat, lazy: nat := LAZY): (r: nat) {
    if c == 0 then v else Shr(v / 2, c - 1, lazy)
  }

  lemma {:induction false} ShrBelow(v: nat, c: nat, b: nat)
    requires v < b * Pow2(c)
    ensures Shr(v, c) < b
  {
    if c > 0 {
      assert b * Pow2(c) == 2 * (b * Pow2(c - 1));
      ShrBelow(v / 2, c - 1, b);
    }
  }

  lemma {:induction false} ShrExact(q: nat, c: nat)
    ensures Shr(q * Pow2(c), c) == q
  {
    if c > 0 {
      assert q * Pow2(c) == 2 * (q * Pow2(c - 1));
      ShrExact(q, c - 1);
    }
  }

  /** One round of the scan: shifting c bits out of value moves the highest bit down by c. */
  lemma {:induction false} ShiftMovesHighestBit(value: nat, c: nat)
    requires Pow2(c) - 1 <= value
    ensures HighestBit(value) == c + HighestBit(Shr(value, c))
  {
    if c > 0 {
      ShiftMovesHighestBit(value / 2, c - 1);
    }
  }

  method HighestBitPosition(v: nat) returns (result: nat)
    requires v < U64
    ensures result == HighestBit(v)
  {
    result := 0;
    var value := v;
    for i := 0 to 7
      invariant 0 <= value <= ROUND_BOUND[i]
      invariant HighestBit(v) == result + HighestBit(value)
    {
      RoundConstants(i);
      if value >= ALL_SET[i] {
        ShiftMovesHighestBit(value, COUNT[i]);
        ShrBelow(value, COUNT[i], ROUND_BOUND[i + 1] + 1);
        value := Shr(value, COUNT[i]);
        result := result + COUNT[i];
      }
    }
    result := result + value;
  }

  lemma {:induction false} MulSucc(x: nat, k: nat)
    requires k >= 1
    ensures x * k == x * (k - 1) + x
  {
  }

  lemma {:induction false} Pow2Sixty4()
    ensures Pow2(64) == U64 && Pow2(63) == U64 / 2
  {
    SmallPowers();
    Pow2Add(8, 8);
    Pow2Add(16, 16);
    Pow2Add(32, 32);
  }

  /** The C helper: 64-bit arithmetic, so the doubling may wrap around. It is the least power
      of two that is at least v exactly when v does not exceed 2^63. */
  method CeilingPowerOfTwo(v: nat) returns (p: nat)
    requires v < U64
    ensures p == CeilPow2(v) <==> v <= U64 / 2
    ensures p <= U64 / 2
  {
    var value := v;
    if value == 0 {
      value := 1;
    }
    var r := HighestBitPosition((value + value - 1) % U64);
    p := Pow2(r - 1);
    Pow2Sixty4();
    HighestBitBelow((value + value - 1) % U64, 64);
    if v <= U64 / 2 {
      HighestBitBrackets(value + value - 1);
      CeilPow2Is(value, r - 1);
    }
    Pow2Mono(r - 1, 63);
  }
}
