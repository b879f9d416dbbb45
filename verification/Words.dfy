/** 32-bit instruction words as numbers: the OR of the C expressions, bit by bit. */
module Words {
  import opened PowersOfTwo

  const U32 := 0x1_0000_0000

  /** a | b */
  function Or(a: nat, b: nat, lazy: nat := LAZY): (r: nat)
    decreases a
  {
    if a == 0 then b
    else 2 * Or(a / 2, b / 2, lazy) + if a % 2 == 1 || b % 2 == 1 then 1 else 0
  }

  /** Where the bits do not meet, OR is addition. */
  lemma {:induction false} OrDisjoint(a: nat, b: nat, k: nat)
    requires b < Pow2(k)
    ensures Or(a * Pow2(k), b) == a * Pow2(k) + b
  {
    if k == 0 {
      OrZero(a);
    } else {
      assert a * Pow2(k) == 2 * (a * Pow2(k - 1));
      OrDisjoint(a, b / 2, k - 1);
    }
  }

  lemma {:induction false} OrZero(a: nat)
    ensures Or(a, 0) == a
  {
    if a > 0 {
      OrZero(a / 2);
    }
  }

  /** OR works bit by bit, so a common shift can be taken out. */
  lemma {:induction false} OrShifted(a: nat, b: nat, k: nat)
    ensures Or(a * Pow2(k), b * Pow2(k)) == Or(a, b) * Pow2(k)
  {
    if k > 0 {
      assert a * Pow2(k) == 2 * (a * Pow2(k - 1));
      assert b * Pow2(k) == 2 * (b * Pow2(k - 1));
      assert Or(a, b) * Pow2(k) == 2 * (Or(a, b) * Pow2(k - 1));
      OrShifted(a, b, k - 1);
    }
  }

  /** a & b */
  function BitAnd(a: nat, b: nat, lazy: nat := LAZY): (r: nat)
    decreases a
  {
    if a == 0 then 0
    else 2 * BitAnd(a / 2, b / 2, lazy) + if a % 2 == 1 && b % 2 == 1 then 1 else 0
  }

  lemma {:induction false} AndZero(a: nat)
    ensures BitAnd(a, 0) == 0
  {
    if a > 0 {
      AndZero(a / 2);
    }
  }

  /** All of the lower k bits. */
  lemma {:induction false} AndOnes(a: nat, k: nat)
    requires a < Pow2(k)
    ensures BitAnd(a, Pow2(k) - 1) == a
  {
    if a > 0 {
      assert (Pow2(k) - 1) / 2 == Pow2(k - 1) - 1;
      AndOnes(a / 2, k - 1);
    }
  }

  /** A mask of zeros at the lower end clears what is there. */
  lemma {:induction false} AndShifted(a: nat, b: nat)
    ensures BitAnd(a, 32 * b) == 32 * BitAnd(a / 32, b)
  {
    hide BitAnd;
    AndTwice(a, 16 * b);
    AndTwice(a / 2, 8 * b);
    AndTwice(a / 4, 4 * b);
    AndTwice(a / 8, 2 * b);
    AndTwice(a / 16, b);
  }

  lemma {:induction false} AndTwice(a: nat, b: nat)
    ensures BitAnd(a, 2 * b) == 2 * BitAnd(a / 2, b)
  {
  }
}
