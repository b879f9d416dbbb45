/** Products of two unknowns, as repeated addition: the few laws the proofs about sizes need. */
module Products {
  import opened PowersOfTwo

  /** x * y; for the last argument see LAZY. */
  function Times(x: nat, y: nat, lazy: nat := LAZY): (p: nat) {
    if x == 0 then 0 else Times(x - 1, y, lazy) + y
  }

  lemma {:induction false} TimesIs(x: nat, y: nat)
    ensures Times(x, y) == x * y
  {
    if x > 0 {
      TimesIs(x - 1, y);
    }
  }

  lemma {:induction false} TimesAdd(x: nat, y: nat, z: nat)
    ensures Times(x + y, z) == Times(x, z) + Times(y, z)
  {
    if y > 0 {
      TimesAdd(x, y - 1, z);
    }
  }

  lemma {:induction false} TimesMono(x: nat, y: nat, z: nat)
    requires x <= y
    ensures Times(x, z) <= Times(y, z)
  {
    TimesAdd(x, y - x, z);
  }

  lemma {:induction false} TimesOrder(x: nat, y: nat, z: nat)
    requires z >= 1
    ensures Times(x, z) <= Times(y, z) <==> x <= y
    ensures Times(x, z) == Times(y, z) <==> x == y
  {
    if x < y {
      TimesMono(x + 1, y, z);
    } else if y < x {
      TimesMono(y + 1, x, z);
    }
  }

  lemma {:induction false} TimesComm(x: nat, y: nat)
    ensures Times(x, y) == Times(y, x)
  {
    TimesIs(x, y);
    TimesIs(y, x);
  }

  lemma {:induction false} TimesAssoc(x: nat, y: nat, z: nat)
    ensures Times(x, Times(y, z)) == Times(Times(x, y), z)
  {
    if x > 0 {
      TimesAssoc(x - 1, y, z);
      TimesAdd(Times(x - 1, y), y, z);
    }
  }

  lemma {:induction false} TimesTwice(x: nat, y: nat)
    ensures Times(2 * x, y) == Times(x, 2 * y)
    ensures Times(2 * x + 1, y) == Times(x, 2 * y) + y
  {
    if x > 0 {
      TimesTwice(x - 1, y);
    }
  }

  /** x / d and x % d */
  function Quot(x: nat, d: nat, lazy: nat := LAZY): (q: nat)
    requires d >= 1
  {
    if x < d then 0 else 1 + Quot(x - d, d, lazy)
  }

  function Rem(x: nat, d: nat, lazy: nat := LAZY): (r: nat)
    requires d >= 1
  {
    if x < d then x else Rem(x - d, d, lazy)
  }

  lemma {:induction false} QuotRem(x: nat, d: nat)
    requires d >= 1
    ensures Times(Quot(x, d), d) + Rem(x, d) == x && Rem(x, d) < d
  {
    if x >= d {
      QuotRem(x - d, d);
    }
  }

  lemma {:induction false} DivTimes(k: nat, d: nat)
    requires d >= 1
    ensures Quot(Times(k, d), d) == k && Rem(Times(k, d), d) == 0
  {
    var q := Quot(Times(k, d), d);
    QuotRem(Times(k, d), d);
    if q < k {
      TimesMono(q + 1, k, d);
    } else if k < q {
      TimesMono(k + 1, q, d);
    }
  }

  /** The functions are the program's operators. */
  lemma {:induction false} QuotIs(x: nat, d: nat)
    requires d >= 1
    ensures x / d == Quot(x, d) && x % d == Rem(x, d)
  {
    QuotRem(x, d);
    TimesIs(Quot(x, d), d);
    EuclidUnique(x, d, Quot(x, d), Rem(x, d), x / d, x % d);
  }

  lemma {:induction false} EuclidUnique(x: nat, d: nat, q: int, r: int, p: int, s: int)
    requires d >= 1 && q >= 0 && p >= 0
    requires x == q * d + r && 0 <= r < d && x == p * d + s && 0 <= s < d
    ensures q == p && r == s
  {
    TimesIs(q, d);
    TimesIs(p, d);
    if q < p {
      TimesMono(q + 1, p, d);
    } else if p < q {
      TimesMono(p + 1, q, d);
    }
  }
}
