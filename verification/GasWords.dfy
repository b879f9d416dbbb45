/** The instruction words that charge gas: how meter.c and the postlink tool build them, and what
    the processor subtracts from x23 when it executes them. */
module GasWords {
  import opened PowersOfTwo
  import opened Words

  /** 0b110100010 << 23, and the two register fields (23 << 5) and 23 */
  const OP_SUB := 0xd100_0000
  const RN_X23 := 736
  const RD_X23 := 23

  /** ceilimm(imm, 4096): (imm + 4095) & ~4095 in 32 bits */
  function CeilImm(imm: nat): (r: nat) {
    var sum := (imm % U32 + 4095) % U32;
    sum - sum % 4096
  }

  function SubWord(op: nat, imm: nat): nat {
    Or(Or(Or(op, imm * 1024), RN_X23), RD_X23) % U32
  }

  /** subx23: the word that is meant to subtract imm from x23. */
  function SubX23(imm: nat): (word: nat) {
    if imm < 4096 then SubWord(OP_SUB, imm)
    else
      var rounded := if imm % 4096 != 0 then CeilImm(imm) else imm;
      SubWord(Or(OP_SUB, 0x40_0000), rounded / 4096)
  }

  /** The word is SUB x23, x23, #imm12 with an optional shift by twelve, as in section C6.2 of the
      Arm Architecture Reference Manual. */
  predicate IsSub(word: nat) {
    word / 0x80_0000 == 0x1a2 && word % 1024 == RN_X23 + RD_X23
  }

  /** What executing the word takes from x23. */
  function Charge(word: nat): (gas: nat)
    ensures gas <= 4095 * 4096
  {
    if !IsSub(word) then 0
    else (word / 1024 % 4096) * if word / 0x40_0000 % 2 == 1 then 4096 else 1
  }

  lemma {:induction false} Powers()
    ensures Pow2(5) == 32 && Pow2(10) == 1024 && Pow2(22) == 0x40_0000 && Pow2(23) == 0x80_0000
  {
    SmallPowers();
    Pow2Add(8, 8);
    Pow2Add(16, 6);
    Pow2Add(8, 2);
  }

  /** The fields of the word do not overlap as long as the immediate fits twelve bits. */
  lemma {:induction false} SubWordFields(op: nat, imm: nat)
    requires op == OP_SUB || op == OP_SUB + 0x40_0000
    requires imm < 4096
    ensures SubWord(op, imm) == op + imm * 1024 + RN_X23 + RD_X23
  {
    hide Or;
    Powers();
    OrDisjoint(op / 0x40_0000, imm * 1024, 22);
    var fields := op / 1024 + imm;
    OrDisjoint(fields, RN_X23, 10);
    OrDisjoint(fields * 32 + 23, RD_X23, 5);
  }

  lemma {:induction false} ShiftFlag()
    ensures Or(OP_SUB, 0x40_0000) == OP_SUB + 0x40_0000
  {
    hide Or;
    Powers();
    OrDisjoint(418, 0x40_0000, 23);
  }

  /** The charge covers what it is meant to cover exactly up to 4095 * 4096. */
  lemma {:induction false} ChargeCovers(imm: nat)
    ensures IsSub(SubX23(imm)) && Charge(SubX23(imm)) >= imm <==> imm <= 4095 * 4096
  {
    hide Or, SubX23, IsSub, Charge;
    if imm < 4096 {
      ChargeExact(imm);
    } else if imm <= 4095 * 4096 {
      ChargeRounded(imm);
    }
  }

  /** A larger charge is rounded up to a multiple of 4096. */
  lemma {:induction false} ChargeRounded(imm: nat)
    requires 4096 <= imm <= 4095 * 4096
    ensures IsSub(SubX23(imm)) && imm <= Charge(SubX23(imm)) < imm + 4096
  {
    hide Or, SubWord, CeilImm;
    var rounded := if imm % 4096 != 0 then CeilImm(imm) else imm;
    RoundedUp(imm);
    ShiftFlag();
    SubWordFields(OP_SUB + 0x40_0000, rounded / 4096);
    ShiftedFields(rounded / 4096);
  }

  lemma {:induction false} ShiftedFields(units: nat)
    requires units <= 4095
    ensures var word := OP_SUB + 0x40_0000 + units * 1024 + RN_X23 + RD_X23; IsSub(word) && Charge(word) == units * 4096
  {
  }

  lemma {:induction false} RoundedUp(imm: nat)
    requires imm <= 4095 * 4096
    ensures var r := if imm % 4096 != 0 then CeilImm(imm) else imm;
            r % 4096 == 0 && imm <= r < imm + 4096 && r / 4096 <= 4095
  {
  }

  /** Small charges are exact. */
  lemma {:induction false} ChargeExact(imm: nat)
    requires imm < 4096
    ensures IsSub(SubX23(imm)) && Charge(SubX23(imm)) == imm
  {
    hide Or;
    SubWordFields(OP_SUB, imm);
  }

  lemma {:induction false} OrOdd(a: nat)
    requires a % 2 == 1
    ensures Or(a, 1) == a
  {
    OrZero(a / 2);
  }

  /** One more unit of 4096 runs into the shift flag: the word then charges nothing at all. */
  lemma {:induction false} ChargeLost(imm: nat)
    requires imm == 4096 * 4096
    ensures IsSub(SubX23(imm)) && Charge(SubX23(imm)) == 0
  {
    hide Or;
    Powers();
    ShiftFlag();
    OrShifted(837, 1, 22);
    OrOdd(837);
    SubWordFields(OP_SUB + 0x40_0000, 0);
    OrDisjoint(837, 0, 22);
  }
}
