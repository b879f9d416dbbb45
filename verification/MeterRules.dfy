/** The rule of meter.c for whole code, in terms of mnemonics and operands: which instructions have to be
    charges, and of what. */
module MeterRules {
  import opened GasWords
  import opened Numbers
  import opened Metering

  /** A branch; calls of the runtime do not count. */
  predicate EndsSegment(c: Code, i: nat)
    requires i < |c.words|
  {
    var inst := c.decode(c.words[i]);
    match inst.mnem
    case B | Bl | BCond | Cbz | Cbnz | Tbz | Tbnz | Br | Ret => true
    case Blr => inst.ops[0].reg != (if c.poc then 25 else 21)
    case OtherMnem => false
  }

  /** One of the operands that count is x23; the bitmask of the operands written counts as a number. */
  predicate TouchesGas(c: Code, i: nat)
    requires i < |c.words|
  {
    var inst := c.decode(c.words[i]);
    exists k: nat :: k < inst.mask && inst.ops[k].reg == 23 && inst.ops[k].kind in {RegGp, RegGpInc, RegGpExt, RegSp}
  }

  /** It touches the gas, but not right in front of a branch. */
  predicate Alone(c: Code, i: nat)
    requires i < |c.words|
  {
    TouchesGas(c, i) && (i + 1 < |c.words| ==> !EndsSegment(c, i + 1))
  }

  /** b is the last instruction before i that is a branch or touches the gas alone; -1 if there is none. */
  ghost predicate LastBefore(c: Code, i: nat, b: int)
    requires i < |c.words|
  {
    && -1 <= b < i
    && (b >= 0 ==> EndsSegment(c, b) || Alone(c, b))
    && forall k: nat :: b < k < i ==> !EndsSegment(c, k) && !Alone(c, k)
  }

  /** Instruction i, of a segment that begins behind b: a branch stands at the end of its bundle, behind a
      charge for all instructions from there to itself. What touches the gas alone is such a charge for the
      instructions from there to itself; no branch does. */
  predicate Charged(c: Code, i: nat, b: int)
    requires i < |c.words| && -1 <= b < i && c.bundle > 0
  {
    && (EndsSegment(c, i) ==> i > 0 && c.words[i - 1] == SubX23(i - b) && (i + 1) % c.bundle == 0)
    && (Alone(c, i) ==> c.words[i] == SubX23(if EndsSegment(c, i) then 0 else i - b))
  }

  lemma {:induction false} SameBranch(c: Code, i: nat)
    requires i < |c.words|
    ensures EndsSegment(c, i) <==> c.Branch(i)
  {
  }

  lemma {:induction false} SameUpdate(c: Code, i: nat)
    requires i < |c.words|
    ensures TouchesGas(c, i) <==> c.Update(i)
  {
    var inst := c.decode(c.words[i]);
    forall k: nat | k < inst.mask
      ensures GasMod(inst.ops[k]) <==>
                inst.ops[k].reg == 23 && inst.ops[k].kind in {RegGp, RegGpInc, RegGpExt, RegSp}
    {
    }
  }

  lemma {:induction false} SameAlone(c: Code, i: nat)
    requires i < |c.words|
    ensures Alone(c, i) <==> c.Standalone(i)
  {
    hide TouchesGas, EndsSegment, GasUpdate, IsBranch;
    SameUpdate(c, i);
    if i + 1 < |c.words| {
      SameBranch(c, i + 1);
    }
  }

  lemma {:induction false} BoundaryIsLast(c: Code, i: nat, b: int)
    requires i < |c.words|
    ensures LastBefore(c, i, b) <==> b == Boundary(c, i)
  {
    hide TouchesGas, EndsSegment, Alone, Code.Branch, Code.Standalone;
    if i > 0 {
      SameBranch(c, i - 1);
      SameAlone(c, i - 1);
      BoundaryIsLast(c, i - 1, b);
    }
  }

  /** Code is accepted exactly if every instruction is charged for so. */
  lemma {:induction false} AcceptsIffCharged(c: Code)
    requires c.Ok()
    ensures Accepts(c) <==>
              forall i: nat, b: int {:trigger Charged(c, i, b)} ::
                i < |c.words| && LastBefore(c, i, b) ==> Charged(c, i, b)
  {
    hide LastBefore, TouchesGas, EndsSegment, Alone, Code.Branch, Code.Standalone, SubX23;
    forall i: nat | i < |c.words| ensures InsnOk(c, i) <==> Charged(c, i, Boundary(c, i)) {
      SameBranch(c, i);
      SameAlone(c, i);
      LastOfBundle(i, c.bundle);
    }
    forall i: nat, b: int | i < |c.words| ensures LastBefore(c, i, b) <==> b == Boundary(c, i) {
      BoundaryIsLast(c, i, b);
    }
  }

  lemma {:induction false} LastOfBundle(i: nat, bundle: nat)
    requires bundle == 2 || bundle == 4
    ensures (i + 1) % bundle == 0 <==> i % bundle == bundle - 1
  {
    if bundle == 2 {
      assert i % 2 == 1 <==> (i + 1) % 2 == 0;
    } else {
      assert i % 4 == 3 <==> (i + 1) % 4 == 0;
    }
  }
}
