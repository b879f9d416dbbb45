/** Gas metering of arm64 code: the checker of meter.c, and what its verdict means for every run.

    The decoder is a function from words to instructions. A branch must be preceded by a charge for
    its whole segment; targets of branches are bundle-aligned, and a bundle is longer than one
    instruction, so no jump can reach a branch without executing the charge. */
module Metering {
  import opened GasWords
  import opened Numbers

  const INSN_SIZE := 4
  const REG_BASE := 21
  const REG_GAS := 23
  const REG_SYS := 25

  /** Memory operands that also change their base register are those with write-back. */
  datatype OpType = RegGp | RegGpInc | RegGpExt | RegSp | MemWriteBack | OtherOp
  datatype Op = Op(kind: OpType, reg: nat)
  datatype Mnem = Blr | Br | Ret | BCond | B | Bl | Cbz | Cbnz | Tbz | Tbnz | OtherMnem

  /** What the decoder says about a word; mask is the result of nmod, a bitmask over the operands
      the instruction writes. */
  datatype Decoded = Decoded(mnem: Mnem, mask: nat, ops: seq<Op>, imm64: int)
  type Inst = i: Decoded | i.mask <= 3 && |i.ops| >= 3
    witness Decoded(OtherMnem, 0, [Op(OtherOp, 0), Op(OtherOp, 0), Op(OtherOp, 0)], 0)
  type Decoder = nat -> Inst

  // ---- Classification

  predicate RtSysReg(poc: bool, reg: nat) { reg == if poc then REG_SYS else REG_BASE }

  datatype BranchInfo = NoBranch | Indirect | Direct(target: int)

  /** branchinfo, for an instruction at this address; runtime calls do not count as branches. */
  function BranchOf(poc: bool, inst: Inst, addr: int): BranchInfo
  {
    if inst.mnem.Blr? && RtSysReg(poc, inst.ops[0].reg) then NoBranch
    else match inst.mnem
      case Blr | Br | Ret => Indirect
      case BCond | B | Bl | Cbz | Cbnz | Tbz | Tbnz => Direct(addr + inst.imm64)
      case OtherMnem => NoBranch
  }

  predicate IsBranch(poc: bool, inst: Inst)
  {
    !BranchOf(poc, inst, 0).NoBranch?
  }

  /** gasmod */
  predicate GasMod(op: Op) { !op.kind.OtherOp? && !op.kind.MemWriteBack? && op.reg == REG_GAS }

  /** What the checker does not look for: a memory operand that changes the gas register. */
  predicate WritesBack(inst: Inst)
  {
    exists i: nat :: i < |inst.ops| && inst.ops[i].kind.MemWriteBack? && inst.ops[i].reg == REG_GAS
  }

  /** gasupdate takes the bitmask for a count of operands. */
  predicate GasUpdate(inst: Inst)
  {
    exists i: nat :: i < inst.mask && GasMod(inst.ops[i])
  }

  /** Operand i is among those the mask names. */
  predicate Writes(mask: nat, i: nat) { (i == 0 && mask % 2 == 1) || (i == 1 && mask / 2 % 2 == 1) }

  /** The instruction writes x23 as one of its register operands. */
  predicate WritesGas(inst: Inst) {
    exists i: nat :: i < |inst.ops| && Writes(inst.mask, i) && inst.ops[i].reg == 23
                     && inst.ops[i].kind in {RegGp, RegGpInc, RegGpExt, RegSp}
  }

  /** No write to the gas register slips through, whatever the mask. */
  lemma {:induction false} UpdateCoversMask(inst: Inst)
    requires WritesGas(inst)
    ensures GasUpdate(inst)
  {
    var i: nat :| i < |inst.ops| && Writes(inst.mask, i) && inst.ops[i].reg == 23
                  && inst.ops[i].kind in {RegGp, RegGpInc, RegGpExt, RegSp};
    assert i < inst.mask && GasMod(inst.ops[i]);
  }

  method HasGasUpdate(inst: Inst) returns (update: bool)
    ensures update <==> GasUpdate(inst)
  {
    for i := 0 to inst.mask
      invariant forall k: nat :: k < i ==> !GasMod(inst.ops[k])
    {
      if GasMod(inst.ops[i]) {
        return true;
      }
    }
    return false;
  }

  // ---- What the checker accepts

  /** The program: its words, how they decode, where they lie, and the bundle size in instructions. */
  datatype Code = Code(decode: Decoder, poc: bool, words: seq<nat>, base: nat, bundle: nat) {
    ghost predicate Ok() { (bundle == 2 || bundle == 4) && base % (bundle * INSN_SIZE) == 0 }
    predicate Branch(i: nat) requires i < |words| { IsBranch(poc, decode(words[i])) }
    predicate Update(i: nat) requires i < |words| { GasUpdate(decode(words[i])) }
    /** An update that is not the charge of a branch: it must charge for itself. */
    predicate Standalone(i: nat) requires i < |words| { Update(i) && !(i + 1 < |words| && Branch(i + 1)) }
    predicate BranchAt(i: int) { 0 <= i < |words| && Branch(i) }
  }

  /** The last branch or standalone update before instruction i, or -1. */
  function Boundary(c: Code, i: nat): (b: int)
    requires i <= |c.words|
    ensures -1 <= b < i
  {
    if i == 0 then -1 else if c.Branch(i - 1) || c.Standalone(i - 1) then i - 1 else Boundary(c, i - 1)
  }

  /** What the checker wants of instruction i: a branch ends its bundle and comes right behind a
      charge for its segment; a standalone update is itself such a charge. */
  predicate InsnOk(c: Code, i: nat)
    requires i < |c.words| && c.bundle > 0
  {
    && (c.Branch(i) ==>
          && i > 0 && c.words[i - 1] == SubX23(i - Boundary(c, i))
          && i % c.bundle == c.bundle - 1)
    && (c.Standalone(i) ==> c.words[i] == SubX23(if c.Branch(i) then 0 else i - Boundary(c, i)))
  }

  ghost predicate Accepts(c: Code)
    requires c.bundle > 0
  {
    forall i: nat {:trigger InsnOk(c, i)} :: i < |c.words| ==> InsnOk(c, i)
  }

  /** vchkmeter; the last loop looks once more for updates that were not noticed. */
  method VchkMeter(c: Code, insns: array<nat>) returns (ok: bool)
    requires c.Ok() && insns[..] == c.words
    ensures ok <==> Accepts(c)
  {
    hide Accepts, SubX23, GasUpdate, IsBranch;
    var branches, updates := Classify(c, insns);
    ok := Segments(c, insns, branches, updates);
    ghost var accepted := ok;
    for i := 0 to insns.Length
      invariant ok == accepted
      invariant forall k: nat :: k < insns.Length ==> updates[k] == c.Update(k)
    {
      if !updates[i] {
        assert insns[..][i] == insns[i];
        var illegal := HasGasUpdate(c.decode(insns[i]));
        ok := ok && !illegal;
      }
    }
  }

  /** The first loop: which instructions are branches, and which write the gas register. */
  method Classify(c: Code, insns: array<nat>) returns (branches: array<bool>, updates: array<bool>)
    requires insns[..] == c.words
    ensures branches.Length == updates.Length == insns.Length
    ensures forall k: nat :: k < insns.Length ==> branches[k] == c.Branch(k) && updates[k] == c.Update(k)
  {
    hide GasUpdate, IsBranch;
    var n := insns.Length;
    branches := new bool[n](_ => false);
    updates := new bool[n](_ => false);
    for i := 0 to n
      invariant forall k: nat :: k < i ==> branches[k] == c.Branch(k) && updates[k] == c.Update(k)
    {
      var inst := c.decode(insns[i]);
      updates[i] := HasGasUpdate(inst);
      branches[i] := IsBranch(c.poc, inst);
    }
  }

  /** The loop that follows the segments. */
  method Segments(c: Code, insns: array<nat>, branches: array<bool>, updates: array<bool>) returns (ok: bool)
    requires c.Ok() && insns[..] == c.words && branches.Length == updates.Length == insns.Length
    requires forall k: nat :: k < insns.Length ==> branches[k] == c.Branch(k) && updates[k] == c.Update(k)
    ensures ok <==> Accepts(c)
  {
    hide SubX23, InsnOk, GasUpdate, IsBranch, Boundary;
    ok := true;
    var lastBranch, lastUpdate := -1, -1;
    for i := 0 to insns.Length
      invariant -1 <= lastBranch < i && -1 <= lastUpdate < i
      invariant ok ==> Max(lastBranch, lastUpdate) == Boundary(c, i)
      invariant ok <==> forall k: nat {:trigger InsnOk(c, k)} :: k < i ==> InsnOk(c, k)
    {
      var good;
      good, lastBranch, lastUpdate := CheckInsn(c, insns, branches, updates, i, lastBranch, lastUpdate);
      ok := ok && good;
    }
  }

  /** The body of that loop; an error leaves the round early. */
  method CheckInsn(c: Code, insns: array<nat>, branches: array<bool>, updates: array<bool>, i: nat, lb: int, lu: int)
    returns (good: bool, lastBranch: int, lastUpdate: int)
    requires c.Ok() && insns[..] == c.words && branches.Length == updates.Length == insns.Length && i < insns.Length
    requires forall k: nat :: k < insns.Length ==> branches[k] == c.Branch(k) && updates[k] == c.Update(k)
    requires -1 <= lb < i && -1 <= lu < i
    ensures -1 <= lastBranch <= i && -1 <= lastUpdate <= i
    ensures Max(lb, lu) == Boundary(c, i) ==> (good <==> InsnOk(c, i))
    ensures Max(lb, lu) == Boundary(c, i) && good ==> Max(lastBranch, lastUpdate) == Boundary(c, i + 1)
  {
    hide SubX23, GasUpdate, IsBranch;
    good, lastBranch, lastUpdate := false, lb, lu;
    if branches[i] {
      if i == 0 {
        return;
      }
      var bbsize := i - Max(lastBranch, lastUpdate);
      if insns[i - 1] != SubX23(bbsize) {
        return;
      }
      lastBranch := i;
    }
    if updates[i] {
      if i + 1 >= insns.Length || !branches[i + 1] {
        var bbsize := i - Max(lastBranch, lastUpdate);
        if insns[i] != SubX23(bbsize) {
          return;
        }
        lastUpdate := i;
      }
    }
    good := !branches[i] || i % c.bundle == c.bundle - 1;
  }

  // ---- Runs

  /** Instruction number, instructions executed so far, gas charged so far, and what x23 holds. */
  datatype State = State(pc: int, executed: nat, charged: nat, gas: int)

  /** Executing a word: a charge lowers the gas, any other write to x23 may set it to anything. */
  predicate GasStep(c: Code, word: nat, before: int, after: int) {
    if IsSub(word) then after == before - Charge(word)
    else WritesGas(c.decode(word)) || WritesBack(c.decode(word)) || after == before
  }

  /** blr through the register of the runtime: it returns behind the call. */
  predicate CallsRuntime(c: Code, inst: Inst) { inst.mnem.Blr? && inst.ops[0].reg == if c.poc then 25 else 21 }

  /** Where the processor goes from instruction pc, by the mnemonic. Where an indirect branch goes is not
      known, except that the address is that of a bundle. */
  predicate Goes(c: Code, inst: Inst, pc: int, next: int)
    requires c.bundle > 0
  {
    match inst.mnem
    case Blr | Br | Ret =>
      if CallsRuntime(c, inst) then next == pc + 1
      else (c.base + next * INSN_SIZE) % (c.bundle * INSN_SIZE) == 0
    case B | Bl | BCond | Cbz | Cbnz | Tbz | Tbnz =>
      next == pc + 1 || c.base + next * INSN_SIZE == c.base + pc * INSN_SIZE + inst.imm64
    case OtherMnem => next == pc + 1
  }

  /** What the checker takes for no branch goes on to the next instruction. */
  lemma {:induction false} OthersGoOn(c: Code, i: nat, next: int)
    requires i < |c.words| && c.bundle > 0 && !c.Branch(i) && Goes(c, c.decode(c.words[i]), i, next)
    ensures next == i + 1
  {
  }

  /** One instruction. */
  predicate Step(c: Code, s: State, t: State)
    requires c.bundle > 0
  {
    && 0 <= s.pc < |c.words|
    && t.executed == s.executed + 1
    && t.charged == s.charged + Charge(c.words[s.pc])
    && GasStep(c, c.words[s.pc], s.gas, t.gas)
    && Goes(c, c.decode(c.words[s.pc]), s.pc, t.pc)
  }

  /** chkbranch with bundles: direct targets are bundle-aligned. */
  predicate DirectTargetOk(c: Code, i: nat)
    requires i < |c.words| && c.bundle > 0
  {
    match BranchOf(c.poc, c.decode(c.words[i]), c.base + i * INSN_SIZE)
    case Direct(target) => target % (c.bundle * INSN_SIZE) == 0
    case _ => true
  }

  ghost predicate TargetsOk(c: Code)
    requires c.bundle > 0
  {
    forall i: nat {:trigger DirectTargetOk(c, i)} :: i < |c.words| ==> DirectTargetOk(c, i)
  }

  /** Every charge has to cover at most this many instructions. */
  ghost predicate SegmentsFit(c: Code) {
    forall i: nat {:trigger Boundary(c, i)} :: i < |c.words| && (c.Branch(i) || c.Standalone(i)) ==>
      i - Boundary(c, i) <= 4095 * 4096
  }

  /** What is charged for at this point of a run: at a branch the branch too, elsewhere everything but
      the instructions since the last charge. */
  ghost predicate Paid(c: Code, s: State) {
    if c.BranchAt(s.pc) then s.executed + 1 <= s.charged
    else if 0 <= s.pc <= |c.words| then s.executed <= s.charged + (s.pc - Boundary(c, s.pc) - 1)
    else s.executed <= s.charged
  }

  ghost predicate Sound(c: Code) {
    c.Ok() && Accepts(c) && TargetsOk(c) && SegmentsFit(c)
  }

  lemma {:induction false} NoBranchAtBundleStart(c: Code, pc: int)
    requires c.Ok() && Accepts(c) && pc % c.bundle == 0
    ensures !c.BranchAt(pc)
  {
    if 0 <= pc < |c.words| {
      assert InsnOk(c, pc);
    }
  }

  lemma {:induction false} BundleIndex(c: Code, pc: int)
    requires c.Ok() && (c.base + pc * INSN_SIZE) % (c.bundle * INSN_SIZE) == 0
    ensures pc % c.bundle == 0
  {
    if c.bundle == 2 {
      Bundle8(c.base, pc);
    } else {
      Bundle16(c.base, pc);
    }
  }

  lemma {:induction false} Bundle8(base: int, pc: int)
    requires base % 8 == 0 && (base + pc * 4) % 8 == 0
    ensures pc % 2 == 0
  {
    assert pc * 4 == 8 * ((base + pc * 4) / 8 - base / 8);
  }

  lemma {:induction false} Bundle16(base: int, pc: int)
    requires base % 16 == 0 && (base + pc * 4) % 16 == 0
    ensures pc % 4 == 0
  {
    assert pc * 4 == 16 * ((base + pc * 4) / 16 - base / 16);
  }

  /** Any jump to a bundle is in order: what was executed so far is paid for. */
  lemma {:induction false} PaidAtBundle(c: Code, s: State)
    requires c.Ok() && Accepts(c) && s.executed <= s.charged && s.pc % c.bundle == 0
    ensures Paid(c, s)
  {
    NoBranchAtBundleStart(c, s.pc);
  }

  /** A branch leaves everything paid for, wherever it goes. */
  lemma {:induction false} BranchKeepsPaid(c: Code, s: State, t: State)
    requires Sound(c) && Paid(c, s) && Step(c, s, t) && c.BranchAt(s.pc)
    ensures Paid(c, t) && t.executed <= t.charged
  {
    hide Accepts, Step, SegmentsFit, IsBranch;
    BranchGoes(c, s, t);
    if t.pc != s.pc + 1 {
      PaidAtBundle(c, t);
    } else {
      NextIsNoBranch(c, s.pc);
      assert Boundary(c, t.pc) == s.pc;
    }
  }

  /** A branch falls through or goes to the start of a bundle. */
  lemma {:induction false} BranchGoes(c: Code, s: State, t: State)
    requires c.Ok() && TargetsOk(c) && Step(c, s, t) && c.BranchAt(s.pc)
    ensures t.executed == s.executed + 1 && t.charged >= s.charged
    ensures t.pc == s.pc + 1 || t.pc % c.bundle == 0
  {
    hide GasStep;
    assert DirectTargetOk(c, s.pc);
    if t.pc != s.pc + 1 {
      BundleIndex(c, t.pc);
    }
  }

  lemma {:induction false} NextIsNoBranch(c: Code, pc: int)
    requires c.Ok() && Accepts(c) && c.BranchAt(pc)
    ensures !c.BranchAt(pc + 1)
  {
    hide SubX23, IsBranch;
    assert InsnOk(c, pc);
    BundleEnd(pc, c.bundle);
    NoBranchAtBundleStart(c, pc + 1);
  }

  lemma {:induction false} BundleEnd(i: nat, bundle: nat)
    requires (bundle == 2 || bundle == 4) && i % bundle == bundle - 1
    ensures (i + 1) % bundle == 0
  {
    if bundle == 2 {
      assert i % 2 == 1;
    } else {
      assert i % 4 == 3;
    }
  }

  /** Straight-line code stays within the segment that the next charge covers. */
  lemma {:induction false} StraightKeepsPaid(c: Code, s: State, t: State)
    requires Sound(c) && Paid(c, s) && Step(c, s, t) && !c.BranchAt(s.pc)
    ensures Paid(c, t)
  {
    hide SubX23, Charge, IsSub, InsnOk, SegmentsFit, IsBranch, GasUpdate;
    StraightOn(c, s, t);
    if c.BranchAt(s.pc + 1) {
      ChargeBeforeBranch(c, s.pc);
    } else if c.Update(s.pc) {
      ChargeAlone(c, s.pc);
    }
  }

  lemma {:induction false} StraightOn(c: Code, s: State, t: State)
    requires c.Ok() && Step(c, s, t) && !c.BranchAt(s.pc)
    ensures t.pc == s.pc + 1 && t.executed == s.executed + 1
    ensures t.charged == s.charged + Charge(c.words[s.pc])
  {
    hide GasStep;
  }

  lemma {:induction false} ChargeBeforeBranch(c: Code, pc: nat)
    requires c.Ok() && Accepts(c) && SegmentsFit(c) && pc + 1 < |c.words| && c.Branch(pc + 1) && !c.Branch(pc)
    ensures Boundary(c, pc + 1) == Boundary(c, pc)
    ensures IsSub(c.words[pc]) && Charge(c.words[pc]) >= pc + 1 - Boundary(c, pc)
  {
    hide SubX23, Charge, IsSub, IsBranch, GasUpdate;
    assert InsnOk(c, pc + 1);
    ChargeCovers(pc + 1 - Boundary(c, pc + 1));
  }

  lemma {:induction false} ChargeAlone(c: Code, pc: nat)
    requires c.Ok() && Accepts(c) && SegmentsFit(c)
    requires pc < |c.words| && !c.Branch(pc) && !c.BranchAt(pc + 1) && c.Update(pc)
    ensures Boundary(c, pc + 1) == pc
    ensures IsSub(c.words[pc]) && Charge(c.words[pc]) >= pc - Boundary(c, pc)
  {
    hide SubX23, Charge, IsSub, IsBranch, GasUpdate;
    assert InsnOk(c, pc);
    ChargeCovers(pc - Boundary(c, pc));
  }

  lemma {:induction false} StepKeepsPaid(c: Code, s: State, t: State)
    requires Sound(c) && Paid(c, s) && Step(c, s, t)
    ensures Paid(c, t)
  {
    if c.BranchAt(s.pc) {
      BranchKeepsPaid(c, s, t);
    } else {
      StraightKeepsPaid(c, s, t);
    }
  }

  /** A run enters at a bundle. */
  ghost predicate IsRun(c: Code, run: seq<State>) {
    && run != [] && c.bundle > 0
    && run[0].executed == run[0].charged == 0 && run[0].pc % c.bundle == 0
    && forall k: nat {:trigger Step(c, run[k], run[k + 1])} :: k + 1 < |run| ==> Step(c, run[k], run[k + 1])
  }

  /** On every run of accepted code, at every point, what was charged pays for what was executed. */
  lemma {:induction false} RunsArePaid(c: Code, run: seq<State>, k: nat)
    requires Sound(c) && IsRun(c, run) && k < |run|
    ensures Paid(c, run[k])
  {
    hide Paid, Step, Accepts, TargetsOk, SegmentsFit;
    if k == 0 {
      PaidAtBundle(c, run[0]);
    } else {
      RunsArePaid(c, run, k - 1);
      var p: nat := k - 1;
      assert Step(c, run[p], run[p + 1]);
      StepKeepsPaid(c, run[k - 1], run[k]);
    }
  }

  /** Right behind a branch nothing is owed. */
  lemma {:induction false} BranchesArePaid(c: Code, run: seq<State>, k: nat)
    requires Sound(c) && IsRun(c, run) && k + 1 < |run| && c.BranchAt(run[k].pc)
    ensures run[k + 1].executed <= run[k + 1].charged
  {
    RunsArePaid(c, run, k);
    assert Step(c, run[k], run[k + 1]);
    BranchKeepsPaid(c, run[k], run[k + 1]);
  }

  /** No stretch of code, whether a charge closes it or not, is longer than a charge can be. */
  ghost predicate StretchesFit(c: Code) {
    forall i: nat {:trigger Boundary(c, i)} :: i < |c.words| ==> i - Boundary(c, i) <= 4095 * 4096
  }

  /** Then at no point does a run owe more than one segment. */
  lemma {:induction false} OverdraftIsBounded(c: Code, run: seq<State>, k: nat)
    requires Sound(c) && StretchesFit(c) && IsRun(c, run) && k < |run|
    ensures run[k].executed <= run[k].charged + 4095 * 4096
  {
    RunsArePaid(c, run, k);
    var pc := run[k].pc;
    if 0 <= pc <= |c.words| && !c.BranchAt(pc) {
      if pc == |c.words| && pc > 0 {
        assert Boundary(c, pc) >= Boundary(c, pc - 1);
      }
    }
  }

  // ---- The gas register

  /** In accepted code every update is a charge. */
  lemma {:induction false} UpdatesAreCharges(c: Code, i: nat)
    requires c.Ok() && Accepts(c) && SegmentsFit(c) && i < |c.words| && c.Update(i)
    ensures IsSub(c.words[i])
  {
    hide SubX23, Charge, IsSub, IsBranch, GasUpdate;
    if i + 1 < |c.words| && c.Branch(i + 1) {
      assert InsnOk(c, i + 1);
      ChargeCovers(i + 1 - Boundary(c, i + 1));
    } else {
      assert InsnOk(c, i);
      ChargeCovers(if c.Branch(i) then 0 else i - Boundary(c, i));
    }
  }

  /** Nothing but a charge changes x23 by write-back. The checker does not test this; where loads are
      not confined it admits such an instruction. */
  ghost predicate NoWriteBack(c: Code) {
    forall i: nat {:trigger c.words[i]} :: i < |c.words| ==> IsSub(c.words[i]) || !WritesBack(c.decode(c.words[i]))
  }

  /** At every point of every run x23 has lost exactly what was charged. */
  ghost predicate RegisterPays(c: Code) {
    forall run: seq<State>, k: nat {:trigger IsRun(c, run), run[k]} :: IsRun(c, run) && k < |run| ==>
      run[k].gas == run[0].gas - run[k].charged
  }

  lemma {:induction false} GasIsCharged(c: Code, run: seq<State>, k: nat)
    requires Sound(c) && NoWriteBack(c) && IsRun(c, run) && k < |run|
    ensures run[k].gas == run[0].gas - run[k].charged
  {
    hide Accepts, TargetsOk, SegmentsFit, IsSub, GasUpdate, WritesGas, WritesBack, Charge;
    if k > 0 {
      var p: nat := k - 1;
      GasIsCharged(c, run, p);
      assert Step(c, run[p], run[p + 1]);
      if WritesGas(c.decode(c.words[run[p].pc])) {
        UpdateCoversMask(c.decode(c.words[run[p].pc]));
        UpdatesAreCharges(c, run[p].pc);
      }
      ChargeOfOthers(c.words[run[p].pc]);
    }
  }

  lemma {:induction false} ChargeOfOthers(word: nat)
    ensures !IsSub(word) ==> Charge(word) == 0
  {
  }

  /** From the start of a bundle, n instructions without a branch, with x23 following the charges. */
  lemma {:induction false} QuietRun(c: Code, start: nat, n: nat) returns (run: seq<State>)
    requires c.Ok() && start % c.bundle == 0 && start + n <= |c.words|
    requires forall i: nat :: start <= i < start + n ==> !c.Branch(i)
    ensures IsRun(c, run) && |run| == n + 1 && run[n].pc == start + n
    ensures run[n].gas == run[0].gas - run[n].charged
    decreases n
  {
    hide Charge, IsSub, GasUpdate;
    if n == 0 {
      run := [State(start, 0, 0, 0)];
    } else {
      var front := QuietRun(c, start, n - 1);
      var last, word := front[n - 1], c.words[start + n - 1];
      ChargeOfOthers(word);
      var next := State(start + n, last.executed + 1, last.charged + Charge(word), last.gas - Charge(word));
      assert !c.Branch(start + n - 1);
      assert Step(c, last, next);
      run := Longer(c, front, next);
    }
  }

  lemma {:induction false} Longer(c: Code, front: seq<State>, next: State) returns (run: seq<State>)
    requires IsRun(c, front) && Step(c, front[|front| - 1], next)
    ensures run == front + [next] && IsRun(c, run)
  {
    hide Step;
    run := front + [next];
    forall k: nat | k + 1 < |run| ensures Step(c, run[k], run[k + 1]) {
      if k + 1 < |front| {
        assert Step(c, front[k], front[k + 1]);
      }
    }
  }

  /** A write-back lets some run change x23 without a charge. */
  lemma {:induction false} WriteBackEscapes(c: Code, i: nat) returns (run: seq<State>)
    requires c.Ok() && Accepts(c) && i < |c.words| && !IsSub(c.words[i]) && WritesBack(c.decode(c.words[i]))
    ensures IsRun(c, run) && run[|run| - 1].gas != run[0].gas - run[|run| - 1].charged
  {
    hide Charge, IsSub, GasUpdate, WritesBack, Step;
    var b := i - i % c.bundle;
    BundleFloor(i, c.bundle);
    forall k: nat | b <= k < i ensures !c.Branch(k) {
      InsideBundle(c, b, k, i);
    }
    var front := QuietRun(c, b, i - b);
    var next := AnyGas(c, front[i - b]);
    run := Longer(c, front, next);
  }

  lemma {:induction false} BundleFloor(i: nat, bundle: nat)
    requires bundle == 2 || bundle == 4
    ensures (i - i % bundle) % bundle == 0
  {
  }

  lemma {:induction false} InsideBundle(c: Code, b: nat, k: nat, i: nat)
    requires c.Ok() && Accepts(c) && b == i - i % c.bundle && b <= k < i < |c.words|
    ensures !c.Branch(k)
  {
    hide SubX23, IsBranch;
    assert InsnOk(c, k);
    if c.Branch(k) {
      BundleEnd(k, c.bundle);
      NotYetOver(c.bundle, i, k);
    }
  }

  lemma {:induction false} NotYetOver(bundle: nat, i: nat, k: nat)
    requires (bundle == 2 || bundle == 4) && i - i % bundle <= k < i
    ensures (k + 1) % bundle != 0
  {
  }

  /** A step that raises x23 by one, and charges nothing. */
  lemma {:induction false} AnyGas(c: Code, s: State) returns (t: State)
    requires c.Ok() && 0 <= s.pc < |c.words| && !IsSub(c.words[s.pc]) && WritesBack(c.decode(c.words[s.pc]))
    ensures Step(c, s, t) && t.gas == s.gas + 1 && t.charged == s.charged
  {
    hide Charge, IsSub, GasUpdate, WritesBack;
    ChargeOfOthers(c.words[s.pc]);
    var pc := if BranchOf(c.poc, c.decode(c.words[s.pc]), c.base + s.pc * INSN_SIZE).Indirect? then 0 else s.pc + 1;
    t := State(pc, s.executed + 1, s.charged, s.gas + 1);
  }

  /** The register follows the charges on every run exactly if nothing writes it back. */
  lemma {:induction false} RegisterPaysIff(c: Code)
    requires Sound(c)
    ensures RegisterPays(c) <==> NoWriteBack(c)
  {
    hide Accepts, TargetsOk, SegmentsFit, IsSub, WritesBack, IsRun;
    if NoWriteBack(c) {
      forall run: seq<State>, k: nat | IsRun(c, run) && k < |run| ensures run[k].gas == run[0].gas - run[k].charged {
        GasIsCharged(c, run, k);
      }
    } else {
      var i: nat :| i < |c.words| && !IsSub(c.words[i]) && WritesBack(c.decode(c.words[i]));
      var run := WriteBackEscapes(c, i);
      RunIsSome(c, run);
      assert run[|run| - 1].gas != run[0].gas - run[|run| - 1].charged;
    }
  }

  lemma {:induction false} RunIsSome(c: Code, run: seq<State>)
    requires IsRun(c, run)
    ensures run != []
  {
  }

  // ---- A segment that is too long

  /** The decoder sees that a charge writes x23. */
  ghost predicate SeesCharges(c: Code) {
    forall w: nat {:trigger IsSub(w)} :: IsSub(w) ==> GasUpdate(c.decode(w))
  }

  /** Between two boundaries nothing touches the gas but the charge in front of a branch. */
  lemma {:induction false} QuietInside(c: Code, i: nat, k: nat)
    requires i < |c.words| && Boundary(c, i) < k < i
    ensures !c.Branch(k) && (c.Update(k) ==> k + 1 < |c.words| && c.Branch(k + 1))
    ensures k + 1 < i ==> !c.Branch(k + 1)
    decreases i
  {
    if k < i - 1 {
      QuietInside(c, i - 1, k);
    }
  }

  function StraightRun(start: int, n: nat): (run: seq<State>) {
    seq(n + 1, (k: nat) => State(start + k, k, 0, 0))
  }

  /** Falling through n instructions of a segment that begins at a bundle, before any charge. */
  lemma {:induction false} StraightRunSteps(c: Code, i: nat, n: nat)
    requires c.Ok() && SeesCharges(c) && i < |c.words| && Boundary(c, i) + 1 + n <= i
    requires (Boundary(c, i) + 1) % c.bundle == 0
    requires Boundary(c, i) + 1 + n < i || !c.Branch(i)
    ensures IsRun(c, StraightRun(Boundary(c, i) + 1, n))
  {
    hide GasUpdate, IsSub, WritesBack;
    var b := Boundary(c, i);
    var run := StraightRun(b + 1, n);
    forall k: nat | k + 1 < |run| ensures Step(c, run[k], run[k + 1]) {
      QuietInside(c, i, b + 1 + k);
      assert !c.Update(b + 1 + k);
      ChargeOfOthers(c.words[b + 1 + k]);
    }
  }

  /** If a branch closes a segment of more than 4095 * 4096 instructions that begins at a bundle,
      some run passes the branch without having paid for it. */
  lemma {:induction false} LongSegmentOwes(c: Code, i: nat) returns (run: seq<State>)
    requires c.Ok() && Accepts(c) && SeesCharges(c) && c.BranchAt(i)
    requires i - Boundary(c, i) > 4095 * 4096 && (Boundary(c, i) + 1) % c.bundle == 0
    ensures IsRun(c, run) && run[|run| - 1].pc == i && !Paid(c, run[|run| - 1])
  {
    hide SubX23, GasUpdate;
    var b := Boundary(c, i);
    StraightRunSteps(c, i, i - b - 2);
    var front := StraightRun(b + 1, i - b - 2);
    QuietInside(c, i, i - 1);
    var charge: int := Charge(c.words[i - 1]);
    var last := State(i, i - b - 1, charge, -charge);
    assert front[|front| - 1] == State(i - 1, i - b - 2, 0, 0);
    assert InsnOk(c, i);
    assert Step(c, front[|front| - 1], last);
    run := Longer(c, front, last);
  }

  /** Nor does a charge on its own pay for such a segment. */
  lemma {:induction false} LongStretchOwes(c: Code, i: nat) returns (run: seq<State>)
    requires c.Ok() && SeesCharges(c) && i < |c.words| && c.Standalone(i) && !c.Branch(i)
    requires i - Boundary(c, i) > 4095 * 4096 && (Boundary(c, i) + 1) % c.bundle == 0
    ensures IsRun(c, run) && run[|run| - 1].pc == i + 1 && !Paid(c, run[|run| - 1])
  {
    hide SubX23, GasUpdate;
    var b := Boundary(c, i);
    StraightRunSteps(c, i, i - b - 1);
    var front := StraightRun(b + 1, i - b - 1);
    var charge: int := Charge(c.words[i]);
    var last := State(i + 1, i - b, charge, -charge);
    assert front[|front| - 1] == State(i, i - b - 1, 0, 0);
    assert Step(c, front[|front| - 1], last);
    assert Boundary(c, i + 1) == i;
    run := Longer(c, front, last);
  }

  // ---- A write-back

  /** ldr x0, [x23], #8 and nothing else. */
  const LDR_WRITE_BACK := 0xf840_86e0

  function WriteBackCode(): Code {
    Code((w: nat) => Decoded(OtherMnem, 1, [Op(RegGp, 0), Op(MemWriteBack, REG_GAS), Op(OtherOp, 0)], 0),
         false, [LDR_WRITE_BACK], 0, 2)
  }

  /** This code is accepted, and x23 does not follow the charges. */
  lemma {:induction false} WriteBackIsAccepted(c: Code)
    requires c == WriteBackCode()
    ensures Sound(c) && !RegisterPays(c)
  {
    hide RegisterPays;
    var inst := c.decode(LDR_WRITE_BACK);
    assert !GasUpdate(inst) && !IsBranch(c.poc, inst);
    assert InsnOk(c, 0) && DirectTargetOk(c, 0);
    assert inst.ops[1].kind.MemWriteBack? && !IsSub(c.words[0]);
    assert WritesBack(c.decode(c.words[0]));
    RegisterPaysIff(c);
  }
}
