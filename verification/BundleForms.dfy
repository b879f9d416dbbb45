/** What the checker of amd64 code has to accept: the forms of macro-instructions that macroinst.c writes
    down, and code that can be cut into items. */
module BundleForms {
  import opened Numbers
  import opened Options
  import opened PowersOfTwo
  import opened Words
  import opened Bundles
  import opened BundleRuns

  // ---- Operands, field by field

  predicate Gpr(op: Operand, size: nat, reg: nat) { op.kind.RegOp? && op.size == size && op.reg == reg }
  predicate Immediate(op: Operand, imm: int) { op.kind.ImmOp? && op.imm == imm }
  predicate Address(op: Operand, base: nat, index: nat) {
    op.kind.MemOp? && op.base == base && op.index == index && op.scale == 0
  }

  /** These instructions stand one behind the other from offset o on. */
  predicate Stands(p: Program, o: nat, code: seq<Instr>)
    decreases |code|
  {
    code == [] || (At(p, o) == Some(code[0]) && Stands(p, o + code[0].size, code[1..]))
  }

  function Length(code: seq<Instr>): nat
    decreases |code|
  {
    if code == [] then 0 else code[0].size + Length(code[1..])
  }

  lemma {:induction false} Taken(p: Program, o: nat, k: nat)
    requires k < MATCHERS && Matcher(p, o, k).size > 0
    ensures ItemOk(p, o) && FirstMatch(p, o, 0) <= k
  {
    hide Matcher;
    FirstIsUpTo(p, o, 0, k);
  }

  lemma {:induction false} FirstIsUpTo(p: Program, o: nat, j: nat, k: nat)
    requires j <= k < MATCHERS && Matcher(p, o, k).size > 0
    ensures FirstMatch(p, o, j) <= k
    decreases k - j
  {
    hide Matcher;
    if j < k {
      FirstIsUpTo(p, o, j + 1, k);
    }
  }

  // ---- Masked branches

  /** andl $0xffffffe0, %eX; orq %r14, %rX */
  predicate MasksAndRebases(a: Instr, b: Instr, r: nat) {
    && a.kind.And? && Gpr(a.op0, 4, r) && Immediate(a.op1, -32)
    && b.kind.Or? && Gpr(b.op0, 8, r) && Gpr(b.op1, 8, 14)
  }

  /** ... jmpq *%rX */
  lemma {:induction false} MaskedJumpIsAccepted(p: Program, o: nat, a: Instr, b: Instr, c: Instr, r: nat)
    requires Stands(p, o, [a, b, c]) && MasksAndRebases(a, b, r) && c.kind.Jmp? && Gpr(c.op0, 8, r)
    ensures ItemOk(p, o) && Item(p, o) == MacroInst(Length([a, b, c]), 3)
  {
    assert [a, b, c][1..] == [b, c] && [b, c][1..] == [c] && [c][1..] == [];
    assert Stands(p, o + a.size, [b, c]) && Stands(p, o + a.size + b.size, [c]);
    assert Length([b, c]) == b.size + Length([c]) && Length([c]) == c.size;
  }

  /** ... nop*; callq *%rX, up to the end of the bundle */
  lemma {:induction false} MaskedCallIsAccepted(p: Program, o: nat, a: Instr, b: Instr, nops: seq<Instr>, c: Instr,
      r: nat)
    requires !p.poc && Stands(p, o, [a, b] + nops + [c]) && MasksAndRebases(a, b, r)
    requires (forall n :: n in nops ==> n.kind.Nop?) && c.kind.Call? && Gpr(c.op0, 8, r)
    requires Length([a, b] + nops + [c]) <= 32 && (p.base + o + Length([a, b] + nops + [c])) % 32 == 0
    ensures ItemOk(p, o) && Item(p, o) == MacroInst(Length([a, b] + nops + [c]), 3 + |nops|)
  {
    hide SkipNops;
    var code := [a, b] + nops + [c];
    assert code[1..] == [b] + nops + [c] && code[1..][1..] == nops + [c];
    assert At(p, o + a.size) == Some(b);
    NopsAreSkipped(p, o, a.size + b.size, 2, nops, c);
    var third := (nops + [c])[0];
    assert At(p, o + a.size + b.size) == Some(third) && !third.kind.Jmp?;
    assert MacroJmp(p, o) == NO_MACRO;
    assert MacroCall(p, o) == MacroInst(Length(code), 3 + |nops|);
  }

  lemma {:induction false} NopsAreSkipped(p: Program, o: nat, count: nat, icount: nat, nops: seq<Instr>, c: Instr)
    requires Stands(p, o + count, nops + [c]) && (forall n :: n in nops ==> n.kind.Nop?) && !c.kind.Nop?
    requires count + Length(nops + [c]) <= 32
    ensures count < 32 && SkipNops(p, o, count, icount) == Some((count + Length(nops + [c]), icount + |nops| + 1, c))
    decreases |nops|
  {
    if nops == [] {
      assert nops + [c] == [c];
    } else {
      var n := nops[0];
      assert (nops + [c])[1..] == nops[1..] + [c];
      NopsAreSkipped(p, o, count + n.size, icount + 1, nops[1..], c);
    }
  }

  /** Behind a masked call there is a bundle, so a masked jump can come back. */
  lemma {:induction false} CallEndsItsBundle(p: Program, s: nat)
    requires FirstMatch(p, s, 0) == 1
    ensures (p.base + s + Item(p, s).size) % 32 == 0
  {
    hide FirstMatch;
  }

  // ---- Runtime calls

  /** leaq 1f(%rip), %r11; jmpq *N(%r13), where the label is behind the jump, or at a bundle */
  lemma {:induction false} RtcallIsAccepted(p: Program, o: nat, a: Instr, b: Instr)
    requires Stands(p, o, [a, b])
    requires a.kind.Lea? && Gpr(a.op0, 8, 11) && a.op1.kind.MemOp? && a.op1.base == REG_IP
    requires b.kind.Jmp? && Address(b.op0, 13, REG_NONE) && b.op0.disp in {0, 8, 16, 24}
    requires var target := p.base + o + a.size + a.op1.disp;
             a.op1.disp == b.size || (0 <= target < U64 && target % 32 == 0)
    ensures ItemOk(p, o) && Item(p, o) == MacroInst(a.size + b.size, 2)
  {
    hide SkipNops;
    assert [a, b][1..] == [b];
    assert At(p, o + a.size) == Some(b);
    assert FirstMatch(p, o, 0) == 2;
  }

  /** Nothing else passes for a runtime call. */
  lemma {:induction false} RtcallForm(p: Program, o: nat)
    requires MacroRtcall(p, o).size > 0
    ensures exists a: Instr, b: Instr ::
              && Stands(p, o, [a, b]) && MacroRtcall(p, o) == MacroInst(a.size + b.size, 2)
              && a.kind.Lea? && a.op0.kind.RegOp? && a.op0.reg == 11 && a.op1.kind.MemOp? && a.op1.base == REG_IP
              && b.kind.Jmp? && Address(b.op0, 13, REG_NONE) && b.op0.disp % 8 == 0 && b.op0.disp < 256
              && (a.op1.disp == b.size || (p.base + o + a.size + a.op1.disp) % U64 % 32 == 0)
  {
    var a := At(p, o).value;
    var b := At(p, o + a.size).value;
    assert [a, b][1..] == [b] && [b][1..] == [] && Stands(p, o + a.size, [b]);
  }

  // ---- Stack pointer

  /** movl/addl/subl/andl/leal ..., %esp; then orq %r14, %rsp or leaq (%rsp, %r14), %rsp */
  lemma {:induction false} ModSpIsAccepted(p: Program, o: nat, a: Instr, b: Instr)
    requires Stands(p, o, [a, b])
    requires a.kind in {Mov, Add, Sub, And, Lea} && Gpr(a.op0, 4, 4)
    requires || (b.kind.Or? && Gpr(b.op0, 8, 4) && Gpr(b.op1, 8, 14))
             || (b.kind.Lea? && Gpr(b.op0, 8, 4) && Address(b.op1, 4, 14) && b.op1.disp == 0)
    ensures ItemOk(p, o) && Matcher(p, o, 3) == MacroInst(a.size + b.size, 2)
  {
    assert [a, b][1..] == [b];
    assert At(p, o + a.size) == Some(b);
    Taken(p, o, 3);
  }

  /** Nothing else passes for one. */
  lemma {:induction false} ModSpForm(p: Program, o: nat)
    requires MacroModSp(p, o).size > 0
    ensures At(p, o).Some? && At(p, o + At(p, o).value.size).Some?
    ensures var a := At(p, o).value; var b := At(p, o + a.size).value;
            && MacroModSp(p, o) == MacroInst(a.size + b.size, 2)
            && a.kind in {Mov, Add, Sub, And, Lea} && Gpr(a.op0, 4, 4)
            && (|| (b.kind.Or? && Gpr(b.op0, 8, 4) && Gpr(b.op1, 8, 14))
                || (b.kind.Lea? && Gpr(b.op0, 8, 4) && Address(b.op1, 4, 14) && b.op1.disp == 0))
  {
  }

  /** Where r14 is the start of a sandbox of 4 GiB, the stack pointer is in it behind such a pair, exactly if
      no prefix cuts the address of the lea, which the checker does not look at. */
  lemma {:induction false} StackStaysIff(p: Program, o: nat, before: State, middle: State, after: State)
    requires MacroModSp(p, o).size > 0 && At(p, o).Some?
    requires Step(p, o, before, middle) && Step(p, o + At(p, o).value.size, middle, after)
    requires SandboxAt(before.regs(14))
    ensures after.regs(14) == before.regs(14)
    ensures At(p, o + At(p, o).value.size).Some?
    ensures InSandbox(before.regs(14), after.regs(4)) <==> Uncut(At(p, o + At(p, o).value.size).value)
  {
    hide Words.Or, BitAnd, AndValue, LeaValue;
    ModSpForm(p, o);
    var a := At(p, o).value;
    var b := At(p, o + a.size).value;
    assert middle.regs(4) < U32 && middle.regs(14) == before.regs(14);
    RebasedIsInside(middle.regs(14), middle.regs(4));
  }

  /** The instruction computes 64 bits. */
  predicate Uncut(i: Instr) { i.kind.Lea? ==> i.addrSize != 4 }

  predicate SandboxAt(base: nat) { base % U32 == 0 && U32 <= base && base + U32 <= U64 }
  predicate InSandbox(base: nat, x: int) { base <= x < base + U32 }

  lemma {:induction false} RebasedIsInside(base: nat, x: nat)
    requires SandboxAt(base) && x < U32
    ensures InSandbox(base, Words.Or(x, base)) && (x + base) % U64 == (base + x) % U64 == base + x
    ensures (x + base) % U32 == (base + x) % U32 == x
  {
    hide Words.Or;
    var k := base / U32;
    assert base == k * U32;
    OrIsSum(k, x);
    SplitIsUnique(k, x);
  }

  lemma {:induction false} OrIsSum(k: nat, x: nat)
    requires x < U32
    ensures Words.Or(x, k * U32) == k * U32 + x
  {
    hide Words.Or, Pow2;
    Pow2ThirtyTwo();
    OrDisjoint(k, x, 32);
    OrCommutes(x, k * U32);
  }

  lemma {:induction false} SplitIsUnique(k: nat, x: nat)
    requires x < U32
    ensures (k * U32 + x) % U32 == x
  {
    assert (k * U32 + x) / U32 == k;
  }

  lemma {:induction false} OrCommutes(a: nat, b: nat)
    ensures Words.Or(a, b) == Words.Or(b, a)
    decreases a + b
  {
    if a == 0 {
      OrZero(b);
    } else if b == 0 {
      OrZero(a);
    } else {
      OrCommutes(a / 2, b / 2);
    }
  }

  // ---- Strings

  /** movl %eX, %eX */
  predicate Truncates(a: Instr, r: nat) { a.kind.Mov? && Gpr(a.op0, 4, r) && Gpr(a.op1, 4, r) }

  /** leaq (%r14, %rX), %rX */
  predicate Rebases(a: Instr, r: nat) {
    a.kind.Lea? && Gpr(a.op0, 8, r) && Address(a.op1, 14, r) && a.op1.disp == 0
  }

  /** movl %edi, %edi; leaq (%r14, %rdi), %rdi; stos; movl %edi, %edi */
  lemma {:induction false} StosIsAccepted(p: Program, o: nat, a: Instr, b: Instr, c: Instr, d: Instr)
    requires Stands(p, o, [a, b, c, d]) && Truncates(a, 7) && Rebases(b, 7) && c.kind.Stos? && Truncates(d, 7)
    ensures ItemOk(p, o) && Matcher(p, o, 4) == MacroInst(Length([a, b, c, d]), 4)
  {
    PatternMatches(p, o, [a, b, c, d], STOS_PATTERN);
    Taken(p, o, 4);
  }

  /** The same for rdi and rsi, and movs. */
  lemma {:induction false} MovsIsAccepted(p: Program, o: nat, code: seq<Instr>)
    requires Stands(p, o, code) && |code| == 7
    requires Truncates(code[0], 7) && Rebases(code[1], 7) && Truncates(code[2], 6) && Rebases(code[3], 6)
    requires code[4].kind.Movs? && Truncates(code[5], 7) && Truncates(code[6], 6)
    ensures ItemOk(p, o) && Matcher(p, o, 5) == MacroInst(Length(code), 7)
  {
    PatternMatches(p, o, code, MOVS_PATTERN);
    Taken(p, o, 5);
  }

  lemma {:induction false} PatternMatches(p: Program, o: nat, code: seq<Instr>, pattern: seq<nat>)
    requires Stands(p, o, code) && |code| == |pattern|
    requires forall k: nat {:trigger code[k]} :: k < |code| ==> StringStep(code[k], pattern[k])
    ensures MatchSteps(p, o, pattern) == Some(Length(code))
    decreases |code|
  {
    hide StringStep;
    if code != [] {
      PatternMatches(p, o + code[0].size, code[1..], pattern[1..]);
    }
  }

  /** Nothing else passes for them. */
  lemma {:induction false} StosForm(p: Program, o: nat) returns (code: seq<Instr>)
    requires MacroSteps(p, o, STOS_PATTERN).size > 0
    ensures Stands(p, o, code) && |code| == 4 && MacroSteps(p, o, STOS_PATTERN) == MacroInst(Length(code), 4)
    ensures Truncates(code[0], 7) && Rebases(code[1], 7) && code[2].kind.Stos? && Truncates(code[3], 7)
  {
    hide StringStep;
    code := PatternForm(p, o, STOS_PATTERN);
    assert StringStep(code[0], 0) && StringStep(code[1], 1) && StringStep(code[2], 4) && StringStep(code[3], 0);
    StepForms(code[0], code[1], code[2], 7);
    StepForms(code[3], code[1], code[2], 7);
  }

  lemma {:induction false} MovsForm(p: Program, o: nat) returns (code: seq<Instr>)
    requires MacroSteps(p, o, MOVS_PATTERN).size > 0
    ensures Stands(p, o, code) && |code| == 7 && MacroSteps(p, o, MOVS_PATTERN) == MacroInst(Length(code), 7)
    ensures Truncates(code[0], 7) && Rebases(code[1], 7) && Truncates(code[2], 6) && Rebases(code[3], 6)
    ensures code[4].kind.Movs? && Truncates(code[5], 7) && Truncates(code[6], 6)
  {
    hide StringStep;
    code := PatternForm(p, o, MOVS_PATTERN);
    assert StringStep(code[0], 0) && StringStep(code[1], 1) && StringStep(code[2], 2) && StringStep(code[3], 3)
      && StringStep(code[4], 5) && StringStep(code[5], 0) && StringStep(code[6], 2);
    StepForms(code[0], code[1], code[4], 7);
    StepForms(code[2], code[3], code[4], 6);
    StepForms(code[5], code[1], code[4], 7);
    StepForms(code[6], code[3], code[4], 6);
  }

  lemma {:induction false} StepForms(a: Instr, b: Instr, c: Instr, r: nat)
    ensures StringStep(a, if r == 7 then 0 else 2) ==> Truncates(a, if r == 7 then 7 else 6)
    ensures StringStep(b, if r == 7 then 1 else 3) ==> Rebases(b, if r == 7 then 7 else 6)
    ensures StringStep(c, 4) ==> c.kind.Stos?
    ensures StringStep(c, 5) ==> c.kind.Movs?
  {
  }

  lemma {:induction false} PatternForm(p: Program, o: nat, pattern: seq<nat>) returns (code: seq<Instr>)
    requires MatchSteps(p, o, pattern).Some?
    ensures Stands(p, o, code) && |code| == |pattern| && MatchSteps(p, o, pattern) == Some(Length(code))
    ensures forall k: nat {:trigger code[k]} :: k < |code| ==> StringStep(code[k], pattern[k])
    decreases |pattern|
  {
    hide StringStep;
    code := [];
    if pattern != [] {
      var i := At(p, o).value;
      var rest := PatternForm(p, o + i.size, pattern[1..]);
      code := [i] + rest;
      assert code[1..] == rest;
    }
  }

  /** The two instructions in front of a string instruction leave a pointer into the sandbox, exactly if no
      prefix cuts the address. */
  lemma {:induction false} PointerStaysIff(p: Program, o: nat, a: Instr, b: Instr, r: nat,
      before: State, middle: State, after: State)
    requires Stands(p, o, [a, b]) && Truncates(a, r) && Rebases(b, r) && r in {6, 7}
    requires Step(p, o, before, middle) && Step(p, o + a.size, middle, after)
    requires SandboxAt(before.regs(14))
    ensures InSandbox(before.regs(14), after.regs(r)) <==> Uncut(b)
    ensures Uncut(b) ==> after.regs(r) == before.regs(14) + before.regs(r) % U32
    ensures forall q: nat :: q != r ==> after.regs(q) == before.regs(q)
  {
    hide Words.Or, BitAnd, AndValue, LeaValue, ShiftEffect;
    assert [a, b][1..] == [b];
    assert At(p, o + a.size) == Some(b);
    assert middle.regs(14) == before.regs(14) && middle.regs(r) == before.regs(r) % U32;
    RebasedIsInside(middle.regs(14), middle.regs(r));
    assert after.regs(r) == SumOf(b, middle.regs);
  }

  // ---- Double shifts

  /** shld or shrd of 64 bits; for 32 and 16 bits behind andb $0x1f, %cl or andb $0xf, %cl */
  lemma {:induction false} ShiftIsAccepted(p: Program, o: nat, code: seq<Instr>)
    requires Stands(p, o, code) && |code| in {1, 2}
    requires var shift := code[|code| - 1];
             && shift.kind in {Shld, Shrd}
             && (|code| == 1 ==> shift.op0.size == 8)
             && (|code| == 2 ==>
                   && code[0].kind.And? && Gpr(code[0].op0, 1, 1)
                   && ((shift.op0.size == 4 && Immediate(code[0].op1, 31))
                       || (shift.op0.size == 2 && Immediate(code[0].op1, 15))))
    ensures ItemOk(p, o) && Matcher(p, o, 6) == MacroInst(Length(code), |code|)
  {
    if |code| == 2 {
      assert code[1..] == [code[1]] && [code[1]][1..] == [] && Stands(p, o + code[0].size, [code[1]]);
      assert Length([code[1]]) == code[1].size;
    } else {
      assert code[1..] == [];
    }
    assert Length(code) == code[0].size + Length(code[1..]);
    Taken(p, o, 6);
  }

  /** Nothing else passes for them; besides, macroinst_shxd would take a shift of eight bits behind $0x7. */
  lemma {:induction false} ShiftForm(p: Program, o: nat) returns (code: seq<Instr>)
    requires MacroShxd(p, o).size > 0
    ensures Stands(p, o, code) && |code| in {1, 2} && MacroShxd(p, o) == MacroInst(Length(code), |code|)
    ensures var shift := code[|code| - 1];
            && shift.kind in {Shld, Shrd}
            && (|code| == 1 ==> shift.op0.size == 8)
            && (|code| == 2 ==>
                  && code[0].kind.And? && Gpr(code[0].op0, 1, 1)
                  && ((shift.op0.size == 4 && Immediate(code[0].op1, 31))
                      || (shift.op0.size == 2 && Immediate(code[0].op1, 15))
                      || (shift.op0.size == 1 && Immediate(code[0].op1, 7))))
  {
    var a := At(p, o).value;
    if MacroShxd(p, o).ninstr == 1 {
      code := [a];
      assert code[1..] == [];
    } else {
      var b := At(p, o + a.size).value;
      code := [a, b];
      assert code[1..] == [b] && [b][1..] == [] && Stands(p, o + a.size, [b]);
      assert Length([b]) == b.size;
    }
  }

  // ---- Single instructions

  /** Anything on the list whose operands are none of the four special registers, if it is no branch or one
      to a bundle. */
  lemma {:induction false} PlainIsAccepted(p: Program, o: nat, i: Instr)
    requires At(p, o) == Some(i) && p.allowed(i)
    requires forall op :: op in [i.op0, i.op1, i.op2] && op.kind.RegOp? ==> op.reg !in {4, 11, 13, 14}
    requires i.kind in {Jmp, Call, Ret, CondJump} ==> i.op0.kind.OffOp? && (p.base + o + i.size + i.op0.imm) % 32 == 0
    ensures ItemOk(p, o)
  {
    hide FirstMatch;
  }

  /** The base register may be read, and r11 written: by any instruction that changes its first operand only. */
  lemma {:induction false} ReadingIsAccepted(p: Program, o: nat, i: Instr)
    requires At(p, o) == Some(i) && p.allowed(i) && i.kind !in {Jmp, Call, Ret, CondJump, Xchg, Cmp, Test}
    requires i.op0.kind.RegOp? && i.op0.reg !in {4, 13, 14} && i.op1.kind.RegOp? && i.op1.reg in {4, 14}
    requires !i.op2.kind.RegOp?
    ensures ItemOk(p, o)
  {
    hide FirstMatch;
  }

  /** No single instruction but a call changes the stack pointer, as far as the list tells. */
  lemma {:induction false} AllowedKeepsStack(p: Program, i: Instr)
    requires ModOk(p, i) && !i.kind.OtherKind? && !i.kind.Call? && !i.kind.Ret?
    ensures !Changes(p, i, REG_SP)
  {
  }

  /** Position-oblivious code never names r13, and reads of r11 only the lower half. */
  lemma {:induction false} ObliviousReads(p: Program, i: Instr, op: Operand)
    requires p.poc && ModOk(p, i) && !i.kind.Nop? && op in [i.op0, i.op1, i.op2] && op.kind.RegOp?
    ensures op.reg != 13
    ensures op.reg == 11 && op != i.op0 && i.kind !in {Xchg, Cmp, Test} ==> op.size == 4
  {
  }

  // ---- Cutting code into items

  /** The code, cut into items that pass; none of them crosses the end of a bundle. */
  ghost predicate Cuts(p: Program, cuts: seq<nat>) {
    Chain(p, cuts) && cuts[0] == 0 && cuts[|cuts| - 1] == p.size
  }

  ghost predicate Chain(p: Program, cuts: seq<nat>) {
    cuts != [] && forall k: nat {:trigger CutAt(p, cuts, k)} :: k + 1 < |cuts| ==> CutAt(p, cuts, k)
  }

  ghost predicate CutAt(p: Program, cuts: seq<nat>, k: nat)
    requires k + 1 < |cuts|
  {
    ItemOk(p, cuts[k]) && cuts[k + 1] == cuts[k] + Item(p, cuts[k]).size <= cuts[k] - cuts[k] % BUNDLE + BUNDLE
  }

  /** Code is accepted exactly if it can be cut so. */
  lemma {:induction false} AcceptsIffCut(p: Program)
    ensures Accepts(p) <==> exists cuts: seq<nat> :: Cuts(p, cuts)
  {
    hide BundleOk;
    if Accepts(p) {
      var cuts := CutsFrom(p, 0);
      assert Cuts(p, cuts);
    }
    if cuts: seq<nat> :| Cuts(p, cuts) {
      forall b: nat | b % BUNDLE == 0 && b < p.size ensures BundleAt(p, b) {
        var k := BundleIsCut(p, cuts, 0, b);
        CutIsOk(p, cuts, k, b + BUNDLE);
      }
    }
  }

  lemma {:induction false} Longer(p: Program, o: nat, rest: seq<nat>) returns (cuts: seq<nat>)
    requires Chain(p, rest) && ItemOk(p, o) && rest[0] == o + Item(p, o).size <= o - o % BUNDLE + BUNDLE
    ensures cuts == [o] + rest && Chain(p, cuts)
  {
    hide ItemOk, Item;
    cuts := [o] + rest;
    forall k: nat | k + 1 < |cuts| ensures CutAt(p, cuts, k) {
      if k > 0 {
        assert CutAt(p, rest, k - 1);
      }
    }
  }

  /** The cuts from offset o to the end of its bundle, in front of others. */
  lemma {:induction false} BundleCuts(p: Program, o: nat, limit: nat, rest: seq<nat>) returns (cuts: seq<nat>)
    requires BundleOk(p, o, limit) && o <= limit && o <= p.size && limit % BUNDLE == 0 && limit <= o + BUNDLE
    requires rest != [] && Chain(p, rest) && rest[0] == Min(limit, p.size)
    ensures cuts != [] && Chain(p, cuts) && cuts[0] == o && cuts[|cuts| - 1] == rest[|rest| - 1]
    decreases limit - o
  {
    hide ItemOk, Item, Chain;
    if o == limit || o == p.size {
      cuts := rest;
    } else {
      ItemFits(p, o);
      EndOfBundle(o, limit);
      cuts := BundleCuts(p, o + Item(p, o).size, limit, rest);
      cuts := Longer(p, o, cuts);
    }
  }

  lemma {:induction false} EndOfBundle(o: nat, limit: nat)
    requires limit % BUNDLE == 0 && o < limit <= o + BUNDLE
    ensures o - o % BUNDLE + BUNDLE == limit
  {
  }

  lemma {:induction false} CutsFrom(p: Program, b: nat) returns (cuts: seq<nat>)
    requires Accepts(p) && b % BUNDLE == 0 && b <= p.size
    ensures Chain(p, cuts) && cuts[0] == b && cuts[|cuts| - 1] == p.size
    decreases p.size - b
  {
    hide CutAt, BundleOk;
    cuts := [p.size];
    if b < p.size {
      if b + BUNDLE < p.size {
        cuts := CutsFrom(p, b + BUNDLE);
      }
      assert BundleAt(p, b);
      cuts := BundleCuts(p, b, b + BUNDLE, cuts);
    }
  }

  lemma {:induction false} BundleIsCut(p: Program, cuts: seq<nat>, k: nat, b: nat) returns (j: nat)
    requires Cuts(p, cuts) && b % BUNDLE == 0 && k < |cuts| && cuts[k] <= b <= p.size
    ensures j < |cuts| && cuts[j] == b
    decreases |cuts| - k
  {
    hide ItemOk, Item;
    j := k;
    if cuts[k] < b {
      assert CutAt(p, cuts, k);
      NotPastBundle(cuts[k], b);
      j := BundleIsCut(p, cuts, k + 1, b);
    }
  }

  lemma {:induction false} NotPastBundle(o: nat, b: nat)
    requires b % BUNDLE == 0 && o < b
    ensures o - o % BUNDLE + BUNDLE <= b
  {
  }

  lemma {:induction false} CutIsOk(p: Program, cuts: seq<nat>, k: nat, limit: nat)
    requires Cuts(p, cuts) && k < |cuts| && cuts[k] <= limit <= cuts[k] + BUNDLE && limit % BUNDLE == 0
    ensures BundleOk(p, cuts[k], limit)
    decreases |cuts| - k
  {
    hide ItemOk, Item;
    if cuts[k] < limit && cuts[k] < p.size {
      assert CutAt(p, cuts, k);
      EndOfBundle(cuts[k], limit);
      ItemFits(p, cuts[k]);
      CutIsOk(p, cuts, k + 1, limit);
    }
  }
}
