/** Bundles of amd64 code: the checker of verify.c with the macro-instructions of macroinst.c.

    The decoder is a function from offsets to instructions. The checker cuts every bundle of 32 bytes
    into single instructions and macro-instructions. */
module Bundles {
  import opened Numbers
  import opened Options
  import opened PowersOfTwo
  import opened Words

  const BUNDLE := 32

  const REG_CX := 1
  const REG_SP := 4
  const REG_SI := 6
  const REG_DI := 7
  const REG_R11 := 11
  const REG_R13 := 13
  const REG_R14 := 14
  const REG_IP := 32
  const REG_NONE := 63

  datatype Kind =
    | And | Or | Jmp | Call | Ret | Nop | Lea | Mov | Add | Sub | Stos | Movs | Shld | Shrd
    | Cmp | Test | Xchg | CondJump | OtherKind

  datatype OpKind = NoOp | RegOp | ImmOp | MemOp | OffOp
  datatype Operand = Operand(kind: OpKind, size: nat, reg: nat, imm: int, base: nat, index: nat, scale: nat, disp: int)
  /** addrSize is the size of addresses in bytes, which a prefix may cut to four; segment is the
      register that another prefix names. */
  datatype Decoded =
    Decoded(kind: Kind, size: nat, op0: Operand, op1: Operand, op2: Operand, addrSize: nat, segment: nat)
  type Instr = i: Decoded | 1 <= i.size <= 15 witness Decoded(Nop, 1, NONE, NONE, NONE, 8, REG_NONE)

  const NONE := Operand(NoOp, 0, REG_NONE, 0, REG_NONE, REG_NONE, 0, 0)

  /** Code at address base, and the two options that the checks of branches and registers know.
      allowed stands for the checks of mnemonics and memory operands. Of the instructions that have no
      kind of their own, changes tells which registers the processor changes, and jumps whether it may
      go elsewhere. */
  datatype Program = Program(decode: nat -> Option<Instr>, size: nat, base: nat, poc: bool, decl: bool,
                             allowed: Instr -> bool, changes: (Instr, nat) -> bool, jumps: Instr -> bool)
  {
    predicate Ok() { base % BUNDLE == 0 && base + size <= U64 }
  }

  /** fd_decode: what is at offset o, within the code. */
  function At(p: Program, o: nat): (i: Option<Instr>)
    ensures i.Some? ==> o + i.value.size <= p.size
  {
    match p.decode(o)
    case None => None
    case Some(i) => if o + i.size <= p.size then Some(i) else None
  }

  // ---- Macro-instructions

  datatype MacroInst = MacroInst(size: int, ninstr: int)
  const NO_MACRO := MacroInst(-1, 0)

  predicate IsReg(op: Operand, reg: nat, size: nat) { op.kind.RegOp? && op.reg == reg && op.size == size }

  /** andl $0xffffffe0, %eX */
  predicate IsMask(i: Instr) {
    i.kind.And? && i.op0.kind.RegOp? && i.op0.size == 4 && i.op1.kind.ImmOp? && i.op1.imm == -32
  }

  /** orq %r14, %rX */
  predicate IsRebase(i: Instr, reg: nat) {
    i.kind.Or? && IsReg(i.op0, reg, 8) && IsReg(i.op1, REG_R14, 8)
  }

  predicate IsRegBranch(i: Instr, kind: Kind, reg: nat) { i.kind == kind && i.op0.kind.RegOp? && i.op0.reg == reg }

  function MacroJmp(p: Program, o: nat): MacroInst {
    match At(p, o) case None => NO_MACRO case Some(iAnd) =>
      match At(p, o + iAnd.size) case None => NO_MACRO case Some(iOr) =>
        match At(p, o + iAnd.size + iOr.size) case None => NO_MACRO case Some(iJmp) =>
          if IsMask(iAnd) && IsRebase(iOr, iAnd.op0.reg) && IsRegBranch(iJmp, Jmp, iAnd.op0.reg)
          then MacroInst(iAnd.size + iOr.size + iJmp.size, 3) else NO_MACRO
  }

  /** The C operator: the remainder has the sign of the dividend, so it is zero for the same numbers. */
  predicate OkDisp(disp: int) { disp % 8 == 0 && disp < 256 }

  predicate IsReturnLea(i: Instr) {
    i.kind.Lea? && i.op0.kind.RegOp? && i.op0.reg == REG_R11 && i.op1.kind.MemOp? && i.op1.base == REG_IP
  }

  predicate IsRuntimeJump(i: Instr) {
    && i.kind.Jmp? && i.op0.kind.MemOp? && i.op0.base == REG_R13 && i.op0.index == REG_NONE
    && i.op0.scale == 0 && OkDisp(i.op0.disp)
  }

  /** Where the runtime returns: behind the jump, or to the start of a bundle. */
  function MacroRtcall(p: Program, o: nat): MacroInst {
    match At(p, o) case None => NO_MACRO case Some(iLea) =>
      match At(p, o + iLea.size) case None => NO_MACRO case Some(iJmp) =>
        if !IsReturnLea(iLea) || !IsRuntimeJump(iJmp) then NO_MACRO
        else if iLea.op1.disp == iJmp.size || (p.base + o + iLea.size + iLea.op1.disp) % U64 % BUNDLE == 0
        then MacroInst(iLea.size + iJmp.size, 2) else NO_MACRO
  }

  /** The first instruction at or behind offset o + count that is no nop, if the search does not
      leave the next BUNDLE bytes: the bytes and instructions up to its end, and itself. */
  function SkipNops(p: Program, o: nat, count: nat, icount: nat): (r: Option<(nat, nat, Instr)>)
    requires count < BUNDLE
    decreases BUNDLE - count
  {
    match At(p, o + count) case None => None case Some(i) =>
      if !i.kind.Nop? || count + i.size >= BUNDLE then Some((count + i.size, icount + 1, i))
      else SkipNops(p, o, count + i.size, icount + 1)
  }

  function MacroCall(p: Program, o: nat): MacroInst {
    if p.poc then NO_MACRO else
      match At(p, o) case None => NO_MACRO case Some(iAnd) =>
        match At(p, o + iAnd.size) case None => NO_MACRO case Some(iOr) =>
          match SkipNops(p, o, iAnd.size + iOr.size, 2) case None => NO_MACRO case Some(r) =>
            if iAnd.kind.And? && (p.base + o + r.0) % BUNDLE == 0 && IsMask(iAnd) && IsRebase(iOr, iAnd.op0.reg)
               && IsRegBranch(r.2, Call, iAnd.op0.reg)
            then MacroInst(r.0, r.1) else NO_MACRO
  }

  /** macroinst_call with its loop */
  method FindCall(p: Program, o: nat) returns (mi: MacroInst)
    ensures mi == MacroCall(p, o)
  {
    if p.poc || At(p, o).None? {
      return NO_MACRO;
    }
    var iAnd := At(p, o).value;
    if !iAnd.kind.And? || At(p, o + iAnd.size).None? {
      return NO_MACRO;
    }
    var iOr := At(p, o + iAnd.size).value;
    var count, icount := iAnd.size + iOr.size, 2;
    var iJmp := iOr;
    var more := true;
    while more && count < BUNDLE
      invariant count >= 0 && icount >= 0
      invariant more ==> count < BUNDLE && SkipNops(p, o, iAnd.size + iOr.size, 2) == SkipNops(p, o, count, icount)
      invariant !more ==> SkipNops(p, o, iAnd.size + iOr.size, 2) == Some((count, icount, iJmp))
      decreases more, BUNDLE - count
    {
      var next := At(p, o + count);
      if next.None? {
        return NO_MACRO;
      }
      iJmp := next.value;
      icount := icount + 1;
      count := count + iJmp.size;
      more := iJmp.kind.Nop? && count < BUNDLE;
    }
    if (p.base + o + count) % BUNDLE != 0
       || !IsMask(iAnd) || !IsRebase(iOr, iAnd.op0.reg) || !IsRegBranch(iJmp, Call, iAnd.op0.reg) {
      return NO_MACRO;
    }
    return MacroInst(count, icount);
  }

  predicate IsSpArithmetic(i: Instr) {
    (i.kind.Mov? || i.kind.Add? || i.kind.And? || i.kind.Sub? || i.kind.Lea?) && IsReg(i.op0, REG_SP, 4)
  }

  /** lea (base, index, 1), %rX without displacement */
  predicate IsLeaSum(i: Instr, base: nat, index: nat, reg: nat) {
    && i.kind.Lea? && IsReg(i.op0, reg, 8) && i.op1.kind.MemOp?
    && i.op1.base == base && i.op1.index == index && i.op1.disp == 0 && i.op1.scale == 0
  }

  function MacroModSp(p: Program, o: nat): MacroInst {
    match At(p, o) case None => NO_MACRO case Some(iMov) =>
      match At(p, o + iMov.size) case None => NO_MACRO case Some(iOr) =>
        if IsSpArithmetic(iMov) && (IsRebase(iOr, REG_SP) || IsLeaSum(iOr, REG_SP, REG_R14, REG_SP))
        then MacroInst(iMov.size + iOr.size, 2) else NO_MACRO
  }

  /** movl %eX, %eX */
  predicate IsTruncate(i: Instr, reg: nat) { i.kind.Mov? && IsReg(i.op0, reg, 4) && IsReg(i.op1, reg, 4) }

  predicate StringStep(i: Instr, which: nat) {
    match which
    case 0 => IsTruncate(i, REG_DI)
    case 1 => IsLeaSum(i, REG_R14, REG_DI, REG_DI)
    case 2 => IsTruncate(i, REG_SI)
    case 3 => IsLeaSum(i, REG_R14, REG_SI, REG_SI)
    case 4 => i.kind.Stos?
    case 5 => i.kind.Movs?
    case _ => false
  }

  const STOS_PATTERN := [0, 1, 4, 0]
  const MOVS_PATTERN := [0, 1, 2, 3, 5, 0, 2]

  /** Instructions from offset o on that match the pattern, one by one: their total size. */
  function MatchSteps(p: Program, o: nat, pattern: seq<nat>): (size: Option<nat>)
    decreases |pattern|
  {
    if pattern == [] then Some(0) else
      match At(p, o) case None => None case Some(i) =>
        if !StringStep(i, pattern[0]) then None else
          match MatchSteps(p, o + i.size, pattern[1..]) case None => None case Some(rest) => Some(i.size + rest)
  }

  function MacroSteps(p: Program, o: nat, pattern: seq<nat>): MacroInst {
    match MatchSteps(p, o, pattern) case None => NO_MACRO case Some(size) => MacroInst(size, |pattern|)
  }

  predicate IsDoubleShift(i: Instr) { i.kind.Shld? || i.kind.Shrd? }

  /** The mask that makes a shift count smaller than the operand; none for other sizes. */
  function ShiftMask(size: nat): int {
    if size == 4 then 0x1f else if size == 2 then 0xf else if size == 1 then 0x7 else -1
  }

  function MacroShxd(p: Program, o: nat): MacroInst {
    match At(p, o) case None => NO_MACRO case Some(iAnd) =>
      if IsDoubleShift(iAnd) && iAnd.op0.size == 8 then MacroInst(iAnd.size, 1) else
        match At(p, o + iAnd.size) case None => NO_MACRO case Some(iShift) =>
          if IsDoubleShift(iShift) && ShiftMask(iShift.op0.size) != -1
             && iAnd.kind.And? && IsReg(iAnd.op0, REG_CX, 1) && iAnd.op1.kind.ImmOp?
             && iAnd.op1.imm == ShiftMask(iShift.op0.size)
          then MacroInst(iAnd.size + iShift.size, 2) else NO_MACRO
  }

  /** The matchers in the order of the dispatcher; the first that applies wins. */
  function Matcher(p: Program, o: nat, k: nat): MacroInst {
    match k
    case 0 => MacroJmp(p, o)
    case 1 => MacroCall(p, o)
    case 2 => MacroRtcall(p, o)
    case 3 => MacroModSp(p, o)
    case 4 => MacroSteps(p, o, STOS_PATTERN)
    case 5 => MacroSteps(p, o, MOVS_PATTERN)
    case 6 => MacroShxd(p, o)
    case _ => NO_MACRO
  }

  const MATCHERS := 7

  /** Which matcher applies at offset o, from k on; MATCHERS if none does. */
  function FirstMatch(p: Program, o: nat, k: nat): (m: nat)
    requires k <= MATCHERS
    ensures k <= m <= MATCHERS
    ensures m < MATCHERS ==> Matcher(p, o, m).size > 0
    decreases MATCHERS - k
  {
    if k == MATCHERS || Matcher(p, o, k).size > 0 then k else FirstMatch(p, o, k + 1)
  }

  /** macroinst */
  method FindMacro(p: Program, o: nat) returns (mi: MacroInst)
    ensures mi == if FirstMatch(p, o, 0) == MATCHERS then NO_MACRO else Matcher(p, o, FirstMatch(p, o, 0))
  {
    hide MacroJmp, MacroCall, MacroRtcall, MacroModSp, MacroSteps, MacroShxd;
    for k := 0 to MATCHERS
      invariant FirstMatch(p, o, 0) == FirstMatch(p, o, k)
    {
      if k == 1 {
        mi := FindCall(p, o);
      } else {
        mi := Matcher(p, o, k);
      }
      if mi.size > 0 {
        return;
      }
    }
    mi := NO_MACRO;
  }

  // ---- The checker

  predicate IsBranchKind(kind: Kind) { kind.Jmp? || kind.Call? || kind.Ret? || kind.CondJump? }

  /** chkbranch: a branch on its own must have a direct, bundle-aligned target. */
  predicate BranchOk(p: Program, o: nat, i: Instr) {
    IsBranchKind(i.kind) ==> i.op0.kind.OffOp? && (p.base + o + i.size + i.op0.imm) % BUNDLE == 0
  }

  /** nmod: the number of operands that an instruction changes, from the first one on. */
  function Nmod(kind: Kind): nat { match kind case Cmp | Test => 0 case Xchg => 2 case _ => 1 }

  /** reserved, for operand k: r14 and rsp in every configuration, r11 and r13 only in some. */
  predicate Reserved(p: Program, i: Instr, k: nat, op: Operand) {
    && op.kind.RegOp?
    && if op.reg == REG_R14 || op.reg == REG_SP then k < Nmod(i.kind)
       else if p.poc && op.reg == REG_R11 then k >= Nmod(i.kind) && op.size != 4
       else op.reg == REG_R13 && (p.poc || (p.decl && k < Nmod(i.kind)))
  }

  /** chkmod, for instructions of up to three operands */
  predicate ModOk(p: Program, i: Instr) {
    i.kind.Nop? || !(Reserved(p, i, 0, i.op0) || Reserved(p, i, 1, i.op1) || Reserved(p, i, 2, i.op2))
  }

  /** What the checker takes as one item at offset o. */
  function Item(p: Program, o: nat): (mi: MacroInst) {
    if FirstMatch(p, o, 0) < MATCHERS then Matcher(p, o, FirstMatch(p, o, 0))
    else if At(p, o).Some? then MacroInst(At(p, o).value.size, 1)
    else NO_MACRO
  }

  predicate ItemOk(p: Program, o: nat) {
    Item(p, o).size > 0
    && (FirstMatch(p, o, 0) == MATCHERS ==>
          p.allowed(At(p, o).value) && ModOk(p, At(p, o).value) && BranchOk(p, o, At(p, o).value))
  }

  /** From offset o on, items follow one another up to the end of the bundle or of the code. */
  predicate BundleOk(p: Program, o: nat, limit: nat)
    decreases limit - o
  {
    o == limit || o >= p.size
    || (o < limit && ItemOk(p, o) && o + Item(p, o).size <= limit && BundleOk(p, o + Item(p, o).size, limit))
  }

  predicate BundleAt(p: Program, b: nat) { BundleOk(p, b, b + BUNDLE) }

  ghost predicate Accepts(p: Program) {
    forall b: nat {:trigger BundleAt(p, b)} :: b % BUNDLE == 0 && b < p.size ==> BundleAt(p, b)
  }

  /** The offset after decoding k instructions one behind the other. */
  function Walk(p: Program, o: nat, k: nat): (r: Option<nat>)
    decreases k
  {
    if k == 0 then Some(o) else
      match At(p, o) case None => None case Some(i) => Walk(p, o + i.size, k - 1)
  }

  lemma {:induction false} WalkFurther(p: Program, o: nat, j: nat, k: nat)
    requires Walk(p, o, j).Some?
    ensures Walk(p, o, j + k) == Walk(p, Walk(p, o, j).value, k)
    decreases j
  {
    if j > 0 {
      WalkFurther(p, o + At(p, o).value.size, j - 1, k);
    }
  }

  lemma {:induction false} SkipNopsWalks(p: Program, o: nat, count: nat, icount: nat)
    requires count < BUNDLE && SkipNops(p, o, count, icount).Some?
    ensures var r := SkipNops(p, o, count, icount).value;
            && r.0 > count && r.1 > icount
            && Walk(p, o + count, r.1 - icount) == Some(o + r.0)
    decreases BUNDLE - count
  {
    var i := At(p, o + count).value;
    if i.kind.Nop? && count + i.size < BUNDLE {
      SkipNopsWalks(p, o, count + i.size, icount + 1);
    } else {
      assert Walk(p, o + count + i.size, 0) == Some(o + count + i.size);
    }
  }

  lemma {:induction false} StepsWalk(p: Program, o: nat, pattern: seq<nat>)
    requires MatchSteps(p, o, pattern).Some?
    ensures Walk(p, o, |pattern|) == Some(o + MatchSteps(p, o, pattern).value)
    ensures |pattern| > 0 ==> MatchSteps(p, o, pattern).value > 0
    decreases |pattern|
  {
    if pattern != [] {
      StepsWalk(p, o + At(p, o).value.size, pattern[1..]);
    }
  }

  /** Two instructions, one behind the other. */
  lemma {:induction false} WalkTwo(p: Program, o: nat)
    requires At(p, o).Some? && At(p, o + At(p, o).value.size).Some?
    ensures var x := At(p, o).value.size;
            Walk(p, o, 2) == Some(o + x + At(p, o + x).value.size)
  {
    var x := o + At(p, o).value.size;
    var y := x + At(p, x).value.size;
    assert Walk(p, y, 0) == Some(y);
    assert Walk(p, x, 1) == Some(y);
  }

  lemma {:induction false} CallWalks(p: Program, o: nat)
    requires MacroCall(p, o).size > 0
    ensures MacroCall(p, o).ninstr >= 1 && Walk(p, o, MacroCall(p, o).ninstr) == Some(o + MacroCall(p, o).size)
  {
    var x := At(p, o).value.size;
    var y := x + At(p, o + x).value.size;
    var r := SkipNops(p, o, y, 2).value;
    WalkTwo(p, o);
    SkipNopsWalks(p, o, y, 2);
    WalkFurther(p, o, 2, r.1 - 2);
  }

  lemma {:induction false} JmpWalks(p: Program, o: nat)
    requires MacroJmp(p, o).size > 0
    ensures Walk(p, o, 3) == Some(o + MacroJmp(p, o).size)
  {
    var y := o + At(p, o).value.size + At(p, o + At(p, o).value.size).value.size;
    WalkTwo(p, o);
    WalkFurther(p, o, 2, 1);
    assert Walk(p, y + At(p, y).value.size, 0).Some?;
    assert Walk(p, y, 1) == Some(y + At(p, y).value.size);
  }

  lemma {:induction false} MacroStepsWalk(p: Program, o: nat, pattern: seq<nat>)
    requires MacroSteps(p, o, pattern).size > 0
    ensures MacroSteps(p, o, pattern).ninstr == |pattern| >= 1
    ensures Walk(p, o, |pattern|) == Some(o + MacroSteps(p, o, pattern).size)
  {
    StepsWalk(p, o, pattern);
  }

  /** The size of a macro-instruction is that of its instructions. */
  lemma {:induction false} MacroWalks(p: Program, o: nat, k: nat)
    requires Matcher(p, o, k).size > 0
    ensures Matcher(p, o, k).ninstr >= 1 && Walk(p, o, Matcher(p, o, k).ninstr) == Some(o + Matcher(p, o, k).size)
  {
    hide Walk, FirstMatch, MatchSteps, SkipNops;
    match k
    case 0 => JmpWalks(p, o);
    case 1 => CallWalks(p, o);
    case 2 => WalkTwo(p, o);
    case 3 => WalkTwo(p, o);
    case 4 => MacroStepsWalk(p, o, STOS_PATTERN);
    case 5 => MacroStepsWalk(p, o, MOVS_PATTERN);
    case 6 => ShxdWalks(p, o);
    case _ =>
  }

  lemma {:induction false} ShxdWalks(p: Program, o: nat)
    requires MacroShxd(p, o).size > 0
    ensures MacroShxd(p, o).ninstr >= 1 && Walk(p, o, MacroShxd(p, o).ninstr) == Some(o + MacroShxd(p, o).size)
  {
    WalkOne(p, o);
    if MacroShxd(p, o).ninstr == 2 {
      WalkTwo(p, o);
    }
  }

  lemma {:induction false} WalkOne(p: Program, o: nat)
    requires At(p, o).Some?
    ensures Walk(p, o, 1) == Some(o + At(p, o).value.size)
  {
    assert Walk(p, o + At(p, o).value.size, 0).Some?;
  }

  lemma {:induction false} ItemWalks(p: Program, o: nat)
    requires Item(p, o).size > 0
    ensures Item(p, o).ninstr >= 1 && Walk(p, o, Item(p, o).ninstr) == Some(o + Item(p, o).size)
    ensures o + Item(p, o).size <= p.size
  {
    hide Matcher, Walk;
    var m := FirstMatch(p, o, 0);
    if m < MATCHERS {
      MacroWalks(p, o, m);
    } else {
      WalkOne(p, o);
    }
    WalkInCode(p, o, Item(p, o).ninstr);
  }

  lemma {:induction false} WalkInCode(p: Program, o: nat, k: nat)
    requires k >= 1 && Walk(p, o, k).Some?
    ensures o < Walk(p, o, k).value <= p.size
    decreases k
  {
    if k > 1 {
      WalkInCode(p, o + At(p, o).value.size, k - 1);
    } else {
      WalkOne(p, o);
    }
  }

  /** vchkbundle, for the bundle at offset b; after an unknown instruction, or one that spans the
      end of the bundle, it gives up. */
  method VchkBundle(p: Program, b: nat) returns (failed: bool, ninstr: nat)
    requires b < p.size
    ensures !failed <==> BundleAt(p, b)
    ensures !failed ==> Walk(p, b, ninstr) == Some(Min(b + BUNDLE, p.size))
  {
    hide FirstMatch, Matcher, Walk;
    var count := 0;
    failed, ninstr := false, 0;
    WalkNothing(p, b);
    while count < BUNDLE && b + count < p.size
      invariant 0 <= count <= BUNDLE && ninstr >= 0 && b + count <= p.size
      invariant failed ==> !BundleOk(p, b, b + BUNDLE)
      invariant !failed ==> BundleOk(p, b, b + BUNDLE) == BundleOk(p, b + count, b + BUNDLE)
      invariant !failed ==> Walk(p, b, ninstr) == Some(b + count)
      decreases BUNDLE - count
    {
      var mi, illegal := CheckItem(p, b + count);
      if mi.size < 0 {
        return true, ninstr;
      }
      ItemWalks(p, b + count);
      if count + mi.size > BUNDLE {
        return true, ninstr;
      }
      if !failed {
        WalkFurther(p, b, ninstr, mi.ninstr);
      }
      failed := failed || illegal;
      count := count + mi.size;
      ninstr := ninstr + mi.ninstr;
    }
  }

  lemma {:induction false} WalkNothing(p: Program, o: nat)
    ensures Walk(p, o, 0) == Some(o)
  {
  }

  /** One round: a macro-instruction, or a single instruction that passes the checks. */
  method CheckItem(p: Program, o: nat) returns (mi: MacroInst, illegal: bool)
    ensures mi == Item(p, o)
    ensures mi.size > 0 || mi == NO_MACRO
    ensures mi.size > 0 ==> (illegal <==> !ItemOk(p, o))
  {
    hide Matcher, FirstMatch;
    mi := FindMacro(p, o);
    illegal := false;
    if mi.size < 0 {
      var instr := At(p, o);
      if instr.Some? {
        mi := MacroInst(instr.value.size, 1);
        illegal := !p.allowed(instr.value) || !ModOk(p, instr.value) || !BranchOk(p, o, instr.value);
      }
    }
  }

  lemma {:induction false} NextBundle(count: nat)
    requires count % BUNDLE == 0
    ensures (count + BUNDLE) % BUNDLE == 0
    ensures forall b: nat :: b % BUNDLE == 0 && b < count + BUNDLE ==> b <= count
  {
  }

  /** The main loop of lfiv_verify_amd64. The instruction count is what the flag analysis needs:
      decoding that many from the start ends exactly at the end of the code. */
  method Verify(p: Program) returns (ok: bool, ninstr: nat)
    ensures ok <==> Accepts(p)
    ensures ok ==> Walk(p, 0, ninstr) == Some(p.size)
  {
    hide BundleAt, Walk;
    var count := 0;
    ninstr := 0;
    WalkNothing(p, 0);
    while count < p.size
      invariant count >= 0 && ninstr >= 0 && count % BUNDLE == 0
      invariant Walk(p, 0, ninstr) == Some(Min(count, p.size))
      invariant forall b: nat {:trigger BundleAt(p, b)} :: b % BUNDLE == 0 && b < count && b < p.size ==> BundleAt(p, b)
      decreases p.size - count
    {
      var failed, n := VchkBundle(p, count);
      if failed {
        assert !BundleAt(p, count);
        return false, ninstr;
      }
      WalkFurther(p, 0, ninstr, n);
      NextBundle(count);
      ninstr := ninstr + n;
      count := count + BUNDLE;
    }
    ok := true;
  }
}
