/** What acceptance of amd64 code by bundles means for every run: execution stays on instructions
    the checker looked at, and enters a macro-instruction only at its first instruction.

    A step decodes and executes whatever is at the program counter; it knows nothing of items. */
module BundleRuns {
  import opened Numbers
  import opened Options
  import opened PowersOfTwo
  import opened Products
  import opened Words
  import opened Bundles

  type Registers = nat -> nat

  /** table is where the runtime has its table of calls; no step moves it. */
  datatype State = State(pc: int, regs: Registers, table: nat)

  // ---- The machine

  /** What an and with an immediate leaves in a register of which it reads and writes size bytes. */
  function AndValue(size: nat, x: nat, imm: int): nat {
    if size == 8 then BitAnd(x % U64, imm % U64)
    else if size == 4 then BitAnd(x % U32, imm % U32)
    else if size == 2 then x - x % U16 + BitAnd(x % U16, imm % U16)
    else x - x % 256 + BitAnd(x % 256, imm % 256)
  }

  const U16 := 0x1_0000

  /** What such a lea leaves in its register; next is the address behind it. Of the addresses and of
      the register only the lower part may count: 32 bits clear the upper half of the register, 16
      bits leave the rest of it alone. */
  function LeaValue(i: Instr, next: int, before: nat): nat {
    var address := (next + i.op1.disp) % U64;
    var a := if i.addrSize == 4 then address % U32 else address;
    if i.op0.size == 8 then a else if i.op0.size == 4 then a % U32 else before - before % U16 + a % U16
  }

  // ---- Double shifts

  /** The counts that the processor tells apart. */
  function CountLimit(i: Instr): nat { if i.op0.size == 8 then 64 else 32 }

  /** The count is an immediate, or in cl. */
  function Count(i: Instr, regs: Registers): nat {
    (if i.op2.kind.ImmOp? then i.op2.imm else regs(REG_CX)) % CountLimit(i)
  }

  /** The w bits of d shifted by c, with bits of s coming in. */
  function Shifted(left: bool, w: nat, c: nat, d: nat, s: nat): nat
    requires c <= w
  {
    if c == 0 then d
    else if left then Rem(d * Pow2(c) + Quot(s, Pow2(w - c)), Pow2(w))
    else Quot(d, Pow2(c)) + Rem(s * Pow2(w - c), Pow2(w))
  }

  /** A register after a write of size bytes: 32 bits clear its upper half, fewer leave the rest alone. */
  function Written(size: nat, before: nat, value: nat): nat {
    if size == 8 || size == 4 then value else
      QuotRem(before, Pow2(8 * size));
      before - Rem(before, Pow2(8 * size)) + value
  }

  /** What a double shift leaves in its register; counts above the width leave anything. */
  ghost predicate ShiftEffect(i: Instr, before: Registers, after: Registers) {
    var w, c := 8 * i.op0.size, Count(i, before);
    c <= w && i.op1.kind.RegOp? ==>
      after(i.op0.reg) == Written(i.op0.size, before(i.op0.reg),
        Shifted(i.kind.Shld?, w, c, Rem(before(i.op0.reg), Pow2(w)), Rem(before(i.op1.reg), Pow2(w))))
  }

  // ---- Steps

  /** The processor may change this register when it executes the instruction. */
  predicate Changes(p: Program, i: Instr, reg: nat) {
    match i.kind
    case And | Or | Lea | Mov | Add | Sub | Shld | Shrd => i.op0.kind.RegOp? && i.op0.reg == reg
    case Xchg => (i.op0.kind.RegOp? && i.op0.reg == reg) || (i.op1.kind.RegOp? && i.op1.reg == reg)
    case Stos | Movs => reg == REG_CX || reg == REG_SI || reg == REG_DI
    case Call | Ret => reg == REG_SP
    case Nop | Cmp | Test | Jmp | CondJump => false
    case OtherKind => p.changes(i, reg)
  }

  /** What an instruction leaves in its register, as far as it matters here; next is the address behind it. */
  ghost predicate Effect(i: Instr, next: int, before: Registers, after: Registers) {
    var reg, size := i.op0.reg, i.op0.size;
    i.op0.kind.RegOp? ==>
      match i.kind
      case And =>
        && (i.op1.kind.ImmOp? && size in {1, 2, 4, 8} ==> after(reg) == AndValue(size, before(reg), i.op1.imm))
        && (size == 4 ==> after(reg) < U32)
      case Or =>
        size == 8 && i.op1.kind.RegOp? && i.op1.size == 8 ==> after(reg) == Words.Or(before(reg), before(i.op1.reg))
      case Lea =>
        && (i.op1.kind.MemOp? && i.op1.base == REG_IP ==> after(reg) == LeaValue(i, next, before(reg)))
        && (IsSum(i) ==> after(reg) == SumOf(i, before))
        && (size == 4 ==> after(reg) < U32)
      case Mov =>
        && (i.op1.kind.RegOp? && size == 4 ==> after(reg) == before(i.op1.reg) % U32)
        && (size == 4 ==> after(reg) < U32)
      case Add | Sub => size == 4 ==> after(reg) < U32
      case Shld | Shrd => ShiftEffect(i, before, after)
      case _ => true
  }

  /** The general registers. */
  const GP_REGS := 16

  function SumOf(i: Instr, regs: Registers): nat {
    var sum := regs(i.op1.base) + regs(i.op1.index) + i.op1.disp;
    if i.addrSize == 4 then sum % U32 else sum % U64
  }

  /** lea with the sum of two registers */
  predicate IsSum(i: Instr) {
    i.op0.size == 8 && i.op1.kind.MemOp? && i.op1.base < GP_REGS && i.op1.index < GP_REGS && i.op1.scale == 0
  }

  predicate Aligned(x: int) { x % BUNDLE == 0 }

  predicate Repeats(i: Instr) { i.kind.Stos? || i.kind.Movs? || i.kind.OtherKind? }

  /** The calls that the table has entries for. */
  const RTCALLS := 4

  /** The jump reads one of these entries, if r13 is the address of the table. */
  predicate ReadsEntry(i: Instr) {
    && i.kind.Jmp? && i.op0.kind.MemOp? && i.op0.base == REG_R13 && i.op0.index == REG_NONE
    && i.addrSize == 8 && i.segment == REG_NONE && i.op0.disp % 8 == 0 && 0 <= i.op0.disp < 8 * RTCALLS
  }

  /** A call of the runtime, which comes back to the address in r11. */
  predicate EntersRuntime(i: Instr, s: State) { ReadsEntry(i) && s.regs(REG_R13) == s.table }

  /** Where an instruction may lead, by its mnemonic. Conditional branches may fall through; string
      instructions may repeat; what a jump reads from memory elsewhere is not known, so it may
      go anywhere. */
  predicate Leads(p: Program, i: Instr, s: State, dest: int) {
    var next, target := s.pc + i.size, (s.pc + i.size + i.op0.imm) % U64;
    match i.kind
    case Jmp | Call =>
      if i.op0.kind.OffOp? then dest == target
      else if i.op0.kind.RegOp? then dest == s.regs(i.op0.reg)
      else if EntersRuntime(i, s) then dest == s.regs(REG_R11)
      else true
    case CondJump => if i.op0.kind.OffOp? then dest == next || dest == target else true
    case Ret => true
    case Stos | Movs => dest == next || dest == s.pc
    case OtherKind => dest == next || dest == s.pc || p.jumps(i)
    case And | Or | Nop | Lea | Mov | Add | Sub | Shld | Shrd | Cmp | Test | Xchg => dest == next
  }

  /** The two registers that the program may not touch: r14 is aligned, and r13 is the address of the
      table. */
  predicate Based(s: State) { Aligned(s.regs(REG_R14)) && s.regs(REG_R13) == s.table && s.table < U64 }

  /** The registers after the step. The runtime may change any of them, but keeps these two. */
  ghost predicate RegistersAfter(p: Program, i: Instr, s: State, t: State) {
    if EntersRuntime(i, s) then Based(s) ==> Based(t)
    else
      && (forall q: nat {:trigger t.regs(q)} :: !Changes(p, i, q) ==> t.regs(q) == s.regs(q))
      && ((t.pc == s.pc && Repeats(i)) || Effect(i, s.pc + i.size, s.regs, t.regs))
  }

  /** One instruction at offset o. */
  ghost predicate Step(p: Program, o: nat, s: State, t: State) {
    && s.pc == p.base + o && At(p, o).Some? && t.table == s.table
    && Leads(p, At(p, o).value, s, t.pc)
    && RegistersAfter(p, At(p, o).value, s, t)
  }

  // ---- Items

  predicate TopFrom(p: Program, from: nat, s: nat)
    decreases s - from
  {
    from == s || (from < s && ItemOk(p, from) && TopFrom(p, from + Item(p, from).size, s))
  }

  /** An item of the checker begins at offset s. */
  predicate Top(p: Program, s: nat) {
    s < p.size && TopFrom(p, s - s % BUNDLE, s)
  }

  lemma {:induction false} TopBundle(p: Program, from: nat, s: nat, limit: nat)
    requires TopFrom(p, from, s) && BundleOk(p, from, limit) && s < limit && s < p.size
    ensures BundleOk(p, s, limit)
    decreases s - from
  {
    hide Item;
    if from != s {
      TopBundle(p, from + Item(p, from).size, s, limit);
    }
  }

  lemma {:induction false} TopNext(p: Program, from: nat, s: nat)
    requires TopFrom(p, from, s) && ItemOk(p, s)
    ensures TopFrom(p, from, s + Item(p, s).size)
    decreases s - from
  {
    hide Item;
    if from != s {
      TopNext(p, from + Item(p, from).size, s);
    } else {
      assert TopFrom(p, s + Item(p, s).size, s + Item(p, s).size);
    }
  }

  /** In accepted code an item is followed by an item, or by the end. */
  lemma {:induction false} NextItem(p: Program, s: nat)
    requires Accepts(p) && Top(p, s)
    ensures ItemOk(p, s) && s + Item(p, s).size <= p.size
    ensures s + Item(p, s).size == p.size || Top(p, s + Item(p, s).size)
  {
    hide ItemOk, Item;
    var b: nat := s - s % BUNDLE;
    assert BundleAt(p, b);
    TopBundle(p, b, s, b + BUNDLE);
    ItemFits(p, s);
    TopNext(p, b, s);
    var next := s + Item(p, s).size;
    if next == b + BUNDLE {
      assert next % BUNDLE == 0;
      assert TopFrom(p, next, next);
    } else {
      assert next - next % BUNDLE == b;
    }
  }

  lemma {:induction false} ItemFits(p: Program, s: nat)
    requires ItemOk(p, s)
    ensures Item(p, s).size > 0 && s + Item(p, s).size <= p.size
  {
    ItemWalks(p, s);
  }

  lemma {:induction false} BundleStartIsTop(p: Program, s: nat)
    requires s < p.size && s % BUNDLE == 0
    ensures Top(p, s)
  {
  }

  /** A runtime call with this lea may return to address x, whatever the register held before. */
  ghost predicate MayReturn(i: Instr, next: int, x: nat) {
    exists before: nat :: x == LeaValue(i, next, before)
  }

  /** What holds before instruction k of the item at offset s. */
  ghost predicate Progress(p: Program, s: nat, k: nat, regs: Registers)
    requires At(p, s).Some?
  {
    var first := At(p, s).value;
    match FirstMatch(p, s, 0)
    case 0 => k > 0 ==> Aligned(regs(first.op0.reg))
    case 1 => k > 0 ==> Aligned(regs(first.op0.reg))
    case 2 => k > 0 ==> MayReturn(first, p.base + s + first.size, regs(REG_R11))
    case _ => true
  }

  /** The state is at instruction k of the item at offset s, which is at offset o. */
  ghost predicate Inside(p: Program, s: nat, k: nat, o: nat, st: State) {
    && Top(p, s) && At(p, s).Some?
    && k < Item(p, s).ninstr && Walk(p, s, k) == Some(o) && st.pc == p.base + o
    && Progress(p, s, k, st.regs)
  }

  /** Execution is where the checker looked, or has left the code. */
  ghost predicate Covered(p: Program, st: State) {
    && Based(st)
    && (p.base <= st.pc < p.base + p.size ==> exists s: nat, k: nat, o: nat :: Inside(p, s, k, o, st))
  }

  lemma {:induction false} AtTop(p: Program, s: nat, st: State)
    requires Accepts(p) && Top(p, s) && st.pc == p.base + s && Based(st)
    ensures Inside(p, s, 0, s, st) && Covered(p, st)
  {
    hide Item, FirstMatch, Top;
    NextItem(p, s);
    ItemWalks(p, s);
    WalkNothing(p, s);
    ItemBegins(p, s);
    assert Inside(p, s, 0, s, st);
  }

  lemma {:induction false} ItemBegins(p: Program, s: nat)
    requires Item(p, s).size > 0
    ensures At(p, s).Some?
  {
    hide FirstMatch;
    ItemWalks(p, s);
    assert Walk(p, s, Item(p, s).ninstr).Some?;
  }

  /** Wherever an aligned jump lands, an item begins. */
  lemma {:induction false} AlignedIsCovered(p: Program, st: State)
    requires p.Ok() && Accepts(p) && Aligned(st.pc) && Based(st)
    ensures Covered(p, st) && (p.base <= st.pc < p.base + p.size ==> Top(p, st.pc - p.base))
  {
    hide Top, Inside, Accepts;
    if p.base <= st.pc < p.base + p.size {
      var o: nat := st.pc - p.base;
      OffsetAligned(p.base, st.pc);
      BundleStartIsTop(p, o);
      AtTop(p, o, st);
    }
  }

  lemma {:induction false} OffsetAligned(base: int, pc: int)
    requires base % BUNDLE == 0 && pc % BUNDLE == 0
    ensures (pc - base) % BUNDLE == 0
  {
  }

  /** The step of instruction i goes straight on, repeats a string instruction, leaves the code, or
      lands where an item begins. */
  predicate Lands(p: Program, st: State, i: Instr, t: State) {
    || (t.pc == st.pc && Repeats(i))
    || t.pc == st.pc + i.size
    || t.pc < p.base || p.base + p.size <= t.pc
    || Top(p, t.pc - p.base)
  }

  /** Falling through: to the next instruction of the item, or to the next item. */
  lemma {:induction false} FallsThrough(p: Program, s: nat, k: nat, o: nat, st: State, t: State)
    requires p.Ok() && Accepts(p) && Inside(p, s, k, o, st) && At(p, o).Some?
    requires t.pc == st.pc + At(p, o).value.size && Based(t)
    requires k + 1 < Item(p, s).ninstr ==> Progress(p, s, k + 1, t.regs)
    ensures Covered(p, t)
  {
    hide Item, FirstMatch, Top, Progress;
    var next := o + At(p, o).value.size;
    NextItem(p, s);
    ItemWalks(p, s);
    WalkFurther(p, s, k, 1);
    WalkOne(p, o);
    if k + 1 < Item(p, s).ninstr {
      assert Inside(p, s, k + 1, next, t);
    } else if next < p.size {
      AtTop(p, next, t);
    }
  }

  // ---- The steps of each kind of item

  /** The instructions of an item that does not branch. */
  lemma {:induction false} StringParts(p: Program, s: nat, pattern: seq<nat>, k: nat)
    requires MatchSteps(p, s, pattern).Some? && k < |pattern| && Walk(p, s, k).Some?
    ensures At(p, Walk(p, s, k).value).Some? && StringStep(At(p, Walk(p, s, k).value).value, pattern[k])
    decreases k
  {
    hide StringStep;
    if k > 0 {
      StringParts(p, s + At(p, s).value.size, pattern[1..], k - 1);
    }
  }

  /** The shift of a macro-instruction that macroinst_shxd matches. */
  function ShiftAt(p: Program, s: nat): Option<Instr> {
    match At(p, s) case None => None case Some(first) =>
      if IsDoubleShift(first) && first.op0.size == 8 then Some(first) else At(p, s + first.size)
  }

  /** None of these instructions branches, and none changes r13 or r14 but a double shift. */
  lemma {:induction false} PlainParts(p: Program, s: nat, k: nat, o: nat)
    requires 3 <= FirstMatch(p, s, 0) < MATCHERS && k < Item(p, s).ninstr && Walk(p, s, k) == Some(o)
    ensures At(p, o).Some? && !IsBranchKind(At(p, o).value.kind) && !At(p, o).value.kind.OtherKind?
    ensures || (!Changes(p, At(p, o).value, REG_R14) && !Changes(p, At(p, o).value, REG_R13))
            || (FirstMatch(p, s, 0) == 6 && IsDoubleShift(At(p, o).value) && ShiftAt(p, s) == At(p, o))
  {
    hide FirstMatch, Walk;
    var m := FirstMatch(p, s, 0);
    if m == 4 {
      StringParts(p, s, STOS_PATTERN, k);
    } else if m == 5 {
      StringParts(p, s, MOVS_PATTERN, k);
    } else {
      FirstTwo(p, s, k, o);
      TwoParts(p, s, k, o);
    }
  }

  lemma {:induction false} TwoParts(p: Program, s: nat, k: nat, o: nat)
    requires FirstMatch(p, s, 0) == 3 || FirstMatch(p, s, 0) == 6
    requires k < Item(p, s).ninstr && At(p, s).Some? && o == if k == 0 then s else s + At(p, s).value.size
    ensures At(p, o).Some? && !IsBranchKind(At(p, o).value.kind) && !At(p, o).value.kind.OtherKind?
    ensures || (!Changes(p, At(p, o).value, REG_R14) && !Changes(p, At(p, o).value, REG_R13))
            || (FirstMatch(p, s, 0) == 6 && IsDoubleShift(At(p, o).value) && ShiftAt(p, s) == At(p, o))
  {
    hide FirstMatch;
  }

  lemma {:induction false} FirstTwo(p: Program, s: nat, k: nat, o: nat)
    requires k <= 2 && Walk(p, s, k) == Some(o)
    ensures k == 0 ==> o == s
    ensures k == 1 ==> At(p, s).Some? && o == s + At(p, s).value.size
    ensures k == 2 ==>
              && At(p, s).Some? && At(p, s + At(p, s).value.size).Some?
              && o == s + At(p, s).value.size + At(p, s + At(p, s).value.size).value.size
  {
    if k >= 1 {
      var x := s + At(p, s).value.size;
      assert Walk(p, s, k) == Walk(p, x, k - 1);
      if k == 2 {
        assert Walk(p, x, 1) == Walk(p, x + At(p, x).value.size, 0);
      }
    }
  }

  lemma {:induction false} PlainStep(p: Program, s: nat, k: nat, o: nat, st: State, t: State)
    requires p.Ok() && Accepts(p) && Inside(p, s, k, o, st) && Step(p, o, st, t) && Based(st)
    requires 3 <= FirstMatch(p, s, 0) < MATCHERS && ShiftOk(p, s) && TableKept(p, s)
    ensures Covered(p, t) && Lands(p, st, At(p, o).value, t)
  {
    hide Item, FirstMatch, Top, Walk, Effect, Changes, KeepsBase, KeepsTable, ShiftAt;
    PlainParts(p, s, k, o);
    var i := At(p, o).value;
    if Changes(p, i, REG_R14) || Changes(p, i, REG_R13) {
      ShiftIsNoOther(i);
      ShiftKeepsBase(p, i, st, t);
    }
    if t.pc == st.pc {
      assert Inside(p, s, k, o, t);
    } else {
      FallsThrough(p, s, k, o, st, t);
    }
  }

  lemma {:induction false} ShiftIsNoOther(i: Instr)
    requires IsDoubleShift(i)
    ensures !Repeats(i) && !IsBranchKind(i.kind) && !ReadsEntry(i)
  {
  }

  /** A single instruction: straight on, or a direct branch to a bundle. */
  lemma {:induction false} SingleStep(p: Program, s: nat, k: nat, o: nat, st: State, t: State)
    requires p.Ok() && Accepts(p) && Inside(p, s, k, o, st) && Step(p, o, st, t) && Based(st)
    requires FirstMatch(p, s, 0) == MATCHERS && ListOk(p) && TableKept(p, s)
    ensures Covered(p, t) && Lands(p, st, At(p, o).value, t)
  {
    hide FirstMatch, Top, Effect, Changes, ModOk, Accepts, ListOk;
    NextItem(p, s);
    FirstTwo(p, s, k, o);
    var i := At(p, o).value;
    AllowedKeepsBase(p, i);
    if t.pc == st.pc + i.size {
      FallsThrough(p, s, k, o, st, t);
    } else if !IsBranchKind(i.kind) {
      assert Inside(p, s, k, o, t);
    } else {
      WrapAligned(st.pc + i.size + i.op0.imm);
      AlignedIsCovered(p, t);
    }
  }

  /** The instructions on the list that have no kind of their own go straight on, and change r14, or r13
      where it is reserved, only as an operand that the register checks see. Returns are not on it. */
  ghost predicate ListOk(p: Program) {
    forall i: Instr {:trigger p.allowed(i)} :: p.allowed(i) && ModOk(p, i) ==>
      && !i.kind.Ret?
      && (i.kind.OtherKind? ==>
            !p.jumps(i) && !p.changes(i, REG_R14) && (p.decl || p.poc ==> !p.changes(i, REG_R13)))
  }

  /** The register checks keep r14 from being changed by a single instruction, and r13 where it is
      reserved. */
  lemma {:induction false} AllowedKeepsBase(p: Program, i: Instr)
    requires ListOk(p) && p.allowed(i) && ModOk(p, i)
    ensures !Changes(p, i, REG_R14)
    ensures p.decl || p.poc ==> !Changes(p, i, REG_R13)
    ensures !i.kind.Ret? && (i.kind.OtherKind? ==> !p.jumps(i))
  {
  }

  lemma {:induction false} WrapAligned(x: int)
    requires x % BUNDLE == 0
    ensures x % U64 % BUNDLE == 0
  {
    var m := x / 32 - x / U64 * 0x800_0000_0000_0000;
    assert x % U64 == 32 * m;
    BundleMultiple(m);
  }

  lemma {:induction false} BundleMultiple(m: int)
    ensures 32 * m % BUNDLE == 0
  {
  }

  /** The first two instructions of a masked branch leave an aligned address. */
  lemma {:induction false} MaskAligns(i: Instr, next: int, before: Registers, after: Registers)
    requires IsMask(i) && Effect(i, next, before, after)
    ensures Aligned(after(i.op0.reg))
  {
    MaskIs(before(i.op0.reg));
  }

  /** What is left of the register: its lower half down to the last multiple of 32. */
  function MaskValue(x: nat): nat { x % U32 - x % U32 % BUNDLE }

  lemma {:induction false} MaskIs(x: nat)
    ensures AndValue(4, x, -32) == MaskValue(x) < U32 && Aligned(MaskValue(x))
  {
    var low := x % U32;
    assert -32 % U32 == 32 * 0x7ff_ffff;
    AndShifted(low, 0x7ff_ffff);
    LowOnes();
    AndOnes(low / 32, 27);
  }

  lemma {:induction false} LowOnes()
    ensures Pow2(27) == 0x800_0000
  {
    SmallPowers();
    Pow2Add(8, 8);
    Pow2Add(16, 8);
    Pow2Add(24, 3);
  }

  lemma {:induction false} RebaseAligns(i: Instr, reg: nat, next: int, before: Registers, after: Registers)
    requires IsRebase(i, reg) && Effect(i, next, before, after)
    requires Aligned(before(reg)) && Aligned(before(REG_R14))
    ensures Aligned(after(reg))
  {
    hide Words.Or;
    OrAligned(before(reg), before(REG_R14));
  }

  lemma {:induction false} OrAligned(a: nat, b: nat)
    requires a % 32 == 0 && b % 32 == 0
    ensures Words.Or(a, b) % 32 == 0
  {
    SmallPowers();
    OrShifted(a / 32, b / 32, 5);
  }

  /** jmp through a masked register */
  lemma {:induction false} JmpStep(p: Program, s: nat, k: nat, o: nat, st: State, t: State)
    requires p.Ok() && Accepts(p) && Inside(p, s, k, o, st) && Step(p, o, st, t) && Based(st)
    requires FirstMatch(p, s, 0) == 0 && TableKept(p, s)
    ensures Covered(p, t) && Lands(p, st, At(p, o).value, t)
  {
    hide FirstMatch, Top, Effect, IsMask, IsRebase, TableKept, Accepts;
    FirstTwo(p, s, k, o);
    if k < 2 {
      MaskedPrefix(p, s, k, o, st, t);
      FallsThrough(p, s, k, o, st, t);
    } else {
      AlignedIsCovered(p, t);
    }
  }

  /** The and and the or in front of a branch. */
  lemma {:induction false} MaskedPrefix(p: Program, s: nat, k: nat, o: nat, st: State, t: State)
    requires Inside(p, s, k, o, st) && Step(p, o, st, t) && Based(st) && k < 2
    requires (FirstMatch(p, s, 0) == 0 || FirstMatch(p, s, 0) == 1) && TableKept(p, s)
    ensures Based(t) && Aligned(t.regs(At(p, s).value.op0.reg))
    ensures t.pc == st.pc + At(p, o).value.size
  {
    hide FirstMatch, Top, Effect, SkipNops;
    var first, i := At(p, s).value, At(p, o).value;
    FirstTwo(p, s, k, o);
    if k == 0 {
      MaskAligns(first, st.pc + first.size, st.regs, t.regs);
    } else {
      RebaseAligns(i, first.op0.reg, st.pc + i.size, st.regs, t.regs);
    }
    assert !Changes(p, i, REG_R14) || i.op0.reg == REG_R14;
  }

  /** Behind the first two instructions of a call: nops, and then the call. */
  lemma {:induction false} NopParts(p: Program, o: nat, count: nat, icount: nat, j: nat, at: nat)
    requires count < BUNDLE && SkipNops(p, o, count, icount).Some?
    requires j + icount < SkipNops(p, o, count, icount).value.1 && Walk(p, o + count, j) == Some(at)
    ensures At(p, at).Some?
    ensures var r := SkipNops(p, o, count, icount).value;
            if j + icount + 1 < r.1 then At(p, at).value.kind.Nop? else At(p, at).value == r.2
    decreases BUNDLE - count
  {
    var i := At(p, o + count).value;
    if i.kind.Nop? && count + i.size < BUNDLE {
      SkipNopsWalks(p, o, count + i.size, icount + 1);
      if j > 0 {
        NopParts(p, o, count + i.size, icount + 1, j - 1, at);
      }
    }
  }

  lemma {:induction false} CallParts(p: Program, s: nat, k: nat, o: nat)
    requires FirstMatch(p, s, 0) == 1 && 2 <= k < Item(p, s).ninstr && Walk(p, s, k) == Some(o)
    ensures At(p, s).Some? && At(p, o).Some?
    ensures if k + 1 < Item(p, s).ninstr then At(p, o).value.kind.Nop?
            else IsRegBranch(At(p, o).value, Call, At(p, s).value.op0.reg)
  {
    hide FirstMatch, Walk, SkipNops;
    var x := At(p, s).value.size;
    var y := x + At(p, s + x).value.size;
    WalkTwo(p, s);
    WalkFurther(p, s, 2, k - 2);
    NopParts(p, s, y, 2, k - 2, o);
  }

  /** call through a masked register */
  lemma {:induction false} CallStep(p: Program, s: nat, k: nat, o: nat, st: State, t: State)
    requires p.Ok() && Accepts(p) && Inside(p, s, k, o, st) && Step(p, o, st, t) && Based(st)
    requires FirstMatch(p, s, 0) == 1 && TableKept(p, s)
    ensures Covered(p, t) && Lands(p, st, At(p, o).value, t)
  {
    hide FirstMatch, Top, Item, IsMask, IsRebase, Walk;
    if k >= 2 {
      CallParts(p, s, k, o);
    } else {
      MaskedPrefix(p, s, k, o, st, t);
    }
    if k + 1 < Item(p, s).ninstr {
      FallsThrough(p, s, k, o, st, t);
    } else {
      CallIsLast(p, s);
      AlignedIsCovered(p, t);
    }
  }

  lemma {:induction false} CallIsLast(p: Program, s: nat)
    requires FirstMatch(p, s, 0) == 1
    ensures Item(p, s).ninstr >= 3
  {
    hide FirstMatch, SkipNops;
    var x := At(p, s).value.size;
    SkipNopsWalks(p, s, x + At(p, s + x).value.size, 2);
  }

  // ---- Runtime calls

  /** Wherever the runtime call at offset s may return to, an item begins there, or it is outside the
      code. The checker does not look at the width of the lea. */
  ghost predicate ReturnOk(p: Program, s: nat)
    requires At(p, s).Some?
  {
    forall x: nat {:trigger ReturnsTo(p, s, x)} ::
      ReturnsTo(p, s, x) && p.base <= x < p.base + p.size ==> Top(p, x - p.base)
  }

  ghost predicate ReturnsTo(p: Program, s: nat, x: nat)
    requires At(p, s).Some?
  {
    MayReturn(At(p, s).value, p.base + s + At(p, s).value.size, x)
  }

  ghost predicate ReturnsOk(p: Program) {
    forall s: nat {:trigger Top(p, s)} :: Top(p, s) && FirstMatch(p, s, 0) == 2 ==> At(p, s).Some? && ReturnOk(p, s)
  }

  lemma {:induction false} RtcallParts(p: Program, s: nat)
    requires FirstMatch(p, s, 0) == 2
    ensures At(p, s).Some? && IsReturnLea(At(p, s).value) && Item(p, s).ninstr == 2
    ensures var lea := At(p, s).value;
            && At(p, s + lea.size).Some? && IsRuntimeJump(At(p, s + lea.size).value)
            && Item(p, s).size == lea.size + At(p, s + lea.size).value.size
            && (|| lea.op1.disp == At(p, s + lea.size).value.size
                || (p.base + s + lea.size + lea.op1.disp) % U64 % BUNDLE == 0)
  {
    hide FirstMatch;
  }

  lemma {:induction false} RtcallStep(p: Program, s: nat, k: nat, o: nat, st: State, t: State)
    requires p.Ok() && Accepts(p) && Inside(p, s, k, o, st) && Step(p, o, st, t) && Based(st)
    requires FirstMatch(p, s, 0) == 2 && At(p, s).Some? && ReturnOk(p, s) && TableKept(p, s)
    ensures Covered(p, t) && Lands(p, st, At(p, o).value, t)
  {
    hide FirstMatch, Top, Item, Walk, Covered, Accepts, LeaValue;
    RtcallParts(p, s);
    FirstTwo(p, s, k, o);
    if k == 0 {
      assert MayReturn(At(p, s).value, p.base + s + At(p, s).value.size, t.regs(REG_R11));
      FallsThrough(p, s, k, o, st, t);
    } else {
      assert ReturnsTo(p, s, t.pc);
      TopIsCovered(p, t);
    }
  }

  lemma {:induction false} TopIsCovered(p: Program, st: State)
    requires Accepts(p) && Based(st)
    requires p.base <= st.pc < p.base + p.size ==> Top(p, st.pc - p.base)
    ensures Covered(p, st)
  {
    hide Top, Accepts;
    if p.base <= st.pc < p.base + p.size {
      AtTop(p, st.pc - p.base, st);
    }
  }

  /** The number of different addresses that the lea distinguishes. */
  function Width(lea: Instr): (w: nat) {
    if lea.op0.size == 8 && lea.addrSize != 4 then U64 else if lea.op0.size == 8 || lea.op0.size == 4 then U32 else U16
  }

  /** However it is cut, the return address is right up to a multiple of the width of the lea. */
  lemma {:induction false} ReturnsUpToWidth(lea: Instr, next: int, x: nat) returns (k: int)
    requires MayReturn(lea, next, x)
    ensures x == (next + lea.op1.disp) % U64 + k * Width(lea)
  {
    var a := (next + lea.op1.disp) % U64;
    var before: nat :| x == LeaValue(lea, next, before);
    var cut := if lea.addrSize == 4 then a / U32 else 0;
    var low := a - cut * U32;
    if lea.op0.size == 8 {
      k := -cut;
    } else if lea.op0.size == 4 {
      k := -cut - low / U32;
    } else {
      k := before / U16 - low / U16 - cut * U16;
    }
  }

  /** So code of up to 2^32 bytes is in order if no lea of a runtime call is cut to 16 bits, and any
      code is in order if these are of full width. */
  lemma {:induction false} ReturnsFit(p: Program)
    requires p.Ok() && Accepts(p)
    requires forall s: nat {:trigger Top(p, s)} :: Top(p, s) && FirstMatch(p, s, 0) == 2 ==>
               At(p, s).Some? && p.size <= Width(At(p, s).value)
    ensures ReturnsOk(p)
  {
    hide FirstMatch, Top, Accepts, ReturnOk, Width;
    forall s: nat | Top(p, s) && FirstMatch(p, s, 0) == 2 ensures At(p, s).Some? && ReturnOk(p, s) {
      ReturnFits(p, s);
    }
  }

  /** A return address that is a bundle, or the end of the call in code no larger than the width of
      the lea, is in order. A 64-bit lea always is. */
  lemma {:induction false} ReturnFits(p: Program, s: nat)
    requires p.Ok() && Accepts(p) && Top(p, s) && FirstMatch(p, s, 0) == 2 && At(p, s).Some?
    requires var lea := At(p, s).value;
             p.size <= Width(lea) || (p.base + s + lea.size + lea.op1.disp) % U64 % BUNDLE == 0
    ensures ReturnOk(p, s)
  {
    hide FirstMatch, Top, Item, Accepts, MayReturn, Width, IsReturnLea, IsRuntimeJump;
    var lea := At(p, s).value;
    var next := p.base + s + lea.size;
    var v := (next + lea.op1.disp) % U64;
    RtcallParts(p, s);
    assert v % BUNDLE == 0 || next + lea.op1.disp == p.base + s + Item(p, s).size;
    forall x: nat | ReturnsTo(p, s, x) && p.base <= x < p.base + p.size ensures Top(p, x - p.base) {
      var k := ReturnsUpToWidth(lea, next, x);
      ReturnIsTop(p, s, lea, v, k, x);
    }
  }

  /** Address x, which differs from the return address v by a multiple of the width. */
  lemma {:induction false} ReturnIsTop(p: Program, s: nat, lea: Instr, v: nat, k: int, x: nat)
    requires p.Ok() && Accepts(p) && Top(p, s) && p.base <= x < p.base + p.size
    requires x == v + k * Width(lea)
    requires v % BUNDLE == 0 || (p.size <= Width(lea) && v == (p.base + s + Item(p, s).size) % U64)
    ensures Top(p, x - p.base)
  {
    hide Item, Accepts, Width, Top;
    NextItem(p, s);
    if v % BUNDLE == 0 {
      MultipleAligned(p.base, x, v, k, lea);
      BundleStartIsTop(p, x - p.base);
    } else {
      ItemEnd(p.base + s + Item(p, s).size, v);
      Widths(lea);
      EndIsNear(x, v, k, Width(lea), p.base, p.size);
      if x == p.base {
        BundleStartIsTop(p, 0);
      }
    }
  }

  lemma {:induction false} MultipleAligned(base: nat, x: nat, v: nat, k: int, lea: Instr)
    requires base % BUNDLE == 0 && base <= x && x == v + k * Width(lea) && v % BUNDLE == 0
    ensures (x - base) % BUNDLE == 0
  {
    var q := Width(lea) / BUNDLE;
    assert Width(lea) == q * BUNDLE;
    assert k * (q * BUNDLE) == BUNDLE * (k * q);
    BundleMultiple(v / BUNDLE + k * q - base / BUNDLE);
  }

  lemma {:induction false} Widths(lea: Instr)
    ensures Width(lea) in {U64, U32, U16}
  {
  }

  lemma {:induction false} ItemEnd(end: nat, v: nat)
    requires end <= U64 && v == end % U64 && v % BUNDLE != 0
    ensures v == end
  {
  }

  lemma {:induction false} EndIsNear(x: nat, v: nat, k: int, width: nat, base: nat, size: nat)
    requires x == v + k * width && size <= width && width in {U64, U32, U16}
    requires base <= x < base + size && base < v <= base + size
    ensures x == v || x == base
  {
    if width == U64 {
      assert x == v + k * U64;
    } else if width == U32 {
      assert x == v + k * U32;
    } else {
      assert x == v + k * U16;
    }
  }

  // ---- Shifts

  /** A count that leaves the register as it is: none, or all of r14w shifted into itself. */
  predicate Harmless(i: Instr) {
    && i.op1.kind.RegOp? && i.op2.kind.ImmOp?
    && (|| i.op2.imm % CountLimit(i) == 0
        || (i.op2.imm % CountLimit(i) == 8 * i.op0.size && i.op1.reg == i.op0.reg))
  }

  /** The double shift leaves r14 alone, or does nothing to it. The checker does not look. */
  predicate KeepsBase(i: Instr) { !i.op0.kind.RegOp? || i.op0.reg != REG_R14 || Harmless(i) }

  predicate ShiftOk(p: Program, s: nat) {
    FirstMatch(p, s, 0) == 6 ==> ShiftAt(p, s).Some? && KeepsBase(ShiftAt(p, s).value)
  }

  /** The double shift leaves r13 alone, or does nothing to it; 32 bits would clear its upper half. */
  predicate KeepsTable(i: Instr) {
    !i.op0.kind.RegOp? || i.op0.reg != REG_R13 || (Harmless(i) && i.op0.size != 4)
  }

  /** The item at offset s leaves r13 alone. A runtime call has to read an entry of the table, which the
      checker does not make sure of. */
  predicate TableKept(p: Program, s: nat) {
    && At(p, s).Some?
    && match FirstMatch(p, s, 0)
       case 0 => At(p, s).value.op0.reg != REG_R13
       case 1 => At(p, s).value.op0.reg != REG_R13
       case 2 => ReadsEntryAt(p, s)
       case 6 => ShiftAt(p, s).Some? && KeepsTable(ShiftAt(p, s).value)
       case 7 => !Changes(p, At(p, s).value, REG_R13)
       case _ => true
  }

  predicate ReadsEntryAt(p: Program, s: nat) {
    && At(p, s).Some? && At(p, s + At(p, s).value.size).Some?
    && ReadsEntry(At(p, s + At(p, s).value.size).value)
  }

  ghost predicate TableOk(p: Program) {
    forall s: nat {:trigger Top(p, s)} :: Top(p, s) ==> TableKept(p, s)
  }

  ghost predicate ShiftsOk(p: Program) {
    forall s: nat {:trigger Top(p, s)} :: Top(p, s) ==> ShiftOk(p, s)
  }

  lemma {:induction false} ShiftKeepsBase(p: Program, i: Instr, st: State, t: State)
    requires IsDoubleShift(i) && KeepsBase(i) && KeepsTable(i) && Based(st) && t.table == st.table
    requires RegistersAfter(p, i, st, t)
    ensures Based(t)
  {
    hide ShiftEffect, Harmless;
    ShiftIsNoOther(i);
    if Changes(p, i, REG_R14) {
      EffectKeepsBase(i, st.regs, t.regs);
    } else if Changes(p, i, REG_R13) {
      EffectKeepsTable(i, st.regs, t.regs);
    }
  }

  lemma {:induction false} EffectKeepsTable(i: Instr, before: Registers, after: Registers)
    requires i.op0.kind.RegOp? && i.op0.reg == REG_R13 && Harmless(i) && i.op0.size != 4
    requires ShiftEffect(i, before, after) && before(REG_R13) < U64
    ensures after(REG_R13) == before(REG_R13)
  {
    hide Shifted, Rem;
    var w, r := 8 * i.op0.size, before(REG_R13);
    QuotRem(r, Pow2(w));
    HarmlessShift(i.kind.Shld?, w, Count(i, before), Rem(r, Pow2(w)), Rem(before(i.op1.reg), Pow2(w)));
    if i.op0.size == 8 {
      Pow2Sixty4();
      QuotIs(r, U64);
    }
  }

  lemma {:induction false} EffectKeepsBase(i: Instr, before: Registers, after: Registers)
    requires i.op0.kind.RegOp? && i.op0.reg == REG_R14 && Harmless(i)
    requires ShiftEffect(i, before, after) && Aligned(before(REG_R14))
    ensures Aligned(after(REG_R14))
  {
    hide Shifted, Written, Rem;
    var w, r := 8 * i.op0.size, before(REG_R14);
    QuotRem(r, Pow2(w));
    HarmlessShift(i.kind.Shld?, w, Count(i, before), Rem(r, Pow2(w)), Rem(before(i.op1.reg), Pow2(w)));
    RewriteKeepsAligned(i.op0.size, r);
  }

  /** Shifting by nothing, or by the whole width into itself, gives back the same bits. */
  lemma {:induction false} HarmlessShift(left: bool, w: nat, c: nat, d: nat, s: nat)
    requires d < Pow2(w) && (c == 0 || (c == w && s == d))
    ensures Shifted(left, w, c, d, s) == d
  {
    if c != 0 {
      assert Pow2(0) == 1;
      QuotIs(d, 1);
      MultipleDrops(d, d, Pow2(w));
      assert d * 1 == d;
    }
  }

  lemma {:induction false} MultipleDrops(a: nat, b: nat, q: nat)
    requires b < q
    ensures Rem(a * q + b, q) == b
  {
    if a > 0 {
      assert a * q + b - q == (a - 1) * q + b;
      MultipleDrops(a - 1, b, q);
    }
  }

  /** Writing the lower part of an aligned register back into it leaves it aligned. */
  lemma {:induction false} RewriteKeepsAligned(size: nat, r: nat)
    requires Aligned(r)
    ensures Aligned(Written(size, r, Rem(r, Pow2(8 * size))))
  {
    hide Rem;
    Pow2Sixty4();
    Pow2ThirtyTwo();
    if size == 8 {
      QuotIs(r, U64);
      WrapAligned(r);
    } else if size == 4 {
      QuotIs(r, U32);
      HalfAligned(r);
    }
  }

  lemma {:induction false} Pow2ThirtyTwo()
    ensures Pow2(32) == U32
  {
    SmallPowers();
    Pow2Add(8, 8);
    Pow2Add(16, 16);
  }

  lemma {:induction false} HalfAligned(x: nat)
    requires x % BUNDLE == 0
    ensures x % U32 % BUNDLE == 0
  {
    var m := x / 32 - x / U32 * 0x800_0000;
    assert x % U32 == 32 * m;
    BundleMultiple(m);
  }

  // ---- Runs

  /** Accepted code in which runtime calls reach the table and return as they should, and no double shift
      disturbs r14, by a list of instructions that does what it is meant to. */
  ghost predicate Sound(p: Program) {
    p.Ok() && Accepts(p) && TableOk(p) && ReturnsOk(p) && ShiftsOk(p) && ListOk(p)
  }

  lemma {:induction false} StepStaysCovered(p: Program, o: nat, st: State, t: State)
    requires Sound(p) && Covered(p, st) && Step(p, o, st, t)
    ensures Covered(p, t) && Lands(p, st, At(p, o).value, t)
  {
    hide FirstMatch, Top, Effect, Progress, Item, Walk, ReturnOk, Changes, Leads, Accepts, ListOk;
    var s: nat, k: nat, o': nat :| Inside(p, s, k, o', st);
    match FirstMatch(p, s, 0)
    case 0 => JmpStep(p, s, k, o, st, t);
    case 1 => CallStep(p, s, k, o, st, t);
    case 2 => RtcallStep(p, s, k, o, st, t);
    case 7 => SingleStep(p, s, k, o, st, t);
    case _ => PlainStep(p, s, k, o, st, t);
  }

  /** A run enters at a bundle, with both registers in order. */
  ghost predicate IsRun(p: Program, run: seq<State>) {
    && run != [] && Aligned(run[0].pc) && Based(run[0])
    && forall j: nat {:trigger StepAt(p, run[j], run[j + 1])} :: j + 1 < |run| ==> StepAt(p, run[j], run[j + 1])
  }

  ghost predicate StepAt(p: Program, s: State, t: State) {
    p.base <= s.pc < p.base + p.size && Step(p, s.pc - p.base, s, t)
  }

  /** On every run, every state is where the checker looked, or outside the code. */
  lemma {:induction false} RunsAreCovered(p: Program, run: seq<State>, j: nat)
    requires Sound(p) && IsRun(p, run) && j < |run|
    ensures Covered(p, run[j])
  {
    hide Covered, Step, TableOk, ReturnsOk, ShiftsOk, ListOk, Accepts;
    if j == 0 {
      AlignedIsCovered(p, run[0]);
    } else {
      var i: nat := j - 1;
      RunsAreCovered(p, run, i);
      assert StepAt(p, run[i], run[i + 1]);
      StepStaysCovered(p, run[i].pc - p.base, run[i], run[j]);
    }
  }

  lemma {:induction false} BundleWalks(p: Program, o: nat, limit: nat) returns (n: nat)
    requires BundleOk(p, o, limit) && o <= limit && o <= p.size
    ensures Walk(p, o, n) == Some(Min(limit, p.size))
    decreases limit - o
  {
    hide ItemOk, Item, Walk;
    if o == limit || o == p.size {
      WalkNothing(p, o);
      n := 0;
    } else {
      ItemFits(p, o);
      ItemWalks(p, o);
      var k := BundleWalks(p, o + Item(p, o).size, limit);
      WalkFurther(p, o, Item(p, o).ninstr, k);
      n := Item(p, o).ninstr + k;
    }
  }

  lemma {:induction false} ReachBundle(p: Program, b: nat) returns (n: nat)
    requires Accepts(p) && b % BUNDLE == 0 && b <= p.size
    ensures Walk(p, 0, n) == Some(b)
  {
    hide BundleOk, Walk;
    if b == 0 {
      WalkNothing(p, 0);
      n := 0;
    } else {
      var before: nat := b - BUNDLE;
      var k := ReachBundle(p, before);
      assert BundleAt(p, before);
      var m := BundleWalks(p, before, b);
      WalkFurther(p, 0, k, m);
      n := k + m;
    }
  }

  lemma {:induction false} ReachTop(p: Program, from: nat, s: nat) returns (n: nat)
    requires TopFrom(p, from, s)
    ensures Walk(p, from, n) == Some(s)
    decreases s - from
  {
    hide Item, Walk;
    if from == s {
      WalkNothing(p, from);
      n := 0;
    } else {
      ItemWalks(p, from);
      var k := ReachTop(p, from + Item(p, from).size, s);
      WalkFurther(p, from, Item(p, from).ninstr, k);
      n := Item(p, from).ninstr + k;
    }
  }

  /** So every instruction a run executes is one that decoding from the start of the code, one
      instruction behind the other, comes to. */
  lemma {:induction false} RunsStayOnDecodedStarts(p: Program, run: seq<State>, j: nat) returns (n: nat)
    requires Sound(p) && IsRun(p, run) && j < |run|
    requires p.base <= run[j].pc < p.base + p.size
    ensures Walk(p, 0, n) == Some(run[j].pc - p.base)
  {
    hide TableOk, ReturnsOk, ShiftsOk, ListOk, Accepts, IsRun, Progress, Item, Walk, TopFrom;
    RunsAreCovered(p, run, j);
    var s: nat, k: nat, o: nat :| Inside(p, s, k, o, run[j]);
    var b := ReachBundle(p, s - s % BUNDLE);
    var m := ReachTop(p, s - s % BUNDLE, s);
    WalkFurther(p, 0, b, m);
    WalkFurther(p, 0, b + m, k);
    n := b + m + k;
  }

  /** And no step enters a macro-instruction but at its first instruction. */
  lemma {:induction false} BranchesEnterItems(p: Program, run: seq<State>, j: nat)
    requires Sound(p) && IsRun(p, run) && j + 1 < |run|
    ensures StepAt(p, run[j], run[j + 1])
    ensures Lands(p, run[j], At(p, run[j].pc - p.base).value, run[j + 1])
  {
    hide TableOk, ReturnsOk, ShiftsOk, ListOk, Accepts, Covered, Lands;
    RunsAreCovered(p, run, j);
    assert StepAt(p, run[j], run[j + 1]);
    StepStaysCovered(p, run[j].pc - p.base, run[j], run[j + 1]);
  }
}
