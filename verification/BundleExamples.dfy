/** Programs that the checker of amd64 code accepts, and runs of them that execute instructions it never
    saw. Each breaks just one of the conditions of BundleRuns. */
module BundleExamples {
  import opened Options
  import opened PowersOfTwo
  import opened Products
  import opened Words
  import opened Bundles
  import opened BundleRuns
  import opened BundleEscapes
  import opened ShiftEscapes

  function NopOf(size: nat): Instr requires 1 <= size <= 15 { Decoded(Nop, size, NONE, NONE, NONE, 8, REG_NONE) }

  function Reg(size: nat, reg: nat): Operand { Operand(RegOp, size, reg, 0, REG_NONE, REG_NONE, 0, 0) }
  function Imm(size: nat, imm: int): Operand { Operand(ImmOp, size, REG_NONE, imm, REG_NONE, REG_NONE, 0, 0) }
  function Mem(base: nat, disp: int): Operand { Operand(MemOp, 8, REG_NONE, 0, base, REG_NONE, 0, disp) }

  /** An instruction without prefixes. */
  function Bare(kind: Kind, size: nat, op0: Operand, op1: Operand, op2: Operand): Instr
    requires 1 <= size <= 15
  {
    Decoded(kind, size, op0, op1, op2, 8, REG_NONE)
  }

  /** Code of which, of single instructions, only nops are on the list; r13 is reserved. */
  function NopsOnly(decode: nat -> Option<Instr>, size: nat, base: nat): Program {
    Program(decode, size, base, false, true,
            (i: Instr) => i.kind.Nop?, (i: Instr, q: nat) => false, (i: Instr) => false)
  }

  lemma {:induction false} NopsAreListed(p: Program, decode: nat -> Option<Instr>, size: nat, base: nat)
    requires p == NopsOnly(decode, size, base)
    ensures ListOk(p)
  {
  }

  /** No instruction changes r13, and jumps through memory read entries of the table. */
  ghost predicate LeavesTable(p: Program) {
    forall o: nat {:trigger At(p, o)} :: At(p, o).Some? ==>
      !Changes(p, At(p, o).value, REG_R13) && (IsRuntimeJump(At(p, o).value) ==> ReadsEntry(At(p, o).value))
  }

  lemma {:induction false} TableIsLeft(p: Program)
    requires LeavesTable(p) && Accepts(p)
    ensures TableOk(p)
  {
    hide FirstMatch, Top, Accepts, IsRuntimeJump, ReadsEntry;
    forall s: nat | Top(p, s) ensures TableKept(p, s) {
      NextItem(p, s);
      ItemBegins(p, s);
      if FirstMatch(p, s, 0) == 2 {
        RtcallParts(p, s);
      } else if FirstMatch(p, s, 0) == 6 {
        ShiftIsThere(p, s);
      } else if FirstMatch(p, s, 0) == 1 {
        CallIsLast(p, s);
      }
    }
  }

  lemma {:induction false} ShiftIsThere(p: Program, s: nat)
    requires FirstMatch(p, s, 0) == 6
    ensures ShiftAt(p, s).Some? && IsDoubleShift(ShiftAt(p, s).value)
    ensures ShiftAt(p, s) == At(p, s) || (At(p, s).Some? && ShiftAt(p, s) == At(p, s + At(p, s).value.size))
  {
    hide FirstMatch;
  }

  /** No double shift has r14 as its destination. */
  lemma {:induction false} NoBaseShift(p: Program)
    requires forall o: nat {:trigger At(p, o)} :: At(p, o).Some? && IsDoubleShift(At(p, o).value) ==>
               At(p, o).value.op0.reg != REG_R14
    ensures ShiftsOk(p)
  {
    hide FirstMatch, Top;
    forall s: nat | Top(p, s) ensures ShiftOk(p, s) {
      if FirstMatch(p, s, 0) == 6 {
        ShiftIsThere(p, s);
      }
    }
  }

  /** A nop is an item of its own, unless a double shift comes behind it. */
  lemma {:induction false} NopItem(p: Program, o: nat, size: nat)
    requires 1 <= size <= 15 && At(p, o) == Some(NopOf(size)) && p.allowed(NopOf(size))
    requires At(p, o + size).Some? ==> !IsDoubleShift(At(p, o + size).value)
    ensures Item(p, o) == MacroInst(size, 1) && ItemOk(p, o)
  {
    NoMatch(p, o, size);
  }

  lemma {:induction false} NoMatch(p: Program, o: nat, size: nat)
    requires 1 <= size <= 15 && At(p, o) == Some(NopOf(size))
    requires At(p, o + size).Some? ==> !IsDoubleShift(At(p, o + size).value)
    ensures FirstMatch(p, o, 0) == MATCHERS
  {
    hide At, SkipNops;
    assert FirstMatch(p, o, 6) == 7;
    assert FirstMatch(p, o, 4) == 7;
    assert FirstMatch(p, o, 2) == 7;
  }

  // ---- A runtime call with a 16-bit lea, and 64 KiB of nops of eight bytes

  function NarrowCode(o: nat): Option<Instr> {
    if o == 0 then Some(Bare(Lea, 8, Reg(2, REG_R11), Mem(REG_IP, 4), NONE))
    else if o == 8 then Some(Bare(Jmp, 4, Mem(REG_R13, 0), NONE, NONE))
    else if o == 12 then Some(NopOf(4))
    else if o % 8 == 0 then Some(NopOf(8))
    else None
  }

  function Narrow(): Program { NopsOnly(NarrowCode, 0x1_0020, 0x1_0000) }

  lemma {:induction false} NarrowStarts(p: Program)
    requires p == Narrow()
    ensures FirstMatch(p, 0, 0) == 2 && Item(p, 0) == MacroInst(12, 2) && ItemOk(p, 0) && At(p, 0) == NarrowCode(0)
  {
    hide SkipNops;
    assert FirstMatch(p, 0, 2) == 2;
  }

  /** Behind the call there are nops of eight bytes. */
  lemma {:induction false} NarrowNops(p: Program, o: nat)
    requires p == Narrow() && o % 8 == 0 && 16 <= o < p.size
    ensures Item(p, o) == MacroInst(8, 1) && ItemOk(p, o)
  {
    NopItem(p, o, 8);
  }

  lemma {:induction false} NarrowBundle(p: Program, b: nat)
    requires p == Narrow() && b % BUNDLE == 0 && b < p.size
    ensures BundleAt(p, b)
  {
    hide Item, ItemOk;
    if b == 0 {
      NarrowStarts(p);
      NopItem(p, 12, 4);
      NarrowNops(p, 16);
      NarrowNops(p, 24);
      assert BundleOk(p, 24, 32);
      assert BundleOk(p, 12, 32);
    } else {
      NarrowNops(p, b);
      NarrowNops(p, b + 8);
      NarrowNops(p, b + 16);
      NarrowNops(p, b + 24);
      assert BundleOk(p, b + 24, b + 32);
      assert BundleOk(p, b + 8, b + 32);
    }
  }

  lemma {:induction false} NarrowAccepted(p: Program)
    requires p == Narrow()
    ensures p.Ok() && Accepts(p) && TableOk(p) && ShiftsOk(p) && ListOk(p)
  {
    hide Item, ItemOk, FirstMatch, BundleAt;
    NopsAreListed(p, NarrowCode, 0x1_0020, 0x1_0000);
    forall b: nat | b % BUNDLE == 0 && b < p.size ensures BundleAt(p, b) {
      NarrowBundle(p, b);
    }
    NoBaseShift(p);
    TableIsLeft(p);
  }

  /** With 0x20000 in r11 the call returns into the nop at 0x10008. */
  lemma {:induction false} NarrowReturns(p: Program)
    requires p == Narrow()
    ensures !ReturnsOk(p)
  {
    hide FirstMatch, Item, ItemOk;
    NarrowStarts(p);
    NarrowNops(p, 0x1_0000);
    NarrowNops(p, 0x1_0008);
    assert !TopFrom(p, 0x1_0008, 0x1_000c);
    assert LeaValue(At(p, 0).value, 0x1_0008, 0x2_0000) == 0x2_000c;
    assert ReturnsTo(p, 0, 0x2_000c);
    assert Top(p, 0);
  }

  /** Decoding from the start never comes to this offset. */
  lemma {:induction false} NarrowWalk(p: Program, o: nat, n: nat)
    requires p == Narrow() && (o % 8 == 0 || o == 12)
    ensures Walk(p, o, n) != Some(0x1_000c)
    decreases n
  {
    if n > 0 && At(p, o).Some? {
      NarrowWalk(p, o + At(p, o).value.size, n - 1);
    }
  }

  /** This code is accepted, and a run of it comes to an offset that decoding never comes to. */
  lemma {:induction false} NarrowReturnEscapes(p: Program) returns (run: seq<State>)
    requires p == Narrow()
    ensures p.Ok() && Accepts(p) && TableOk(p) && ShiftsOk(p) && ListOk(p) && !ReturnsOk(p)
    ensures IsRun(p, run) && |run| == 3 && Last(run).pc == p.base + 0x1_000c
    ensures forall n: nat :: Walk(p, 0, n) != Some(0x1_000c)
  {
    hide Item, ItemOk, FirstMatch, Walk, Accepts, TableOk, ShiftsOk, ListOk, ReturnsOk;
    NarrowAccepted(p);
    NarrowReturns(p);
    NarrowStarts(p);
    BundleReached(p, 0, Only(REG_R11, 0x2_0000), 0);
    run := CallGoesOn(p, 0, [State(p.base, Only(REG_R11, 0x2_0000), 0)]);
    assert ReturnAddress(p, 0, 0x2_0000) == 0x2_000c;
    forall n: nat ensures Walk(p, 0, n) != Some(0x1_000c) {
      NarrowWalk(p, 0, n);
    }
  }

  // ---- A double shift of r14, a masked jump through rcx, and nops

  function ShiftedCode(o: nat): Option<Instr> {
    if o == 0 then Some(Bare(Shld, 5, Reg(8, REG_R14), Reg(8, 0), Imm(1, 1)))
    else if o == 5 then Some(Bare(And, 3, Reg(4, REG_CX), Imm(4, -32), NONE))
    else if o == 8 then Some(Bare(Or, 3, Reg(8, REG_CX), Reg(8, REG_R14), NONE))
    else if o == 11 then Some(Bare(Jmp, 2, Reg(8, REG_CX), NONE, NONE))
    else if o == 13 then Some(NopOf(3))
    else if o % 8 == 0 then Some(NopOf(8))
    else None
  }

  function ShiftedBase(): Program { NopsOnly(ShiftedCode, 64, 0) }

  lemma {:induction false} ShiftedStarts(p: Program)
    requires p == ShiftedBase()
    ensures FirstMatch(p, 0, 0) == 6 && Item(p, 0) == MacroInst(5, 1) && ItemOk(p, 0) && ShiftAt(p, 0) == ShiftedCode(0)
    ensures FirstMatch(p, 5, 0) == 0 && Item(p, 5) == MacroInst(8, 3) && ItemOk(p, 5) && At(p, 5) == ShiftedCode(5)
  {
    hide SkipNops;
    assert FirstMatch(p, 0, 5) == 6;
    assert FirstMatch(p, 0, 3) == 6;
  }

  lemma {:induction false} ShiftedNops(p: Program, o: nat)
    requires p == ShiftedBase() && o % 8 == 0 && 16 <= o < p.size
    ensures Item(p, o) == MacroInst(8, 1) && ItemOk(p, o)
  {
    NopItem(p, o, 8);
  }

  lemma {:induction false} ShiftedBundle(p: Program, b: nat)
    requires p == ShiftedBase() && b % BUNDLE == 0 && b < p.size
    ensures BundleAt(p, b)
  {
    hide Item, ItemOk;
    ShiftedNops(p, b + 16);
    ShiftedNops(p, b + 24);
    assert BundleOk(p, b + 24, b + 32);
    if b == 0 {
      ShiftedStarts(p);
      NopItem(p, 13, 3);
      assert BundleOk(p, 13, 32);
      assert BundleOk(p, 5, 32);
    } else {
      ShiftedNops(p, b);
      ShiftedNops(p, b + 8);
      assert BundleOk(p, b + 8, b + 32);
    }
  }

  lemma {:induction false} ShiftedAccepted(p: Program)
    requires p == ShiftedBase()
    ensures p.Ok() && Accepts(p) && TableOk(p) && ReturnsOk(p) && ListOk(p)
  {
    hide Item, ItemOk, FirstMatch, BundleAt, ReturnsOk;
    NopsAreListed(p, ShiftedCode, 64, 0);
    ShiftedReturns(p);
    forall b: nat | b % BUNDLE == 0 && b < p.size ensures BundleAt(p, b) {
      ShiftedBundle(p, b);
    }
    TableIsLeft(p);
  }

  lemma {:induction false} ShiftedReturns(p: Program)
    requires p == ShiftedBase()
    ensures ReturnsOk(p)
  {
    hide FirstMatch, Top;
    forall s: nat | Top(p, s) ensures FirstMatch(p, s, 0) != 2 {
      if FirstMatch(p, s, 0) == 2 {
        RtcallParts(p, s);
        assert false;
      }
    }
  }

  lemma {:induction false} ShiftedWalk(p: Program, o: nat, n: nat)
    requires p == ShiftedBase() && (o % 8 == 0 || o == 5 || o == 11 || o == 13)
    ensures Walk(p, o, n) != Some(33)
    decreases n
  {
    if n > 0 && At(p, o).Some? {
      ShiftedWalk(p, o + At(p, o).value.size, n - 1);
    }
  }

  /** With 2^63 in rax the shift makes the base one. */
  lemma {:induction false} ShiftedByOne(i: Instr, before: Registers)
    requires Some(i) == ShiftedCode(0) && before(REG_R14) == 0 && before(0) == Pow2(63)
    ensures ShiftEffect(i, before, With(before, REG_R14, 1))
  {
    hide Quot, Rem, Shifted;
    Pow2StrictMono(63, 64);
    Kept(0, 64);
    Kept(Pow2(63), 64);
    OneComesIn();
  }

  lemma {:induction false} OneComesIn()
    ensures Shifted(true, 64, 1, 0, Pow2(63)) == 1
  {
    Pow2StrictMono(0, 64);
    HalfAndOne(Pow2(63));
    Kept(1, 64);
  }

  /** This code is accepted as well. It breaks no condition but the one on shifts, and a run of it comes
      into the middle of an instruction. */
  lemma {:induction false} ShiftedBaseEscapes(p: Program) returns (run: seq<State>)
    requires p == ShiftedBase()
    ensures p.Ok() && Accepts(p) && TableOk(p) && ReturnsOk(p) && ListOk(p) && !ShiftsOk(p)
    ensures IsRun(p, run) && Last(run).pc == p.base + 33
    ensures forall n: nat :: Walk(p, 0, n) != Some(33)
  {
    hide Item, ItemOk, FirstMatch, Walk, ShiftEffect, Words.Or, IsRun, Accepts, TableOk, ReturnsOk, ListOk;
    ShiftedAccepted(p);
    ShiftedStarts(p);
    assert Top(p, 0) && !ShiftOk(p, 0);
    var before := With(Only(0, Pow2(63)), REG_CX, 32);
    ShiftedByOne(ShiftAt(p, 0).value, before);
    run := ShiftThenJump(p, 0, 5, before, 1);
    OrOne();
    forall n: nat ensures Walk(p, 0, n) != Some(33) {
      ShiftedWalk(p, 0, n);
    }
  }

  lemma {:induction false} OrOne()
    ensures Words.Or(32, 1) == 33
  {
    SmallPowers();
    OrDisjoint(1, 1, 5);
  }
}
