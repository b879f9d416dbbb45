/** Accepted programs whose runtime calls miss the table: by a shift of r13, a masked jump through it, a
    displacement that names no entry, or, where r13 is not reserved, a plain move. */
module TableExamples {
  import opened Options
  import opened Numbers
  import opened Bundles
  import opened BundleRuns
  import opened BundleEscapes
  import opened BundleExamples
  import opened ShiftEscapes

  /** Every condition holds but the one on the table. */
  ghost predicate OnlyTableFails(p: Program) {
    p.Ok() && Accepts(p) && ReturnsOk(p) && ShiftsOk(p) && ListOk(p) && !TableOk(p)
  }

  /** Some run from the start comes to offset 33, where decoding never comes. */
  ghost predicate Strays(p: Program) {
    Arrives(p, 0, p.base + 33) && forall n: nat :: Walk(p, 0, n) != Some(33)
  }

  function LeaBehind(): Instr { Bare(Lea, 7, Reg(8, REG_R11), Mem(REG_IP, 7), NONE) }
  function TableJump(disp: int): Instr { Bare(Jmp, 7, Mem(REG_R13, disp), NONE, NONE) }

  // ---- An instruction, a runtime call, and nops

  function CallCode(first: Instr, disp: int, o: nat): Option<Instr> {
    if o == 0 then Some(first)
    else if o == first.size then Some(LeaBehind())
    else if o == first.size + 7 then Some(TableJump(disp))
    else if o == first.size + 14 && first.size < 10 then Some(NopOf(10 - first.size))
    else if o % 8 == 0 then Some(NopOf(8))
    else None
  }

  function Calling(first: Instr, disp: int, decl: bool): Program {
    Program((o: nat) => CallCode(first, disp, o), 64, 0, false, decl, (i: Instr) => i.kind.Nop? || i.kind.Mov?,
            (i: Instr, q: nat) => false, (i: Instr) => false)
  }

  /** The first instruction is an item of its own, and no other double shift is around. */
  ghost predicate Begins(p: Program, first: Instr, disp: int, decl: bool) {
    && p == Calling(first, disp, decl) && first.size in {3, 5} && OkDisp(disp)
    && ItemOk(p, 0) && Item(p, 0).size == first.size && first.op0.reg != REG_R14 && !first.kind.Lea?
  }

  lemma {:induction false} CallItem(p: Program, first: Instr, disp: int, decl: bool)
    requires Begins(p, first, disp, decl)
    ensures var n := first.size;
            && FirstMatch(p, n, 0) == 2 && Item(p, n) == MacroInst(14, 2) && ItemOk(p, n)
            && At(p, n) == Some(LeaBehind()) && At(p, n + 7) == Some(TableJump(disp))
  {
    hide SkipNops, Item, ItemOk, MacroModSp, MacroSteps, MacroShxd;
    assert FirstMatch(p, first.size, 2) == 2;
    CallItemIs(p, first.size);
  }

  lemma {:induction false} CallItemIs(p: Program, n: nat)
    requires FirstMatch(p, n, 0) == 2 && MacroRtcall(p, n) == MacroInst(14, 2)
    ensures Item(p, n) == MacroInst(14, 2) && ItemOk(p, n)
  {
    hide FirstMatch, MacroRtcall;
  }

  lemma {:induction false} CallNops(p: Program, first: Instr, disp: int, decl: bool, o: nat)
    requires Begins(p, first, disp, decl) && (o == first.size + 14 || (o % 8 == 0 && 24 <= o < 64))
    ensures Item(p, o) == MacroInst(if o == first.size + 14 then 10 - first.size else 8, 1) && ItemOk(p, o)
  {
    hide Item, ItemOk;
    if o == first.size + 14 {
      NopItem(p, o, 10 - first.size);
    } else {
      NopItem(p, o, 8);
    }
  }

  lemma {:induction false} CallBundle(p: Program, first: Instr, disp: int, decl: bool, b: nat)
    requires Begins(p, first, disp, decl) && b % BUNDLE == 0 && b < p.size
    ensures BundleAt(p, b)
  {
    hide Item, ItemOk, CallCode;
    CallNops(p, first, disp, decl, b + 24);
    assert BundleOk(p, b + 24, b + 32);
    if b == 0 {
      CallItem(p, first, disp, decl);
      CallNops(p, first, disp, decl, first.size + 14);
      assert BundleOk(p, first.size + 14, 32);
      assert BundleOk(p, first.size, 32);
    } else {
      CallNops(p, first, disp, decl, b);
      CallNops(p, first, disp, decl, b + 8);
      CallNops(p, first, disp, decl, b + 16);
      assert BundleOk(p, b + 8, b + 32);
    }
  }

  /** A full lea always returns as it should in code as small as this. */
  lemma {:induction false} FullLeaReturns(p: Program)
    requires p.Ok() && Accepts(p) && p.size == 64
    requires forall o: nat {:trigger At(p, o)} :: At(p, o).Some? && At(p, o).value.kind.Lea? ==>
               At(p, o).value == LeaBehind()
    ensures ReturnsOk(p)
  {
    hide FirstMatch, Top, Accepts;
    forall s: nat | Top(p, s) && FirstMatch(p, s, 0) == 2 ensures At(p, s).Some? && p.size <= Width(At(p, s).value) {
      RtcallParts(p, s);
    }
    ReturnsFit(p);
  }

  lemma {:induction false} CallAccepted(p: Program, first: Instr, disp: int, decl: bool)
    requires Begins(p, first, disp, decl)
    ensures p.Ok() && Accepts(p) && ReturnsOk(p) && ShiftsOk(p) && ListOk(p)
    ensures forall n: nat :: Walk(p, 0, n) != Some(33)
    ensures Top(p, 0) && Top(p, first.size)
  {
    hide Item, ItemOk, FirstMatch, BundleAt, Walk;
    forall b: nat | b % BUNDLE == 0 && b < p.size ensures BundleAt(p, b) {
      CallBundle(p, first, disp, decl, b);
    }
    FullLeaReturns(p);
    NoBaseShift(p);
    forall n: nat ensures Walk(p, 0, n) != Some(33) {
      CallWalk(p, first, disp, decl, 0, n);
    }
    CallItem(p, first, disp, decl);
    assert TopFrom(p, first.size, first.size);
  }

  lemma {:induction false} CallWalk(p: Program, first: Instr, disp: int, decl: bool, o: nat, n: nat)
    requires p == Calling(first, disp, decl) && first.size in {3, 5}
    requires o % 8 == 0 || o in {first.size, first.size + 7, first.size + 14}
    requires o < 8 ==> o in {0, first.size}
    ensures Walk(p, o, n) != Some(33)
    decreases n
  {
    if n > 0 && At(p, o).Some? {
      CallWalk(p, first, disp, decl, o + At(p, o).value.size, n - 1);
    }
  }

  // ---- Four ways to miss the table

  /** shld $63, %rax, %r13 */
  function ShiftOfTable(): Instr { Bare(Shld, 5, Reg(8, REG_R13), Reg(8, 0), Imm(1, 63)) }

  lemma {:induction false} ShiftedTableEscapes(p: Program)
    requires p == Calling(ShiftOfTable(), 0, true)
    ensures OnlyTableFails(p) && Strays(p)
  {
    hide Item, ItemOk, FirstMatch, Walk, Accepts, ReturnsOk, ShiftsOk, ListOk, CallCode;
    ShiftBegins(p);
    CallAccepted(p, ShiftOfTable(), 0, true);
    CallItem(p, ShiftOfTable(), 0, true);
    assert !TableKept(p, 0);
    ShiftedCallEscapes(p, 0, 5, p.base + 33);
  }

  lemma {:induction false} ShiftBegins(p: Program)
    requires p == Calling(ShiftOfTable(), 0, true)
    ensures Begins(p, ShiftOfTable(), 0, true) && FirstMatch(p, 0, 0) == 6 && ShiftAt(p, 0) == Some(ShiftOfTable())
  {
    hide SkipNops;
    assert FirstMatch(p, 0, 5) == 6;
    assert FirstMatch(p, 0, 3) == 6;
  }

  /** A displacement that the checker lets pass although the table has no entry there, negative or not. */
  lemma {:induction false} NoEntryIsAccepted(p: Program, disp: int)
    requires OkDisp(disp) && !(0 <= disp < 8 * RTCALLS) && p == Calling(NopOf(3), disp, true)
    ensures OnlyTableFails(p) && Strays(p)
  {
    hide Item, ItemOk, FirstMatch, Walk, Accepts, ReturnsOk, ShiftsOk, ListOk, CallCode;
    NopBegins(p, disp);
    CallAccepted(p, NopOf(3), disp, true);
    CallItem(p, NopOf(3), disp, true);
    assert !TableKept(p, 3);
    NopThenCall(p, 3, p.base + 33);
  }

  /** The run over a nop to a runtime call that reads no entry. */
  lemma {:induction false} NopThenCall(p: Program, u: nat, x: nat)
    requires p.Ok() && At(p, 0).Some? && At(p, 0).value.kind.Nop? && u == At(p, 0).value.size
    requires FirstMatch(p, u, 0) == 2 && At(p, u).Some? && !ReadsEntryAt(p, u)
    ensures Arrives(p, 0, x)
  {
    hide FirstMatch, IsRun, StepAt, ReadsEntryAt;
    var st := State(p.base, Only(0, 0), 0);
    BundleReached(p, 0, st.regs, 0);
    NopSteps(p, 0, st);
    var front := Longer(p, [st], st.(pc := p.base + u));
    LostTableEscapes(p, 0, u, front, x);
  }

  lemma {:induction false} NopBegins(p: Program, disp: int)
    requires OkDisp(disp) && p == Calling(NopOf(3), disp, true)
    ensures Begins(p, NopOf(3), disp, true) && At(p, 0) == Some(NopOf(3))
  {
    hide Item, ItemOk;
    NopItem(p, 0, 3);
  }

  /** mov %rax, %r13 */
  function MoveToTable(): Instr { Bare(Mov, 3, Reg(8, REG_R13), Reg(8, 0), NONE) }

  /** With neither option r13 is not reserved. */
  lemma {:induction false} UnreservedIsAccepted(p: Program)
    requires p == Calling(MoveToTable(), 0, false)
    ensures OnlyTableFails(p) && Strays(p)
  {
    hide Item, ItemOk, FirstMatch, Walk, Accepts, ReturnsOk, ShiftsOk, ListOk, CallCode;
    MoveBegins(p);
    CallAccepted(p, MoveToTable(), 0, false);
    CallItem(p, MoveToTable(), 0, false);
    assert !TableKept(p, 0);
    var st, next := UnreservedChanges(p, 0);
    UnreservedEscapes(p, 0, st, next, p.base + 33);
  }

  lemma {:induction false} MoveBegins(p: Program)
    requires p == Calling(MoveToTable(), 0, false)
    ensures Begins(p, MoveToTable(), 0, false) && FirstMatch(p, 0, 0) == MATCHERS && At(p, 0) == Some(MoveToTable())
  {
    hide SkipNops;
    assert FirstMatch(p, 0, 6) == 7;
    assert FirstMatch(p, 0, 4) == 7;
    assert FirstMatch(p, 0, 2) == 7;
  }

  // ---- A masked jump through r13, and a runtime call in the next bundle

  function MaskedCode(o: nat): Option<Instr> {
    if o == 0 then Some(Bare(And, 4, Reg(4, REG_R13), Imm(4, -32), NONE))
    else if o == 4 then Some(Bare(Or, 3, Reg(8, REG_R13), Reg(8, REG_R14), NONE))
    else if o == 7 then Some(Bare(Jmp, 3, Reg(8, REG_R13), NONE, NONE))
    else if o == 10 then Some(NopOf(6))
    else if o == 32 then Some(LeaBehind())
    else if o == 39 then Some(TableJump(0))
    else if o == 46 then Some(NopOf(2))
    else if o % 8 == 0 then Some(NopOf(8))
    else None
  }

  function MaskedTable(): Program { NopsOnly(MaskedCode, 64, 0) }

  lemma {:induction false} MaskedStarts(p: Program)
    requires p == MaskedTable()
    ensures FirstMatch(p, 0, 0) == 0 && Item(p, 0) == MacroInst(10, 3) && ItemOk(p, 0) && At(p, 0) == MaskedCode(0)
    ensures FirstMatch(p, 32, 0) == 2 && Item(p, 32) == MacroInst(14, 2) && ItemOk(p, 32)
    ensures At(p, 32) == MaskedCode(32)
  {
    hide SkipNops;
    assert FirstMatch(p, 32, 2) == 2;
  }

  lemma {:induction false} MaskedNops(p: Program, o: nat)
    requires p == MaskedTable() && (o == 10 || o == 46 || (o % 8 == 0 && 16 <= o < 64 && o != 32 && o != 40))
    ensures Item(p, o) == MacroInst(if o == 10 then 6 else if o == 46 then 2 else 8, 1) && ItemOk(p, o)
  {
    hide Item, ItemOk;
    NopItem(p, o, if o == 10 then 6 else if o == 46 then 2 else 8);
  }

  /** A bundle of four items, of which the last two have eight bytes each. */
  lemma {:induction false} FourItems(p: Program, b: nat, o: nat)
    requires b < p.size && b < o < b + 16 && ItemOk(p, b) && b + Item(p, b).size == o
    requires ItemOk(p, o) && o + Item(p, o).size == b + 16
    requires ItemOk(p, b + 16) && Item(p, b + 16).size == 8 && ItemOk(p, b + 24) && Item(p, b + 24).size == 8
    ensures BundleAt(p, b)
  {
    hide Item, ItemOk;
    assert BundleOk(p, b + 24, b + 32);
    assert BundleOk(p, o, b + 32);
  }

  lemma {:induction false} MaskedBundles(p: Program)
    requires p == MaskedTable()
    ensures BundleAt(p, 0) && BundleAt(p, 32)
  {
    hide Item, ItemOk, FirstMatch, At, MaskedCode, BundleAt;
    MaskedStarts(p);
    MaskedNops(p, 10);
    MaskedNops(p, 16);
    MaskedNops(p, 24);
    FourItems(p, 0, 10);
    MaskedNops(p, 46);
    MaskedNops(p, 48);
    MaskedNops(p, 56);
    FourItems(p, 32, 46);
  }

  lemma {:induction false} MaskedWalk(p: Program, o: nat, n: nat)
    requires p == MaskedTable() && (o % 8 == 0 || o in {4, 7, 10, 39, 46}) && o != 8
    ensures Walk(p, o, n) != Some(33)
    decreases n
  {
    if n > 0 && At(p, o).Some? {
      MaskedWalk(p, o + At(p, o).value.size, n - 1);
    }
  }

  lemma {:induction false} MaskedTableIsAccepted(p: Program)
    requires p == MaskedTable()
    ensures OnlyTableFails(p) && Strays(p)
  {
    hide Item, ItemOk, FirstMatch, BundleAt, Walk, ReturnsOk, ShiftsOk, ListOk;
    NopsAreListed(p, MaskedCode, 64, 0);
    MaskedBundles(p);
    assert forall b: nat :: b % BUNDLE == 0 && b < 64 ==> b == 0 || b == 32;
    FullLeaReturns(p);
    NoBaseShift(p);
    forall n: nat ensures Walk(p, 0, n) != Some(33) {
      MaskedWalk(p, 0, n);
    }
    MaskedStarts(p);
    assert Top(p, 0) && !TableKept(p, 0);
    MaskedTableEscapes(p, 0, 32, p.base + 33);
  }
}
