/** Double shifts of the two registers that the program may not touch: what they do to them, exactly, and
    where runs go behind them. */
module ShiftEscapes {
  import opened Numbers
  import opened Options
  import opened PowersOfTwo
  import opened Products
  import opened Words
  import opened Bundles
  import opened BundleRuns
  import opened BundleEscapes

  /** A double shift as the processor has it: two registers, and a count in an immediate or in cl. */
  predicate IsRealShift(i: Instr) {
    && IsDoubleShift(i) && i.op0.kind.RegOp? && i.op1.kind.RegOp? && i.op0.size in {2, 4, 8}
    && (i.op2.kind.ImmOp? || i.op2.kind.RegOp?)
  }

  /** A count in cl that the mask in front of a shift leaves as it is. */
  predicate CountKept(x: nat) { x % 256 < 16 }

  predicate Low(x: nat) { 0 < x < BUNDLE }

  /** Bits that a shift by 0 < c < w moves out of their place: d is aligned, and with d or s shifted in
      it no longer is. */
  lemma {:induction false} Moved(left: bool, w: nat, c: nat) returns (d: nat, s: nat)
    requires w in {16, 32, 64} && 0 < c < w
    ensures d % BUNDLE == 0 && d < Pow2(w) && s < Pow2(w) && CountKept(s)
    ensures Low(Shifted(left, w, c, d, d)) && Low(Shifted(left, w, c, d, s))
  {
    if left {
      d, s := MovedLeft(w, c);
    } else {
      d := MovedRight(w, c);
      s := 0;
    }
  }

  lemma {:induction false} MovedLeft(w: nat, c: nat) returns (d: nat, s: nat)
    requires w in {16, 32, 64} && 0 < c < w
    ensures d % BUNDLE == 0 && d < Pow2(w) && s < Pow2(w) && CountKept(s)
    ensures Low(Shifted(true, w, c, d, d)) && Low(Shifted(true, w, c, d, s))
  {
    var m: nat := if w - c >= 5 then w - c else 5;
    d := Pow2(m);
    PowerAligned(m);
    Pow2StrictMono(m, w);
    ShiftedIn(w, c, m, m - (w - c));
    var k: nat := if 4 <= w - c <= 7 then w - c + 4 else w - c;
    s := Pow2(k);
    Pow2StrictMono(k, w);
    LowByte(k);
    ShiftedIn(w, c, m, k - (w - c));
  }

  /** A left shift of 2^m drops its one bit, and brings in bit out of the other register. */
  lemma {:induction false} ShiftedIn(w: nat, c: nat, m: nat, out: nat)
    requires 0 < c < w && m + c >= w && out < 5 && w - c + out < w
    ensures Low(Shifted(true, w, c, Pow2(m), Pow2(w - c + out)))
  {
    hide Quot, Rem;
    PowerRatio(w - c + out, w - c);
    SmallPower(out);
    var over: nat := m + c - w;
    Pow2Add(m, c);
    Pow2Add(over, w);
    Pow2StrictMono(out, w);
    MultipleDrops(Pow2(over), Pow2(out), Pow2(w));
  }

  lemma {:induction false} LowByte(k: nat)
    requires k < 4 || k >= 8
    ensures CountKept(Pow2(k))
  {
    hide Pow2;
    SmallPowers();
    if k >= 8 {
      Pow2Add(8, k - 8);
      WholeBytes(Pow2(k - 8));
    }
  }

  lemma {:induction false} WholeBytes(h: nat)
    ensures 256 * h % 256 == 0
  {
  }

  lemma {:induction false} MovedRight(w: nat, c: nat) returns (d: nat)
    requires w in {16, 32, 64} && 0 < c < w
    ensures d % BUNDLE == 0 && d < Pow2(w)
    ensures Low(Shifted(false, w, c, d, d)) && Low(Shifted(false, w, c, d, 0))
  {
    hide Quot, Rem;
    var m: nat := if c >= 5 then c else 5;
    d := Pow2(m);
    PowerAligned(m);
    Pow2StrictMono(m, w);
    var out: nat := m - c;
    PowerRatio(m, c);
    SmallPower(out);
    Pow2Add(m, w - c);
    Pow2Add(out, w);
    MultipleDrops(Pow2(out), 0, Pow2(w));
    Kept(0, w);
  }

  lemma {:induction false} PowerAligned(m: nat)
    requires m >= 5
    ensures Pow2(m) % BUNDLE == 0
  {
    SmallPowers();
    Pow2Add(5, m - 5);
    BundleMultiple(Pow2(m - 5));
  }

  lemma {:induction false} SmallPower(m: nat)
    requires m < 5
    ensures Low(Pow2(m))
  {
    SmallPowers();
  }

  lemma {:induction false} PowerRatio(m: nat, k: nat)
    requires k <= m
    ensures Quot(Pow2(m), Pow2(k)) == Pow2(m - k)
  {
    Pow2Add(m - k, k);
    TimesIs(Pow2(m - k), Pow2(k));
    DivTimes(Pow2(m - k), Pow2(k));
  }

  /** With a count of one in cl, whose register may be the source as well. */
  function OddValue(w: nat): nat requires w >= 1 { Pow2(w - 1) + 1 }

  lemma {:induction false} MovedByOne(left: bool, w: nat) returns (d: nat)
    requires w in {16, 32, 64}
    ensures d % BUNDLE == 0 && d < Pow2(w)
    ensures Shifted(left, w, 1, d, d) % BUNDLE != 0 && Shifted(left, w, 1, d, OddValue(w)) % BUNDLE != 0
  {
    hide Shifted;
    d := if left then Pow2(w - 1) else 32;
    if left {
      PowerAligned(w - 1);
      Pow2StrictMono(w - 1, w);
      LeftByOne(w);
    } else {
      SmallPowers();
      Pow2StrictMono(5, w);
      RightByOne(w);
    }
  }

  lemma {:induction false} LeftByOne(w: nat)
    requires w in {16, 32, 64}
    ensures Shifted(true, w, 1, Pow2(w - 1), Pow2(w - 1)) == Shifted(true, w, 1, Pow2(w - 1), OddValue(w)) == 1
  {
    hide Quot, Rem;
    var half := Pow2(w - 1);
    SmallPowers();
    Pow2StrictMono(1, w);
    Pow2StrictMono(0, w - 1);
    HalfAndOne(half);
    MultipleDrops(1, 1, Pow2(w));
    assert half * Pow2(1) == 1 * Pow2(w);
  }

  lemma {:induction false} RightByOne(w: nat)
    requires w in {16, 32, 64}
    ensures Shifted(false, w, 1, 32, 32) == 16 && Shifted(false, w, 1, 32, OddValue(w)) % BUNDLE != 0
  {
    hide Quot, Rem;
    var half := Pow2(w - 1);
    SmallPowers();
    QuotIs(32, 2);
    MultipleDrops(16, 0, Pow2(w));
    assert 32 * half == 16 * Pow2(w);
    PowerAligned(w - 1);
    MultipleDrops(Pow2(w - 2), half, Pow2(w));
    HalfSquare(w);
    SixteenMore(half);
  }

  lemma {:induction false} HalfAndOne(half: nat)
    requires half >= 2
    ensures Quot(half, half) == 1 && Quot(half + 1, half) == 1
  {
    QuotIs(half, half);
    assert Quot(half + 1, half) == 1 + Quot(1, half);
  }

  lemma {:induction false} HalfSquare(w: nat)
    requires w >= 2
    ensures OddValue(w) * Pow2(w - 1) == Pow2(w - 2) * Pow2(w) + Pow2(w - 1)
  {
    Pow2Add(w - 1, w - 1);
    Pow2Add(w - 2, w);
  }

  lemma {:induction false} SixteenMore(x: nat)
    requires x % BUNDLE == 0
    ensures (16 + x) % BUNDLE != 0
  {
  }

  /** With d in its own register and t in the others that it reads, the shift may leave value. */
  predicate Leaves(i: Instr, d: nat, t: nat, value: nat)
    requires i.op1.kind.RegOp?
  {
    var w := 8 * i.op0.size;
    var c := (if i.op2.kind.ImmOp? then i.op2.imm else t) % CountLimit(i);
    c <= w ==> value == Written(i.op0.size, d,
      Shifted(i.kind.Shld?, w, c, Rem(d, Pow2(w)), Rem(if i.op1.reg == i.op0.reg then d else t, Pow2(w))))
  }

  /** A shift that is not harmless may move bits of an aligned register to where it is not. */
  lemma {:induction false} ShiftMoves(i: Instr) returns (d: nat, t: nat, value: nat)
    requires IsRealShift(i) && !Harmless(i)
    ensures Leaves(i, d, t, value) && Aligned(d) && !Aligned(value) && CountKept(t) && d < U64 && t < U64
    ensures i.op2.kind.ImmOp? ==> value < BUNDLE
  {
    hide Shifted, Written, Quot, Rem;
    var w, left := 8 * i.op0.size, i.kind.Shld?;
    SmallWidth(w);
    d, t := 0, 1;
    var c := if i.op2.kind.ImmOp? then i.op2.imm % CountLimit(i) else 1;
    if i.op2.kind.RegOp? {
      d := MovedByOne(left, w);
      t := OddValue(w);
      OddCount(w, CountLimit(i));
    } else if c < w {
      d, t := Moved(left, w, c);
    } else if c == w {
      AllShiftedIn(left, w);
    }
    value := if c <= w then Shifted(left, w, c, d, if i.op1.reg == i.op0.reg then d else t) else 1;
    Kept(d, w);
    Kept(t, w);
    WrittenOver(i.op0.size, d, value);
  }

  lemma {:induction false} LeavesEffect(i: Instr, d: nat, t: nat, value: nat, before: Registers)
    requires IsRealShift(i) && Leaves(i, d, t, value) && before(i.op0.reg) == d
    requires i.op1.reg == i.op0.reg || before(i.op1.reg) == t
    requires i.op2.kind.RegOp? ==> before(REG_CX) == t
    ensures ShiftEffect(i, before, With(before, i.op0.reg, value))
  {
    hide Shifted, Written, Rem;
  }

  // ---- What is needed of a shift

  /** A double shift of r14 keeps it aligned whatever the registers hold exactly if it does nothing to it. */
  lemma {:induction false} HarmlessIff(i: Instr)
    requires IsRealShift(i) && i.op0.reg == REG_R14
    ensures KeepsBase(i) <==>
              forall before: Registers, after: Registers {:trigger ShiftEffect(i, before, after)} ::
                Aligned(before(REG_R14)) && ShiftEffect(i, before, after) ==> Aligned(after(REG_R14))
  {
    hide ShiftEffect, Harmless, Leaves;
    if KeepsBase(i) {
      forall before: Registers, after: Registers | Aligned(before(REG_R14)) && ShiftEffect(i, before, after)
        ensures Aligned(after(REG_R14))
      {
        EffectKeepsBase(i, before, after);
      }
    } else {
      var d, t, value := ShiftMoves(i);
      var before := With((q: nat) => t, REG_R14, d);
      LeavesEffect(i, d, t, value, before);
      assert ShiftEffect(i, before, With(before, REG_R14, value));
    }
  }

  /** A double shift of r13 keeps its value whatever the registers hold exactly if it does nothing to it,
      and is no shift of 32 bits. */
  lemma {:induction false} TableShiftIff(i: Instr)
    requires IsRealShift(i) && i.op0.reg == REG_R13
    ensures KeepsTable(i) <==>
              forall before: Registers, after: Registers {:trigger ShiftEffect(i, before, after)} ::
                before(REG_R13) < U64 && ShiftEffect(i, before, after) ==> after(REG_R13) == before(REG_R13)
  {
    hide ShiftEffect, Harmless, Leaves;
    if KeepsTable(i) {
      forall before: Registers, after: Registers | before(REG_R13) < U64 && ShiftEffect(i, before, after)
        ensures after(REG_R13) == before(REG_R13)
      {
        EffectKeepsTable(i, before, after);
      }
    } else {
      var before, value := ShiftChanges(i);
      assert ShiftEffect(i, before, With(before, REG_R13, value));
    }
  }

  /** A shift that changes r13, by one at most in cl and with a source of nothing else. */
  lemma {:induction false} ShiftChanges(i: Instr) returns (before: Registers, value: nat)
    requires IsRealShift(i) && i.op0.reg == REG_R13 && !KeepsTable(i)
    ensures ShiftEffect(i, before, With(before, REG_R13, value)) && value != before(REG_R13) < U64
    ensures Aligned(before(REG_R14)) && CountKept(before(REG_CX))
  {
    hide Shifted, Written, Quot, Rem;
    var w, left := 8 * i.op0.size, i.kind.Shld?;
    var c := if i.op2.kind.ImmOp? then i.op2.imm % CountLimit(i) else 1;
    if Harmless(i) {
      before := Only(REG_R13, U32);
      value := 0;
      UpperHalfCleared(i);
    } else {
      before := With(Only(REG_R13, 1), REG_CX, if i.op2.kind.RegOp? then 1 else 0);
      value := 0;
      SmallWidth(w);
      Kept(0, w);
      Kept(1, w);
      if c <= w {
        OneMoves(left, w, c, before(i.op1.reg));
        value := Shifted(left, w, c, 1, before(i.op1.reg));
        WrittenOver(i.op0.size, 1, value);
      }
    }
  }

  lemma {:induction false} OneMoves(left: bool, w: nat, c: nat, s: nat)
    requires w in {16, 32, 64} && ((0 < c < w && s <= 1) || (c == w && s == 0))
    ensures Shifted(left, w, c, 1, s) != 1
  {
    hide Quot, Rem;
    SmallWidth(w);
    var out := Pow2(w - c);
    Pow2StrictMono(0, c);
    SmallQuotient(s, out);
    SmallQuotient(1, Pow2(c));
    if c == w {
      assert out == 1 && s * out == 0;
      MultipleDrops(1, 0, Pow2(w));
      Kept(0, w);
    } else {
      Pow2StrictMono(c, w);
      Pow2StrictMono(0, w - c);
      Pow2StrictMono(w - c, w);
      Kept(Pow2(c), w);
      assert s * out == 0 || s * out == out;
      Kept(s * out, w);
    }
  }

  lemma {:induction false} SmallQuotient(x: nat, d: nat)
    requires d >= 1
    ensures x < d ==> Quot(x, d) == 0
  {
  }

  lemma {:induction false} UpperHalfCleared(i: Instr)
    requires IsRealShift(i) && Harmless(i) && i.op0.size == 4 && i.op0.reg == REG_R13
    ensures ShiftEffect(i, Only(REG_R13, U32), With(Only(REG_R13, U32), REG_R13, 0))
  {
    Pow2ThirtyTwo();
    MultipleDrops(1, 0, U32);
  }

  lemma {:induction false} SmallWidth(w: nat)
    requires w in {16, 32, 64}
    ensures 65536 <= Pow2(w) <= U64 && OddValue(w) < Pow2(w)
  {
    SmallPowers();
    Pow2Add(8, 8);
    Pow2Mono(16, w);
    Pow2Mono(w, 64);
    Pow2Sixty4();
  }

  lemma {:induction false} Kept(d: nat, w: nat)
    requires d < Pow2(w)
    ensures Rem(d, Pow2(w)) == d
  {
  }

  /** Writing over an aligned register whose upper part is zero. */
  lemma {:induction false} WrittenOver(size: nat, before: nat, value: nat)
    requires before < Pow2(8 * size)
    ensures Written(size, before, value) == value
  {
    Kept(before, 8 * size);
  }

  lemma {:induction false} OddCount(w: nat, limit: nat)
    requires w in {16, 32, 64} && (limit == 32 || limit == 64)
    ensures OddValue(w) % limit == 1 && CountKept(OddValue(w))
  {
    SmallPowers();
    var k := Pow2(w - 9);
    Pow2Add(8, w - 9);
    assert OddValue(w) == 256 * k + 1;
  }

  lemma {:induction false} AllShiftedIn(left: bool, w: nat)
    requires w in {16, 32, 64}
    ensures Shifted(left, w, w, 0, 1) == 1
  {
    SmallWidth(w);
    Kept(1, w);
    assert Pow2(0) == 1;
    QuotIs(1, 1);
  }

  // ---- Runs

  /** At offset s, where a bundle begins, macroinst_shxd matches a shift of this register. */
  predicate ShiftsTo(p: Program, s: nat, reg: nat) {
    && p.Ok() && s % BUNDLE == 0 && s < p.size && FirstMatch(p, s, 0) == 6 && ShiftAt(p, s).Some?
    && IsRealShift(ShiftAt(p, s).value) && ShiftAt(p, s).value.op0.reg == reg
  }

  /** The run of such an item, with the address of the table in r13. */
  lemma {:induction false} ShiftRuns(p: Program, s: nat, reg: nat, before: Registers, value: nat)
    returns (run: seq<State>)
    requires ShiftsTo(p, s, reg) && (ShiftAt(p, s).value.op0.size == 8 || CountKept(before(REG_CX)))
    requires ShiftEffect(ShiftAt(p, s).value, before, With(before, reg, value))
    requires Aligned(before(REG_R14)) && before(REG_R13) < U64
    ensures IsRun(p, run) && run[0].pc == p.base + s
    ensures Last(run) == State(p.base + s + Item(p, s).size, With(before, reg, value), before(REG_R13))
  {
    hide FirstMatch, ShiftEffect;
    var i := ShiftAt(p, s).value;
    var first := At(p, s).value;
    var table := before(REG_R13);
    run := [State(p.base + s, before, table)];
    BundleReached(p, s, before, table);
    if !(IsDoubleShift(first) && first.op0.size == 8) {
      MaskOfCount(p, s, run[0]);
      var second := State(p.base + s + first.size, before, table);
      assert StepAt(p, run[0], second);
      run := Longer(p, run, second);
    }
    var next := State(p.base + s + Item(p, s).size, With(before, reg, value), table);
    ShiftSteps(p, i, Last(run), value);
    assert StepAt(p, Last(run), next);
    run := Longer(p, run, next);
  }

  lemma {:induction false} ShiftSteps(p: Program, i: Instr, st: State, value: nat)
    requires IsRealShift(i) && ShiftEffect(i, st.regs, With(st.regs, i.op0.reg, value))
    ensures var t := State(st.pc + i.size, With(st.regs, i.op0.reg, value), st.table);
            Leads(p, i, st, t.pc) && RegistersAfter(p, i, st, t)
  {
    hide ShiftEffect;
  }

  /** The first instruction of an item of two masks cl and changes nothing else. */
  lemma {:induction false} MaskOfCount(p: Program, s: nat, st: State)
    requires FirstMatch(p, s, 0) == 6 && ShiftAt(p, s).Some? && At(p, s).Some? && IsRealShift(ShiftAt(p, s).value)
    requires ShiftAt(p, s).value.op0.size == 8 || CountKept(st.regs(REG_CX))
    requires !(IsDoubleShift(At(p, s).value) && At(p, s).value.op0.size == 8)
    ensures var first := At(p, s).value;
            var t := st.(pc := st.pc + first.size);
            Leads(p, first, st, t.pc) && RegistersAfter(p, first, st, t)
    ensures Item(p, s).size == At(p, s).value.size + ShiftAt(p, s).value.size
    ensures At(p, s + At(p, s).value.size) == ShiftAt(p, s)
  {
    hide FirstMatch, AndValue;
    CountMasked(st.regs(REG_CX));
  }

  /** The masks leave a small count as it is. */
  lemma {:induction false} CountMasked(x: nat)
    requires CountKept(x)
    ensures AndValue(1, x, 0xf) == x && AndValue(1, x, 0x1f) == x
  {
    SmallPowers();
    AndOnes(x % 256, 4);
    AndOnes(x % 256, 5);
  }

  /** So behind any shift of r14 that is not harmless some run has it misaligned. */
  lemma {:induction false} BadShiftEscapes(p: Program, s: nat) returns (run: seq<State>)
    requires ShiftsTo(p, s, REG_R14) && !KeepsBase(ShiftAt(p, s).value)
    ensures IsRun(p, run) && run[0].pc == p.base + s
    ensures Last(run).pc == p.base + s + Item(p, s).size && !Aligned(Last(run).regs(REG_R14))
  {
    hide FirstMatch, ShiftEffect, Leaves, Harmless, ShiftAt, Item, IsRun;
    var d, t, value := ShiftMoves(ShiftAt(p, s).value);
    var before := With((q: nat) => t, REG_R14, d);
    LeavesEffect(ShiftAt(p, s).value, d, t, value, before);
    run := ShiftRuns(p, s, REG_R14, before, value);
  }

  /** And behind any shift of r13 that changes it, some run no longer has the address of the table there. */
  lemma {:induction false} BadTableShift(p: Program, s: nat) returns (run: seq<State>)
    requires ShiftsTo(p, s, REG_R13) && !KeepsTable(ShiftAt(p, s).value)
    ensures IsRun(p, run) && run[0].pc == p.base + s
    ensures Last(run).pc == p.base + s + Item(p, s).size && Last(run).regs(REG_R13) != Last(run).table
  {
    hide FirstMatch, ShiftEffect, KeepsTable, ShiftAt, Item, IsRun;
    var before, value := ShiftChanges(ShiftAt(p, s).value);
    run := ShiftRuns(p, s, REG_R13, before, value);
  }

  // ---- Branches behind such shifts

  /** A masked jump right behind a shift of r14 at the start of a bundle. */
  lemma {:induction false} ShiftThenJump(p: Program, s: nat, u: nat, before: Registers, value: nat)
    returns (run: seq<State>)
    requires ShiftsTo(p, s, REG_R14) && (ShiftAt(p, s).value.op0.size == 8 || CountKept(before(REG_CX)))
    requires ShiftEffect(ShiftAt(p, s).value, before, With(before, REG_R14, value))
    requires Aligned(before(REG_R14)) && before(REG_R13) < U64 && !Aligned(value)
    requires u == s + Item(p, s).size && FirstMatch(p, u, 0) == 0 && At(p, u).Some? && At(p, u).value.op0.reg != REG_R14
    ensures IsRun(p, run) && run[0].pc == p.base + s && Last(run).pc >= 0 && !Aligned(Last(run).pc)
    ensures Last(run).pc == Words.Or(MaskValue(before(At(p, u).value.op0.reg)), value)
  {
    hide FirstMatch, ShiftEffect, ShiftAt, Item, IsRun, MaskValue, Words.Or, ShiftsTo;
    var front := ShiftRuns(p, s, REG_R14, before, value);
    NotEmpty(p, front);
    run := MisalignedJump(p, u, front);
    assert run[0] == run[..|front|][0];
  }

  /** Behind a shift that is not harmless, a masked jump goes, on some run, to an address that is no
      bundle, whatever its register is but r14 itself. */
  lemma {:induction false} ShiftedJumpStrays(p: Program, s: nat, u: nat) returns (run: seq<State>)
    requires ShiftsTo(p, s, REG_R14) && !KeepsBase(ShiftAt(p, s).value)
    requires u == s + Item(p, s).size && FirstMatch(p, u, 0) == 0 && At(p, u).Some? && At(p, u).value.op0.reg != REG_R14
    ensures IsRun(p, run) && run[0].pc == p.base + s && !Aligned(Last(run).pc)
  {
    hide FirstMatch, ShiftAt, Item, IsRun, MaskValue, Words.Or, KeepsBase, ShiftsTo;
    var front := BadShiftEscapes(p, s);
    NotEmpty(p, front);
    run := MisalignedJump(p, u, front);
    assert run[0] == run[..|front|][0];
  }

  /** If its register is none that the shift reads, every bundle below 2^32 is near: some run comes to the
      address that has the bits of v besides. */
  lemma {:induction false} ShiftedJumpEscapes(p: Program, s: nat, u: nat) returns (v: nat)
    requires ShiftsTo(p, s, REG_R14) && !KeepsBase(ShiftAt(p, s).value)
    requires u == s + Item(p, s).size && FirstMatch(p, u, 0) == 0 && At(p, u).Some?
    requires var i, r := ShiftAt(p, s).value, At(p, u).value.op0.reg;
             && r != REG_R14 && r != i.op1.reg
             && (r == REG_CX ==> i.op0.size == 8 && i.op2.kind.ImmOp?)
    ensures !Aligned(v) && (ShiftAt(p, s).value.op2.kind.ImmOp? ==> v < BUNDLE)
    ensures forall b: nat :: b % BUNDLE == 0 && p.base + b < U32 ==> Arrives(p, s, Words.Or(p.base + b, v))
  {
    hide FirstMatch, ShiftEffect, Leaves, Harmless, Item, ShiftAt, IsRun, MaskValue, Words.Or;
    var i, r := ShiftAt(p, s).value, At(p, u).value.op0.reg;
    var d, t, value := ShiftMoves(i);
    v := value;
    forall b: nat | b % BUNDLE == 0 && p.base + b < U32 ensures Arrives(p, s, Words.Or(p.base + b, v)) {
      var before := With(With((q: nat) => t, r, p.base + b), REG_R14, d);
      LeavesEffect(i, d, t, v, before);
      var run := ShiftThenJump(p, s, u, before, v);
      MaskOfBundle(p.base + b);
    }
  }

  lemma {:induction false} MaskOfBundle(x: nat)
    requires Aligned(x) && x < U32
    ensures MaskValue(x) == x
  {
  }

  /** A runtime call right behind a shift that changes r13 goes to any address. */
  lemma {:induction false} ShiftedCallEscapes(p: Program, s: nat, u: nat, x: nat)
    requires ShiftsTo(p, s, REG_R13) && !KeepsTable(ShiftAt(p, s).value)
    requires u == s + Item(p, s).size && FirstMatch(p, u, 0) == 2 && At(p, u).Some?
    ensures Arrives(p, s, x)
  {
    hide FirstMatch, ShiftAt, Item, IsRun, KeepsTable, ShiftsTo;
    var front := BadTableShift(p, s);
    LostTableEscapes(p, s, u, front, x);
  }
}
