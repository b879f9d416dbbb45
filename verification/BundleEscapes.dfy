/** Where accepted amd64 code leaves the instructions that the checker saw: runs that show that the
    conditions of BundleRuns on runtime calls and on masked branches are needed. */
module BundleEscapes {
  import opened Options
  import opened PowersOfTwo
  import opened Products
  import opened Words
  import opened Bundles
  import opened BundleRuns

  function Only(reg: nat, value: nat): Registers { (q: nat) => if q == reg then value else 0 }
  function With(regs: Registers, reg: nat, value: nat): Registers { (q: nat) => if q == reg then value else regs(q) }

  function Last(run: seq<State>): State requires run != [] { run[|run| - 1] }

  lemma {:induction false} Longer(p: Program, front: seq<State>, next: State) returns (run: seq<State>)
    requires IsRun(p, front) && StepAt(p, Last(front), next)
    ensures run == front + [next] && IsRun(p, run)
  {
    hide StepAt;
    run := front + [next];
    forall j: nat | j + 1 < |run| ensures StepAt(p, run[j], run[j + 1]) {
      if j + 1 < |front| {
        assert StepAt(p, front[j], front[j + 1]);
      }
    }
  }

  lemma {:induction false} RunSteps(p: Program, run: seq<State>, j: nat)
    requires IsRun(p, run) && j + 1 < |run|
    ensures StepAt(p, run[j], run[j + 1])
  {
  }

  // ---- Runtime calls

  /** Where the runtime call at offset s returns to, if r11 held before when it began. */
  function ReturnAddress(p: Program, s: nat, before: nat): nat
    requires At(p, s).Some?
  {
    LeaValue(At(p, s).value, p.base + s + At(p, s).value.size, before)
  }

  /** Every run that comes to a runtime call, with r13 in order, goes on to that address if the jump reads
      an entry of the table. */
  lemma {:induction false} CallGoesOn(p: Program, s: nat, front: seq<State>) returns (run: seq<State>)
    requires FirstMatch(p, s, 0) == 2 && At(p, s).Some? && ReadsEntryAt(p, s)
    requires IsRun(p, front) && Last(front).pc == p.base + s && Last(front).regs(REG_R13) == Last(front).table
    ensures IsRun(p, run) && |run| == |front| + 2 && run[..|front|] == front
    ensures run[|front|].pc == p.base + s + At(p, s).value.size
    ensures Last(run).pc == ReturnAddress(p, s, Last(front).regs(REG_R11))
  {
    hide FirstMatch, LeaValue, IsRun;
    NotEmpty(p, front);
    RtcallParts(p, s);
    var middle := LeaRuns(p, s, front);
    var second := Last(middle);
    var third := second.(pc := ReturnAddress(p, s, Last(front).regs(REG_R11)));
    assert StepAt(p, second, third);
    run := Longer(p, middle, third);
  }

  /** The first of its two instructions. */
  lemma {:induction false} LeaRuns(p: Program, s: nat, front: seq<State>) returns (run: seq<State>)
    requires FirstMatch(p, s, 0) == 2 && At(p, s).Some?
    requires IsRun(p, front) && Last(front).pc == p.base + s
    ensures IsRun(p, run) && |run| == |front| + 1 && run[..|front|] == front
    ensures var st := Last(front);
            Last(run) == State(st.pc + At(p, s).value.size,
                               With(st.regs, REG_R11, ReturnAddress(p, s, st.regs(REG_R11))), st.table)
  {
    hide FirstMatch, LeaValue, IsRun;
    NotEmpty(p, front);
    RtcallParts(p, s);
    var st := Last(front);
    var x := ReturnAddress(p, s, st.regs(REG_R11));
    var next := State(st.pc + At(p, s).value.size, With(st.regs, REG_R11, x), st.table);
    LeaFits(At(p, s).value, st.pc + At(p, s).value.size, st.regs(REG_R11));
    assert StepAt(p, st, next);
    run := Longer(p, front, next);
  }

  lemma {:induction false} LeaFits(i: Instr, next: int, before: nat)
    ensures i.op0.size == 4 ==> LeaValue(i, next, before) < U32
  {
  }

  /** If r13 is not the address of the table, or the jump reads no entry of it, the run may go on to any
      address. */
  lemma {:induction false} CallGoesAstray(p: Program, s: nat, front: seq<State>, x: nat) returns (run: seq<State>)
    requires FirstMatch(p, s, 0) == 2 && At(p, s).Some?
    requires IsRun(p, front) && Last(front).pc == p.base + s
    requires Last(front).regs(REG_R13) != Last(front).table || !ReadsEntryAt(p, s)
    ensures IsRun(p, run) && |run| == |front| + 2 && run[..|front|] == front
    ensures Last(run).pc == x
  {
    hide FirstMatch, LeaValue, IsRun;
    NotEmpty(p, front);
    RtcallParts(p, s);
    var middle := LeaRuns(p, s, front);
    var second := Last(middle);
    var third := second.(pc := x);
    assert StepAt(p, second, third);
    run := Longer(p, middle, third);
  }

  /** If the return address is a place in the code where no item begins, a step of this run enters the
      code there. */
  lemma {:induction false} BadReturnEscapes(p: Program, s: nat, front: seq<State>) returns (run: seq<State>)
    requires p.Ok() && Accepts(p) && Top(p, s) && FirstMatch(p, s, 0) == 2 && At(p, s).Some? && ReadsEntryAt(p, s)
    requires IsRun(p, front) && Last(front).pc == p.base + s && Last(front).regs(REG_R13) == Last(front).table
    requires var x := ReturnAddress(p, s, Last(front).regs(REG_R11));
             p.base <= x < p.base + p.size && !Top(p, x - p.base)
    ensures IsRun(p, run) && |run| == |front| + 2 && run[..|front|] == front
    ensures StepAt(p, run[|front|], run[|front| + 1])
    ensures !Lands(p, run[|front|], At(p, run[|front|].pc - p.base).value, run[|front| + 1])
  {
    hide FirstMatch, Accepts, LeaValue, Top, IsRun;
    RtcallParts(p, s);
    run := CallGoesOn(p, s, front);
    RunSteps(p, run, |front|);
    NextItem(p, s);
  }

  /** Some run comes to offset s in this state. */
  ghost predicate Reached(p: Program, s: nat, st: State) {
    st.pc == p.base + s && exists run: seq<State> :: IsRun(p, run) && Last(run) == st
  }

  /** Whenever a run passes the runtime call at offset s, it comes back to the start of an item. */
  ghost predicate ReturnsWell(p: Program, s: nat) {
    forall run: seq<State>, j: nat {:trigger IsRun(p, run), run[j]} ::
      IsRun(p, run) && j + 2 < |run| && run[j].pc == p.base + s ==> LandsOnTop(p, run[j + 2].pc)
  }

  predicate LandsOnTop(p: Program, pc: int) { p.base <= pc < p.base + p.size ==> Top(p, pc - p.base) }

  /** The runtime call is in order in this state. */
  predicate CallOk(p: Program, s: nat, st: State)
    requires At(p, s).Some?
  {
    ReadsEntryAt(p, s) && st.regs(REG_R13) == st.table && LandsOnTop(p, ReturnAddress(p, s, st.regs(REG_R11)))
  }

  /** A runtime call returns as it should on all runs exactly if it is in order in every state in which
      some run comes to it. */
  lemma {:induction false} ReturnsWellIff(p: Program, s: nat)
    requires p.Ok() && Accepts(p) && Top(p, s) && FirstMatch(p, s, 0) == 2 && At(p, s).Some?
    ensures ReturnsWell(p, s) <==>
              forall st: State {:trigger Reached(p, s, st)} :: Reached(p, s, st) ==> CallOk(p, s, st)
  {
    hide FirstMatch, Top, StepAt, Accepts, CallOk;
    if ReturnsWell(p, s) {
      forall st: State | Reached(p, s, st) ensures CallOk(p, s, st) {
        if !CallOk(p, s, st) {
          CallFails(p, s, st);
          assert false;
        }
      }
    } else {
      var run: seq<State>, j: nat :|
        IsRun(p, run) && j + 2 < |run| && run[j].pc == p.base + s && !LandsOnTop(p, run[j + 2].pc);
      CallReturns(p, s, run, j);
    }
  }

  lemma {:induction false} ReachedBy(p: Program, s: nat, st: State) returns (run: seq<State>)
    requires Reached(p, s, st)
    ensures run != [] && IsRun(p, run) && Last(run) == st
  {
    run :| IsRun(p, run) && Last(run) == st;
  }

  lemma {:induction false} CallFails(p: Program, s: nat, st: State)
    requires p.Ok() && Accepts(p) && Top(p, s) && FirstMatch(p, s, 0) == 2 && At(p, s).Some?
    requires Reached(p, s, st) && !CallOk(p, s, st)
    ensures !ReturnsWell(p, s)
  {
    hide FirstMatch, Top, StepAt, Accepts, ReturnAddress, ReadsEntryAt, IsRun;
    var front := ReachedBy(p, s, st);
    var run: seq<State>;
    if st.regs(REG_R13) == st.table && ReadsEntryAt(p, s) {
      run := CallGoesOn(p, s, front);
    } else {
      run := CallGoesAstray(p, s, front, p.base + s + 1);
      InsideIsNoTop(p, s);
    }
    var j: nat := |front| - 1;
    assert run[j] == run[..|front|][j];
    assert !LandsOnTop(p, run[j + 2].pc);
  }

  /** No item begins inside the first instruction of another one of two. */
  lemma {:induction false} InsideIsNoTop(p: Program, s: nat)
    requires Accepts(p) && Top(p, s) && FirstMatch(p, s, 0) == 2
    ensures s + 1 < p.size && !Top(p, s + 1)
  {
    hide FirstMatch, Accepts, Item, TopFrom;
    RtcallParts(p, s);
    NextItem(p, s);
    ItemInBundle(p, s);
    SameBundle(s);
    NoTopWithin(p, s - s % BUNDLE, s, s + 1);
  }

  lemma {:induction false} SameBundle(s: nat)
    requires s + 1 < s - s % BUNDLE + BUNDLE
    ensures (s + 1) - (s + 1) % BUNDLE == s - s % BUNDLE
  {
  }

  lemma {:induction false} ItemInBundle(p: Program, s: nat)
    requires Accepts(p) && Top(p, s)
    ensures s + Item(p, s).size <= s - s % BUNDLE + BUNDLE
  {
    hide Item, ItemOk;
    var b: nat := s - s % BUNDLE;
    assert BundleAt(p, b);
    TopBundle(p, b, s, b + BUNDLE);
  }

  lemma {:induction false} NoTopWithin(p: Program, from: nat, s: nat, o: nat)
    requires TopFrom(p, from, s) && s < o < s + Item(p, s).size
    ensures !TopFrom(p, from, o)
    decreases s - from
  {
    hide Item;
    if from < s {
      NoTopWithin(p, from + Item(p, from).size, s, o);
    }
  }

  lemma {:induction false} CallReturns(p: Program, s: nat, run: seq<State>, j: nat)
    requires FirstMatch(p, s, 0) == 2 && IsRun(p, run) && j + 2 < |run| && run[j].pc == p.base + s
    ensures At(p, s).Some? && Reached(p, s, run[j])
    ensures CallOk(p, s, run[j]) ==> LandsOnTop(p, run[j + 2].pc)
  {
    hide FirstMatch, LeaValue, Top;
    RtcallParts(p, s);
    RunSteps(p, run, j);
    RunSteps(p, run, j + 1);
    Prefix(p, run, j + 1);
    assert Last(run[..j + 1]) == run[j];
  }

  lemma {:induction false} NotEmpty(p: Program, run: seq<State>)
    requires IsRun(p, run)
    ensures run != []
  {
  }

  lemma {:induction false} Prefix(p: Program, run: seq<State>, n: nat)
    requires IsRun(p, run) && 1 <= n <= |run|
    ensures IsRun(p, run[..n])
  {
    hide StepAt;
    forall j: nat | j + 1 < n ensures StepAt(p, run[..n][j], run[..n][j + 1]) {
      assert StepAt(p, run[j], run[j + 1]);
    }
  }

  /** At the start of a bundle r11 may hold anything, so there the call has to be in order for all values;
      besides, no run may come there with another r13. */
  lemma {:induction false} ReturnOkIff(p: Program, s: nat)
    requires p.Ok() && Accepts(p) && Top(p, s) && s % BUNDLE == 0 && FirstMatch(p, s, 0) == 2 && At(p, s).Some?
    ensures ReturnsWell(p, s) <==>
              && ReadsEntryAt(p, s) && ReturnOk(p, s)
              && forall st: State {:trigger Reached(p, s, st)} :: Reached(p, s, st) ==> st.regs(REG_R13) == st.table
  {
    hide FirstMatch, Top, IsRun, LeaValue, Accepts, ReturnsWell, ReadsEntryAt;
    ReturnsWellIff(p, s);
    forall before: nat ensures Reached(p, s, State(p.base + s, Only(REG_R11, before), 0)) {
      BundleReached(p, s, Only(REG_R11, before), 0);
    }
    assert Reached(p, s, State(p.base + s, Only(REG_R11, 0), 0));
    if ReturnsWell(p, s) {
      forall x: nat | ReturnsTo(p, s, x) && p.base <= x < p.base + p.size ensures Top(p, x - p.base) {
        var before: nat :| x == LeaValue(At(p, s).value, p.base + s + At(p, s).value.size, before);
        assert CallOk(p, s, State(p.base + s, Only(REG_R11, before), 0));
      }
    }
    if ReturnOk(p, s) {
      forall before: nat ensures LandsOnTop(p, ReturnAddress(p, s, before)) {
        assert ReturnsTo(p, s, ReturnAddress(p, s, before));
      }
    }
  }

  lemma {:induction false} BundleReached(p: Program, s: nat, regs: Registers, table: nat)
    requires p.Ok() && s % BUNDLE == 0 && Based(State(p.base + s, regs, table))
    ensures IsRun(p, [State(p.base + s, regs, table)])
    ensures Reached(p, s, State(p.base + s, regs, table))
  {
    var run := [State(p.base + s, regs, table)];
    assert Aligned(p.base + s);
    assert Last(run) == run[0];
  }

  // ---- Masked branches

  /** Every run that comes to a masked jump, through another register than r14, passes it. */
  lemma {:induction false} JumpRuns(p: Program, u: nat, front: seq<State>) returns (run: seq<State>)
    requires FirstMatch(p, u, 0) == 0 && At(p, u).Some? && At(p, u).value.op0.reg != REG_R14
    requires IsRun(p, front) && Last(front).pc == p.base + u
    ensures IsRun(p, run) && |run| == |front| + 3 && run[..|front|] == front
    ensures Last(run) == Masked(Last(front), At(p, u).value.op0.reg)
  {
    hide FirstMatch, Words.Or, MaskValue, IsRun;
    NotEmpty(p, front);
    JumpParts(p, u);
    var r := At(p, u).value.op0.reg;
    run := MaskRuns(p, u, front);
    var last := Masked(Last(front), r);
    assert StepAt(p, Last(run), last);
    run := Longer(p, run, last);
  }

  /** The state behind a masked branch through register r. */
  function Masked(st: State, r: nat): State {
    var x := Words.Or(MaskValue(st.regs(r)), st.regs(REG_R14));
    State(x, With(st.regs, r, x), st.table)
  }

  /** The first two instructions of a masked branch. */
  lemma {:induction false} MaskRuns(p: Program, u: nat, front: seq<State>) returns (run: seq<State>)
    requires FirstMatch(p, u, 0) == 0 || FirstMatch(p, u, 0) == 1
    requires At(p, u).Some? && At(p, u).value.op0.reg != REG_R14
    requires At(p, u + At(p, u).value.size).Some?
    requires IsRun(p, front) && Last(front).pc == p.base + u
    ensures IsRun(p, run) && |run| == |front| + 2 && run[..|front|] == front
    ensures var size := At(p, u).value.size + At(p, u + At(p, u).value.size).value.size;
            Last(run) == Masked(Last(front), At(p, u).value.op0.reg).(pc := p.base + u + size)
  {
    hide FirstMatch, Words.Or, MaskValue, AndValue, IsRun, SkipNops;
    NotEmpty(p, front);
    var st, iAnd := Last(front), At(p, u).value;
    var iOr := At(p, u + iAnd.size).value;
    var r := iAnd.op0.reg;
    assert IsMask(iAnd) && IsRebase(iOr, r);
    var masked := MaskValue(st.regs(r));
    MaskIs(st.regs(r));
    var second := State(st.pc + iAnd.size, With(st.regs, r, masked), st.table);
    assert StepAt(p, st, second);
    var third := Masked(st, r).(pc := second.pc + iOr.size);
    assert StepAt(p, second, third);
    run := Longer(p, front, second);
    run := Longer(p, run, third);
  }

  /** So does every run that comes to a masked call. */
  lemma {:induction false} MaskedCallRuns(p: Program, u: nat, front: seq<State>) returns (run: seq<State>)
    requires FirstMatch(p, u, 0) == 1 && At(p, u).Some? && At(p, u).value.op0.reg != REG_R14
    requires IsRun(p, front) && Last(front).pc == p.base + u
    ensures IsRun(p, run) && run[0] == front[0]
    ensures Last(run) == Masked(Last(front), At(p, u).value.op0.reg)
  {
    hide FirstMatch, Words.Or, MaskValue, IsRun, SkipNops;
    NotEmpty(p, front);
    var r := At(p, u).value.op0.reg;
    var count := At(p, u).value.size + At(p, u + At(p, u).value.size).value.size;
    run := MaskRuns(p, u, front);
    assert run[0] == run[..|front|][0];
    var at, called := NopsRun(p, u, count, 2, run);
    run := called;
    var last := Masked(Last(front), r);
    assert StepAt(p, Last(run), last);
    run := Longer(p, run, last);
  }

  lemma {:induction false} NopsRun(p: Program, o: nat, count: nat, icount: nat, front: seq<State>)
    returns (at: nat, run: seq<State>)
    requires count < BUNDLE && SkipNops(p, o, count, icount).Some?
    requires SkipNops(p, o, count, icount).value.2.kind.Call?
    requires IsRun(p, front) && Last(front).pc == p.base + o + count
    ensures IsRun(p, run) && run != [] && run[0] == front[0] && Last(run) == Last(front).(pc := p.base + at)
    ensures At(p, at) == Some(SkipNops(p, o, count, icount).value.2)
    decreases BUNDLE - count
  {
    hide IsRun, StepAt;
    NotEmpty(p, front);
    var i := At(p, o + count).value;
    if i.kind.Nop? && count + i.size < BUNDLE {
      NopSteps(p, o + count, Last(front));
      run := Longer(p, front, Last(front).(pc := p.base + o + count + i.size));
      at, run := NopsRun(p, o, count + i.size, icount + 1, run);
    } else {
      at, run := o + count, front;
    }
  }

  lemma {:induction false} NopSteps(p: Program, o: nat, st: State)
    requires At(p, o).Some? && At(p, o).value.kind.Nop? && st.pc == p.base + o
    ensures StepAt(p, st, st.(pc := st.pc + At(p, o).value.size))
  {
  }

  lemma {:induction false} JumpParts(p: Program, u: nat)
    requires FirstMatch(p, u, 0) == 0
    ensures At(p, u).Some? && IsMask(At(p, u).value)
    ensures var x := u + At(p, u).value.size;
            && At(p, x).Some? && IsRebase(At(p, x).value, At(p, u).value.op0.reg)
            && At(p, x + At(p, x).value.size).Some?
            && IsRegBranch(At(p, x + At(p, x).value.size).value, Jmp, At(p, u).value.op0.reg)
  {
    hide FirstMatch;
  }

  /** With a misaligned r14 it goes to an address that is no bundle. */
  lemma {:induction false} MisalignedJump(p: Program, u: nat, front: seq<State>) returns (run: seq<State>)
    requires FirstMatch(p, u, 0) == 0 && At(p, u).Some? && At(p, u).value.op0.reg != REG_R14
    requires IsRun(p, front) && Last(front).pc == p.base + u && !Aligned(Last(front).regs(REG_R14))
    ensures IsRun(p, run) && |run| == |front| + 3 && run[..|front|] == front
    ensures var regs := Last(front).regs;
            Last(run).pc == Words.Or(MaskValue(regs(At(p, u).value.op0.reg)), regs(REG_R14))
    ensures !Aligned(Last(run).pc)
  {
    hide FirstMatch, Words.Or, MaskValue, IsRun;
    NotEmpty(p, front);
    run := JumpRuns(p, u, front);
    OrMisaligned(MaskValue(Last(front).regs(At(p, u).value.op0.reg)), Last(front).regs(REG_R14));
  }

  lemma {:induction false} OrMisaligned(a: nat, b: nat)
    requires b % 32 != 0
    ensures Words.Or(a, b) % 32 != 0
  {
    SmallPowers();
    QuotIs(b, 32);
    OrKeepsOnes(a, b, 5);
    QuotIs(Words.Or(a, b), 32);
  }

  lemma {:induction false} OrKeepsOnes(a: nat, b: nat, k: nat)
    requires Rem(b, Pow2(k)) != 0
    ensures Rem(Words.Or(a, b), Pow2(k)) != 0
  {
    if k > 0 {
      LowBit(b, Pow2(k - 1));
      LowBit(Words.Or(a, b), Pow2(k - 1));
      if b % 2 == 0 {
        OrKeepsOnes(a / 2, b / 2, k - 1);
      }
    } else {
      QuotIs(b, 1);
    }
  }

  /** A number is a multiple of 2h exactly if it is even and its half one of h. */
  lemma {:induction false} LowBit(x: nat, h: nat)
    requires h >= 1
    ensures Rem(x, 2 * h) == 0 <==> x % 2 == 0 && Rem(x / 2, h) == 0
  {
    if x >= 2 * h {
      LowBit(x - 2 * h, h);
      assert (x - 2 * h) / 2 == x / 2 - h;
    }
  }

  // ---- Where r13 is lost

  /** Some run from the bundle at offset s on comes to address x. */
  ghost predicate Arrives(p: Program, s: nat, x: int) {
    exists run: seq<State> :: IsRun(p, run) && run[0].pc == p.base + s && Last(run).pc == x
  }

  /** A runtime call that a run comes to with another r13 goes to any address. */
  lemma {:induction false} LostTableEscapes(p: Program, s: nat, u: nat, front: seq<State>, x: nat)
    requires FirstMatch(p, u, 0) == 2 && At(p, u).Some?
    requires IsRun(p, front) && front[0].pc == p.base + s && Last(front).pc == p.base + u
    requires Last(front).regs(REG_R13) != Last(front).table || !ReadsEntryAt(p, u)
    ensures Arrives(p, s, x)
  {
    hide FirstMatch, IsRun;
    NotEmpty(p, front);
    var run := CallGoesAstray(p, u, front, x);
    assert run[0] == run[..|front|][0];
  }

  /** A runtime call at the start of a bundle that reads no entry of the table does so in any case. */
  lemma {:induction false} NoEntryEscapes(p: Program, s: nat, x: nat)
    requires p.Ok() && s % BUNDLE == 0 && FirstMatch(p, s, 0) == 2 && At(p, s).Some? && !ReadsEntryAt(p, s)
    ensures Arrives(p, s, x)
  {
    hide FirstMatch, IsRun, ReadsEntryAt;
    BundleReached(p, s, Only(0, 0), 0);
    var front := [State(p.base + s, Only(0, 0), 0)];
    LostTableEscapes(p, s, s, front, x);
  }

  /** Behind a masked branch through r13 at the start of a bundle, every bundle is reached with another
      address in r13, and from every runtime call that begins one, any address. */
  lemma {:induction false} MaskedTableEscapes(p: Program, s: nat, b: nat, x: nat)
    requires p.Ok() && s % BUNDLE == 0 && (FirstMatch(p, s, 0) == 0 || FirstMatch(p, s, 0) == 1)
    requires At(p, s).Some? && At(p, s).value.op0.reg == REG_R13
    requires b % BUNDLE == 0 && FirstMatch(p, b, 0) == 2 && At(p, b).Some?
    ensures Arrives(p, s, x)
  {
    hide FirstMatch, IsRun, MaskValue, Words.Or, Arrives, ReadsEntryAt;
    var start := State(p.base + s, With(Only(REG_R13, 1), REG_R14, p.base + b), 1);
    assert Aligned(p.base + b);
    BundleReached(p, s, start.regs, 1);
    var front: seq<State>;
    if FirstMatch(p, s, 0) == 0 {
      front := JumpRuns(p, s, [start]);
      assert front[0] == front[..1][0];
    } else {
      front := MaskedCallRuns(p, s, [start]);
    }
    NotEmpty(p, front);
    MaskOfOne(p.base + b);
    LostTableEscapes(p, s, b, front, x);
  }

  lemma {:induction false} MaskOfOne(x: nat)
    requires Aligned(x)
    ensures MaskValue(1) == 0 && Words.Or(MaskValue(1), x) == x && x != 1
  {
  }

  /** Where r13 is not reserved, an instruction of its own may change it. If it does so on any step from the
      start of a bundle, a runtime call right behind it goes to any address. */
  lemma {:induction false} UnreservedEscapes(p: Program, s: nat, st: State, next: State, x: nat)
    requires p.Ok() && s % BUNDLE == 0 && s < p.size && At(p, s).Some?
    requires Based(st) && Step(p, s, st, next) && next.regs(REG_R13) != next.table
    requires next.pc == p.base + s + At(p, s).value.size
    requires FirstMatch(p, s + At(p, s).value.size, 0) == 2 && At(p, s + At(p, s).value.size).Some?
    ensures Arrives(p, s, x)
  {
    hide FirstMatch, IsRun, Step;
    assert st.pc == p.base + s by { StepStarts(p, s, st, next); }
    BundleReached(p, s, st.regs, st.table);
    assert st == State(p.base + s, st.regs, st.table);
    assert StepAt(p, st, next);
    var front := Longer(p, [st], next);
    LostTableEscapes(p, s, s + At(p, s).value.size, front, x);
  }

  lemma {:induction false} StepStarts(p: Program, s: nat, st: State, next: State)
    requires Step(p, s, st, next)
    ensures st.pc == p.base + s
  {
  }

  /** Moves, sums, exchanges and unknown instructions that change r13 do so on some step. */
  lemma {:induction false} UnreservedChanges(p: Program, s: nat) returns (st: State, next: State)
    requires p.Ok() && s % BUNDLE == 0 && At(p, s).Some?
    requires var i := At(p, s).value;
             && Changes(p, i, REG_R13) && i.kind in {Mov, Add, Sub, Xchg, OtherKind}
             && (i.kind.Mov? && i.op1.kind.RegOp? ==> i.op0.size == 8)
    ensures Based(st) && Step(p, s, st, next) && next.regs(REG_R13) != next.table
    ensures next.pc == p.base + s + At(p, s).value.size
  {
    st := State(p.base + s, Only(0, 0), 0);
    next := State(st.pc + At(p, s).value.size, Only(REG_R13, 1), 0);
  }
}
