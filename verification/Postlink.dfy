/** The metering pass of the postlink tool in timer mode, without precise or empty metering: it
    turns the placeholder in front of each branch into the charge that the checker wants. */
module Postlink {
  import opened GasWords
  import opened Metering

  const NOP := 0xd503_201f
  const PLACEHOLDER := 0xd100_02f7

  datatype CsId = CsInvalid | CsB | CsBl | CsCbz | CsCbnz | CsTbz | CsTbnz | CsBlr | CsBr | CsRet | CsLdr | CsOther

  /** What the disassembler says: the instruction and the register of its first operand. */
  datatype CsInst = CsInst(id: CsId, reg: nat)
  type Disassembler = nat -> CsInst

  predicate IsPlaceholder(word: nat) { word == PLACEHOLDER || word == NOP }

  /** Does the pass treat an instruction as a branch? Calls through x25, and through an x24 loaded
      by the instruction before, are runtime calls, and a test of x23 belongs to the metering. */
  predicate Branches(inst: CsInst, prevId: CsId, prevReg: nat) {
    match inst.id
    case CsB | CsBl | CsCbz | CsCbnz | CsBr | CsRet => true
    case CsTbz | CsTbnz => inst.reg != 23
    case CsBlr => inst.reg != 25 && !(inst.reg == 24 && prevId.CsLdr? && prevReg == 24)
    case CsInvalid | CsLdr | CsOther => false
  }

  predicate CsBranch(cs: Disassembler, words: seq<nat>, i: nat)
    requires i < |words|
  {
    if i == 0 then Branches(cs(words[0]), CsInvalid, 0)
    else Branches(cs(words[i]), cs(words[i - 1]).id, cs(words[i - 1]).reg)
  }

  /** The first instruction of the segment of instruction i. */
  function Leader(cs: Disassembler, words: seq<nat>, i: nat): (l: nat)
    requires i < |words|
    ensures l <= i
  {
    if i == 0 then 0 else if CsBranch(cs, words, i - 1) then i else Leader(cs, words, i - 1)
  }

  function MeteredWord(cs: Disassembler, words: seq<nat>, i: nat): nat
    requires i < |words|
  {
    if i + 1 < |words| && CsBranch(cs, words, i + 1) && IsPlaceholder(words[i])
    then SubX23(i + 1 - Leader(cs, words, i + 1) + 1)
    else words[i]
  }

  /** What the pass makes of the words. */
  function Metered(cs: Disassembler, words: seq<nat>): (out: seq<nat>) {
    seq(|words|, (i: nat) requires i < |words| => MeteredWord(cs, words, i))
  }

  /** The two variables that remember the instruction before; only a load sets the register. */
  method Remember(prev: CsInst, prevReg: nat) returns (id: CsId, reg: nat)
    ensures id == prev.id && (prev.id.CsLdr? ==> reg == prev.reg)
  {
    id, reg := prev.id, prevReg;
    if prev.id.CsLdr? {
      reg := prev.reg;
    }
  }

  /** The first pass: the instruction behind a branch begins a segment. The variables that remember
      the instruction before are handed on to the second pass. */
  method FindLeaders(insns: array<nat>, cs: Disassembler) returns (leaders: array<bool>, prevId: CsId, prevReg: nat)
    requires insns.Length > 0
    ensures fresh(leaders) && leaders.Length == insns.Length
    ensures forall i: nat :: i < insns.Length ==> leaders[i] == (i == 0 || CsBranch(cs, insns[..], i - 1))
  {
    hide Branches;
    var n := insns.Length;
    leaders := new bool[n](_ => false);
    leaders[0] := true;
    prevId, prevReg := CsInvalid, 0;
    var csi := CsInst(CsInvalid, 0);
    for i := 0 to n
      invariant fresh(leaders)
      invariant forall k: nat :: k < n ==> leaders[k] == (k == 0 || (k <= i && CsBranch(cs, insns[..], k - 1)))
      invariant if i == 0 then prevId == CsInvalid && prevReg == 0 else csi == cs(insns[i - 1])
    {
      if i > 0 {
        prevId, prevReg := Remember(csi, prevReg);
      }
      csi := cs(insns[i]);
      ClassifiedAlike(cs, insns[..], i, prevId, prevReg);
      if Branches(csi, prevId, prevReg) && i + 1 < n {
        leaders[i + 1] := true;
      }
    }
  }

  /** The remembered register matters only behind a load. */
  lemma {:induction false} ClassifiedAlike(cs: Disassembler, words: seq<nat>, i: nat, prevId: CsId, prevReg: nat)
    requires i < |words|
    requires i == 0 ==> prevId == CsInvalid || !CsBranch(cs, words, 0)
    requires i > 0 ==> prevId == cs(words[i - 1]).id && (prevId.CsLdr? ==> prevReg == cs(words[i - 1]).reg)
    ensures Branches(cs(words[i]), prevId, prevReg) == CsBranch(cs, words, i)
  {
  }

  /** meteropt in timer mode. A branch in the very first place has nothing in front of it that
      could be a placeholder; the program then reads outside its buffer. */
  method Meteropt(insns: array<nat>, cs: Disassembler)
    requires insns.Length > 0 && !CsBranch(cs, insns[..], 0)
    modifies insns
    ensures insns[..] == Metered(cs, old(insns[..]))
  {
    hide Branches, SubX23;
    var leaders, prevId, prevReg := FindLeaders(insns, cs);
    ghost var words := insns[..];
    var n := insns.Length;
    var csi := CsInst(CsInvalid, 0);
    var curLeader := 0;
    for i := 0 to n
      invariant leaders as object != insns as object
      invariant forall k: nat :: k < n ==> leaders[k] == (k == 0 || CsBranch(cs, words, k - 1))
      invariant MeteredUpTo(cs, words, insns[..], i)
      invariant 0 <= curLeader && (i > 0 ==> csi == cs(words[i - 1]) && curLeader == Leader(cs, words, i - 1))
    {
      if i > 0 {
        prevId, prevReg := Remember(csi, prevReg);
      }
      csi := cs(insns[i]);
      ClassifiedAlike(cs, words, i, prevId, prevReg);
      if leaders[i] {
        curLeader := i;
      }
      if Branches(csi, prevId, prevReg) {
        var imm := i - curLeader + 1;
        if IsPlaceholder(insns[i - 1]) {
          insns[i - 1] := SubX23(imm);
        }
      }
    }
  }

  /** The charges of all branches before instruction i are in place, and nothing else changed. */
  ghost predicate MeteredUpTo(cs: Disassembler, words: seq<nat>, out: seq<nat>, i: nat) {
    && |out| == |words|
    && forall k: nat :: k < |words| ==> out[k] == if k + 1 < i then MeteredWord(cs, words, k) else words[k]
  }

  // ---- What the checker makes of it

  /** c is code as the compiler leaves it: both tools see the same branches, each branch ends its
      bundle and comes behind a placeholder, and nothing else writes x23. */
  ghost predicate Prepared(c: Code, cs: Disassembler) {
    && c.Ok()
    && (forall i: nat {:trigger c.Branch(i)} :: i < |c.words| ==>
          && (c.Branch(i) <==> CsBranch(cs, c.words, i))
          && (c.Branch(i) ==> i > 0 && i % c.bundle == c.bundle - 1 && IsPlaceholder(c.words[i - 1])))
    && (forall i: nat {:trigger c.Update(i)} :: i < |c.words| && c.Update(i) ==> i + 1 < |c.words| && c.Branch(i + 1))
    && forall k: nat {:trigger SubX23(k)} :: !IsBranch(c.poc, c.decode(SubX23(k)))
  }

  /** The pass moves no branch. */
  lemma {:induction false} SameBranches(c: Code, d: Code, cs: Disassembler, i: nat)
    requires Prepared(c, cs) && d == c.(words := Metered(cs, c.words)) && i < |c.words|
    ensures d.Branch(i) == c.Branch(i)
  {
    hide SubX23, IsBranch, GasUpdate, IsPlaceholder, Branches;
    assert d.words[i] == MeteredWord(cs, c.words, i);
    if d.words[i] != c.words[i] {
      assert c.Branch(i + 1) && !d.Branch(i);
      NoNeighbours(c, cs, i);
    }
  }

  lemma {:induction false} NoNeighbours(c: Code, cs: Disassembler, i: nat)
    requires Prepared(c, cs) && i + 1 < |c.words| && c.Branch(i + 1)
    ensures !c.Branch(i)
  {
    if c.Branch(i) {
      BundleEnd(i, c.bundle);
    }
  }

  /** Afterwards every update of the gas is the charge of a branch. */
  lemma {:induction false} NothingStandsAlone(c: Code, d: Code, cs: Disassembler, i: nat)
    requires Prepared(c, cs) && d == c.(words := Metered(cs, c.words)) && i < |c.words|
    ensures !d.Standalone(i)
  {
    hide SubX23, IsBranch, GasUpdate, IsPlaceholder, Branches;
    assert d.words[i] == MeteredWord(cs, c.words, i);
    if i + 1 < |c.words| {
      SameBranches(c, d, cs, i + 1);
      assert c.Branch(i + 1) <==> CsBranch(cs, c.words, i + 1);
    }
    assert d.words[i] == c.words[i] ==> c.Update(i) == d.Update(i);
  }

  /** The checker's boundaries are where the pass began its segments. */
  lemma {:induction false} BoundaryIsLeader(c: Code, d: Code, cs: Disassembler, i: nat)
    requires Prepared(c, cs) && d == c.(words := Metered(cs, c.words)) && i < |c.words|
    ensures Boundary(d, i) == Leader(cs, c.words, i) - 1
  {
    hide Code.Standalone, SubX23, IsBranch, GasUpdate, IsPlaceholder, Branches;
    if i > 0 {
      SameBranches(c, d, cs, i - 1);
      NothingStandsAlone(c, d, cs, i - 1);
      assert c.Branch(i - 1) <==> CsBranch(cs, c.words, i - 1);
      BoundaryIsLeader(c, d, cs, i - 1);
    }
  }

  /** The producer meets the checker: what the pass leaves is accepted. */
  lemma {:induction false} MeteredIsAccepted(c: Code, d: Code, cs: Disassembler)
    requires Prepared(c, cs) && d == c.(words := Metered(cs, c.words))
    ensures Accepts(d)
  {
    hide SubX23, IsBranch, GasUpdate, IsPlaceholder, Branches;
    forall i: nat | i < |d.words| ensures InsnOk(d, i) {
      NothingStandsAlone(c, d, cs, i);
      SameBranches(c, d, cs, i);
      assert c.Branch(i) <==> CsBranch(cs, c.words, i);
      if c.Branch(i) {
        BoundaryIsLeader(c, d, cs, i);
        assert d.words[i - 1] == MeteredWord(cs, c.words, i - 1);
      }
    }
  }

  /** No branch ends a segment of more than 4095 * 4096 instructions. */
  ghost predicate SegmentsShort(c: Code, cs: Disassembler) {
    forall i: nat {:trigger CsBranch(cs, c.words, i)} :: i < |c.words| && CsBranch(cs, c.words, i) ==>
      i + 1 - Leader(cs, c.words, i) <= 4095 * 4096
  }

  lemma {:induction false} ShortSegmentsFit(c: Code, d: Code, cs: Disassembler)
    requires Prepared(c, cs) && d == c.(words := Metered(cs, c.words)) && SegmentsShort(c, cs)
    ensures SegmentsFit(d)
  {
    hide Code.Standalone, SubX23, IsBranch, GasUpdate, IsPlaceholder, Branches;
    forall i: nat | i < |d.words| && (d.Branch(i) || d.Standalone(i)) ensures i - Boundary(d, i) <= 4095 * 4096 {
      NothingStandsAlone(c, d, cs, i);
      SameBranches(c, d, cs, i);
      BoundaryIsLeader(c, d, cs, i);
      assert c.Branch(i) <==> CsBranch(cs, c.words, i);
    }
  }

  /** So whatever runs of it pays for itself, if its segments are not too long. */
  lemma {:induction false} MeteredRunsArePaid(c: Code, d: Code, cs: Disassembler, run: seq<State>, k: nat)
    requires Prepared(c, cs) && d == c.(words := Metered(cs, c.words)) && SegmentsShort(c, cs)
    requires TargetsOk(d) && IsRun(d, run) && k < |run|
    ensures Paid(d, run[k])
  {
    MeteredIsAccepted(c, d, cs);
    ShortSegmentsFit(c, d, cs);
    RunsArePaid(d, run, k);
  }

  // ---- The pass, word by word

  /** The disassembler shows a branch that is to be charged for. */
  predicate CsEnds(cs: Disassembler, words: seq<nat>, i: nat)
    requires i < |words|
  {
    var inst := cs(words[i]);
    || inst.id in {CsB, CsBl, CsCbz, CsCbnz, CsBr, CsRet}
    || (inst.id in {CsTbz, CsTbnz} && inst.reg != 23)
    || (inst.id == CsBlr && inst.reg != 25
        && (inst.reg == 24 ==> i == 0 || cs(words[i - 1]) != CsInst(CsLdr, 24)))
  }

  /** b is the last such branch before instruction i; -1 if there is none. */
  ghost predicate LastEnd(cs: Disassembler, words: seq<nat>, i: nat, b: int)
    requires i < |words|
  {
    -1 <= b < i && (b >= 0 ==> CsEnds(cs, words, b)) && forall k: nat :: b < k < i ==> !CsEnds(cs, words, k)
  }

  /** A placeholder in front of a branch becomes the charge for all instructions since the branch before, and
      every other word stays. */
  ghost predicate WordMetered(cs: Disassembler, words: seq<nat>, out: seq<nat>, i: nat)
    requires i < |words| == |out|
  {
    if i + 1 < |words| && CsEnds(cs, words, i + 1) && words[i] in {0xd100_02f7, 0xd503_201f}
    then forall b: int {:trigger LastEnd(cs, words, i + 1, b)} :: LastEnd(cs, words, i + 1, b) ==>
           out[i] == SubX23(i + 1 - b)
    else out[i] == words[i]
  }

  lemma {:induction false} SameEnd(cs: Disassembler, words: seq<nat>, i: nat)
    requires i < |words|
    ensures CsEnds(cs, words, i) <==> CsBranch(cs, words, i)
  {
  }

  lemma {:induction false} LeaderIsBehindLast(cs: Disassembler, words: seq<nat>, i: nat, b: int)
    requires i < |words|
    ensures LastEnd(cs, words, i, b) <==> b + 1 == Leader(cs, words, i)
  {
    hide CsEnds, CsBranch;
    if i > 0 {
      SameEnd(cs, words, i - 1);
      LeaderIsBehindLast(cs, words, i - 1, b);
    }
  }

  lemma {:induction false} WordIs(cs: Disassembler, words: seq<nat>, out: seq<nat>, i: nat)
    requires i < |words| == |out|
    ensures WordMetered(cs, words, out, i) <==> out[i] == MeteredWord(cs, words, i)
  {
    hide CsEnds, CsBranch, LastEnd, Leader, SubX23;
    var next := i + 1;
    if next < |words| {
      SameEnd(cs, words, next);
      forall b: int ensures LastEnd(cs, words, next, b) <==> b + 1 == Leader(cs, words, next) {
        LeaderIsBehindLast(cs, words, next, b);
      }
      assert LastEnd(cs, words, i + 1, Leader(cs, words, i + 1) - 1);
    }
  }

  lemma {:induction false} MeteredIs(cs: Disassembler, words: seq<nat>, out: seq<nat>)
    requires |out| == |words|
    ensures out == Metered(cs, words) <==>
              forall i: nat {:trigger WordMetered(cs, words, out, i)} :: i < |words| ==> WordMetered(cs, words, out, i)
  {
    hide WordMetered, MeteredWord;
    forall i: nat | i < |words| ensures WordMetered(cs, words, out, i) <==> out[i] == MeteredWord(cs, words, i) {
      WordIs(cs, words, out, i);
    }
    var metered := Metered(cs, words);
    if out != metered {
      var i: nat :| i < |words| && out[i] != metered[i];
      assert !WordMetered(cs, words, out, i);
    }
  }
}
