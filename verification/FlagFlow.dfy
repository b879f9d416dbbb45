/** The undefined-flag analysis of flags.c: two passes over the blocks instead of a fixpoint.

    The first pass runs every block with all status flags undefined; what it leaves on edges that
    lead backwards is a safe bound. The second pass runs the blocks in order, so edges that lead
    forwards carry what really was computed. */
module FlagFlow {
  import opened Options
  import opened FlagTables

  /** A block of size instructions; the index of its first instruction is that of the block. An
      index that begins no block has size zero. */
  datatype Block = Block(target: Option<nat>, fallthrough: Option<nat>, size: nat)

  datatype Graph = Graph(blocks: seq<Block>, instrs: seq<Mnemonic>) {
    predicate Ok() {
      && |blocks| == |instrs|
      && forall i: nat {:trigger blocks[i]} :: i < |blocks| ==>
           && i + blocks[i].size <= |instrs|
           && (blocks[i].target.Some? ==> blocks[i].target.value < |blocks|)
           && (blocks[i].fallthrough.Some? ==> blocks[i].fallthrough.value < |blocks|)
    }

    /** The analysis hands results of block j on to block k. */
    predicate Edge(j: nat, k: nat) {
      j < |blocks| && blocks[j].size > 0 && (blocks[j].target == Some(k) || blocks[j].fallthrough == Some(k))
    }
  }

  // ---- One block

  /** The undefined flags after an instruction. */
  function Apply(m: Mnemonic, undef: set<Flag>): set<Flag> { undef + Undef(m) - Modify(m) }

  /** The undefined flags after instructions lo..hi. */
  function After(instrs: seq<Mnemonic>, lo: nat, hi: nat, undef: set<Flag>): (r: set<Flag>)
    requires lo <= hi <= |instrs|
    decreases hi
  {
    if lo == hi then undef else Apply(instrs[hi - 1], After(instrs, lo, hi - 1, undef))
  }

  /** What is reported of an instruction: it reads AF, or a flag that may be undefined. */
  predicate BadRead(m: Mnemonic, undef: set<Flag>) { AF in Read(m) || undef * Read(m) != {} }

  ghost predicate BlockClean(instrs: seq<Mnemonic>, lo: nat, hi: nat, undef: set<Flag>)
    requires lo <= hi <= |instrs|
  {
    forall i: nat :: lo <= i < hi ==> !BadRead(instrs[i], After(instrs, lo, i, undef))
  }

  /** analyzeblock */
  method AnalyzeBlock(instrs: seq<Mnemonic>, lo: nat, hi: nat, input: set<Flag>, report: bool)
    returns (output: set<Flag>, failed: bool)
    requires lo <= hi <= |instrs|
    ensures output == After(instrs, lo, hi, input)
    ensures failed <==> report && !BlockClean(instrs, lo, hi, input)
  {
    hide Read, Undef, Modify;
    output, failed := input, false;
    for i := lo to hi
      invariant output == After(instrs, lo, i, input)
      invariant failed <==> report && !BlockClean(instrs, lo, i, input)
    {
      var m := instrs[i];
      TablesAgree(m);
      assert Undef(m) * Modify(m) == {};
      if AF in Read(m) && report {
        failed := true;
      }
      if output * Read(m) != {} && report {
        failed := true;
      }
      output := output + Undef(m);
      output := output - Modify(m);
    }
  }

  // ---- What really is undefined

  /** Instruction q of the code leaves the flag undefined, and none behind it touches the flag. */
  predicate Spoils(code: seq<Mnemonic>, q: nat, f: Flag) {
    q < |code| && f in Undef(code[q]) && Untouched(code[q + 1..], f)
  }

  predicate Untouched(code: seq<Mnemonic>, f: Flag) {
    forall k: nat :: k < |code| ==> f !in Undef(code[k]) && f !in Modify(code[k])
  }

  /** The last instruction that touches the flag leaves it undefined. */
  ghost predicate LeftUndefined(code: seq<Mnemonic>, f: Flag) { exists q: nat :: Spoils(code, q, f) }

  /** Behind one more instruction. */
  lemma {:induction false} OneMore(code: seq<Mnemonic>, m: Mnemonic, f: Flag)
    ensures LeftUndefined(code + [m], f) <==> f in Undef(m) || (LeftUndefined(code, f) && f !in Modify(m))
    ensures Untouched(code + [m], f) <==> Untouched(code, f) && f !in Undef(m) && f !in Modify(m)
  {
    hide Undef, Modify;
    TablesAgree(m);
    var longer, n := code + [m], |code|;
    assert longer[n + 1..] == [];
    if f in Undef(m) {
      assert Spoils(longer, n, f);
    } else {
      forall q: nat | q < n ensures Spoils(longer, q, f) <==> Spoils(code, q, f) && f !in Modify(m) {
        assert longer[q + 1..] == code[q + 1..] + [m];
        SpoiltBehind(code[q + 1..], m, f);
      }
    }
    SpoiltBehind(code, m, f);
  }

  lemma {:induction false} SpoiltBehind(code: seq<Mnemonic>, m: Mnemonic, f: Flag)
    ensures Untouched(code + [m], f) <==> Untouched(code, f) && f !in Undef(m) && f !in Modify(m)
  {
    hide Undef, Modify;
    var longer := code + [m];
    assert longer[|code|] == m;
    if Untouched(longer, f) {
      forall k: nat | k < |code| ensures f !in Undef(code[k]) && f !in Modify(code[k]) {
        assert longer[k] == code[k];
      }
    }
  }

  /** The flags undefined behind a stretch of code: those it leaves undefined, and those that were before and
      that it does not touch. */
  lemma {:induction false} AfterIs(instrs: seq<Mnemonic>, lo: nat, hi: nat, x: set<Flag>, f: Flag)
    requires lo <= hi <= |instrs|
    ensures f in After(instrs, lo, hi, x) <==>
              LeftUndefined(instrs[lo..hi], f) || (f in x && Untouched(instrs[lo..hi], f))
    decreases hi
  {
    hide LeftUndefined, Untouched;
    if lo < hi {
      AfterIs(instrs, lo, hi - 1, x, f);
      assert instrs[lo..hi] == instrs[lo..hi - 1] + [instrs[hi - 1]];
      OneMore(instrs[lo..hi - 1], instrs[hi - 1], f);
      ApplyIs(instrs[hi - 1], After(instrs, lo, hi - 1, x), f);
    } else {
      NothingUndefined(instrs[lo..hi], f);
    }
  }

  lemma {:induction false} ApplyIs(m: Mnemonic, undef: set<Flag>, f: Flag)
    ensures f in Apply(m, undef) <==> f in Undef(m) || (f in undef && f !in Modify(m))
  {
    hide Undef, Modify;
    TablesAgree(m);
  }

  lemma {:induction false} NothingUndefined(code: seq<Mnemonic>, f: Flag)
    requires code == []
    ensures !LeftUndefined(code, f) && Untouched(code, f)
  {
  }

  // ---- The two passes, as equations

  /** What the first pass makes of block j. */
  function Out1(g: Graph, j: nat): set<Flag>
    requires g.Ok() && j < |g.blocks|
  {
    After(g.instrs, j, j + g.blocks[j].size, STATUS)
  }

  /** What block k begins with in the second pass: from edges that lead backwards the result of the
      first pass, from edges that lead forwards that of the second. */
  ghost function In2(g: Graph, k: nat): set<Flag>
    requires g.Ok()
    decreases k, 2
  {
    set f: Flag | Incoming(g, k, f)
  }

  ghost predicate Incoming(g: Graph, k: nat, f: Flag)
    requires g.Ok()
    decreases k, 1
  {
    exists j: nat :: Flows(g, j, k, f)
  }

  /** Edge j to k carries flag f. */
  ghost predicate Flows(g: Graph, j: nat, k: nat, f: Flag)
    requires g.Ok()
    decreases k, 0
  {
    g.Edge(j, k) && if j < k then f in After(g.instrs, j, j + g.blocks[j].size, In2(g, j)) else f in Out1(g, j)
  }

  ghost function Out2(g: Graph, j: nat): set<Flag>
    requires g.Ok() && j < |g.blocks|
  {
    After(g.instrs, j, j + g.blocks[j].size, In2(g, j))
  }

  /** No block reports an error in the second pass. */
  ghost predicate Clean(g: Graph)
    requires g.Ok()
  {
    forall k: nat {:trigger In2(g, k)} :: k < |g.blocks| ==> BlockClean(g.instrs, k, k + g.blocks[k].size, In2(g, k))
  }

  /** Block j leaves the flag undefined, or it was so before and block j does not touch it. */
  ghost predicate BlockLeaves(g: Graph, j: nat, f: Flag, before: bool)
    requires g.Ok() && j < |g.blocks|
  {
    var code := g.instrs[j..j + g.blocks[j].size];
    LeftUndefined(code, f) || (before && Untouched(code, f))
  }

  /** Along the edge from block j to block k. An edge that leads backwards carries a flag as if every status
      flag had been undefined before block j. */
  ghost predicate Carries(g: Graph, j: nat, k: nat, f: Flag)
    requires g.Ok()
  {
    g.Edge(j, k) && BlockLeaves(g, j, f, if j < k then f in In2(g, j) else f != DF && f != NT)
  }

  /** A block begins with what the blocks before it leave undefined. */
  lemma {:induction false} In2Is(g: Graph, k: nat, f: Flag)
    requires g.Ok()
    ensures f in In2(g, k) <==> exists j: nat :: Carries(g, j, k, f)
  {
    hide In2, Carries, Flows;
    if f in In2(g, k) {
      var j := Sender(g, k, f);
      FlowsIs(g, j, k, f);
    }
    if j: nat :| Carries(g, j, k, f) {
      FlowsIs(g, j, k, f);
      Receives(g, j, k, f);
    }
  }

  lemma {:induction false} FlowsIs(g: Graph, j: nat, k: nat, f: Flag)
    requires g.Ok()
    ensures Flows(g, j, k, f) <==> Carries(g, j, k, f)
  {
    hide In2, After, LeftUndefined, Untouched;
    if g.Edge(j, k) {
      var x := if j < k then In2(g, j) else STATUS;
      AfterIs(g.instrs, j, j + g.blocks[j].size, x, f);
      IsStatus(f);
    }
  }

  lemma {:induction false} Sender(g: Graph, k: nat, f: Flag) returns (j: nat)
    requires g.Ok() && f in In2(g, k)
    ensures Flows(g, j, k, f)
  {
    assert Incoming(g, k, f);
    j :| Flows(g, j, k, f);
  }

  lemma {:induction false} Receives(g: Graph, j: nat, k: nat, f: Flag)
    requires g.Ok() && Flows(g, j, k, f)
    ensures f in In2(g, k)
  {
    assert Incoming(g, k, f);
  }

  /** Nothing is reported exactly if no instruction reads AF, or a flag that may be undefined before it. */
  lemma {:induction false} CleanIs(g: Graph)
    requires g.Ok()
    ensures Clean(g) <==> forall k: nat, i: nat, f: Flag {:trigger Suspect(g, k, i, f)} :: !Suspect(g, k, i, f)
  {
    hide In2, After, LeftUndefined, Untouched, Read;
    forall k: nat, i: nat | k < |g.blocks| && k <= i < k + g.blocks[k].size
      ensures BadRead(g.instrs[i], After(g.instrs, k, i, In2(g, k))) <==> exists f: Flag :: Suspect(g, k, i, f)
    {
      SuspectIs(g, k, i);
    }
    if !Clean(g) {
      var k: nat :| k < |g.blocks| && !BlockClean(g.instrs, k, k + g.blocks[k].size, In2(g, k));
      var i: nat :| k <= i < k + g.blocks[k].size && BadRead(g.instrs[i], After(g.instrs, k, i, In2(g, k)));
      var f: Flag :| Suspect(g, k, i, f);
    }
    if k: nat, i: nat, f: Flag :| Suspect(g, k, i, f) {
      assert BadRead(g.instrs[i], After(g.instrs, k, i, In2(g, k)));
      assert !BlockClean(g.instrs, k, k + g.blocks[k].size, In2(g, k));
    }
  }

  /** Instruction i of block k reads flag f, which is AF, or may be undefined. */
  ghost predicate Suspect(g: Graph, k: nat, i: nat, f: Flag)
    requires g.Ok()
  {
    && k < |g.blocks| && k <= i < k + g.blocks[k].size && f in Read(g.instrs[i])
    && (f == AF || LeftUndefined(g.instrs[k..i], f) || (f in In2(g, k) && Untouched(g.instrs[k..i], f)))
  }

  lemma {:induction false} SuspectIs(g: Graph, k: nat, i: nat)
    requires g.Ok() && k < |g.blocks| && k <= i < k + g.blocks[k].size
    ensures BadRead(g.instrs[i], After(g.instrs, k, i, In2(g, k))) <==> exists f: Flag :: Suspect(g, k, i, f)
  {
    hide In2, After, LeftUndefined, Untouched, Read;
    var undef := After(g.instrs, k, i, In2(g, k));
    forall f: Flag
      ensures Suspect(g, k, i, f) <==> f in Read(g.instrs[i]) && (f == AF || f in undef)
    {
      AfterIs(g.instrs, k, i, In2(g, k), f);
    }
    if BadRead(g.instrs[i], undef) {
      if AF in Read(g.instrs[i]) {
        assert Suspect(g, k, i, AF);
      } else {
        var f :| f in undef * Read(g.instrs[i]);
        assert Suspect(g, k, i, f);
      }
    }
    if f: Flag :| Suspect(g, k, i, f) {
      assert f == AF || f in undef * Read(g.instrs[i]);
    }
  }

  // ---- The two passes, in place

  /** What has reached block k when the first pass is about to run block m: a block forgets what it
      received before its own turn. */
  ghost predicate Received1(g: Graph, k: nat, m: nat, f: Flag)
    requires g.Ok()
  {
    exists j: nat :: j < m && g.Edge(j, k) && (j >= k || k >= m) && f in Out1(g, j)
  }

  ghost predicate Received2(g: Graph, k: nat, m: nat, f: Flag)
    requires g.Ok()
  {
    exists j: nat :: Sends2(g, j, k, m, f)
  }

  ghost predicate Sends2(g: Graph, j: nat, k: nat, m: nat, f: Flag)
    requires g.Ok()
  {
    g.Edge(j, k) && if j < k then j < m && f in Out2(g, j) else f in Out1(g, j)
  }

  ghost predicate Holds1(g: Graph, input: seq<set<Flag>>, m: nat)
    requires g.Ok()
  {
    && |input| == |g.blocks|
    && forall k: nat, f: Flag {:trigger f in input[k]} :: k < |input| && g.blocks[k].size > 0 ==>
         (f in input[k] <==> Received1(g, k, m, f))
  }

  /** From block m on, the inputs are as the second pass wants them. */
  ghost predicate Holds2(g: Graph, input: seq<set<Flag>>, m: nat)
    requires g.Ok()
  {
    && |input| == |g.blocks|
    && forall k: nat, f: Flag {:trigger f in input[k]} :: m <= k < |input| && g.blocks[k].size > 0 ==>
         (f in input[k] <==> Received2(g, k, m, f))
  }

  /** The inputs after block m handed its output on. */
  ghost predicate HandedOn(g: Graph, before: seq<set<Flag>>, after: seq<set<Flag>>, m: nat, output: set<Flag>) {
    && |after| == |before|
    && forall k: nat, f: Flag {:trigger f in after[k]} :: k < |after| ==>
         (f in after[k] <==> (k != m && f in before[k]) || (g.Edge(m, k) && f in output))
  }

  /** The body both passes share: run block m on flags in0, after clearing its own input. */
  method RunBlock(g: Graph, input: array<set<Flag>>, m: nat, in0: set<Flag>, report: bool) returns (failed: bool)
    requires g.Ok() && input.Length == |g.blocks| && m < |g.blocks| && g.blocks[m].size > 0
    modifies input
    ensures HandedOn(g, old(input[..]), input[..], m, After(g.instrs, m, m + g.blocks[m].size, in0))
    ensures failed <==> report && !BlockClean(g.instrs, m, m + g.blocks[m].size, in0)
  {
    hide After, BlockClean;
    var block := g.blocks[m];
    input[m] := {};
    var output;
    output, failed := AnalyzeBlock(g.instrs, m, m + block.size, in0, report);
    if block.fallthrough.Some? {
      input[block.fallthrough.value] := input[block.fallthrough.value] + output;
    }
    if block.target.Some? {
      input[block.target.value] := input[block.target.value] + output;
    }
  }

  /** The first pass */
  method FirstPass(g: Graph, input: array<set<Flag>>)
    requires g.Ok() && Holds1(g, input[..], 0)
    modifies input
    ensures Holds2(g, input[..], 0)
  {
    hide HandedOn, Holds1, Holds2, BlockClean;
    for m := 0 to |g.blocks|
      invariant Holds1(g, input[..], m)
    {
      HoldsLength(g, input[..], m);
      if g.blocks[m].size > 0 {
        ghost var before := input[..];
        var _ := RunBlock(g, input, m, STATUS, false);
        FirstStep(g, before, input[..], m);
      } else {
        FirstSkip(g, input[..], m);
      }
    }
    SecondBegins(g, input[..]);
  }

  /** The second pass */
  method SecondPass(g: Graph, input: array<set<Flag>>) returns (failed: bool)
    requires g.Ok() && Holds2(g, input[..], 0)
    modifies input
    ensures failed <==> !Clean(g)
  {
    hide Clean, HandedOn, Holds2, After;
    failed := false;
    for m := 0 to |g.blocks|
      invariant Holds2(g, input[..], m)
      invariant failed <==> !CleanUpTo(g, m)
    {
      HoldsLength(g, input[..], m);
      CleanStep(g, m);
      if g.blocks[m].size > 0 {
        ghost var before := input[..];
        InputIs(g, before, m);
        var bad := RunBlock(g, input, m, input[m], true);
        failed := failed || bad;
        SecondStep(g, before, input[..], m);
      } else {
        SecondSkip(g, input[..], m);
      }
    }
    CleanAll(g);
  }

  lemma {:induction false} HoldsLength(g: Graph, input: seq<set<Flag>>, m: nat)
    requires g.Ok() && (Holds1(g, input, m) || Holds2(g, input, m))
    ensures |input| == |g.blocks|
  {
  }

  /** The two passes of analyzecfg; an error is reported exactly when the equations call for it. */
  method AnalyzePasses(g: Graph) returns (failed: bool)
    requires g.Ok()
    ensures failed <==> !Clean(g)
  {
    var input := new set<Flag>[|g.blocks|](_ => {});
    NothingReceived(g, input[..]);
    FirstPass(g, input);
    failed := SecondPass(g, input);
  }

  ghost predicate CleanUpTo(g: Graph, m: nat)
    requires g.Ok() && m <= |g.blocks|
  {
    forall k: nat {:trigger In2(g, k)} :: k < m ==> BlockClean(g.instrs, k, k + g.blocks[k].size, In2(g, k))
  }

  lemma {:induction false} CleanStep(g: Graph, m: nat)
    requires g.Ok() && m < |g.blocks|
    ensures CleanUpTo(g, m + 1) <==> CleanUpTo(g, m) && BlockClean(g.instrs, m, m + g.blocks[m].size, In2(g, m))
  {
    hide BlockClean;
  }

  lemma {:induction false} CleanAll(g: Graph)
    requires g.Ok()
    ensures CleanUpTo(g, |g.blocks|) <==> Clean(g)
  {
    hide BlockClean;
  }

  lemma {:induction false} NothingReceived(g: Graph, input: seq<set<Flag>>)
    requires g.Ok() && |input| == |g.blocks| && forall k: nat :: k < |input| ==> input[k] == {}
    ensures Holds1(g, input, 0)
  {
  }

  lemma {:induction false} FirstStep(g: Graph, before: seq<set<Flag>>, after: seq<set<Flag>>, m: nat)
    requires g.Ok() && m < |g.blocks| && g.blocks[m].size > 0
    requires Holds1(g, before, m) && HandedOn(g, before, after, m, Out1(g, m))
    ensures Holds1(g, after, m + 1)
  {
    hide Out1;
    forall k: nat, f: Flag | k < |after| && g.blocks[k].size > 0
      ensures f in after[k] <==> Received1(g, k, m + 1, f)
    {
      assert f in after[k] <==> (k != m && f in before[k]) || (g.Edge(m, k) && f in Out1(g, m));
      assert f in before[k] <==> Received1(g, k, m, f);
      if Received1(g, k, m, f) && k != m {
        var j: nat :| j < m && g.Edge(j, k) && (j >= k || k >= m) && f in Out1(g, j);
        assert j < m + 1 && (j >= k || k >= m + 1);
      }
      if Received1(g, k, m + 1, f) {
        var j: nat :| j < m + 1 && g.Edge(j, k) && (j >= k || k >= m + 1) && f in Out1(g, j);
        if j != m {
          assert j < m && (j >= k || k >= m) && k != m;
        }
      }
    }
  }

  lemma {:induction false} FirstSkip(g: Graph, input: seq<set<Flag>>, m: nat)
    requires g.Ok() && m < |g.blocks| && g.blocks[m].size == 0 && Holds1(g, input, m)
    ensures Holds1(g, input, m + 1)
  {
    hide Out1;
    forall k: nat, f: Flag | k < |input| && g.blocks[k].size > 0
      ensures f in input[k] <==> Received1(g, k, m + 1, f)
    {
      assert f in input[k] <==> Received1(g, k, m, f);
      if Received1(g, k, m, f) {
        var j: nat :| j < m && g.Edge(j, k) && (j >= k || k >= m) && f in Out1(g, j);
        assert j < m + 1 && (j >= k || k >= m + 1);
      }
      if Received1(g, k, m + 1, f) {
        var j: nat :| j < m + 1 && g.Edge(j, k) && (j >= k || k >= m + 1) && f in Out1(g, j);
        assert j < m && (j >= k || k >= m);
      }
    }
  }

  lemma {:induction false} SecondBegins(g: Graph, input: seq<set<Flag>>)
    requires g.Ok() && Holds1(g, input, |g.blocks|)
    ensures Holds2(g, input, 0)
  {
    hide Out1, Out2;
    forall k: nat, f: Flag | k < |input| && g.blocks[k].size > 0
      ensures f in input[k] <==> Received2(g, k, 0, f)
    {
      assert f in input[k] <==> Received1(g, k, |g.blocks|, f);
      if Received1(g, k, |g.blocks|, f) {
        var j: nat :| j < |g.blocks| && g.Edge(j, k) && (j >= k || k >= |g.blocks|) && f in Out1(g, j);
        assert Sends2(g, j, k, 0, f);
      }
      if Received2(g, k, 0, f) {
        var j: nat :| Sends2(g, j, k, 0, f);
        assert j >= k && j < |g.blocks|;
      }
    }
  }

  lemma {:induction false} SecondStep(g: Graph, before: seq<set<Flag>>, after: seq<set<Flag>>, m: nat)
    requires g.Ok() && m < |g.blocks| && g.blocks[m].size > 0
    requires Holds2(g, before, m) && HandedOn(g, before, after, m, Out2(g, m))
    ensures Holds2(g, after, m + 1)
  {
    hide Out1, Out2;
    forall k: nat, f: Flag | m + 1 <= k < |after| && g.blocks[k].size > 0
      ensures f in after[k] <==> Received2(g, k, m + 1, f)
    {
      assert f in after[k] <==> f in before[k] || (g.Edge(m, k) && f in Out2(g, m));
      assert f in before[k] <==> Received2(g, k, m, f);
      if g.Edge(m, k) && f in Out2(g, m) {
        assert Sends2(g, m, k, m + 1, f);
      }
      if Received2(g, k, m, f) {
        var j: nat :| Sends2(g, j, k, m, f);
        assert Sends2(g, j, k, m + 1, f);
      }
      if Received2(g, k, m + 1, f) {
        var j: nat :| Sends2(g, j, k, m + 1, f);
        assert j == m || Sends2(g, j, k, m, f);
      }
    }
  }

  lemma {:induction false} SecondSkip(g: Graph, input: seq<set<Flag>>, m: nat)
    requires g.Ok() && m < |g.blocks| && g.blocks[m].size == 0 && Holds2(g, input, m)
    ensures Holds2(g, input, m + 1)
  {
    hide Out1, Out2;
    forall k: nat, f: Flag | m + 1 <= k < |input| && g.blocks[k].size > 0
      ensures f in input[k] <==> Received2(g, k, m + 1, f)
    {
      assert f in input[k] <==> Received2(g, k, m, f);
      if Received2(g, k, m, f) {
        var j: nat :| Sends2(g, j, k, m, f);
        assert Sends2(g, j, k, m + 1, f);
      }
      if Received2(g, k, m + 1, f) {
        var j: nat :| Sends2(g, j, k, m + 1, f);
        assert Sends2(g, j, k, m, f);
      }
    }
  }

  /** When its turn comes, a block has received exactly what the equations say. */
  lemma {:induction false} InputIs(g: Graph, input: seq<set<Flag>>, m: nat)
    requires g.Ok() && m < |g.blocks| && g.blocks[m].size > 0 && Holds2(g, input, m)
    ensures input[m] == In2(g, m)
  {
    forall f: Flag ensures f in input[m] <==> f in In2(g, m) {
      assert f in input[m] <==> Received2(g, m, m, f);
      if Received2(g, m, m, f) {
        var j: nat :| Sends2(g, j, m, m, f);
        assert Flows(g, j, m, f);
      }
      if f in In2(g, m) {
        assert Incoming(g, m, f);
        var j: nat :| Flows(g, j, m, f);
        assert Sends2(g, j, m, m, f);
      }
    }
  }

  // ---- Soundness

  /** Blocks that may follow one another, from block 0 on. */
  ghost predicate IsPath(g: Graph, path: seq<nat>) {
    && path != [] && path[0] == 0
    && (forall k: nat {:trigger path[k]} :: k < |path| ==> path[k] < |g.blocks|)
    && forall k: nat {:trigger g.Edge(path[k], path[k + 1])} :: k + 1 < |path| ==> g.Edge(path[k], path[k + 1])
  }

  /** The flags that really are undefined when the path comes to its block k; at the entry all
      flags are defined. */
  function Entering(g: Graph, path: seq<nat>, k: nat): set<Flag>
    requires g.Ok() && k < |path| && forall i: nat {:trigger path[i]} :: i < |path| ==> path[i] < |g.blocks|
    decreases k
  {
    if k == 0 then {}
      else After(g.instrs, path[k - 1], path[k - 1] + g.blocks[path[k - 1]].size, Entering(g, path, k - 1))
  }

  /** The instructions that the path executes before its block k. */
  function Trace(g: Graph, path: seq<nat>, k: nat): seq<Mnemonic>
    requires g.Ok() && k < |path| && forall i: nat {:trigger path[i]} :: i < |path| ==> path[i] < |g.blocks|
    decreases k
  {
    if k == 0 then [] else
      Trace(g, path, k - 1) + g.instrs[path[k - 1]..path[k - 1] + g.blocks[path[k - 1]].size]
  }

  /** Those it executes before instruction i of its block k. */
  function TraceTo(g: Graph, path: seq<nat>, k: nat, i: nat): seq<Mnemonic>
    requires g.Ok() && k < |path| && forall i: nat {:trigger path[i]} :: i < |path| ==> path[i] < |g.blocks|
    requires path[k] <= i < path[k] + g.blocks[path[k]].size
  {
    Trace(g, path, k) + g.instrs[path[k]..i]
  }

  lemma {:induction false} Join(a: seq<Mnemonic>, b: seq<Mnemonic>, f: Flag)
    ensures LeftUndefined(a + b, f) <==> LeftUndefined(b, f) || (LeftUndefined(a, f) && Untouched(b, f))
    decreases |b|
  {
    hide LeftUndefined, Untouched, Undef, Modify;
    if b == [] {
      assert a + b == a;
      NothingUndefined(b, f);
    } else {
      var front, m := b[..|b| - 1], b[|b| - 1];
      assert b == front + [m] && a + b == a + front + [m];
      Join(a, front, f);
      OneMore(a + front, m, f);
      OneMore(front, m, f);
      TablesAgree(m);
    }
  }

  lemma {:induction false} EnteringIs(g: Graph, path: seq<nat>, k: nat, f: Flag)
    requires g.Ok() && k < |path| && forall i: nat {:trigger path[i]} :: i < |path| ==> path[i] < |g.blocks|
    ensures f in Entering(g, path, k) <==> LeftUndefined(Trace(g, path, k), f)
    decreases k
  {
    hide After, LeftUndefined, Untouched;
    if k == 0 {
      NothingUndefined(Trace(g, path, 0), f);
    } else {
      var b := path[k - 1];
      EnteringIs(g, path, k - 1, f);
      AfterIs(g.instrs, b, b + g.blocks[b].size, Entering(g, path, k - 1), f);
      Join(Trace(g, path, k - 1), g.instrs[b..b + g.blocks[b].size], f);
    }
  }

  /** What is undefined on a path, instruction by instruction, is what the sets say. */
  lemma {:induction false} UndefinedIs(g: Graph, path: seq<nat>, k: nat, i: nat, f: Flag)
    requires g.Ok() && k < |path| && forall i: nat {:trigger path[i]} :: i < |path| ==> path[i] < |g.blocks|
    requires path[k] <= i < path[k] + g.blocks[path[k]].size
    ensures f in After(g.instrs, path[k], i, Entering(g, path, k)) <==> LeftUndefined(TraceTo(g, path, k, i), f)
  {
    hide After, LeftUndefined, Untouched, Trace, Entering;
    EnteringIs(g, path, k, f);
    AfterIs(g.instrs, path[k], i, Entering(g, path, k), f);
    Join(Trace(g, path, k), g.instrs[path[k]..i], f);
  }

  /** More undefined status flags before a block leave more undefined behind it. */
  lemma {:induction false} AfterMono(instrs: seq<Mnemonic>, lo: nat, hi: nat, x: set<Flag>, y: set<Flag>)
    requires lo <= hi <= |instrs| && x * STATUS <= y
    ensures After(instrs, lo, hi, x) * STATUS <= After(instrs, lo, hi, y)
    decreases hi
  {
    hide Undef, Modify;
    if lo < hi {
      AfterMono(instrs, lo, hi - 1, x, y);
    }
  }

  lemma {:induction false} EnteringIsBounded(g: Graph, path: seq<nat>, k: nat)
    requires g.Ok() && IsPath(g, path) && k < |path|
    ensures Entering(g, path, k) * STATUS <= In2(g, path[k])
    decreases k
  {
    hide After, In2;
    if k > 0 {
      var i: nat := k - 1;
      var j := path[i];
      var before, hi := Entering(g, path, i), j + g.blocks[j].size;
      EnteringIsBounded(g, path, i);
      assert g.Edge(path[i], path[i + 1]);
      AfterMono(g.instrs, j, hi, before, In2(g, j));
      AfterMono(g.instrs, j, hi, before, STATUS);
      EdgeCarries(g, j, path[k], Entering(g, path, k));
    }
  }

  lemma {:induction false} EdgeCarries(g: Graph, j: nat, k: nat, undef: set<Flag>)
    requires g.Ok() && g.Edge(j, k)
    requires undef * STATUS <= Out2(g, j) && undef * STATUS <= Out1(g, j)
    ensures undef * STATUS <= In2(g, k)
  {
    hide After;
    forall f: Flag | f in undef * STATUS ensures f in In2(g, k) {
      assert Flows(g, j, k, f);
    }
  }

  lemma {:induction false} ReadsAreDefined(g: Graph, path: seq<nat>, k: nat, i: nat)
    requires g.Ok() && Clean(g) && IsPath(g, path) && k < |path|
    requires path[k] <= i < path[k] + g.blocks[path[k]].size
    ensures After(g.instrs, path[k], i, Entering(g, path, k)) * Read(g.instrs[i]) * STATUS == {}
  {
    hide After, In2, Read;
    var b := path[k];
    EnteringIsBounded(g, path, k);
    AfterMono(g.instrs, b, i, Entering(g, path, k), In2(g, b));
    assert BlockClean(g.instrs, b, b + g.blocks[b].size, In2(g, b));
    assert !BadRead(g.instrs[i], After(g.instrs, b, i, In2(g, b)));
  }

  /** If nothing is reported, then no instruction on any path reads a status flag that the path left
      undefined. */
  lemma {:induction false} NoUndefinedRead(g: Graph, path: seq<nat>, k: nat, i: nat, f: Flag)
    requires g.Ok() && Clean(g) && IsPath(g, path) && k < |path|
    requires path[k] <= i < path[k] + g.blocks[path[k]].size
    requires f in Read(g.instrs[i]) && f != DF && f != NT
    ensures !LeftUndefined(TraceTo(g, path, k, i), f)
  {
    hide After, Entering, TraceTo, LeftUndefined, Clean, IsPath, Read;
    PathInGraph(g, path);
    ReadsAreDefined(g, path, k, i);
    UndefinedIs(g, path, k, i, f);
    IsStatus(f);
    NotInBoth(After(g.instrs, path[k], i, Entering(g, path, k)), Read(g.instrs[i]), f);
  }

  lemma {:induction false} NotInBoth(undef: set<Flag>, read: set<Flag>, f: Flag)
    requires undef * read * STATUS == {} && f in read && f in STATUS
    ensures f !in undef
  {
    assert f in undef ==> f in undef * read * STATUS;
  }

  lemma {:induction false} IsStatus(f: Flag)
    ensures f in STATUS <==> f != DF && f != NT
  {
  }

  lemma {:induction false} PathInGraph(g: Graph, path: seq<nat>)
    requires IsPath(g, path)
    ensures forall k: nat {:trigger path[k]} :: k < |path| ==> path[k] < |g.blocks|
  {
  }

  // ---- Where the analysis is exact

  /** No edge leads backwards, and every block can be reached. */
  ghost predicate Forward(g: Graph) {
    && (forall j: nat, k: nat {:trigger g.Edge(j, k)} :: g.Edge(j, k) ==> j < k)
    && forall k: nat {:trigger g.blocks[k]} :: k < |g.blocks| && g.blocks[k].size > 0 ==> Reachable(g, k)
  }

  ghost predicate Reachable(g: Graph, k: nat) {
    exists path: seq<nat> :: IsPath(g, path) && path[|path| - 1] == k
  }

  /** No path reads an undefined flag, nor AF at all. */
  ghost predicate Harmless(g: Graph)
    requires g.Ok()
  {
    forall path: seq<nat>, k: nat, i: nat {:trigger ReadsWell(g, path, k, i)} ::
      IsPath(g, path) && k < |path| && path[k] <= i < path[k] + g.blocks[path[k]].size ==> ReadsWell(g, path, k, i)
  }

  ghost predicate ReadsWell(g: Graph, path: seq<nat>, k: nat, i: nat)
    requires g.Ok() && k < |path| && forall i: nat {:trigger path[i]} :: i < |path| ==> path[i] < |g.blocks|
    requires path[k] <= i < path[k] + g.blocks[path[k]].size
  {
    forall f: Flag {:trigger f in Read(g.instrs[i])} ::
      f in Read(g.instrs[i]) ==> f != AF && !LeftUndefined(TraceTo(g, path, k, i), f)
  }

  /** The same, as the analysis tests it. */
  lemma {:induction false} ReadsWellIs(g: Graph, path: seq<nat>, k: nat, i: nat)
    requires g.Ok() && k < |path| && forall i: nat {:trigger path[i]} :: i < |path| ==> path[i] < |g.blocks|
    requires path[k] <= i < path[k] + g.blocks[path[k]].size
    ensures ReadsWell(g, path, k, i) <==> !BadRead(g.instrs[i], After(g.instrs, path[k], i, Entering(g, path, k)))
  {
    hide After, Entering, TraceTo, LeftUndefined, Read;
    var undef := After(g.instrs, path[k], i, Entering(g, path, k));
    forall f: Flag ensures f in undef <==> LeftUndefined(TraceTo(g, path, k, i), f) {
      UndefinedIs(g, path, k, i, f);
    }
    if undef * Read(g.instrs[i]) != {} {
      var f :| f in undef * Read(g.instrs[i]);
      assert f in Read(g.instrs[i]) && LeftUndefined(TraceTo(g, path, k, i), f);
    }
    if f: Flag :| f in Read(g.instrs[i]) && LeftUndefined(TraceTo(g, path, k, i), f) {
      assert f in undef * Read(g.instrs[i]);
    }
  }

  /** A flag behind a block was left undefined by the block, or came in undefined and stayed so. */
  lemma {:induction false} AfterSplits(instrs: seq<Mnemonic>, lo: nat, hi: nat, x: set<Flag>, f: Flag, y: set<Flag>)
    requires lo <= hi <= |instrs| && f in After(instrs, lo, hi, x) && (f in x ==> f in y)
    ensures f in After(instrs, lo, hi, y)
    decreases hi
  {
    hide Undef, Modify;
    if lo < hi && f !in Undef(instrs[hi - 1]) {
      AfterSplits(instrs, lo, hi - 1, x, f, y);
    }
  }

  lemma {:induction false} EnteringPrefix(g: Graph, path: seq<nat>, more: seq<nat>, k: nat)
    requires g.Ok() && IsPath(g, path) && IsPath(g, path + more) && k < |path|
    ensures Entering(g, path + more, k) == Entering(g, path, k)
    decreases k
  {
    hide After;
    if k > 0 {
      EnteringPrefix(g, path, more, k - 1);
    }
  }

  lemma {:induction false} Extended(g: Graph, path: seq<nat>, k: nat)
    requires g.Ok() && IsPath(g, path) && g.Edge(path[|path| - 1], k)
    ensures IsPath(g, path + [k])
    ensures var j := path[|path| - 1];
            Entering(g, path + [k], |path|) == After(g.instrs, j, j + g.blocks[j].size, Entering(g, path, |path| - 1))
  {
    hide After;
    var longer := path + [k];
    forall i: nat | i + 1 < |longer| ensures g.Edge(longer[i], longer[i + 1]) {
      if i + 1 < |path| {
        assert g.Edge(path[i], path[i + 1]);
      }
    }
    EnteringPrefix(g, path, [k], |path| - 1);
  }

  /** Without backward edges, what the second pass thinks possible does happen on some path. */
  lemma {:induction false} Happens(g: Graph, k: nat, f: Flag) returns (path: seq<nat>)
    requires g.Ok() && Forward(g) && f in In2(g, k)
    ensures IsPath(g, path) && path[|path| - 1] == k && f in Entering(g, path, |path| - 1)
    decreases k
  {
    hide After;
    assert Incoming(g, k, f);
    var j: nat :| Flows(g, j, k, f);
    assert g.Edge(j, k);
    var front: seq<nat>;
    if f in In2(g, j) {
      front := Happens(g, j, f);
    } else {
      assert Reachable(g, j);
      front :| IsPath(g, front) && front[|front| - 1] == j;
    }
    AfterSplits(g.instrs, j, j + g.blocks[j].size, In2(g, j), f, Entering(g, front, |front| - 1));
    Extended(g, front, k);
    path := front + [k];
  }

  lemma {:induction false} ForwardBound(g: Graph, path: seq<nat>, k: nat)
    requires g.Ok() && Forward(g) && IsPath(g, path) && k < |path|
    ensures Entering(g, path, k) <= In2(g, path[k])
    decreases k
  {
    hide After, In2;
    if k > 0 {
      var i: nat := k - 1;
      var j := path[i];
      ForwardBound(g, path, i);
      assert g.Edge(path[i], path[i + 1]);
      forall f: Flag | f in Entering(g, path, k) ensures f in In2(g, path[k]) {
        AfterSplits(g.instrs, j, j + g.blocks[j].size, Entering(g, path, i), f, In2(g, j));
        FlowsIn(g, j, path[k], f);
      }
    }
  }

  lemma {:induction false} FlowsIn(g: Graph, j: nat, k: nat, f: Flag)
    requires g.Ok() && g.Edge(j, k) && j < k && f in Out2(g, j)
    ensures f in In2(g, k)
  {
    assert Flows(g, j, k, f);
  }

  /** On such a graph an error is reported exactly when some path reads an undefined flag, or AF. */
  lemma {:induction false} ForwardIsExact(g: Graph)
    requires g.Ok() && Forward(g)
    ensures Clean(g) <==> Harmless(g)
  {
    hide After, In2, Entering, Read;
    if Clean(g) {
      forall path: seq<nat>, k: nat, i: nat | IsPath(g, path) && k < |path|
        && path[k] <= i < path[k] + g.blocks[path[k]].size
        ensures ReadsWell(g, path, k, i)
      {
        ForwardReadsWell(g, path, k, i);
      }
    }
    if Harmless(g) {
      forall k: nat | k < |g.blocks| ensures BlockClean(g.instrs, k, k + g.blocks[k].size, In2(g, k)) {
        forall i: nat | k <= i < k + g.blocks[k].size ensures !BadRead(g.instrs[i], After(g.instrs, k, i, In2(g, k))) {
          HarmlessReads(g, k, i);
        }
      }
    }
  }

  lemma {:induction false} ForwardReadsWell(g: Graph, path: seq<nat>, k: nat, i: nat)
    requires g.Ok() && Forward(g) && Clean(g) && IsPath(g, path) && k < |path|
    requires path[k] <= i < path[k] + g.blocks[path[k]].size
    ensures ReadsWell(g, path, k, i)
  {
    hide After, In2, Entering, Read;
    var b := path[k];
    ForwardBound(g, path, k);
    assert BlockClean(g.instrs, b, b + g.blocks[b].size, In2(g, b));
    assert !BadRead(g.instrs[i], After(g.instrs, b, i, In2(g, b)));
    forall f: Flag | f in After(g.instrs, b, i, Entering(g, path, k)) ensures f in After(g.instrs, b, i, In2(g, b)) {
      AfterSplits(g.instrs, b, i, Entering(g, path, k), f, In2(g, b));
    }
    ReadsWellIs(g, path, k, i);
  }

  lemma {:induction false} HarmlessReads(g: Graph, k: nat, i: nat)
    requires g.Ok() && Forward(g) && Harmless(g) && k < |g.blocks| && k <= i < k + g.blocks[k].size
    ensures !BadRead(g.instrs[i], After(g.instrs, k, i, In2(g, k)))
  {
    hide After, In2, Entering, Read, TraceTo, LeftUndefined, ReadsWell;
    assert Reachable(g, k);
    var path: seq<nat> :| IsPath(g, path) && path[|path| - 1] == k;
    assert ReadsWell(g, path, |path| - 1, i);
    ReadsWellIs(g, path, |path| - 1, i);
    forall f: Flag | f in After(g.instrs, k, i, In2(g, k)) ensures f !in Read(g.instrs[i]) {
      if f in In2(g, k) {
        var guilty := Happens(g, k, f);
        assert ReadsWell(g, guilty, |guilty| - 1, i);
        ReadsWellIs(g, guilty, |guilty| - 1, i);
        AfterSplits(g.instrs, k, i, In2(g, k), f, Entering(g, guilty, |guilty| - 1));
        assert f !in After(g.instrs, k, i, Entering(g, guilty, |guilty| - 1)) * Read(g.instrs[i]);
      } else {
        AfterSplits(g.instrs, k, i, In2(g, k), f, Entering(g, path, |path| - 1));
        assert f !in After(g.instrs, k, i, Entering(g, path, |path| - 1)) * Read(g.instrs[i]);
      }
    }
  }
}
