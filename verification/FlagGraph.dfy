/** How flags.c cuts the instructions into blocks and links them.

    The table that should map addresses to instructions is filled without advancing the address: it
    maps the start of the code to the last instruction, and nothing else. Branch targets are looked
    up relative to the start. So a block has a target edge only in one odd case, and then always to
    the last instruction; the edges are otherwise those of falling through. */
module FlagGraph {
  import opened Options
  import opened PowersOfTwo
  import opened FlagTables
  import opened FlagFlow

  datatype Flow = Straight | Direct(offset: int, cond: bool) | IndirectBranch
  datatype Insn = Insn(mnem: Mnemonic, size: nat, flow: Flow)

  /** Instructions from address addr on. */
  datatype Listing = Listing(insns: seq<Insn>, addr: nat) {
    function Size(): nat { |insns| }

    function AddrOf(i: nat): (a: nat)
      requires i <= |insns|
    {
      if i == 0 then addr else AddrOf(i - 1) + insns[i - 1].size
    }

    predicate IsDirect(i: nat) requires i < |insns| { insns[i].flow.Direct? }

    function Target(i: nat): int
      requires i < |insns| && IsDirect(i)
    {
      AddrOf(i) + insns[i].size + insns[i].flow.offset
    }

    /** The lookup finds the target: its distance from the start equals the start address. */
    predicate Found(i: nat)
      requires i < |insns|
    {
      IsDirect(i) && (Target(i) - addr) % U64 == addr
    }

    /** The last instruction is the target of some branch, as far as the lookup can tell. */
    ghost predicate LastIsTarget() { exists j: nat :: j < |insns| && Found(j) }

    ghost predicate IsLeader(i: nat)
      requires i < |insns|
    {
      i == 0 || IsDirect(i - 1) || (i == |insns| - 1 && LastIsTarget())
    }

    /** Where the block with instruction i ends. */
    ghost function End(i: nat): (e: nat)
      requires i < |insns|
      ensures i < e <= |insns|
      decreases |insns| - i
    {
      if i + 1 == |insns| || IsLeader(i + 1) then i + 1 else End(i + 1)
    }

    ghost function BlockAt(i: nat): Block
      requires i < |insns|
    {
      if !IsLeader(i) then NO_BLOCK else
        var e := End(i);
        Block(if Found(e - 1) then Some(|insns| - 1) else None,
              if e < |insns| && (!IsDirect(e - 1) || insns[e - 1].flow.cond) then Some(e) else None,
              e - i)
    }
  }

  const NO_BLOCK := Block(None, None, 0)

  ghost function Blocks(l: Listing): seq<Block> {
    seq(l.Size(), (i: nat) requires i < l.Size() => l.BlockAt(i))
  }

  function Mnemonics(insns: seq<Insn>): seq<Mnemonic> {
    seq(|insns|, (i: nat) requires i < |insns| => insns[i].mnem)
  }

  /** The graph the analysis works on. */
  ghost function Built(l: Listing): Graph { Graph(Blocks(l), Mnemonics(l.insns)) }

  // ---- Building it

  type Table = map<nat, nat>

  /** Filling the table: the address stays where it is. */
  method FillTable(l: Listing) returns (table: Table)
    requires l.Size() > 0
    ensures table == map[l.addr := l.Size() - 1]
  {
    table := map[];
    for i := 0 to l.Size()
      invariant table == if i == 0 then map[] else map[l.addr := i - 1]
    {
      table := table[l.addr := i];
    }
  }

  /** findinstr, with the branch's address at hand */
  method FindTarget(l: Listing, table: Table, i: nat, at: nat) returns (found: Option<nat>)
    requires i < l.Size() && at == l.AddrOf(i) && l.IsDirect(i) && l.addr < U64
    requires table == map[l.addr := l.Size() - 1]
    ensures found == if l.Found(i) then Some(l.Size() - 1) else None
  {
    var target := at + l.insns[i].size + l.insns[i].flow.offset;
    var key := (target - l.addr) % U64;
    found := if key in table then Some(table[key]) else None;
  }

  ghost predicate LeadersUpTo(l: Listing, leaders: seq<bool>, m: nat) {
    && |leaders| == l.Size() && m <= l.Size()
    && forall i: nat :: i < l.Size() ==>
         (leaders[i] <==>
           i == 0 || (i <= m && l.IsDirect(i - 1)) || (i == l.Size() - 1 && exists j: nat :: j < m && l.Found(j)))
  }

  /** The loop that finds the leaders. */
  method FindLeaders(l: Listing, table: Table) returns (leaders: array<bool>)
    requires l.Size() > 0 && l.addr < U64 && table == map[l.addr := l.Size() - 1]
    ensures fresh(leaders) && leaders.Length == l.Size()
    ensures forall i: nat :: i < l.Size() ==> (leaders[i] <==> l.IsLeader(i))
  {
    hide Listing.Target;
    var n := l.Size();
    leaders := new bool[n](_ => false);
    leaders[0] := true;
    var at := l.addr;
    for i := 0 to n
      invariant at == l.AddrOf(i) && fresh(leaders)
      invariant LeadersUpTo(l, leaders[..], i)
    {
      if l.IsDirect(i) {
        if i + 1 < n {
          leaders[i + 1] := true;
        }
        var found := FindTarget(l, table, i, at);
        if found.Some? {
          leaders[found.value] := true;
        }
      }
      at := at + l.insns[i].size;
    }
  }

  /** The loop that makes the blocks. */
  method BuildBlocks(l: Listing, table: Table, leaders: array<bool>) returns (blocks: array<Block>)
    requires l.Size() > 0 && l.addr < U64 && table == map[l.addr := l.Size() - 1]
    requires leaders.Length == l.Size() && forall i: nat :: i < l.Size() ==> (leaders[i] <==> l.IsLeader(i))
    ensures blocks[..] == Blocks(l)
  {
    hide Listing.Target, Listing.IsLeader, Listing.Found;
    var n := l.Size();
    blocks := new Block[n](_ => NO_BLOCK);
    var at := l.addr;
    var leader := 0;
    FirstIsLeader(l);
    while leader < n
      invariant 0 <= leader <= n && at == l.AddrOf(leader) && (leader < n ==> l.IsLeader(leader))
      invariant fresh(blocks)
      invariant forall i: nat :: i < leader ==> blocks[i] == l.BlockAt(i)
      invariant forall i: nat :: leader <= i < n ==> blocks[i] == NO_BLOCK
      decreases n - leader
    {
      var size, lastAt := MeasureBlock(l, leaders, leader, at);
      var block := MakeBlock(l, table, leader, size, lastAt);
      InnerIsNoBlock(l, leader);
      blocks[leader] := block;
      at := lastAt + l.insns[leader + size - 1].size;
      leader := leader + size;
    }
  }

  /** Counts the instructions of the block and follows the address to its last one. */
  method MeasureBlock(l: Listing, leaders: array<bool>, leader: nat, at: nat) returns (size: nat, lastAt: nat)
    requires leader < l.Size() && at == l.AddrOf(leader)
    requires leaders.Length == l.Size() && forall i: nat :: i < l.Size() ==> (leaders[i] <==> l.IsLeader(i))
    ensures leader + size == l.End(leader) && size > 0 && lastAt == l.AddrOf(leader + size - 1)
  {
    hide Listing.IsLeader;
    size := 1;
    lastAt := at;
    while leader + size < l.Size() && !leaders[leader + size]
      invariant size >= 1 && leader + size <= l.Size() && lastAt == l.AddrOf(leader + size - 1)
      invariant l.End(leader + size - 1) == l.End(leader)
      decreases l.Size() - size
    {
      lastAt := lastAt + l.insns[leader + size - 1].size;
      size := size + 1;
    }
  }

  method MakeBlock(l: Listing, table: Table, leader: nat, size: nat, lastAt: nat) returns (block: Block)
    requires leader < l.Size() && l.addr < U64 && table == map[l.addr := l.Size() - 1] && l.IsLeader(leader)
    requires size > 0 && leader + size == l.End(leader) && lastAt == l.AddrOf(leader + size - 1)
    ensures block == l.BlockAt(leader)
  {
    hide Listing.Target, Listing.IsLeader;
    var last := leader + size - 1;
    var branch := l.IsDirect(last);
    var target := None;
    if branch {
      target := FindTarget(l, table, last, lastAt);
    }
    var falls := leader + size < l.Size() && (!branch || l.insns[last].flow.cond);
    block := Block(target, if falls then Some(leader + size) else None, size);
  }

  lemma {:induction false} FirstIsLeader(l: Listing)
    requires l.Size() > 0
    ensures l.IsLeader(0)
  {
  }

  /** Between a leader and the end of its block there is no other leader; the end is one. */
  lemma {:induction false} InnerIsNoBlock(l: Listing, i: nat)
    requires i < l.Size()
    ensures forall k: nat :: i < k < l.End(i) ==> l.BlockAt(k) == NO_BLOCK
    ensures l.End(i) < l.Size() ==> l.IsLeader(l.End(i))
    decreases l.Size() - i
  {
    hide Listing.IsLeader, Listing.Found;
    if i + 1 < l.Size() && !l.IsLeader(i + 1) {
      InnerIsNoBlock(l, i + 1);
    }
  }

  /** analyzecfg, for code of at least one instruction */
  method AnalyzeCfg(l: Listing) returns (failed: bool)
    requires l.Size() > 0 && l.addr < U64
    ensures Built(l).Ok()
    ensures failed <==> !Clean(Built(l))
  {
    var table := FillTable(l);
    var leaders := FindLeaders(l, table);
    var blocks := BuildBlocks(l, table, leaders);
    var g := Graph(blocks[..], Mnemonics(l.insns));
    assert g == Built(l);
    BuiltOk(l);
    failed := AnalyzePasses(g);
  }

  // ---- What the graph is

  lemma {:induction false} BuiltOk(l: Listing)
    ensures Built(l).Ok()
  {
    hide Listing.IsLeader, Listing.Found;
  }

  /** Edges lead to the end of the block, or to the last instruction: never backwards, but for a
      last instruction that is its own block and, by the lookup, its own target. */
  lemma {:induction false} BuiltEdges(l: Listing, j: nat, k: nat)
    ensures Built(l).Edge(j, k) ==>
              && j < l.Size() && l.IsLeader(j)
              && ((k == l.End(j) && k < l.Size()) || (k == l.Size() - 1 && l.Found(l.End(j) - 1)))
              && j <= k && (j == k ==> k == l.Size() - 1 && l.Found(k))
  {
    hide Listing.IsLeader, Listing.Found;
  }

  /** An instruction may be followed by the next: any but an unconditional direct branch. */
  predicate Falls(flow: Flow) {
    match flow
    case Direct(_, cond) => cond
    case _ => true
  }

  /** The direct branch i really goes to instruction k. */
  predicate Leads(l: Listing, i: nat, k: nat) {
    i < l.Size() && k < l.Size() &&
    match l.insns[i].flow
    case Direct(offset, _) => (l.AddrOf(i) + l.insns[i].size + offset - l.AddrOf(k)) % U64 == 0
    case _ => false
  }

  /** The edges of a block are where its last instruction may be followed by the next, and for a
      direct branch whose target is as far from the start as the start is from zero, the last
      instruction of all. */
  lemma {:induction false} EdgeIff(l: Listing, j: nat, k: nat)
    requires j < l.Size() && l.IsLeader(j)
    ensures var q := l.End(j) - 1;
            Built(l).Edge(j, k) <==>
              || (k == l.End(j) < l.Size() && Falls(l.insns[q].flow))
              || (k == l.Size() - 1 &&
                  match l.insns[q].flow
                  case Direct(offset, _) => (l.AddrOf(q) + l.insns[q].size + offset - l.addr) % U64 == l.addr
                  case _ => false)
  {
    hide Listing.IsLeader;
  }

  /** The graph has the edge of a block's branch to the instruction it goes to exactly if that is the
      last instruction and is as far from the start of the code as the start is from zero. */
  lemma {:induction false} TargetEdgeIff(l: Listing, j: nat, k: nat)
    requires j < l.Size() && l.IsLeader(j) && Leads(l, l.End(j) - 1, k)
    ensures Built(l).blocks[j].target == Some(k) <==> k == l.Size() - 1 && (l.AddrOf(k) - l.addr) % U64 == l.addr
  {
    hide Listing.IsLeader, Listing.AddrOf;
    SameRemainder(l.Target(l.End(j) - 1) - l.addr, l.AddrOf(k) - l.addr);
  }

  lemma {:induction false} SameRemainder(x: int, y: int)
    requires (x - y) % U64 == 0
    ensures x % U64 == y % U64
  {
    var q := (x - y) / U64;
    assert x == y + q * U64;
  }

  /** A branch is answered with some edge exactly if its target passes the lookup, and the edge then
      leads to the last instruction, whatever the target is. */
  lemma {:induction false} TargetEdgeLeads(l: Listing, j: nat)
    requires j < l.Size() && l.IsLeader(j) && l.IsDirect(l.End(j) - 1)
    ensures Built(l).blocks[j].target ==
            if (l.Target(l.End(j) - 1) - l.addr) % U64 == l.addr then Some(l.Size() - 1) else None
  {
    hide Listing.IsLeader, Listing.Target;
  }

  /** In code at address zero every branch to the first instruction is taken for one to the last. */
  lemma {:induction false} StartIsTakenForEnd(l: Listing, j: nat)
    requires l.addr == 0 && j < l.Size() && l.IsLeader(j) && Leads(l, l.End(j) - 1, 0)
    ensures Built(l).blocks[j].target == Some(l.Size() - 1)
  {
    hide Listing.IsLeader;
    TargetEdgeLeads(l, j);
  }

  // ---- Real control flow

  /** The block that instruction i belongs to. */
  ghost function BlockOf(l: Listing, i: nat): (j: nat)
    requires i < l.Size()
    ensures j <= i
  {
    if l.IsLeader(i) || i == 0 then i else BlockOf(l, i - 1)
  }

  /** Where instruction i may lead: a direct branch to its target, and anything but an unconditional
      direct branch to the next instruction. Where indirect branches lead is not followed. */
  predicate Next(l: Listing, i: nat, k: nat) {
    i < l.Size() && k < l.Size() && ((k == i + 1 && Falls(l.insns[i].flow)) || Leads(l, i, k))
  }

  /** The graph knows of this step: it stays in the block, or follows an edge to another one. */
  ghost predicate Known(l: Listing, i: nat, k: nat)
    requires i < l.Size() && k < l.Size()
  {
    || (k == i + 1 && !l.IsLeader(k))
    || (i + 1 == l.End(BlockOf(l, i)) && l.IsLeader(k) && Built(l).Edge(BlockOf(l, i), k))
  }

  /** A branch whose edge the graph has: the lookup finds its target, which is the last instruction,
      or its target is where it falls through anyway. */
  predicate Kept(l: Listing, i: nat, k: nat)
    requires i < l.Size() && k < l.Size() && l.IsDirect(i)
  {
    (k == l.Size() - 1 && (l.AddrOf(k) - l.addr) % U64 == l.addr) || (k == i + 1 && l.insns[i].flow.cond)
  }

  ghost predicate TargetsKept(l: Listing) {
    forall i: nat, k: nat {:trigger Leads(l, i, k)} :: Leads(l, i, k) ==> Kept(l, i, k)
  }

  lemma {:induction false} BlockOfLeader(l: Listing, i: nat)
    requires i < l.Size()
    ensures l.IsLeader(BlockOf(l, i)) && l.End(BlockOf(l, i)) == l.End(i)
  {
    hide Listing.IsLeader, Listing.Found;
    if i == 0 {
      FirstIsLeader(l);
    } else if !l.IsLeader(i) {
      BlockOfLeader(l, i - 1);
    }
  }

  /** Leaving an instruction on the way to the next is always known to the graph. */
  lemma {:induction false} FallingIsKnown(l: Listing, i: nat)
    requires i + 1 < l.Size() && (!l.IsDirect(i) || l.insns[i].flow.cond)
    ensures Known(l, i, i + 1)
  {
    hide Listing.IsLeader, Listing.Found;
    BlockOfLeader(l, i);
  }

  /** The graph knows of the step of a branch to its target exactly if the branch is kept. */
  lemma {:induction false} BranchIsKnownIff(l: Listing, i: nat, k: nat)
    requires Leads(l, i, k)
    ensures Known(l, i, k) <==> Kept(l, i, k)
  {
    hide Listing.AddrOf, Listing.LastIsTarget;
    SameRemainder(l.Target(i) - l.addr, l.AddrOf(k) - l.addr);
    BlockOfLeader(l, i);
    BranchEnds(l, i);
    if l.Found(i) {
      LastIsLeader(l, i);
    }
  }

  lemma {:induction false} BranchEnds(l: Listing, i: nat)
    requires i < l.Size() && l.IsDirect(i)
    ensures l.End(i) == i + 1 && (i + 1 < l.Size() ==> l.IsLeader(i + 1))
  {
    hide Listing.Found;
  }

  lemma {:induction false} LastIsLeader(l: Listing, i: nat)
    requires i < l.Size() && l.Found(i)
    ensures l.IsLeader(l.Size() - 1)
  {
  }

  /** The graph knows every step of the code exactly if every branch is kept. */
  lemma {:induction false} GraphIsCompleteIff(l: Listing)
    ensures TargetsKept(l) <==> forall i: nat, k: nat {:trigger Next(l, i, k)} :: Next(l, i, k) ==> Known(l, i, k)
  {
    hide Known, Kept, Listing.IsLeader, Listing.Found, Listing.Target, Listing.AddrOf;
    if TargetsKept(l) {
      forall i: nat, k: nat | Next(l, i, k) ensures Known(l, i, k) {
        if Leads(l, i, k) {
          BranchIsKnownIff(l, i, k);
        } else {
          FallingIsKnown(l, i);
        }
      }
    } else {
      var i: nat, k: nat :| Leads(l, i, k) && !Kept(l, i, k);
      BranchIsKnownIff(l, i, k);
      assert Next(l, i, k);
    }
  }

  // ---- Soundness for the code itself

  /** Instructions as they may be executed, from the first on. */
  ghost predicate IsRun(l: Listing, run: seq<nat>) {
    && run != [] && run[0] == 0
    && (forall k: nat {:trigger run[k]} :: k < |run| ==> run[k] < |l.insns|)
    && forall k: nat {:trigger Next(l, run[k], run[k + 1])} :: k + 1 < |run| ==> Next(l, run[k], run[k + 1])
  }

  /** The flags that really are undefined before the run executes its instruction k. */
  function UndefAt(l: Listing, run: seq<nat>, k: nat): set<Flag>
    requires k < |run| && forall i: nat {:trigger run[i]} :: i < |run| ==> run[i] < |l.insns|
    decreases k
  {
    if k == 0 then {} else
      var i: nat := k - 1;
      Apply(l.insns[run[i]].mnem, UndefAt(l, run, i))
  }

  /** What the second pass takes for undefined before instruction i. */
  ghost function Assumed(l: Listing, i: nat): set<Flag>
    requires i < l.Size() && Built(l).Ok()
  {
    After(Mnemonics(l.insns), BlockOf(l, i), i, In2(Built(l), BlockOf(l, i)))
  }

  /** A step known to the graph keeps what is undefined within what the second pass assumes. */
  lemma {:induction false} KnownStepIsBounded(l: Listing, i: nat, k: nat, undef: set<Flag>)
    requires Built(l).Ok() && i < l.Size() && k < l.Size() && Known(l, i, k)
    requires undef * STATUS <= Assumed(l, i)
    ensures Apply(l.insns[i].mnem, undef) * STATUS <= Assumed(l, k)
  {
    hide In2, Apply, Listing.IsLeader, Listing.BlockAt;
    var g, b := Built(l), BlockOf(l, i);
    var after := Apply(g.instrs[i], undef);
    ApplyMono(g.instrs[i], undef, Assumed(l, i));
    assert After(g.instrs, b, i + 1, In2(g, b)) == Apply(g.instrs[i], Assumed(l, i));
    if k == i + 1 && !l.IsLeader(k) {
      assert BlockOf(l, k) == b;
    } else {
      BlockOfLeader(l, i);
      SizeOfBlock(l, b);
      AfterMono(g.instrs, b, i, In2(g, b), STATUS);
      ApplyMono(g.instrs[i], undef, After(g.instrs, b, i, STATUS));
      assert After(g.instrs, b, i + 1, STATUS) == Apply(g.instrs[i], After(g.instrs, b, i, STATUS));
      EdgeCarries(g, b, k, after);
      assert BlockOf(l, k) == k;
    }
  }

  lemma {:induction false} SizeOfBlock(l: Listing, b: nat)
    requires b < l.Size() && l.IsLeader(b)
    ensures b + Built(l).blocks[b].size == l.End(b)
  {
    hide Listing.IsLeader, Listing.Found;
  }

  lemma {:induction false} ApplyMono(m: Mnemonic, x: set<Flag>, y: set<Flag>)
    requires x * STATUS <= y
    ensures Apply(m, x) * STATUS <= Apply(m, y)
  {
    hide Undef, Modify;
  }

  lemma {:induction false} RunIsBounded(l: Listing, run: seq<nat>, k: nat)
    requires Built(l).Ok() && TargetsKept(l) && IsRun(l, run) && k < |run|
    ensures UndefAt(l, run, k) * STATUS <= Assumed(l, run[k])
    decreases k
  {
    hide Apply, Assumed, TargetsKept, Known, Next;
    if k > 0 {
      var i: nat := k - 1;
      RunIsBounded(l, run, i);
      assert Next(l, run[i], run[i + 1]);
      GraphIsCompleteIff(l);
      KnownStepIsBounded(l, run[i], run[k], UndefAt(l, run, i));
    }
  }

  lemma {:induction false} ReadsInCodeAreDefined(l: Listing, run: seq<nat>, k: nat)
    requires Built(l).Ok() && Clean(Built(l)) && TargetsKept(l) && IsRun(l, run) && k < |run|
    ensures UndefAt(l, run, k) * Read(l.insns[run[k]].mnem) * STATUS == {}
  {
    hide In2, After, TargetsKept, Next, Listing.IsLeader;
    var g, b := Built(l), BlockOf(l, run[k]);
    RunIsBounded(l, run, k);
    BlockOfLeader(l, run[k]);
    SizeOfBlock(l, b);
    assert BlockClean(g.instrs, b, b + g.blocks[b].size, In2(g, b));
    assert !BadRead(g.instrs[run[k]], After(g.instrs, b, run[k], In2(g, b)));
  }

  /** The first k instructions of the run. */
  function Ran(l: Listing, run: seq<nat>, k: nat): (code: seq<Mnemonic>)
    requires k <= |run| && forall i: nat {:trigger run[i]} :: i < |run| ==> run[i] < |l.insns|
    ensures |code| == k
  {
    if k == 0 then [] else Ran(l, run, k - 1) + [l.insns[run[k - 1]].mnem]
  }

  lemma {:induction false} UndefAtIs(l: Listing, run: seq<nat>, k: nat, f: Flag)
    requires k < |run| && forall i: nat {:trigger run[i]} :: i < |run| ==> run[i] < |l.insns|
    ensures f in UndefAt(l, run, k) <==> LeftUndefined(Ran(l, run, k), f)
  {
    hide LeftUndefined, Apply, Undef, Modify;
    if k == 0 {
      NothingUndefined(Ran(l, run, 0), f);
    } else {
      UndefAtIs(l, run, k - 1, f);
      var m := l.insns[run[k - 1]].mnem;
      ApplyIs(m, UndefAt(l, run, k - 1), f);
      OneMore(Ran(l, run, k - 1), m, f);
      TablesAgree(m);
    }
  }

  /** If nothing is reported and every branch is kept, no instruction of the code reads a status
      flag that the run before it left undefined, on whatever way it was reached. */
  lemma {:induction false} NoUndefinedReadInCode(l: Listing, run: seq<nat>, k: nat, f: Flag)
    requires Built(l).Ok() && Clean(Built(l)) && TargetsKept(l) && IsRun(l, run) && k < |run|
    requires f in Read(l.insns[run[k]].mnem) && f != DF && f != NT
    ensures !LeftUndefined(Ran(l, run, k), f)
  {
    hide Clean, TargetsKept, Next, UndefAt, Ran, LeftUndefined, Read;
    ReadsInCodeAreDefined(l, run, k);
    UndefAtIs(l, run, k, f);
    IsStatus(f);
    NotInBoth(UndefAt(l, run, k), Read(l.insns[run[k]].mnem), f);
  }

  // ---- Two ways to miss a read

  /** div; jmp to the adc; add; adc: the branch carries an undefined carry flag to the adc, but
      that edge is not in the graph, and nothing is reported. */
  function Skipping(addr: nat): Listing {
    Listing([Insn(Div, 2, Straight), Insn(Other, 2, Direct(3, false)), Insn(Add, 3, Straight),
             Insn(Adc, 3, Straight)], addr)
  }

  lemma {:induction false} SkippingEdges(l: Listing, addr: nat)
    requires l == Skipping(addr) && 7 < addr < U64
    ensures forall j: nat, k: nat :: !Built(l).Edge(j, k)
  {
    assert l.AddrOf(1) == addr + 2;
    assert l.Target(1) == l.AddrOf(3) by { assert l.AddrOf(3) == l.AddrOf(2) + 3 == l.AddrOf(1) + 5; }
    assert !l.Found(1);
    forall j: nat, k: nat ensures !Built(l).Edge(j, k) {
      BuiltEdges(l, j, k);
      SkippingBlocks(l, j);
    }
  }

  lemma {:induction false} SkippingBlocks(l: Listing, j: nat)
    requires |l.insns| == 4 && !l.Found(1) && l.insns[1].flow == Direct(3, false)
    requires !l.IsDirect(0) && !l.IsDirect(2) && !l.IsDirect(3)
    ensures j < 4 ==> l.BlockAt(j).target.None? && l.BlockAt(j).fallthrough.None?
  {
    hide Listing.Target;
    assert !l.LastIsTarget();
    assert l.End(0) == l.End(1) == 2;
    assert l.End(2) == l.End(3) == 4;
  }

  /** The analysis reports nothing although the branch of instruction 1 leads to instruction 3, which
      reads a flag that instruction 0 left undefined. */
  lemma {:induction false} MissingEdgeHidesRead(l: Listing, addr: nat)
    requires l == Skipping(addr) && 7 < addr < U64
    ensures Built(l).Ok() && Clean(Built(l))
    ensures l.IsDirect(1) && l.Target(1) == l.AddrOf(3)
    ensures CF in Read(l.insns[3].mnem) && LeftUndefined([l.insns[0].mnem, l.insns[1].mnem], CF)
  {
    BuiltOk(l);
    SkippingEdges(l, addr);
    assert l.AddrOf(1) == addr + 2;
    assert l.AddrOf(3) == l.AddrOf(2) + 3 == l.AddrOf(1) + 5;
    var g := Built(l);
    forall k: nat | k < |g.blocks| ensures BlockClean(g.instrs, k, k + g.blocks[k].size, In2(g, k)) {
      NothingIncoming(g, k);
      SkippingClean(l, k);
    }
    MisledReads();
  }

  /** The same code with one more instruction, at an address where the lookup finds the target of the
      branch: but it finds the last instruction there. */
  function Misled(): Listing {
    Listing([Insn(Div, 2, Straight), Insn(Other, 2, Direct(3, false)), Insn(Add, 3, Straight), Insn(Adc, 3, Straight),
             Insn(Other, 1, Straight)], 7)
  }

  lemma {:induction false} MisledTarget(l: Listing)
    requires l == Misled()
    ensures l.IsDirect(1) && l.Target(1) == 14 == l.AddrOf(3) && l.Found(1)
  {
    assert l.AddrOf(1) == 9;
    assert l.AddrOf(3) == l.AddrOf(2) + 3 == l.AddrOf(1) + 5;
  }

  lemma {:induction false} MisledBlocks(l: Listing)
    requires |l.insns| == 5 && l.Found(1) && l.insns[1].flow == Direct(3, false)
    requires !l.IsDirect(0) && !l.IsDirect(2) && !l.IsDirect(3) && !l.IsDirect(4)
    ensures l.BlockAt(0) == Block(Some(4), None, 2)
    ensures l.BlockAt(1) == NO_BLOCK && l.BlockAt(2) == Block(None, Some(4), 2) && l.BlockAt(3) == NO_BLOCK
    ensures l.BlockAt(4) == Block(None, None, 1)
  {
    hide Listing.Target, Listing.AddrOf;
    assert l.IsLeader(4);
    assert l.End(1) == l.End(0) == 2;
    assert l.End(3) == l.End(2) == 4;
  }

  lemma {:induction false} NoneBehindTwo(g: Graph, k: nat)
    requires g.Ok() && |g.blocks| == 5 && k < 4
    requires g.blocks[0] == Block(Some(4), None, 2) && g.blocks[1] == NO_BLOCK && g.blocks[3] == NO_BLOCK
    requires g.blocks[2] == Block(None, Some(4), 2) && g.blocks[4] == Block(None, None, 1)
    ensures In2(g, k) == {}
  {
    hide After;
    forall f: Flag ensures !Incoming(g, k, f) {
      forall j: nat ensures !g.Edge(j, k) {
      }
    }
  }

  /** The branch has an edge, but to the wrong place: it goes to instruction 3, which reads the carry
      flag that instruction 0 left undefined, and nothing is reported. */
  lemma {:induction false} WrongEdgeHidesRead(l: Listing)
    requires l == Misled()
    ensures Built(l).Ok() && Clean(Built(l))
    ensures Leads(l, 1, 3) && l.IsLeader(0) && Built(l).blocks[0].target == Some(4) && !Kept(l, 1, 3)
    ensures CF in Read(l.insns[3].mnem) && LeftUndefined([l.insns[0].mnem, l.insns[1].mnem], CF)
  {
    hide After, BadRead, Listing.BlockAt, Listing.Found, Listing.AddrOf;
    var g := Built(l);
    BuiltOk(l);
    MisledTarget(l);
    MisledBlocks(l);
    SkippingReads();
    MisledReads();
    FirstIsLeader(l);
    forall k: nat | k < |g.blocks| ensures BlockClean(g.instrs, k, k + g.blocks[k].size, In2(g, k)) {
      if k < 4 {
        NoneBehindTwo(g, k);
      }
      if k == 0 || k == 2 {
        PairClean(g.instrs, k);
      }
    }
  }

  /** The adc reads the carry flag that the div left undefined; a plain instruction reads nothing. */
  lemma {:induction false} MisledReads()
    ensures CF in Read(Adc) && LeftUndefined([Div, Other], CF)
    ensures forall undef: set<Flag> :: !BadRead(Other, undef)
  {
    hide Read, Undef, Modify, Apply;
    WhatIsRead();
    DivLeavesCarry();
    AfterIs([Div, Other], 0, 2, {}, CF);
    assert [Div, Other][0..2] == [Div, Other];
    assert After([Div, Other], 0, 2, {}) == Apply(Other, After([Div, Other], 0, 1, {}));
    assert After([Div, Other], 0, 1, {}) == Apply(Div, {});
    forall undef: set<Flag> ensures !BadRead(Other, undef) {
      assert undef * {} == {};
    }
  }

  lemma {:induction false} NothingIncoming(g: Graph, k: nat)
    requires g.Ok() && forall j: nat, k: nat :: !g.Edge(j, k)
    ensures In2(g, k) == {}
  {
    forall f: Flag ensures !Incoming(g, k, f) {
    }
  }

  lemma {:induction false} PairClean(instrs: seq<Mnemonic>, lo: nat)
    requires lo + 2 <= |instrs|
    requires !BadRead(instrs[lo], {}) && !BadRead(instrs[lo + 1], Apply(instrs[lo], {}))
    ensures BlockClean(instrs, lo, lo + 2, {})
  {
    hide BadRead, Apply;
    assert After(instrs, lo, lo, {}) == {};
    assert After(instrs, lo, lo + 1, {}) == Apply(instrs[lo], {});
  }

  /** Four instructions of which only the second is a branch make two blocks. */
  lemma {:induction false} TwoBlocks(l: Listing)
    requires |l.insns| == 4 && !l.LastIsTarget()
    requires !l.IsDirect(0) && l.IsDirect(1) && !l.IsDirect(2) && !l.IsDirect(3)
    ensures l.BlockAt(0).size == 2 && l.BlockAt(1).size == 0 && l.BlockAt(2).size == 2 && l.BlockAt(3).size == 0
  {
    hide Listing.Found, Listing.LastIsTarget;
    assert l.End(1) == 2 && l.End(3) == 4;
  }

  lemma {:induction false} SkippingClean(l: Listing, k: nat)
    requires |l.insns| == 4 && !l.LastIsTarget() && k < 4 && Built(l).Ok()
    requires !l.IsDirect(0) && l.IsDirect(1) && !l.IsDirect(2) && !l.IsDirect(3)
    requires l.insns[0].mnem == Div && l.insns[1].mnem == Other && l.insns[2].mnem == Add && l.insns[3].mnem == Adc
    ensures var g := Built(l); BlockClean(g.instrs, k, k + g.blocks[k].size, {})
  {
    hide After, BadRead, Listing.Found, Apply, Listing.BlockAt;
    var g := Built(l);
    TwoBlocks(l);
    SkippingReads();
    if k == 0 {
      PairClean(g.instrs, 0);
    } else if k == 2 {
      PairClean(g.instrs, 2);
    }
  }

  lemma {:induction false} SkippingReads()
    ensures !BadRead(Div, {}) && !BadRead(Other, Apply(Div, {})) && !BadRead(Add, {}) && !BadRead(Adc, Apply(Add, {}))
  {
    hide Read, Undef, Modify;
    WhatIsRead();
    AddDefinesCarry();
  }

  lemma {:induction false} WhatIsRead()
    ensures Read(Div) == Read(Other) == Read(Add) == {} && Read(Adc) == {CF}
  {
    hide Undef, Modify;
  }

  lemma {:induction false} AddDefinesCarry()
    ensures CF !in Apply(Add, {})
  {
    hide Read;
  }

  lemma {:induction false} DivLeavesCarry()
    ensures CF in Apply(Other, Apply(Div, {}))
  {
    hide Read;
    assert CF in Undef(Div) && CF !in Modify(Div);
    assert CF in Apply(Div, {});
  }
}
