/** A branch that the graph of FlagGraph does not know hides a read: whatever the sizes and the flow of
    the instructions are, there are instructions for which the analysis reports nothing although one
    of them reads an undefined flag behind the branch. */
module FlagMisses {
  import opened Options
  import opened PowersOfTwo
  import opened FlagTables
  import opened FlagFlow
  import opened FlagGraph

  /** A div before branch i, an adc where it goes, and otherwise instructions that define all flags.
      Branches neither read nor change flags. */
  function Mark(l: Listing, i: nat, k: nat, q: nat): Mnemonic
    requires q < l.Size()
  {
    if q + 1 == i then Div else if q == k then Adc else if l.insns[q].flow.Straight? then Add else Other
  }

  /** The same sizes and the same flow with these instructions. */
  function Marked(l: Listing, i: nat, k: nat): Listing {
    Listing(seq(l.Size(), (q: nat) requires q < l.Size() => l.insns[q].(mnem := Mark(l, i, k, q))), l.addr)
  }

  /** A branch to k that the graph does not know, with a straight instruction before it, at its target,
      and where it falls through. */
  predicate Unkept(l: Listing, i: nat, k: nat) {
    && Leads(l, i, k) && !Kept(l, i, k)
    && i > 0 && l.insns[i - 1].flow.Straight? && l.insns[k].flow.Straight? && k + 1 != i
    && (l.insns[i].flow.cond && i + 1 < l.Size() ==> l.insns[i + 1].flow.Straight?)
  }

  predicate HasMarks(l: Listing, i: nat, k: nat) {
    forall q: nat {:trigger l.insns[q]} :: q < l.Size() ==> l.insns[q].mnem == Mark(l, i, k, q)
  }

  lemma {:induction false} SameAddr(l: Listing, i: nat, k: nat, q: nat)
    requires q <= l.Size()
    ensures Marked(l, i, k).AddrOf(q) == l.AddrOf(q)
  {
    if q > 0 {
      SameAddr(l, i, k, q - 1);
    }
  }

  lemma {:induction false} SameLeads(l: Listing, i: nat, k: nat, u: nat, v: nat)
    ensures Leads(Marked(l, i, k), u, v) <==> Leads(l, u, v)
    ensures Next(Marked(l, i, k), u, v) <==> Next(l, u, v)
    ensures Leads(l, u, v) ==> (Kept(Marked(l, i, k), u, v) <==> Kept(l, u, v))
  {
    if u < l.Size() && v < l.Size() {
      SameAddr(l, i, k, u);
      SameAddr(l, i, k, v);
    }
  }

  // ---- Where the analysis takes the carry flag for undefined

  predicate Spot(l: Listing, i: nat, k: nat, x: nat)
    requires i < l.Size() && l.IsDirect(i)
  {
    (x == i || (x == i + 1 && l.insns[i].flow.cond) || x == l.Size() - 1) && x != k
  }

  lemma {:induction false} MarksMove(m: Mnemonic, undef: set<Flag>)
    ensures m == Add ==> CF !in Apply(m, undef)
    ensures m == Other || m == Adc ==> (CF in Apply(m, undef) <==> CF in undef)
    ensures m == Div ==> CF in Apply(m, undef)
  {
    hide Undef, Modify;
    assert CF in Apply(m, undef) <==> (CF in undef || CF in Undef(m)) && CF !in Modify(m);
    MarksDefine();
  }

  lemma {:induction false} MarksDefine()
    ensures CF in Modify(Add) && CF !in Modify(Other) && CF !in Modify(Adc) && CF !in Modify(Div)
    ensures CF !in Undef(Other) && CF !in Undef(Adc) && CF in Undef(Div)
  {
  }

  lemma {:induction false} InBlock(l: Listing, b: nat, q: nat)
    requires b < l.Size() && l.IsLeader(b) && b <= q < l.End(b)
    ensures BlockOf(l, q) == b && l.End(q) == l.End(b)
  {
    hide Listing.IsLeader;
    if q > b {
      InBlock(l, b, q - 1);
      BlockOfLeader(l, q - 1);
    }
  }

  /** An edge falls through, or comes from a branch that passes the lookup. */
  lemma {:induction false} EdgeKinds(l: Listing, b: nat, x: nat)
    requires Built(l).Edge(b, x)
    ensures b < l.Size() && l.IsLeader(b) && x < l.Size() && b <= x
    ensures || (x == l.End(b) && (l.IsDirect(x - 1) ==> l.insns[x - 1].flow.cond))
            || (x == l.Size() - 1 && l.Found(l.End(b) - 1))
    ensures b == x ==> l.Found(x)
  {
    hide Listing.IsLeader, Listing.Found;
    BuiltEdges(l, b, x);
  }

  /** What comes along an edge from an earlier block is what its last instruction leaves. */
  lemma {:induction false} FlowIsLast(l: Listing, b: nat, x: nat)
    requires Built(l).Ok() && Flows(Built(l), b, x, CF) && b < x
    ensures b < l.Size() && l.IsLeader(b) && CF in Apply(l.insns[l.End(b) - 1].mnem, Assumed(l, l.End(b) - 1))
  {
    hide In2, Apply, Listing.IsLeader, Listing.BlockAt;
    EdgeKinds(l, b, x);
    InBlock(l, b, l.End(b) - 1);
    SizeOfBlock(l, b);
  }

  /** The carry flag comes from the div, or was undefined before. */
  lemma {:induction false} CarryFrom(l: Listing, i: nat, k: nat, e: nat)
    requires Built(l).Ok() && Unkept(l, i, k) && HasMarks(l, i, k) && e < l.Size()
    requires CF in Apply(l.insns[e].mnem, Assumed(l, e))
    requires CF in Assumed(l, e) ==> Spot(l, i, k, e)
    ensures e + 1 == i || (Spot(l, i, k, e) && (e == i || (e == l.Size() - 1 && !l.insns[e].flow.Straight?)))
  {
    hide Apply, Assumed, Leads, Kept;
    MarksMove(l.insns[e].mnem, Assumed(l, e));
  }

  /** Only behind the div and the branch, and at the last instruction; never at the adc. */
  lemma {:induction false} CarrySpots(l: Listing, i: nat, k: nat, x: nat)
    requires Built(l).Ok() && Unkept(l, i, k) && HasMarks(l, i, k) && x < l.Size()
    ensures CF in Assumed(l, x) ==> Spot(l, i, k, x)
    decreases x, 1
  {
    hide In2, Apply, Listing.IsLeader, Listing.BlockAt, Leads, Kept, HasMarks, Spot;
    if CF in Assumed(l, x) {
      FirstIsLeader(l);
      if l.IsLeader(x) {
        var b := LeaderReceives(l, x);
        LeaderSpot(l, i, k, b, x);
      } else {
        CarrySpots(l, i, k, x - 1);
        CarryFrom(l, i, k, x - 1);
        StraightSpot(l, i, k, x);
      }
    }
  }

  lemma {:induction false} LeaderReceives(l: Listing, x: nat) returns (b: nat)
    requires Built(l).Ok() && x < l.Size() && l.IsLeader(x) && CF in Assumed(l, x)
    ensures Flows(Built(l), b, x, CF)
  {
    hide Flows, Listing.IsLeader;
    assert Incoming(Built(l), x, CF);
    b :| Flows(Built(l), b, x, CF);
  }

  /** Within a block: behind an instruction that is no direct branch. */
  lemma {:induction false} StraightSpot(l: Listing, i: nat, k: nat, x: nat)
    requires Unkept(l, i, k) && 0 < x < l.Size() && !l.IsLeader(x)
    requires x == i || x - 1 == i || x - 1 == l.Size() - 1
    ensures Spot(l, i, k, x)
  {
  }

  lemma {:induction false} LeaderSpot(l: Listing, i: nat, k: nat, b: nat, x: nat)
    requires Built(l).Ok() && Unkept(l, i, k) && HasMarks(l, i, k) && x < l.Size() && Flows(Built(l), b, x, CF)
    ensures Spot(l, i, k, x)
    decreases x, 0
  {
    hide In2, Apply, Listing.IsLeader, Listing.BlockAt, Kept, HasMarks, Assumed;
    EdgeKinds(l, b, x);
    if b < x {
      FlowIsLast(l, b, x);
      var e: nat := l.End(b) - 1;
      if e < x {
        CarrySpots(l, i, k, e);
        CarryFrom(l, i, k, e);
        EdgeSpot(l, i, k, e, x);
      }
    }
  }

  /** Along an edge from the block that instruction e ends. */
  lemma {:induction false} EdgeSpot(l: Listing, i: nat, k: nat, e: nat, x: nat)
    requires Unkept(l, i, k) && e < x < l.Size() && (e + 1 == i || e == i)
    requires (x == e + 1 && (l.IsDirect(e) ==> l.insns[e].flow.cond)) || (x == l.Size() - 1 && l.Found(e))
    ensures Spot(l, i, k, x)
  {
    hide Listing.AddrOf;
    SameRemainder(l.Target(i) - l.addr, l.AddrOf(k) - l.addr);
  }

  // ---- The read that is missed

  lemma {:induction false} MarkedIsClean(l: Listing, i: nat, k: nat)
    requires Built(l).Ok() && Unkept(l, i, k) && HasMarks(l, i, k)
    ensures Clean(Built(l))
  {
    hide In2, Listing.IsLeader, Listing.BlockAt, Leads, Kept, HasMarks, BadRead, Spot;
    var g := Built(l);
    forall b: nat | b < |g.blocks| ensures BlockClean(g.instrs, b, b + g.blocks[b].size, In2(g, b)) {
      NoBlockNoSize(l, b);
      if l.IsLeader(b) {
        SizeOfBlock(l, b);
        forall q: nat | b <= q < l.End(b) ensures !BadRead(g.instrs[q], After(g.instrs, b, q, In2(g, b))) {
          InBlock(l, b, q);
          CarrySpots(l, i, k, q);
          MarkIsFine(l, i, k, q);
        }
      }
    }
  }

  lemma {:induction false} NoBlockNoSize(l: Listing, b: nat)
    requires b < l.Size()
    ensures !l.IsLeader(b) ==> Built(l).blocks[b].size == 0
  {
    hide Listing.IsLeader;
  }

  lemma {:induction false} MarkIsFine(l: Listing, i: nat, k: nat, q: nat)
    requires Built(l).Ok() && Unkept(l, i, k) && HasMarks(l, i, k) && q < l.Size()
    requires CF in Assumed(l, q) ==> Spot(l, i, k, q)
    ensures !BadRead(l.insns[q].mnem, Assumed(l, q))
  {
    hide Assumed, Leads, Kept, Read;
    WhatIsRead();
  }

  /** Whenever a run comes before such a branch, there are instructions of the same sizes and the same
      flow for which the analysis reports nothing, and the run goes on to read an undefined flag. */
  lemma {:induction false} UnkeptHidesRead(l: Listing, i: nat, k: nat, front: seq<nat>)
    requires Unkept(l, i, k) && IsRun(l, front) && front[|front| - 1] == i - 1
    ensures var m, run := Marked(l, i, k), front + [i, k];
            && Built(m).Ok() && Clean(Built(m)) && IsRun(m, run)
            && CF in Read(m.insns[k].mnem) && LeftUndefined(Ran(m, run, |front| + 1), CF)
  {
    hide Clean, Next, Listing.IsLeader, Listing.Target, Listing.AddrOf, UndefAt, Read, Kept;
    var m, run := Marked(l, i, k), front + [i, k];
    BuiltOk(m);
    SameLeads(l, i, k, i, k);
    MarkedIsClean(m, i, k);
    RunGoesOn(l, i, k, front);
    CarryArrives(m, i, k, run, |front| - 1);
    ThreeMarks(m, i, k);
    WhatIsRead();
    UndefAtIs(m, run, |front| + 1, CF);
  }

  lemma {:induction false} RunGoesOn(l: Listing, i: nat, k: nat, front: seq<nat>)
    requires Unkept(l, i, k) && IsRun(l, front) && front[|front| - 1] == i - 1
    ensures IsRun(Marked(l, i, k), front + [i, k])
  {
    hide Next, Listing.IsLeader;
    var m, run := Marked(l, i, k), front + [i, k];
    forall q: nat | q + 1 < |run| ensures Next(m, run[q], run[q + 1]) {
      SameLeads(l, i, k, run[q], run[q + 1]);
      if q + 1 < |front| {
        assert Next(l, front[q], front[q + 1]);
      } else {
        UnkeptNext(l, i, k);
      }
    }
  }

  /** The carry flag that the div leaves undefined is so behind the branch. */
  lemma {:induction false} CarryArrives(m: Listing, i: nat, k: nat, run: seq<nat>, j: nat)
    requires Unkept(m, i, k) && HasMarks(m, i, k) && IsRun(m, run) && j + 2 < |run|
    requires run[j] == i - 1 && run[j + 1] == i
    ensures CF in UndefAt(m, run, j + 2)
  {
    hide Apply, Next, Unkept, HasMarks, Mark;
    ThreeMarks(m, i, k);
    MarksMove(Div, UndefAt(m, run, j));
    MarksMove(Other, UndefAt(m, run, j + 1));
    assert UndefAt(m, run, j + 1) == Apply(Div, UndefAt(m, run, j));
    assert UndefAt(m, run, j + 2) == Apply(Other, UndefAt(m, run, j + 1));
  }

  lemma {:induction false} ThreeMarks(m: Listing, i: nat, k: nat)
    requires Unkept(m, i, k) && HasMarks(m, i, k)
    ensures m.insns[i - 1].mnem == Div && m.insns[i].mnem == Other && m.insns[k].mnem == Adc
  {
    hide Listing.Target, Listing.AddrOf, Kept;
  }

  lemma {:induction false} UnkeptNext(l: Listing, i: nat, k: nat)
    requires Unkept(l, i, k)
    ensures Next(l, i - 1, i) && Next(l, i, k)
  {
  }
}
