/** Which segments of a path survive "." and "..": the counting scans of cwalk.c against resolving
    the path with a stack. */
module PathResolve {

  datatype SegType = Normal | Current | Back

  type Types = seq<SegType>

  function Weight(t: SegType): int { if t.Normal? then 1 else if t.Back? then -1 else 0 }

  /** Normal segments minus back segments among those from i up to, but not including, j. */
  function Balance(ts: Types, i: nat, j: nat): (b: int)
    requires j <= |ts|
    decreases j
  {
    if i >= j then 0 else Balance(ts, i, j - 1) + Weight(ts[j - 1])
  }

  lemma {:induction false} BalanceLeft(ts: Types, i: nat, j: nat)
    requires i < j <= |ts|
    ensures Balance(ts, i, j) == Weight(ts[i]) + Balance(ts, i + 1, j)
    decreases j
  {
    if i + 1 < j {
      BalanceLeft(ts, i, j - 1);
    }
  }

  /** Looking back from segment i, normal segments never outnumber back segments. */
  ghost predicate NeverAhead(ts: Types, i: nat)
    requires i <= |ts|
  {
    forall j: nat {:trigger Balance(ts, j, i)} :: j <= i ==> Balance(ts, j, i) <= 0
  }

  /** Looking on from segment i to n, back segments never outnumber normal ones. */
  ghost predicate NeverBelow(ts: Types, i: nat, n: nat)
    requires n <= |ts|
  {
    forall j: nat {:trigger Balance(ts, i + 1, j)} :: i < j <= n ==> Balance(ts, i + 1, j) >= 0
  }

  /** What the scans decide: a back segment stays only in a relative path, if nothing before it is
      left to go back from; a normal one, if nothing behind it goes back over it. */
  ghost predicate Kept(ts: Types, absolute: bool, i: nat)
    requires i < |ts|
  {
    match ts[i]
    case Current => false
    case Back => !absolute && NeverAhead(ts, i)
    case Normal => NeverBelow(ts, i, |ts|)
  }

  /** Resolving segment n with the stack s of what is left of those before. */
  function Resolve(ts: Types, absolute: bool, s: seq<nat>, n: nat): (r: seq<nat>)
    requires n < |ts| && forall t: nat {:trigger s[t]} :: t < |s| ==> s[t] < n
    ensures forall t: nat {:trigger r[t]} :: t < |r| ==> r[t] < n + 1
  {
    match ts[n]
    case Current => s
    case Normal => s + [n]
    case Back =>
      if s != [] && ts[s[|s| - 1]].Normal? then s[..|s| - 1]
      else if absolute then s else s + [n]
  }

  /** The segments left when the first n are resolved one after another. */
  function Stack(ts: Types, absolute: bool, n: nat): (s: seq<nat>)
    requires n <= |ts|
    ensures forall t: nat {:trigger s[t]} :: t < |s| ==> s[t] < n
    decreases n
  {
    if n == 0 then [] else Resolve(ts, absolute, Stack(ts, absolute, n - 1), n - 1)
  }

  /** How many normal segments are on the stack. */
  function Depth(ts: Types, n: nat): (d: nat)
    requires n <= |ts|
    decreases n
  {
    if n == 0 then 0 else
      var d := Depth(ts, n - 1);
      match ts[n - 1]
      case Current => d
      case Normal => d + 1
      case Back => if d == 0 then 0 else d - 1
  }

  /** The depth is the largest balance of any stretch that ends here. */
  lemma {:induction false} DepthBounds(ts: Types, j: nat, n: nat)
    requires j <= n <= |ts|
    ensures Balance(ts, j, n) <= Depth(ts, n)
    decreases n
  {
    if j < n {
      DepthBounds(ts, j, n - 1);
    }
  }

  lemma {:induction false} DepthIsBalance(ts: Types, n: nat) returns (j: nat)
    requires n <= |ts|
    ensures j <= n && Balance(ts, j, n) == Depth(ts, n)
    decreases n
  {
    if n == 0 || (ts[n - 1].Back? && Depth(ts, n - 1) == 0) {
      j := n;
    } else {
      j := DepthIsBalance(ts, n - 1);
    }
  }

  lemma {:induction false} NothingToGoBackFrom(ts: Types, i: nat)
    requires i <= |ts|
    ensures NeverAhead(ts, i) <==> Depth(ts, i) == 0
  {
    var j := DepthIsBalance(ts, i);
    forall k: nat | k <= i ensures Balance(ts, k, i) <= Depth(ts, i) {
      DepthBounds(ts, k, i);
    }
  }

  /** Segment i is among those the first n leave, as far as the scans over these n can tell. */
  ghost predicate Stays(ts: Types, absolute: bool, n: nat, i: nat)
    requires i < n <= |ts|
  {
    match ts[i]
    case Current => false
    case Back => !absolute && Depth(ts, i) == 0
    case Normal => NeverBelow(ts, i, n)
  }

  /** The stack: back segments at the bottom, then normal ones, each with its distance from the top
      as the balance behind it. */
  ghost predicate StackOk(ts: Types, absolute: bool, n: nat, s: seq<nat>) {
    && n <= |ts| && Depth(ts, n) <= |s|
    && (forall t: nat {:trigger s[t]} :: t < |s| ==> s[t] < n)
    && (forall t: nat, u: nat {:trigger s[t], s[u]} :: t < u < |s| ==> s[t] < s[u])
    && (forall t: nat {:trigger s[t]} :: t < |s| - Depth(ts, n) ==> ts[s[t]].Back?)
    && (forall t: nat {:trigger s[t]} :: |s| - Depth(ts, n) <= t < |s| ==>
          ts[s[t]].Normal? && Balance(ts, s[t] + 1, n) == |s| - 1 - t)
    && forall i: nat {:trigger Stays(ts, absolute, n, i)} :: i < n ==> (i in s <==> Stays(ts, absolute, n, i))
  }

  lemma {:induction false} StackIsOk(ts: Types, absolute: bool, n: nat)
    requires n <= |ts|
    ensures StackOk(ts, absolute, n, Stack(ts, absolute, n))
    decreases n
  {
    hide Resolve;
    if n > 0 {
      StackIsOk(ts, absolute, n - 1);
      ResolveOk(ts, absolute, n - 1, Stack(ts, absolute, n - 1));
    }
  }

  lemma {:induction false} ResolveOk(ts: Types, absolute: bool, n: nat, s: seq<nat>)
    requires StackOk(ts, absolute, n, s) && n < |ts| && forall t: nat {:trigger s[t]} :: t < |s| ==> s[t] < n
    ensures StackOk(ts, absolute, n + 1, Resolve(ts, absolute, s, n))
  {
    hide StackOk, Depth;
    match ts[n]
    case Current => SkipOk(ts, absolute, n, s);
    case Normal => PushOk(ts, absolute, n, s);
    case Back =>
      if Depth(ts, n) > 0 {
        PopOk(ts, absolute, n, s);
      } else {
        BottomOk(ts, absolute, n, s);
      }
  }

  lemma {:induction false} SkipOk(ts: Types, absolute: bool, n: nat, s: seq<nat>)
    requires StackOk(ts, absolute, n, s) && n < |ts| && ts[n].Current?
    ensures StackOk(ts, absolute, n + 1, s)
  {
    forall i: nat | i < n + 1 ensures i in s <==> Stays(ts, absolute, n + 1, i) {
      if i < n {
        assert i in s <==> Stays(ts, absolute, n, i);
        StaysOn(ts, absolute, n, i);
      }
    }
  }

  /** One more segment changes the verdict on a normal segment only by its balance. */
  lemma {:induction false} StaysOn(ts: Types, absolute: bool, n: nat, i: nat)
    requires i < n < |ts|
    ensures !ts[i].Normal? ==> Stays(ts, absolute, n + 1, i) == Stays(ts, absolute, n, i)
    ensures ts[i].Normal? ==>
              (Stays(ts, absolute, n + 1, i) <==>
                Stays(ts, absolute, n, i) && Balance(ts, i + 1, n) + Weight(ts[n]) >= 0)
    ensures ts[i].Normal? && Stays(ts, absolute, n, i) ==> Balance(ts, i + 1, n) >= 0
  {
    assert Balance(ts, i + 1, n + 1) == Balance(ts, i + 1, n) + Weight(ts[n]);
  }

  lemma {:induction false} PushOk(ts: Types, absolute: bool, n: nat, s: seq<nat>)
    requires StackOk(ts, absolute, n, s) && n < |ts| && ts[n].Normal?
    ensures StackOk(ts, absolute, n + 1, s + [n])
  {
    forall i: nat | i < n + 1 ensures i in s + [n] <==> Stays(ts, absolute, n + 1, i) {
      if i < n {
        assert i in s <==> Stays(ts, absolute, n, i);
        StaysOn(ts, absolute, n, i);
      }
    }
  }

  /** Going back over the normal segment on top of the stack. */
  lemma {:induction false} PopOk(ts: Types, absolute: bool, n: nat, s: seq<nat>)
    requires StackOk(ts, absolute, n, s) && n < |ts| && ts[n].Back? && Depth(ts, n) > 0
    ensures s != [] && s[|s| - 1] < n && ts[s[|s| - 1]].Normal? && StackOk(ts, absolute, n + 1, s[..|s| - 1])
  {
    var last := |s| - 1;
    var rest := s[..last];
    assert ts[s[last]].Normal?;
    forall i: nat | i < n + 1 ensures i in rest <==> Stays(ts, absolute, n + 1, i) {
      if i < n {
        assert i in s <==> Stays(ts, absolute, n, i);
        StaysOn(ts, absolute, n, i);
        if i in s {
          var t: nat :| t < |s| && s[t] == i;
          assert t < last ==> rest[t] == i;
        }
      }
    }
  }

  /** Going back with no normal segment on the stack. */
  lemma {:induction false} BottomOk(ts: Types, absolute: bool, n: nat, s: seq<nat>)
    requires StackOk(ts, absolute, n, s) && n < |ts| && ts[n].Back? && Depth(ts, n) == 0
    ensures s == [] || (s[|s| - 1] < n && ts[s[|s| - 1]].Back?)
    ensures StackOk(ts, absolute, n + 1, if absolute then s else s + [n])
  {
    OnlyBacks(ts, absolute, n, s);
    forall i: nat | i < n ensures Stays(ts, absolute, n + 1, i) <==> i in s {
      BottomStays(ts, absolute, n, s, i);
    }
    hide NeverBelow, Balance;
    assert Stays(ts, absolute, n + 1, n) <==> !absolute;
    BottomShape(ts, n);
  }

  lemma {:induction false} BottomShape(ts: Types, n: nat)
    requires n < |ts| && ts[n].Back? && Depth(ts, n) == 0
    ensures Depth(ts, n + 1) == 0
  {
  }

  lemma {:induction false} BottomStays(ts: Types, absolute: bool, n: nat, s: seq<nat>, i: nat)
    requires StackOk(ts, absolute, n, s) && i < n < |ts| && Depth(ts, n) == 0
    ensures Stays(ts, absolute, n + 1, i) <==> i in s
  {
    assert i in s <==> Stays(ts, absolute, n, i);
    StaysOn(ts, absolute, n, i);
    OnlyBacks(ts, absolute, n, s);
  }

  lemma {:induction false} OnlyBacks(ts: Types, absolute: bool, n: nat, s: seq<nat>)
    requires StackOk(ts, absolute, n, s) && Depth(ts, n) == 0
    ensures forall i: nat {:trigger i in s} :: i in s ==> i < n && ts[i].Back?
  {
  }

  /** The segments that the scans keep, in order. */
  ghost function KeptUpTo(ts: Types, absolute: bool, n: nat): (s: seq<nat>)
    requires n <= |ts|
    decreases n
  {
    if n == 0 then [] else KeptUpTo(ts, absolute, n - 1) + if Kept(ts, absolute, n - 1) then [n - 1] else []
  }

  ghost predicate Increasing(s: seq<nat>) {
    forall t: nat, u: nat {:trigger s[t], s[u]} :: t < u < |s| ==> s[t] < s[u]
  }

  lemma {:induction false} KeptAre(ts: Types, absolute: bool, n: nat)
    requires n <= |ts|
    ensures var s := KeptUpTo(ts, absolute, n);
            Increasing(s) && forall i: nat {:trigger i in s} :: i in s <==> i < n && Kept(ts, absolute, i)
    decreases n
  {
    if n > 0 {
      KeptAre(ts, absolute, n - 1);
      var s := KeptUpTo(ts, absolute, n - 1);
      assert forall t: nat {:trigger s[t]} :: t < |s| ==> s[t] in s;
    }
  }

  lemma {:induction false} SameElements(s: seq<nat>, t: seq<nat>)
    requires Increasing(s) && Increasing(t) && forall x: nat :: x in s <==> x in t
    ensures s == t
    decreases |s|
  {
    BothOrNeither(s, t);
    BothOrNeither(t, s);
    if s != [] {
      LastElements(s, t);
      var s', t' := s[..|s| - 1], t[..|t| - 1];
      forall x: nat ensures x in s' <==> x in t' {
        assert x in s' <==> x in s && x != s[|s| - 1];
        assert x in t' <==> x in t && x != t[|t| - 1];
      }
      SameElements(s', t');
    }
  }

  lemma {:induction false} BothOrNeither(s: seq<nat>, t: seq<nat>)
    requires forall x: nat :: x in s <==> x in t
    ensures s != [] ==> t != []
  {
    if s != [] {
      assert s[0] in s;
    }
  }

  lemma {:induction false} LastElements(s: seq<nat>, t: seq<nat>)
    requires s != [] && t != [] && Increasing(s) && Increasing(t) && forall x: nat :: x in s <==> x in t
    ensures s[|s| - 1] == t[|t| - 1]
  {
    assert s[|s| - 1] in t && t[|t| - 1] in s;
  }

  /** The scans keep exactly what the stack leaves. */
  lemma {:induction false} ScansMatchStack(ts: Types, absolute: bool)
    ensures KeptUpTo(ts, absolute, |ts|) == Stack(ts, absolute, |ts|)
  {
    var s := Stack(ts, absolute, |ts|);
    StackIsOk(ts, absolute, |ts|);
    KeptAre(ts, absolute, |ts|);
    forall i: nat | i < |ts| ensures Kept(ts, absolute, i) <==> Stays(ts, absolute, |ts|, i) {
      NothingToGoBackFrom(ts, i);
    }
    forall x: nat ensures x in KeptUpTo(ts, absolute, |ts|) <==> x in s {
      if x < |ts| {
        assert x in s <==> Stays(ts, absolute, |ts|, x);
      }
    }
    SameElements(KeptUpTo(ts, absolute, |ts|), s);
  }
}
