/** Joining and normalising paths: what cwk_path_join_and_normalize_multiple writes, into buffers of
    any size, and that normalising once more changes nothing. */
module PathNormalize {
  import opened PathSegments
  import opened PathResolve
  import opened JoinedPaths

  // ---- The normalised path

  function Join(names: seq<string>): (text: string) {
    if names == [] then "" else if |names| == 1 then names[0] else names[0] + "/" + Join(names[1..])
  }

  lemma {:induction false} JoinOneMore(names: seq<string>, name: string)
    ensures Join(names + [name]) == if names == [] then name else Join(names) + "/" + name
    decreases |names|
  {
    if |names| > 1 {
      assert (names + [name])[1..] == names[1..] + [name];
      JoinOneMore(names[1..], name);
    } else if |names| == 1 {
      assert (names + [name])[1..] == [name];
    }
  }

  /** Resolving one more name. */
  function ResolveName(s: seq<string>, absolute: bool, name: string): (r: seq<string>) {
    match TypeOf(name)
    case Current => s
    case Normal => s + [name]
    case Back =>
      if s != [] && TypeOf(s[|s| - 1]).Normal? then s[..|s| - 1]
      else if absolute then s else s + [name]
  }

  /** Resolving the names with a stack. */
  function ResolveNames(names: seq<string>, absolute: bool, n: nat): (s: seq<string>)
    requires n <= |names|
    decreases n
  {
    if n == 0 then [] else ResolveName(ResolveNames(names, absolute, n - 1), absolute, names[n - 1])
  }

  function RootOf(paths: Paths): string { paths[0][..RootLength(paths[0])] }

  predicate IsAbsolute(paths: Paths) { RootLength(paths[0]) == 1 }

  /** The root and what is left of the segments, or "." if there is neither. Without any segment
      there is just the root, even if it is empty. */
  function Normalized(paths: Paths): (text: string) {
    if Names(paths) == [] then RootOf(paths) else
      var kept := ResolveNames(Names(paths), IsAbsolute(paths), |Names(paths)|);
      if kept == [] && RootOf(paths) == "" then "." else RootOf(paths) + Join(kept)
  }

  function Pick(names: seq<string>, s: seq<nat>): (r: seq<string>)
    requires forall t: nat {:trigger s[t]} :: t < |s| ==> s[t] < |names|
  {
    seq(|s|, (t: nat) requires t < |s| => names[s[t]])
  }

  /** The stack of names is the stack of positions. */
  lemma {:induction false} ResolvedNames(names: seq<string>, absolute: bool, n: nat)
    requires n <= |names|
    ensures ResolveNames(names, absolute, n) == Pick(names, Stack(TypesOf(names), absolute, n))
    decreases n
  {
    hide Resolve, ResolveName, TypesOf;
    if n > 0 {
      ResolvedNames(names, absolute, n - 1);
      ResolvedName(names, absolute, Stack(TypesOf(names), absolute, n - 1), n - 1);
    }
  }

  lemma {:induction false} ResolvedName(names: seq<string>, absolute: bool, s: seq<nat>, n: nat)
    requires n < |names| && forall t: nat {:trigger s[t]} :: t < |s| ==> s[t] < n
    ensures |TypesOf(names)| == |names|
    ensures ResolveName(Pick(names, s), absolute, names[n]) == Pick(names, Resolve(TypesOf(names), absolute, s, n))
  {
    hide TypeOf;
    assert s != [] ==> Pick(names, s)[|s| - 1] == names[s[|s| - 1]];
  }

  // ---- Output

  /** The buffer holds the text as far as there is room. */
  ghost predicate Written(buffer: seq<char>, text: string) {
    forall i: nat {:trigger buffer[i]} :: i < |buffer| && i < |text| ==> buffer[i] == text[i]
  }

  /** cwk_path_output_sized */
  method OutputSized(buffer: array<char>, position: nat, str: string) returns (length: nat)
    modifies buffer
    ensures length == |str|
    ensures forall i: nat {:trigger buffer[i]} :: i < buffer.Length ==>
              buffer[i] == if position <= i < position + |str| then str[i - position] else old(buffer[i])
  {
    var amount;
    if buffer.Length > position + |str| {
      amount := |str|;
    } else if buffer.Length > position {
      amount := buffer.Length - position;
    } else {
      amount := 0;
    }
    forall i | 0 <= i < amount {
      buffer[position + i] := str[i];
    }
    length := |str|;
  }

  /** Appends to the text written so far. */
  method Append(buffer: array<char>, str: string, ghost text: string, pos0: nat) returns (pos: nat)
    requires pos0 == |text| && Written(buffer[..], text)
    modifies buffer
    ensures pos == |text + str| && Written(buffer[..], text + str)
  {
    ghost var before := buffer[..];
    var length := OutputSized(buffer, pos0, str);
    assert forall i: nat :: i < buffer.Length ==>
             buffer[..][i] == if pos0 <= i < pos0 + |str| then str[i - pos0] else before[i];
    pos := pos0 + length;
  }

  /** A NUL behind as much of the text as fits. */
  ghost predicate Terminated(buffer: seq<char>, text: string) {
    |buffer| > 0 ==>
      var n := if |text| < |buffer| then |text| else |buffer| - 1;
      buffer[n] == NUL && buffer[..n] == text[..n]
  }

  /** cwk_path_terminate_output */
  method TerminateOutput(buffer: array<char>, pos: nat, ghost text: string)
    requires pos == |text| && Written(buffer[..], text)
    modifies buffer
    ensures Terminated(buffer[..], text)
  {
    ghost var before := buffer[..];
    if buffer.Length > 0 {
      if pos >= buffer.Length {
        buffer[buffer.Length - 1] := NUL;
      } else {
        buffer[pos] := NUL;
      }
      ghost var n := if pos < buffer.Length then pos else buffer.Length - 1;
      assert forall i: nat :: i < n ==> buffer[..][i] == before[i];
    }
  }

  // ---- Joining and normalising

  /** The text when the first k segments have been looked at. */
  ghost function TextSoFar(paths: Paths, k: nat): string
    requires k <= |Names(paths)|
  {
    KeptAre(TypesOf(Names(paths)), IsAbsolute(paths), k);
    var kept := KeptUpTo(TypesOf(Names(paths)), IsAbsolute(paths), k);
    assert forall t: nat {:trigger kept[t]} :: t < |kept| ==> kept[t] in kept;
    RootOf(paths) + Join(Pick(Names(paths), kept))
  }

  ghost predicate AnyKept(paths: Paths, k: nat)
    requires k <= |Names(paths)|
  {
    KeptUpTo(TypesOf(Names(paths)), IsAbsolute(paths), k) != []
  }

  /** Looking at one more segment. */
  lemma {:induction false} TextStep(paths: Paths, k: nat)
    requires k < |Names(paths)|
    ensures var kept := Kept(TypesOf(Names(paths)), IsAbsolute(paths), k);
            && (AnyKept(paths, k + 1) <==> AnyKept(paths, k) || kept)
            && TextSoFar(paths, k + 1) == if !kept then TextSoFar(paths, k)
                                          else TextSoFar(paths, k)
                                               + (if AnyKept(paths, k) then "/" else "") + Names(paths)[k]
  {
    hide Names, Kept, TypesOf, Join, RootOf, IsAbsolute;
    var names := Names(paths);
    var s := KeptUpTo(TypesOf(names), IsAbsolute(paths), k);
    KeptAre(TypesOf(names), IsAbsolute(paths), k);
    assert forall t: nat {:trigger s[t]} :: t < |s| ==> s[t] in s;
    PickOneMore(names, s, k);
    var root, text, name := RootOf(paths), Join(Pick(names, s)), names[k];
    assert TextSoFar(paths, k) == root + text;
    var kept := Kept(TypesOf(names), IsAbsolute(paths), k);
    assert KeptUpTo(TypesOf(names), IsAbsolute(paths), k + 1) == if kept then s + [k] else s;
    assert TextSoFar(paths, k + 1) == root + if kept then Join(Pick(names, s + [k])) else text;
    AppendedText(root, text, name);
  }

  lemma {:induction false} AppendedText(root: string, text: string, name: string)
    ensures root + (text + "/" + name) == (root + text) + "/" + name
    ensures text == "" ==> root + name == (root + text) + "" + name
  {
  }

  lemma {:induction false} PickOneMore(names: seq<string>, s: seq<nat>, k: nat)
    requires k < |names| && forall t: nat {:trigger s[t]} :: t < |s| ==> s[t] < k
    ensures Join(Pick(names, s + [k])) == if s == [] then names[k] else Join(Pick(names, s)) + "/" + names[k]
    ensures s == [] ==> Join(Pick(names, s)) == ""
  {
    assert Pick(names, s + [k]) == Pick(names, s) + [names[k]];
    JoinOneMore(Pick(names, s), names[k]);
  }

  /** When all segments have been looked at, this is the normalised path. */
  lemma {:induction false} TextIsNormalized(paths: Paths)
    requires Names(paths) != []
    ensures var n := |Names(paths)|;
            Normalized(paths) == if !AnyKept(paths, n) && RootOf(paths) == "" then "." else TextSoFar(paths, n)
    ensures !AnyKept(paths, |Names(paths)|) ==> TextSoFar(paths, |Names(paths)|) == RootOf(paths)
  {
    hide Names, Kept;
    var names := Names(paths);
    ScansMatchStack(TypesOf(names), IsAbsolute(paths));
    ResolvedNames(names, IsAbsolute(paths), |names|);
  }

  /** cwk_path_join_and_normalize_multiple; the buffer is not part of any path. */
  method JoinAndNormalize(paths: Paths, buffer: array<char>) returns (pos: nat)
    modifies buffer
    ensures pos == |Normalized(paths)|
    ensures Terminated(buffer[..], Normalized(paths))
  {
    hide At, Names, Normalized, Written;
    var rootLength := RootLength(paths[0]);
    var root := paths[0][..rootLength];
    NothingWritten(buffer[..]);
    pos := Append(buffer, root, "", 0);
    assert "" + root == root;
    var found, cursor := FirstJoined(paths);
    if !found {
      assert Normalized(paths) == root by { NoNames(paths); }
      TerminateOutput(buffer, pos, root);
      return;
    }
    TextBegins(paths);
    pos := WriteSegments(paths, buffer, cursor, pos);
    TextIsNormalized(paths);
    TerminateOutput(buffer, pos, Normalized(paths));
  }

  lemma {:induction false} NothingWritten(buffer: seq<char>)
    ensures Written(buffer, "")
  {
  }

  lemma {:induction false} NoNames(paths: Paths)
    requires Places(paths) == []
    ensures Normalized(paths) == RootOf(paths)
  {
  }

  lemma {:induction false} TextBegins(paths: Paths)
    ensures TextSoFar(paths, 0) == RootOf(paths) && !AnyKept(paths, 0)
  {
  }

  /** The loop over the segments, and the "." when nothing was written. */
  method WriteSegments(paths: Paths, buffer: array<char>, first: Cursor, pos0: nat) returns (pos: nat)
    requires At(paths, first, 0) && Names(paths) != [] && |Names(paths)| == |Places(paths)|
    requires Written(buffer[..], TextSoFar(paths, 0)) && pos0 == |TextSoFar(paths, 0)| && !AnyKept(paths, 0)
    modifies buffer
    ensures Written(buffer[..], Normalized(paths)) && pos == |Normalized(paths)|
  {
    hide At, Names, Normalized, Written, TextSoFar, AnyKept;
    var absolute := RootLength(paths[0]) == 1;
    var cursor := first;
    pos := pos0;
    var hasOutput := false;
    ghost var k: nat := 0;
    var more := true;
    while more
      invariant k <= |Names(paths)|
                  && (if more then k < |Names(paths)| && At(paths, cursor, k) else k == |Names(paths)|)
      invariant Written(buffer[..], TextSoFar(paths, k)) && pos == |TextSoFar(paths, k)|
      invariant hasOutput <==> AnyKept(paths, k)
      decreases more, |Names(paths)| - k
    {
      TextStep(paths, k);
      var removed := WillBeRemoved(paths, cursor, absolute, k);
      if !removed {
        pos := WriteSegment(paths, buffer, cursor, hasOutput, pos, k);
        hasOutput := true;
      }
      more, cursor := NextJoined(paths, cursor, k);
      k := k + 1;
    }
    TextIsNormalized(paths);
    if !hasOutput && pos == 0 {
      assert TextSoFar(paths, k) == "";
      pos := Append(buffer, ".", "", pos);
      assert "" + "." == ".";
    }
  }

  /** A separator if need be, and the segment. */
  method WriteSegment(paths: Paths, buffer: array<char>, cursor: Cursor, hasOutput: bool, pos0: nat, ghost k: nat)
          returns (pos: nat)
    requires At(paths, cursor, k) && k < |Names(paths)|
    requires Written(buffer[..], TextSoFar(paths, k)) && pos0 == |TextSoFar(paths, k)|
    modifies buffer
    ensures var text := TextSoFar(paths, k) + (if hasOutput then "/" else "") + Names(paths)[k];
            Written(buffer[..], text) && pos == |text|
  {
    hide Written, TextSoFar;
    ghost var text := TextSoFar(paths, k);
    pos := pos0;
    if hasOutput {
      pos := Append(buffer, "/", text, pos);
    }
    assert text + "" == text;
    text := text + if hasOutput then "/" else "";
    var name := Text(paths, cursor, k);
    pos := Append(buffer, name, text, pos);
  }

  /** The characters of the segment under the cursor. */
  method Text(paths: Paths, c: Cursor, ghost k: nat) returns (name: string)
    requires At(paths, c, k)
    ensures k < |Names(paths)| && name == Names(paths)[k]
  {
    ghost var j: nat :| Stands(paths, c, k, j);
    StandsIn(paths, c, k, j);
    PlacesInPaths(paths, |paths|);
    assert InPath(paths, Places(paths)[k]);
    name := paths[c.index][c.segment.begin..c.segment.begin + c.segment.size];
  }

  // ---- Normalising twice

  /** A segment's text: not empty, without separator and NUL. */
  predicate Proper(name: string) { name != "" && '/' !in name && NUL !in name }

  lemma {:induction false} NamesAreProper(paths: Paths, k: nat)
    requires k < |Names(paths)|
    ensures Proper(Names(paths)[k])
  {
    PlacesInPaths(paths, |paths|);
    var place := Places(paths)[k];
    assert InPath(paths, place);
    PlaceIsRun(paths, |paths|, k);
    var path, name := paths[place.path], Names(paths)[k];
    forall c: char | c in name ensures c != '/' && c != NUL {
      var i: nat :| i < |name| && name[i] == c;
      assert name[i] == path[place.seg.begin + i];
    }
  }

  lemma {:induction false} PlaceIsRun(paths: Paths, n: nat, k: nat)
    requires n <= |paths| && k < Offset(paths, n)
    ensures var p := PlacesUpTo(paths, n)[k];
            p.path < |paths| && Run(paths[p.path], p.seg.begin, p.seg.End())
    decreases n
  {
    var before, segs := PlacesUpTo(paths, n - 1), Segs(paths[n - 1], 0);
    if k < |before| {
      PlaceIsRun(paths, n - 1, k);
    } else {
      SegsAreListed(paths[n - 1], 0);
      assert Run(paths[n - 1], segs[k - |before|].begin, segs[k - |before|].End());
    }
  }

  /** What resolving leaves: no ".", and ".." only at the front, and of a relative path. */
  ghost predicate Settled(s: seq<string>, absolute: bool) {
    forall t: nat {:trigger s[t]} :: t < |s| ==>
      && Proper(s[t]) && !TypeOf(s[t]).Current?
      && (TypeOf(s[t]).Back? ==> !absolute && (t == 0 || TypeOf(s[t - 1]).Back?))
  }

  lemma {:induction false} ResolvingSettles(names: seq<string>, absolute: bool, n: nat)
    requires n <= |names| && forall k: nat {:trigger names[k]} :: k < |names| ==> Proper(names[k])
    ensures Settled(ResolveNames(names, absolute, n), absolute)
    decreases n
  {
    hide Settled, ResolveName;
    if n > 0 {
      ResolvingSettles(names, absolute, n - 1);
      ResolveNameSettles(ResolveNames(names, absolute, n - 1), absolute, names[n - 1]);
    } else {
      assert Settled([], absolute) by { NothingIsSettled(absolute); }
    }
  }

  lemma {:induction false} NothingIsSettled(absolute: bool)
    ensures Settled([], absolute)
  {
  }

  lemma {:induction false} ResolveNameSettles(s: seq<string>, absolute: bool, name: string)
    requires Settled(s, absolute) && Proper(name)
    ensures Settled(ResolveName(s, absolute, name), absolute)
  {
    hide Proper, TypeOf;
  }

  /** Settled names resolve to themselves. */
  lemma {:induction false} SettledStays(names: seq<string>, absolute: bool, n: nat)
    requires n <= |names| && Settled(names, absolute)
    ensures ResolveNames(names, absolute, n) == names[..n]
    decreases n
  {
    hide Settled, ResolveName;
    if n > 0 {
      SettledStays(names, absolute, n - 1);
      SettledStep(names, absolute, n - 1);
    }
  }

  lemma {:induction false} SettledStep(names: seq<string>, absolute: bool, n: nat)
    requires n < |names| && Settled(names, absolute)
    ensures ResolveName(names[..n], absolute, names[n]) == names[..n + 1]
  {
    hide Proper, TypeOf;
    assert names[..n + 1] == names[..n] + [names[n]];
    assert n > 0 ==> names[..n][n - 1] == names[n - 1];
  }

  /** Where a run ends, the scan for the next stop ends. */
  lemma {:induction false} FindStopIs(path: string, b: nat, e: nat)
    requires b <= e <= |path| && (e == |path| || path[e] == '/')
    requires forall i: nat {:trigger path[i]} :: b <= i < e ==> path[i] != '/'
    ensures FindStop(path, b) == e
    decreases e - b
  {
    if b < e {
      FindStopIs(path, b + 1, e);
    }
  }

  /** The texts of the segments from position i on. */
  function NamesIn(path: string, i: nat): (names: seq<string>)
    requires i <= |path|
    ensures |names| == |Segs(path, i)|
    decreases |path| - i
  {
    var b := SkipSeparators(path, i);
    if b == |path| then [] else
      var e := FindStop(path, b);
      [path[b..e]] + NamesIn(path, e)
  }

  lemma {:induction false} NamesInAre(path: string, i: nat, k: nat)
    requires i <= |path| && k < |Segs(path, i)|
    ensures var s := Segs(path, i)[k];
            s.End() <= |path| && NamesIn(path, i)[k] == path[s.begin..s.End()]
    decreases k
  {
    if k > 0 {
      NamesInAre(path, FindStop(path, SkipSeparators(path, i)), k - 1);
    }
  }

  /** Cutting up joined names gives the names back. */
  lemma {:induction false} SegsOfJoin(front: string, names: seq<string>)
    requires forall k: nat {:trigger names[k]} :: k < |names| ==> Proper(names[k])
    ensures NamesIn(front + Join(names), |front|) == names
    decreases |names|
  {
    hide NamesIn, Proper, Join;
    if names == [] {
      NothingJoined(front);
    } else if |names| == 1 {
      FirstName(front, names);
    } else {
      FirstName(front, names);
      SegsOfJoin(front + names[0] + "/", names[1..]);
    }
  }

  lemma {:induction false} NothingJoined(front: string)
    ensures NamesIn(front + Join([]), |front|) == []
  {
  }

  /** The first name, and where the others begin. */
  lemma {:induction false} FirstName(front: string, names: seq<string>)
    requires names != [] && Proper(names[0])
    ensures var path := front + Join(names);
            if |names| == 1 then NamesIn(path, |front|) == names else
            var front' := front + names[0] + "/";
            path == front' + Join(names[1..]) && NamesIn(path, |front|) == [names[0]] + NamesIn(path, |front'|)
  {
    hide NamesIn, Proper, Join, SkipSeparators, FindStop;
    var path := front + Join(names);
    FirstOfJoin(front, names, path);
    var e := |front| + |names[0]|;
    NamesStep(path, |front|, e);
    if |names| > 1 {
      RestOfJoin(front, names, path);
      SeparatorSkipped(path, e);
    } else {
      NamesAtEnd(path);
    }
  }

  lemma {:induction false} NamesAtEnd(path: string)
    ensures NamesIn(path, |path|) == []
  {
  }

  lemma {:induction false} NamesStep(path: string, i: nat, e: nat)
    requires i < |path| && SkipSeparators(path, i) == i && FindStop(path, i) == e
    ensures e <= |path| && NamesIn(path, i) == [path[i..e]] + NamesIn(path, e)
  {
  }

  lemma {:induction false} RestOfJoin(front: string, names: seq<string>, path: string)
    requires |names| > 1 && path == front + Join(names)
    ensures path == (front + names[0] + "/") + Join(names[1..])
  {
    assert front + (names[0] + "/" + Join(names[1..])) == (front + names[0] + "/") + Join(names[1..]);
  }

  lemma {:induction false} SeparatorSkipped(path: string, e: nat)
    requires e < |path| && path[e] == '/'
    ensures NamesIn(path, e) == NamesIn(path, e + 1)
  {
  }

  lemma {:induction false} FirstOfJoin(front: string, names: seq<string>, path: string)
    requires names != [] && Proper(names[0]) && path == front + Join(names)
    ensures var e := |front| + |names[0]|;
            && |front| < e <= |path| && SkipSeparators(path, |front|) == |front| && FindStop(path, |front|) == e
            && (if |names| == 1 then e == |path| else e < |path| && path[e] == '/')
            && path[|front|..e] == names[0]
  {
    var e := |front| + |names[0]|;
    assert forall i: nat {:trigger path[i]} :: |front| <= i < e ==>
             path[i] == names[0][i - |front|] && names[0][i - |front|] in names[0];
    FindStopIs(path, |front|, e);
  }

  /** One path alone. */
  lemma {:induction false} NamesOfOne(path: string)
    requires IsPath(path)
    ensures Names([path]) == NamesIn(path, 0)
  {
    var paths: Paths := [path];
    assert PlacesUpTo(paths, 1) == PlacesUpTo(paths, 0) + Tagged(0, Segs(path, 0)) == Tagged(0, Segs(path, 0));
    PlacesInPaths(paths, 1);
    forall k: nat | k < |Segs(path, 0)| ensures Names(paths)[k] == NamesIn(path, 0)[k] {
      assert InPath(paths, Places(paths)[k]);
      NamesInAre(path, 0, k);
    }
  }

  /** A normalised path with names left is cut up into these names again, and has the same root. */
  lemma {:induction false} NamesAgain(root: string, kept: seq<string>)
    requires (root == "" || root == "/") && kept != []
    requires forall k: nat {:trigger kept[k]} :: k < |kept| ==> Proper(kept[k])
    ensures IsPath(root + Join(kept)) && Names([root + Join(kept)]) == kept
    ensures RootLength(root + Join(kept)) == |root|
  {
    var path := root + Join(kept);
    JoinIsPath(kept);
    FirstOfJoin(root, kept, path);
    NamesOfOne(path);
    SegsOfJoin(root, kept);
    RootIsSkipped(path);
  }

  lemma {:induction false} JoinIsPath(names: seq<string>)
    requires forall k: nat {:trigger names[k]} :: k < |names| ==> Proper(names[k])
    ensures IsPath(Join(names))
    decreases |names|
  {
    if |names| > 1 {
      JoinIsPath(names[1..]);
    }
  }

  /** A normalised path without names. */
  lemma {:induction false} ShortPaths(text: string)
    requires text == "" || text == "/" || text == "."
    ensures IsPath(text) && Normalized([text]) == text
  {
    hide Names;
    NamesOfOne(text);
    if text == "." {
      DotAlone(text);
    } else {
      assert |text| == 1 ==> SkipSeparators(text, 1) == 1;
    }
  }

  lemma {:induction false} DotAlone(text: string)
    requires |text| == 1 && text[0] == '.'
    ensures NamesIn(text, 0) == [text] && ResolveNames([text], false, 1) == []
  {
    FindStopIs(text, 0, 1);
    NamesAtEnd(text);
    NamesStep(text, 0, 1);
    assert text[0..1] == text;
    assert text == "." && TypeOf([text][0]).Current?;
    assert ResolveNames([text], false, 1) == ResolveName(ResolveNames([text], false, 0), false, [text][0]);
  }

  /** Normalising a result again returns it unchanged. */
  lemma {:induction false} NormalizedIsFixed(paths: Paths)
    ensures IsPath(Normalized(paths)) && Normalized([Normalized(paths)]) == Normalized(paths)
  {
    var names, absolute, root := Names(paths), IsAbsolute(paths), RootOf(paths);
    var kept := ResolveNames(names, absolute, |names|);
    assert root == if absolute then "/" else "";
    if names == [] || kept == [] {
      ShortPaths(Normalized(paths));
    } else {
      forall k: nat | k < |names| ensures Proper(names[k]) {
        NamesAreProper(paths, k);
      }
      ResolvingSettles(names, absolute, |names|);
      NamesAgain(root, kept);
      SettledStays(kept, absolute, |kept|);
      FixedText(root, absolute, kept);
    }
  }

  lemma {:induction false} FixedText(root: string, absolute: bool, kept: seq<string>)
    requires root == (if absolute then "/" else "") && kept != []
    requires IsPath(root + Join(kept)) && Names([root + Join(kept)]) == kept
    requires RootLength(root + Join(kept)) == |root| && ResolveNames(kept, absolute, |kept|) == kept
    ensures Normalized([root + Join(kept)]) == root + Join(kept)
  {
    hide Names, ResolveNames, Join;
    var text := root + Join(kept);
    assert text[..|root|] == root;
  }
}
