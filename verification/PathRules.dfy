/** What a normalised path is, from the text of the paths alone: joined with separators and cut at
    them, "." and empty parts count for nothing, and ".." takes back the name before it. */
module PathRules {
  import opened PathSegments
  import opened PathResolve
  import opened JoinedPaths
  import opened PathNormalize

  // ---- Cutting a text at its separators

  /** No separator in any part, so joining the parts is undone by cutting. */
  ghost predicate NoSeparator(parts: seq<string>) {
    forall k: nat {:trigger parts[k]} :: k < |parts| ==> '/' !in parts[k]
  }

  /** The parts of a text. */
  ghost predicate Cut(text: string, parts: seq<string>) {
    parts != [] && NoSeparator(parts) && Join(parts) == text
  }

  /** Every text can be cut. */
  lemma {:induction false} CutExists(text: string) returns (parts: seq<string>)
    ensures Cut(text, parts)
    decreases |text|
  {
    if text == "" {
      parts := [""];
    } else {
      var n: nat := |text| - 1;
      var front := CutExists(text[..n]);
      assert text == text[..n] + [text[n]];
      if text[n] == '/' {
        parts := front + [""];
        JoinOneMore(front, "");
        assert Join(front) + "/" + "" == text;
      } else {
        parts := LongerPart(text[..n], front, text[n]);
      }
    }
  }

  lemma {:induction false} LongerPart(text: string, front: seq<string>, c: char) returns (parts: seq<string>)
    requires Cut(text, front) && c != '/'
    ensures Cut(text + [c], parts)
  {
    var n: nat := |front| - 1;
    var before, last := front[..n], front[n];
    parts := before + [last + [c]];
    LongerJoin(front, before, last, parts, c);
    LongerCut(front, before, last, parts, c);
  }

  lemma {:induction false} LongerJoin(front: seq<string>, before: seq<string>, last: string, parts: seq<string>,
      c: char)
    requires front == before + [last] && parts == before + [last + [c]]
    ensures Join(parts) == Join(front) + [c]
  {
    hide Join;
    JoinOneMore(before, last);
    JoinOneMore(before, last + [c]);
    var head := Join(before) + "/";
    assert head + (last + [c]) == (head + last) + [c];
  }

  lemma {:induction false} LongerCut(front: seq<string>, before: seq<string>, last: string, parts: seq<string>, c: char)
    requires front == before + [last] && parts == before + [last + [c]] && NoSeparator(front) && c != '/'
    ensures NoSeparator(parts)
  {
    hide Join;
    assert front[|before|] == last;
    forall k: nat | k < |parts| ensures '/' !in parts[k] {
      if k < |before| {
        assert front[k] == parts[k];
      }
    }
  }

  lemma {:induction false} JoinTwo(front: seq<string>, back: seq<string>)
    requires front != [] && back != []
    ensures Join(front + back) == Join(front) + "/" + Join(back)
    decreases |back|
  {
    hide Join;
    var n: nat := |back| - 1;
    var before, last := back[..n], back[n];
    assert back == before + [last] && front + back == (front + before) + [last];
    JoinOneMore(front + before, last);
    JoinOneMore(before, last);
    if n > 0 {
      JoinTwo(front, before);
      var head, text := Join(front) + "/", Join(before);
      assert (head + text) + "/" + last == head + (text + "/" + last);
    } else {
      assert front + before == front && back == [last];
    }
  }

  /** Without the empty parts. */
  function Filled(parts: seq<string>): (names: seq<string>) {
    if parts == [] then [] else
      var n: nat := |parts| - 1;
      if parts[n] == "" then Filled(parts[..n]) else Filled(parts[..n]) + [parts[n]]
  }

  lemma {:induction false} FilledTwo(front: seq<string>, back: seq<string>)
    ensures Filled(front + back) == Filled(front) + Filled(back)
    decreases |back|
  {
    if back == [] {
      assert front + back == front;
    } else {
      var n: nat := |back| - 1;
      FilledTwo(front, back[..n]);
      assert (front + back)[..|front + back| - 1] == front + back[..n];
    }
  }

  // ---- The segments are the parts that are not empty

  lemma {:induction false} NamesOfParts(front: string, parts: seq<string>)
    requires NoSeparator(parts) && IsPath(Join(parts))
    ensures NamesIn(front + Join(parts), |front|) == Filled(parts)
    decreases |parts|
  {
    hide NamesIn, Join, IsPath, Proper;
    if parts == [] {
      NothingJoined(front);
    } else {
      FirstPart(front, parts);
      if |parts| > 1 {
        NamesOfParts(front + parts[0] + "/", parts[1..]);
        FilledTwo([parts[0]], parts[1..]);
        assert parts == [parts[0]] + parts[1..];
      } else {
        assert parts == [parts[0]];
      }
      assert Filled([parts[0]]) == if parts[0] == "" then [] else [parts[0]] by { FilledOne(parts[0]); }
    }
  }

  lemma {:induction false} FilledOne(part: string)
    ensures Filled([part]) == if part == "" then [] else [part]
  {
    assert [part][..0] == [];
    assert Filled([]) == [];
  }

  lemma {:induction false} FirstPart(front: string, parts: seq<string>)
    requires parts != [] && NoSeparator(parts) && IsPath(Join(parts))
    ensures var path, first := front + Join(parts), if parts[0] == "" then [] else [parts[0]];
            if |parts| == 1 then NamesIn(path, |front|) == first else
            var front' := front + parts[0] + "/";
            && IsPath(Join(parts[1..])) && path == front' + Join(parts[1..])
            && NamesIn(path, |front|) == first + NamesIn(path, |front'|)
  {
    hide NamesIn;
    FirstIsPath(parts);
    var path := front + Join(parts);
    if parts[0] != "" {
      FirstName(front, parts);
    } else if |parts| == 1 {
      NothingJoined(front);
      assert path == front;
    } else {
      RestOfJoin(front, parts, path);
      assert front + parts[0] + "/" == front + "/";
      SeparatorSkipped(path, |front|);
    }
  }

  lemma {:induction false} FirstIsPath(parts: seq<string>)
    requires parts != [] && IsPath(Join(parts))
    ensures IsPath(parts[0]) && (|parts| > 1 ==> IsPath(Join(parts[1..])))
  {
    var text := Join(parts);
    forall c: char | c in parts[0] ensures c in text {
      var i: nat :| i < |parts[0]| && parts[0][i] == c;
      assert text[i] == c;
    }
    if |parts| > 1 {
      var rest, n := Join(parts[1..]), |parts[0]| + 1;
      forall c: char | c in rest ensures c in text {
        var i: nat :| i < |rest| && rest[i] == c;
        assert text[n + i] == c;
      }
    }
  }

  /** The names of a path are its parts. */
  lemma {:induction false} NamesOfText(text: string, parts: seq<string>)
    requires IsPath(text) && Cut(text, parts)
    ensures NamesIn(text, 0) == Filled(parts)
  {
    NamesOfParts("", parts);
    assert "" + Join(parts) == text;
  }

  lemma {:induction false} NamesOfTwo(a: string, b: string)
    requires IsPath(a) && IsPath(b)
    ensures IsPath(a + "/" + b) && NamesIn(a + "/" + b, 0) == NamesIn(a, 0) + NamesIn(b, 0)
  {
    hide NamesIn, Join;
    var x := CutExists(a);
    var y := CutExists(b);
    JoinTwo(x, y);
    NamesOfText(a, x);
    NamesOfText(b, y);
    NamesOfText(a + "/" + b, x + y);
    FilledTwo(x, y);
  }

  /** The names of the last path come behind those of the others. */
  lemma {:induction false} NamesOfLast(paths: Paths, n: nat)
    requires n + 1 == |paths| && n > 0
    ensures Names(paths) == Names(paths[..n]) + NamesIn(paths[n], 0)
  {
    hide NamesIn;
    var front: Paths := paths[..n];
    PlacesOfFront(paths, n, n);
    PlacesInPaths(paths, |paths|);
    PlacesInPaths(front, n);
    var segs := Segs(paths[n], 0);
    assert Places(paths) == Places(front) + Tagged(n, segs);
    forall k: nat | k < |Names(paths)| ensures Names(paths)[k] == (Names(front) + NamesIn(paths[n], 0))[k] {
      assert InPath(paths, Places(paths)[k]);
      if k < |Places(front)| {
        assert InPath(front, Places(front)[k]);
      } else {
        NamesInAre(paths[n], 0, k - |Places(front)|);
      }
    }
  }

  lemma {:induction false} PlacesOfFront(paths: Paths, n: nat, m: nat)
    requires m <= n < |paths| && n > 0
    ensures var front: Paths := paths[..n]; PlacesUpTo(front, m) == PlacesUpTo(paths, m)
    decreases m
  {
    hide IsPath, Segs;
    if m > 0 {
      PlacesOfFront(paths, n, m - 1);
      assert paths[..n][m - 1] == paths[m - 1];
    }
  }

  /** Reading several paths as one is reading the text of all, with separators between them. */
  lemma {:induction false} NamesOfAll(paths: Paths, n: nat)
    requires n == |paths|
    ensures IsPath(Join(paths)) && Names(paths) == NamesIn(Join(paths), 0)
    decreases n
  {
    hide Names, NamesIn, IsPath;
    if n == 1 {
      assert paths == [paths[0]] && Join(paths) == paths[0];
      NamesOfOne(paths[0]);
    } else {
      var front: Paths := paths[..n - 1];
      NamesOfAll(front, n - 1);
      NamesOfLast(paths, n - 1);
      assert paths == front + [paths[n - 1]];
      JoinOneMore(front, paths[n - 1]);
      NamesOfTwo(Join(front), paths[n - 1]);
    }
  }

  // ---- Walking along the parts

  /** Empty parts and "." change nothing, ".." takes back the last name, and stays where there is none
      to take back, unless the path is absolute. */
  function Walk(parts: seq<string>, absolute: bool): (left: seq<string>) {
    if parts == [] then [] else
      var n: nat := |parts| - 1;
      var before := Walk(parts[..n], absolute);
      if parts[n] == "" || parts[n] == "." then before
      else if parts[n] != ".." then before + [parts[n]]
      else if before != [] && before[|before| - 1] != ".." then before[..|before| - 1]
      else if absolute then before
      else before + [".."]
  }

  ghost predicate OnlyNames(s: seq<string>) {
    forall t: nat {:trigger s[t]} :: t < |s| ==> s[t] != "" && s[t] != "."
  }

  lemma {:induction false} ResolvedIsWalked(parts: seq<string>, absolute: bool)
    ensures var names := Filled(parts);
            ResolveNames(names, absolute, |names|) == Walk(parts, absolute) && OnlyNames(Walk(parts, absolute))
    decreases |parts|
  {
    hide ResolveName, OnlyNames, Walk;
    if parts == [] {
      NothingWalked(absolute);
    } else {
      var n: nat := |parts| - 1;
      ResolvedIsWalked(parts[..n], absolute);
      var before := Filled(parts[..n]);
      OneMorePart(parts, absolute);
      if parts[n] != "" {
        ResolveFront(before, parts[n], absolute, |before|);
      }
    }
  }

  lemma {:induction false} NothingWalked(absolute: bool)
    ensures Walk([], absolute) == [] && OnlyNames([])
  {
  }

  lemma {:induction false} OneMorePart(parts: seq<string>, absolute: bool)
    requires parts != [] && OnlyNames(Walk(parts[..|parts| - 1], absolute))
    ensures var n, before := |parts| - 1, Walk(parts[..|parts| - 1], absolute);
            && Walk(parts, absolute) == (if parts[n] == "" then before else ResolveName(before, absolute, parts[n]))
            && OnlyNames(Walk(parts, absolute))
  {
    var before := Walk(parts[..|parts| - 1], absolute);
    assert before != [] ==> before[|before| - 1] != ".";
  }

  lemma {:induction false} ResolveFront(names: seq<string>, name: string, absolute: bool, n: nat)
    requires n <= |names|
    ensures ResolveNames(names + [name], absolute, n) == ResolveNames(names, absolute, n)
    decreases n
  {
    hide ResolveName;
    if n > 0 {
      ResolveFront(names, name, absolute, n - 1);
    }
  }

  /** The path begins with a separator. */
  predicate FromRoot(paths: Paths) { paths[0] != "" && paths[0][0] == '/' }

  /** The text that stands for what is left. */
  function Canonical(left: seq<string>, absolute: bool, blank: bool): (text: string) {
    if left != [] then (if absolute then "/" else "") + Join(left)
    else if absolute then "/"
    else if blank then "" else "."
  }

  ghost predicate Blank(parts: seq<string>) { forall k: nat {:trigger parts[k]} :: k < |parts| ==> parts[k] == "" }

  lemma {:induction false} BlankIsEmpty(parts: seq<string>)
    ensures Blank(parts) <==> Filled(parts) == []
    decreases |parts|
  {
    if parts != [] {
      var n: nat := |parts| - 1;
      BlankIsEmpty(parts[..n]);
      assert forall k: nat {:trigger parts[k]} :: k < n ==> parts[..n][k] == parts[k];
    }
  }

  /** The normalised path, from nothing but the joined text cut at its separators. */
  lemma {:induction false} NormalizedIs(paths: Paths, parts: seq<string>)
    requires Cut(Join(paths), parts)
    ensures Normalized(paths) == Canonical(Walk(parts, FromRoot(paths)), FromRoot(paths), Blank(parts))
  {
    hide Names, NamesIn, Join, Walk, ResolveNames;
    NamesOfAll(paths, |paths|);
    NamesOfText(Join(paths), parts);
    ResolvedIsWalked(parts, FromRoot(paths));
    BlankIsEmpty(parts);
    assert RootOf(paths) == if FromRoot(paths) then "/" else "";
    assert IsAbsolute(paths) == FromRoot(paths);
    if Filled(parts) == [] {
      NothingLeft(parts, FromRoot(paths));
    }
    assert Join([]) == "" by { NothingJoins(); }
  }

  lemma {:induction false} NothingJoins()
    ensures Join([]) == ""
  {
  }

  lemma {:induction false} NothingLeft(parts: seq<string>, absolute: bool)
    requires Filled(parts) == []
    ensures Walk(parts, absolute) == []
    decreases |parts|
  {
    if parts != [] {
      NothingLeft(parts[..|parts| - 1], absolute);
    }
  }

  // ---- What cannot be left

  /** A normalised path has no empty name and no "." unless that is all of it, and ".." only at the
      front, and only if the path is not absolute. */
  lemma {:induction false} OnlyNamesAreLeft(paths: Paths, k: nat)
    requires IsPath(Normalized(paths)) && Normalized(paths) != "." && k < |Names([Normalized(paths)])|
    ensures var left := Names([Normalized(paths)]);
            && left[k] != "" && left[k] != "."
            && (left[k] == ".." ==>
                  !FromRoot([Normalized(paths)]) && forall j: nat {:trigger left[j]} :: j < k ==> left[j] == "..")
  {
    hide Names, Join, Settled, NamesIn;
    var names, absolute := Names(paths), IsAbsolute(paths);
    var left := ResolveNames(names, absolute, |names|);
    if names == [] || left == [] {
      NothingJoins();
      NoNamesLeft(Normalized(paths));
    } else {
      forall i: nat | i < |names| ensures Proper(names[i]) {
        NamesAreProper(paths, i);
      }
      ResolvingSettles(names, absolute, |names|);
      LeftAreProper(left, absolute);
      NamesAgain(RootOf(paths), left);
      if RootOf(paths) == "" {
        LeftInFront(RootOf(paths), left);
      }
      LeftAt(left, absolute, k);
    }
  }

  lemma {:induction false} NoNamesLeft(text: string)
    requires text == "" || text == "/"
    ensures IsPath(text) && Names([text]) == []
  {
    NamesOfOne(text);
    assert SkipSeparators(text, 0) == |text| by {
      assert |text| == 1 ==> SkipSeparators(text, 1) == 1;
    }
  }

  lemma {:induction false} LeftAreProper(left: seq<string>, absolute: bool)
    requires Settled(left, absolute)
    ensures forall j: nat {:trigger left[j]} :: j < |left| ==> Proper(left[j])
  {
  }

  lemma {:induction false} LeftInFront(root: string, left: seq<string>)
    requires root == "" && left != [] && Proper(left[0])
    ensures Join(left) != "" && (root + Join(left))[0] != '/'
  {
    assert Join(left)[0] == left[0][0] && left[0][0] in left[0];
  }

  lemma {:induction false} LeftAt(left: seq<string>, absolute: bool, k: nat)
    requires Settled(left, absolute) && k < |left|
    ensures left[k] != "" && left[k] != "."
    ensures left[k] == ".." ==> !absolute && forall j: nat {:trigger left[j]} :: j < k ==> left[j] == ".."
  {
    if left[k] == ".." {
      BackBefore(left, absolute, k);
    }
  }

  lemma {:induction false} BackBefore(left: seq<string>, absolute: bool, k: nat)
    requires Settled(left, absolute) && k < |left| && left[k] == ".."
    ensures !absolute && forall j: nat {:trigger left[j]} :: j < k ==> left[j] == ".."
    decreases k
  {
    if k > 0 {
      BackBefore(left, absolute, k - 1);
    }
  }

  // ---- What changes nothing

  /** Walking to a name and back, or staying. */
  ghost predicate Idle(tail: seq<string>) {
    tail == ["."]
    || (|tail| == 2 && tail[0] !in {"", ".", ".."} && '/' !in tail[0] && NUL !in tail[0] && tail[1] == "..")
  }

  lemma {:induction false} WalkIdly(parts: seq<string>, tail: seq<string>, absolute: bool)
    requires Idle(tail)
    ensures Walk(parts + tail, absolute) == Walk(parts, absolute)
  {
    var n: nat := |tail| - 1;
    assert (parts + tail)[..|parts + tail| - 1] == parts + tail[..n];
    if n > 0 {
      assert (parts + tail[..n])[..|parts + tail[..n]| - 1] == parts;
    } else {
      assert parts + tail[..n] == parts;
    }
  }

  /** The paths with more text behind the last one. */
  function Longer(paths: Paths, tail: seq<string>): (longer: Paths)
    requires Idle(tail)
  {
    IdleIsPath(tail);
    paths[|paths| - 1 := paths[|paths| - 1] + "/" + Join(tail)]
  }

  lemma {:induction false} IdleIsPath(tail: seq<string>)
    requires Idle(tail)
    ensures IsPath(Join(tail)) && NoSeparator(tail)
  {
    if |tail| == 2 {
      assert Join(tail[1..]) == "..";
      assert Join(tail) == tail[0] + "/" + "..";
    }
  }

  lemma {:induction false} LongerText(paths: Paths, tail: seq<string>)
    requires Idle(tail)
    ensures Join(Longer(paths, tail)) == Join(paths) + "/" + Join(tail)
  {
    hide Join;
    var n: nat := |paths| - 1;
    var front, last, more := paths[..n], paths[n], Join(tail);
    assert paths == front + [last] && Longer(paths, tail) == front + [last + "/" + more];
    JoinOneMore(front, last);
    JoinOneMore(front, last + "/" + more);
    var head := Join(front) + "/";
    assert head + (last + "/" + more) == (head + last) + "/" + more;
  }

  lemma {:induction false} NothingToCut(parts: seq<string>)
    requires Cut(Join([""]), parts)
    ensures parts == [""]
  {
    assert |parts| > 1 ==> |Join(parts)| >= 1;
  }

  lemma {:induction false} NamesMakeText(left: seq<string>)
    requires left != [] && OnlyNames(left)
    ensures Join(left) != ""
  {
    assert left[0] != "";
  }

  /** Behind a path, "/." and "/x/.." change nothing, except that what was an empty path becomes the
      root, and what led nowhere at all becomes ".". */
  lemma {:induction false} IdleChangesNothing(paths: Paths, tail: seq<string>)
    requires Idle(tail)
    ensures Normalized(Longer(paths, tail)) == if paths == [""] then "/"
                                               else if Normalized(paths) == "" then "." else Normalized(paths)
  {
    hide Join, Walk, Normalized;
    var parts := CutExists(Join(paths));
    var longer, n := Longer(paths, tail), |paths| - 1;
    IdleIsPath(tail);
    JoinTwo(parts, tail);
    LongerText(paths, tail);
    NormalizedIs(paths, parts);
    NormalizedIs(longer, parts + tail);
    WalkIdly(parts, tail, FromRoot(longer));
    ResolvedIsWalked(parts, FromRoot(paths));
    assert (parts + tail)[|parts|] == tail[0] != "";
    assert !Blank(parts + tail);
    if paths == [""] {
      assert FromRoot(longer);
      NothingToCut(parts);
      BlankIsEmpty(parts);
      NothingLeft(parts, true);
    } else {
      assert FromRoot(longer) == FromRoot(paths);
      if Walk(parts, FromRoot(paths)) != [] {
        NamesMakeText(Walk(parts, FromRoot(paths)));
      }
    }
  }
}
