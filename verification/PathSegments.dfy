/** Segments of UNIX paths: the scanning functions of cwalk.c against the list of segments. A path
    is its characters without the terminating NUL, which no path contains. */
module PathSegments {

  const NUL := '\0'

  predicate IsPath(path: string) { NUL !in path }

  /** path[i], with the NUL at the end */
  function CharAt(path: string, i: nat): char { if i < |path| then path[i] else NUL }

  predicate IsSeparator(path: string, i: nat) { CharAt(path, i) == '/' }

  datatype Seg = Seg(begin: nat, size: nat) {
    function End(): nat { begin + size }
  }

  // ---- The list of segments

  function SkipSeparators(path: string, i: nat): (j: nat)
    requires i <= |path|
    ensures i <= j <= |path| && !IsSeparator(path, j)
    decreases |path| - i
  {
    if i < |path| && path[i] == '/' then SkipSeparators(path, i + 1) else i
  }

  function FindStop(path: string, i: nat): (j: nat)
    requires i <= |path|
    ensures i <= j <= |path| && (j < |path| ==> IsSeparator(path, j))
    ensures i < |path| && path[i] != '/' ==> i < j
    decreases |path| - i
  {
    if i < |path| && path[i] != '/' then FindStop(path, i + 1) else i
  }

  /** The segments from position i on. */
  function Segs(path: string, i: nat): (segs: seq<Seg>)
    requires i <= |path|
    decreases |path| - i
  {
    var b := SkipSeparators(path, i);
    if b == |path| then [] else
      var e := FindStop(path, b);
      [Seg(b, e - b)] + Segs(path, e)
  }

  /** No separator from b up to e. */
  ghost predicate Run(path: string, b: nat, e: nat) {
    b < e <= |path| && forall i: nat {:trigger path[i]} :: b <= i < e ==> path[i] != '/'
  }

  /** Nothing but separators from a up to b. */
  ghost predicate Gap(path: string, a: nat, b: nat) {
    a <= b <= |path| && forall i: nat {:trigger path[i]} :: a <= i < b ==> path[i] == '/'
  }

  function EndBefore(from: nat, segs: seq<Seg>, k: nat): nat
    requires k <= |segs|
  {
    if k == 0 then from else segs[k - 1].End()
  }

  function BeginAt(path: string, segs: seq<Seg>, k: nat): nat
    requires k <= |segs|
  {
    if k == |segs| then |path| else segs[k].begin
  }

  /** Between two segments there are separators, at least one, and nothing else. */
  ghost predicate GapAt(path: string, from: nat, segs: seq<Seg>, k: nat)
    requires k <= |segs|
  {
    && Gap(path, EndBefore(from, segs, k), BeginAt(path, segs, k))
    && (0 < k < |segs| ==> EndBefore(from, segs, k) < BeginAt(path, segs, k))
  }

  ghost predicate Listed(path: string, from: nat, segs: seq<Seg>) {
    && (forall k: nat {:trigger segs[k]} :: k < |segs| ==> Run(path, segs[k].begin, segs[k].End()))
    && forall k: nat {:trigger GapAt(path, from, segs, k)} :: k <= |segs| ==> GapAt(path, from, segs, k)
  }

  lemma {:induction false} SkippedIsGap(path: string, i: nat)
    requires i <= |path|
    ensures Gap(path, i, SkipSeparators(path, i))
    decreases |path| - i
  {
    if i < |path| && path[i] == '/' {
      SkippedIsGap(path, i + 1);
    }
  }

  lemma {:induction false} FoundIsRun(path: string, i: nat)
    requires i < |path| && path[i] != '/'
    ensures Run(path, i, FindStop(path, i))
    decreases |path| - i
  {
    if i + 1 < |path| && path[i + 1] != '/' {
      FoundIsRun(path, i + 1);
    }
  }

  lemma {:induction false} SegsAreListed(path: string, i: nat)
    requires i <= |path|
    ensures Listed(path, i, Segs(path, i))
    decreases |path| - i
  {
    var b := SkipSeparators(path, i);
    SkippedIsGap(path, i);
    if b < |path| {
      var e := FindStop(path, b);
      FoundIsRun(path, b);
      SegsAreListed(path, e);
      var rest, segs := Segs(path, e), Segs(path, i);
      assert segs == [Seg(b, e - b)] + rest;
      forall k: nat | k <= |segs| ensures GapAt(path, i, segs, k) {
        if k > 0 {
          var j: nat := k - 1;
          assert GapAt(path, e, rest, j);
          assert j > 0 ==> rest[j - 1] == segs[j];
          assert j < |rest| ==> rest[j] == segs[k];
          if j == 0 && rest != [] {
            assert Run(path, rest[0].begin, rest[0].End());
            assert path[rest[0].begin] != '/';
          }
        }
      }
    }
  }

  /** What follows segment k are the segments from its end on. */
  lemma {:induction false} SegsFrom(path: string, i: nat, k: nat)
    requires i <= |path| && k < |Segs(path, i)|
    ensures Segs(path, i)[k].End() <= |path| && Segs(path, i)[k].size > 0
    ensures Segs(path, i)[k + 1..] == Segs(path, Segs(path, i)[k].End())
    decreases |path| - i
  {
    var e := FindStop(path, SkipSeparators(path, i));
    var rest := Segs(path, e);
    assert Segs(path, i)[1..] == rest;
    if k > 0 {
      SegsFrom(path, e, k - 1);
      assert Segs(path, i)[k + 1..] == rest[k..];
    }
  }

  /** The root of an absolute path is a separator, so it does not matter whether it is skipped. */
  lemma {:induction false} RootIsSkipped(path: string)
    ensures RootLength(path) <= |path| && Segs(path, RootLength(path)) == Segs(path, 0)
  {
  }

  /** cwk_path_get_root_unix */
  function RootLength(path: string): (n: nat) { if IsSeparator(path, 0) then 1 else 0 }

  // ---- Scanning

  /** cwk_path_find_next_stop */
  method FindNextStop(path: string, c0: nat) returns (c: nat)
    requires IsPath(path) && c0 <= |path|
    ensures c == FindStop(path, c0)
  {
    c := c0;
    while CharAt(path, c) != NUL && !IsSeparator(path, c)
      invariant c0 <= c <= |path| && FindStop(path, c) == FindStop(path, c0)
      decreases |path| - c
    {
      c := c + 1;
    }
  }

  /** The position of a segment, and of the first character that may belong to one. */
  datatype Segment = Segment(segments: nat, begin: nat, size: nat) {
    function Extent(): Seg { Seg(begin, size) }
  }

  /** cwk_path_get_first_segment_without_root */
  method FirstSegmentWithoutRoot(path: string, segments: nat) returns (found: bool, segment: Segment)
    requires IsPath(path) && segments <= |path|
    ensures found <==> Segs(path, segments) != []
    ensures segment.segments == segments
    ensures found ==> segment.Extent() == Segs(path, segments)[0]
  {
    segment := Segment(segments, segments, 0);
    found := false;
    if CharAt(path, segments) == NUL {
      return;
    }
    var c := segments;
    while IsSeparator(path, c)
      invariant segments <= c < |path| && SkipSeparators(path, c) == SkipSeparators(path, segments)
      decreases |path| - c
    {
      c := c + 1;
      if CharAt(path, c) == NUL {
        return;
      }
    }
    var end := FindNextStop(path, c);
    segment := Segment(segments, c, end - c);
    found := true;
  }

  /** cwk_path_get_first_segment */
  method FirstSegment(path: string) returns (found: bool, segment: Segment)
    requires IsPath(path)
    ensures found <==> Segs(path, 0) != []
    ensures segment.segments == RootLength(path)
    ensures found ==> segment.Extent() == Segs(path, 0)[0]
  {
    RootIsSkipped(path);
    found, segment := FirstSegmentWithoutRoot(path, RootLength(path));
  }

  /** Segment k of the path, counted from where its segments may begin. */
  predicate IsSegment(path: string, s: Segment, k: nat) {
    s.segments <= |path| && k < |Segs(path, s.segments)| && s.Extent() == Segs(path, s.segments)[k]
  }

  /** cwk_path_get_next_segment; without another segment it changes nothing. */
  method NextSegment(path: string, s: Segment, ghost k: nat) returns (found: bool, next: Segment)
    requires IsPath(path) && IsSegment(path, s, k)
    ensures found <==> k + 1 < |Segs(path, s.segments)|
    ensures next.segments == s.segments
    ensures if found then IsSegment(path, next, k + 1) else next == s
  {
    NextBegins(path, s, k);
    next := s;
    var c := s.begin + s.size;
    if CharAt(path, c) == NUL {
      return false, s;
    }
    c := c + 1;
    while IsSeparator(path, c)
      invariant s.begin + s.size < c <= |path|
      invariant SkipSeparators(path, c) == SkipSeparators(path, s.begin + s.size)
      decreases |path| - c
    {
      c := c + 1;
    }
    if CharAt(path, c) == NUL {
      return false, s;
    }
    var end := FindNextStop(path, c);
    next := Segment(s.segments, c, end - c);
    found := true;
  }

  /** Behind a segment there is a separator or the end of the path. */
  lemma {:induction false} NextBegins(path: string, s: Segment, k: nat)
    requires IsSegment(path, s, k)
    ensures var e := s.begin + s.size;
            && e <= |path| && (e < |path| ==> IsSeparator(path, e))
            && (Segs(path, e) != [] <==> k + 1 < |Segs(path, s.segments)|)
            && (Segs(path, e) != [] ==> Segs(path, s.segments)[k + 1] == Segs(path, e)[0])
            && (e < |path| ==> SkipSeparators(path, e) == SkipSeparators(path, e + 1))
  {
    var segs, e := Segs(path, s.segments), s.begin + s.size;
    SegsFrom(path, s.segments, k);
    SegsAreListed(path, s.segments);
    assert segs[k + 1..] == Segs(path, e);
    assert GapAt(path, s.segments, segs, k + 1);
  }

  /** cwk_path_get_last_segment_without_root, from the first segment on */
  method LastSegmentFrom(path: string, first: Segment) returns (last: Segment)
    requires IsPath(path) && IsSegment(path, first, 0)
    ensures last.segments == first.segments && IsSegment(path, last, |Segs(path, first.segments)| - 1)
  {
    last := first;
    ghost var k := 0;
    var more := true;
    while more
      invariant last.segments == first.segments && k < |Segs(path, first.segments)| && IsSegment(path, last, k)
      invariant !more ==> k == |Segs(path, first.segments)| - 1
      decreases more, |Segs(path, first.segments)| - k
    {
      more, last := NextSegment(path, last, k);
      k := if more then k + 1 else k;
    }
  }

  /** cwk_path_find_previous_stop */
  method FindPreviousStop(path: string, begin: nat, c0: nat) returns (stop: nat)
    requires begin <= c0 < |path| && path[c0] != '/'
    ensures begin <= stop <= c0 && Run(path, stop, c0 + 1)
    ensures stop == begin || path[stop - 1] == '/'
  {
    var c := c0;
    while c > begin && !IsSeparator(path, c)
      invariant begin <= c <= c0
      invariant forall i: nat {:trigger path[i]} :: c < i <= c0 ==> path[i] != '/'
      decreases c
    {
      c := c - 1;
    }
    stop := if IsSeparator(path, c) then c + 1 else c;
  }

  /** cwk_path_get_previous_segment */
  method PreviousSegment(path: string, s: Segment, ghost k: nat) returns (found: bool, previous: Segment)
    requires IsPath(path) && IsSegment(path, s, k)
    ensures found <==> k > 0
    ensures previous.segments == s.segments
    ensures if found then IsSegment(path, previous, k - 1) else previous == s
  {
    BeginsBefore(path, s, k);
    FirstIsBehind(path, s, k);
    var c := s.begin;
    if c <= s.segments {
      NoneBefore(path, s, k);
      return false, s;
    }
    var more := true;
    while more
      invariant s.segments <= c <= s.begin
      invariant forall i: nat {:trigger path[i]} :: c + (if more then 0 else 1) <= i < s.begin ==> path[i] == '/'
      invariant !more ==> c < s.begin && path[c] != '/'
      decreases more, c
    {
      if c == s.segments {
        NoneBefore(path, s, k);
        return false, s;
      }
      c := c - 1;
      more := IsSeparator(path, c);
    }
    var begin := FindPreviousStop(path, s.segments, c);
    previous := Segment(s.segments, begin, c + 1 - begin);
    PreviousIs(path, s, k, c, begin);
    found := true;
  }

  lemma {:induction false} FirstIsBehind(path: string, s: Segment, k: nat)
    requires IsSegment(path, s, k)
    ensures s.segments <= s.begin
  {
    SegsAreListed(path, s.segments);
    SegBounds(path, s.segments, Segs(path, s.segments), k);
  }

  /** With nothing but separators in front of it, a segment is the first. */
  lemma {:induction false} NoneBefore(path: string, s: Segment, k: nat)
    requires IsSegment(path, s, k) && s.begin <= |path|
    requires forall i: nat {:trigger path[i]} :: s.segments <= i < s.begin ==> path[i] == '/'
    ensures k == 0
  {
    BeginsBefore(path, s, k);
  }

  lemma {:induction false} BeginsBefore(path: string, s: Segment, k: nat)
    requires IsSegment(path, s, k)
    ensures s.begin <= |path|
    ensures k > 0 ==>
              var p := Segs(path, s.segments)[k - 1].begin; s.segments <= p < s.begin && path[p] != '/'
  {
    var segs := Segs(path, s.segments);
    SegsAreListed(path, s.segments);
    SegBounds(path, s.segments, segs, k);
    if k > 0 {
      SegBounds(path, s.segments, segs, k - 1);
      assert Run(path, segs[k - 1].begin, segs[k - 1].End());
    }
  }

  lemma {:induction false} SegBounds(path: string, from: nat, segs: seq<Seg>, k: nat)
    requires Listed(path, from, segs) && k < |segs|
    ensures from <= segs[k].begin < segs[k].End() <= |path|
    ensures k + 1 < |segs| ==> segs[k].End() < segs[k + 1].begin
    decreases k
  {
    assert GapAt(path, from, segs, k) && GapAt(path, from, segs, k + 1);
    assert Run(path, segs[k].begin, segs[k].End());
    if k > 0 {
      SegBounds(path, from, segs, k - 1);
    }
  }

  /** The run of characters found in front of a segment is the segment before it. */
  lemma {:induction false} PreviousIs(path: string, s: Segment, k: nat, c: nat, begin: nat)
    requires IsSegment(path, s, k) && s.segments <= begin <= c < s.begin <= |path|
    requires forall i: nat {:trigger path[i]} :: c < i < s.begin ==> path[i] == '/'
    requires Run(path, begin, c + 1) && (begin == s.segments || path[begin - 1] == '/')
    ensures k > 0 && Segs(path, s.segments)[k - 1] == Seg(begin, c + 1 - begin)
  {
    var segs := Segs(path, s.segments);
    SegsAreListed(path, s.segments);
    assert GapAt(path, s.segments, segs, k);
    assert path[c] != '/';
    assert k > 0;
    var p := segs[k - 1];
    SegBounds(path, s.segments, segs, k - 1);
    assert Run(path, p.begin, p.End());
    assert GapAt(path, s.segments, segs, k - 1);
    assert path[p.End() - 1] != '/';
    assert p.End() == c + 1;
    assert path[p.begin] != '/';
    assert p.begin > s.segments ==> path[p.begin - 1] == '/';
  }
}
