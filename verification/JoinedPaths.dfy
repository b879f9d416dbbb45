/** Several paths read as one: the joined segment iterator of cwalk.c as a cursor into one list of
    segments, and the two scans that decide whether a segment is kept. */
module JoinedPaths {
  import opened PathSegments
  import opened PathResolve

  /** At least one path; the end of the list is the NULL of the program. */
  type Paths = p: seq<string> | |p| > 0 && forall i: nat {:trigger p[i]} :: i < |p| ==> IsPath(p[i])
    witness [""]

  /** A segment and the path it belongs to. */
  datatype Place = Place(path: nat, seg: Seg)

  function Tagged(path: nat, segs: seq<Seg>): (places: seq<Place>) {
    seq(|segs|, (j: nat) requires j < |segs| => Place(path, segs[j]))
  }

  /** The segments of the first n paths. */
  function PlacesUpTo(paths: Paths, n: nat): (places: seq<Place>)
    requires n <= |paths|
    decreases n
  {
    if n == 0 then [] else PlacesUpTo(paths, n - 1) + Tagged(n - 1, Segs(paths[n - 1], 0))
  }

  function Places(paths: Paths): seq<Place> { PlacesUpTo(paths, |paths|) }

  /** How many segments come before path p. */
  function Offset(paths: Paths, p: nat): nat
    requires p <= |paths|
  {
    |PlacesUpTo(paths, p)|
  }

  lemma {:induction false} OffsetStep(paths: Paths, p: nat)
    requires p < |paths|
    ensures Offset(paths, p + 1) == Offset(paths, p) + |Segs(paths[p], 0)|
  {
  }

  lemma {:induction false} PlacesPrefix(paths: Paths, p: nat, n: nat)
    requires p <= n <= |paths|
    ensures Offset(paths, p) <= Offset(paths, n)
    ensures PlacesUpTo(paths, n)[..Offset(paths, p)] == PlacesUpTo(paths, p)
    decreases n
  {
    if p < n {
      PlacesPrefix(paths, p, n - 1);
    }
  }

  /** Segment j of path p in the joined list. */
  lemma {:induction false} PlaceOf(paths: Paths, p: nat, j: nat)
    requires p < |paths| && j < |Segs(paths[p], 0)|
    ensures Offset(paths, p) + j < |Places(paths)|
    ensures Places(paths)[Offset(paths, p) + j] == Place(p, Segs(paths[p], 0)[j])
  {
    PlacesPrefix(paths, p + 1, |paths|);
    OffsetStep(paths, p);
    assert PlacesUpTo(paths, p + 1)[Offset(paths, p) + j] == Place(p, Segs(paths[p], 0)[j]);
    assert Places(paths)[..Offset(paths, p + 1)][Offset(paths, p) + j] == Places(paths)[Offset(paths, p) + j];
  }

  // ---- The cursor

  /** struct cwk_segment_joined */
  datatype Cursor = Cursor(index: nat, segment: Segment)

  /** The cursor stands at segment k of the joined list, segment j of its own path. */
  predicate Stands(paths: Paths, c: Cursor, k: nat, j: nat) {
    && c.index < |paths|
    && (c.segment.segments == 0 || c.segment.segments == RootLength(paths[c.index]))
    && IsSegment(paths[c.index], c.segment, j) && k == Offset(paths, c.index) + j
  }

  ghost predicate At(paths: Paths, c: Cursor, k: nat) {
    exists j: nat :: Stands(paths, c, k, j)
  }

  lemma {:induction false} StandsIn(paths: Paths, c: Cursor, k: nat, j: nat)
    requires Stands(paths, c, k, j)
    ensures Segs(paths[c.index], c.segment.segments) == Segs(paths[c.index], 0)
    ensures k < |Places(paths)| && Places(paths)[k] == Place(c.index, c.segment.Extent())
  {
    RootIsSkipped(paths[c.index]);
    PlaceOf(paths, c.index, j);
  }

  /** cwk_path_get_first_segment_joined */
  method FirstJoined(paths: Paths) returns (found: bool, c: Cursor)
    ensures found <==> Places(paths) != []
    ensures found ==> At(paths, c, 0)
  {
    found := false;
    var index: nat := 0;
    var segment := Segment(0, 0, 0);
    while index < |paths| && !found
      invariant index <= |paths| && Offset(paths, index) == 0
      invariant found ==> index < |paths| && Stands(paths, Cursor(index, segment), 0, 0)
      decreases !found, |paths| - index
    {
      found, segment := FirstSegment(paths[index]);
      RootIsSkipped(paths[index]);
      if !found {
        OffsetStep(paths, index);
        index := index + 1;
      }
    }
    c := Cursor(index, segment);
    if found {
      StandsIn(paths, c, 0, 0);
    }
  }

  /** cwk_path_get_next_segment_joined, while the cursor stands at a segment */
  method NextJoined(paths: Paths, c: Cursor, ghost k: nat) returns (found: bool, next: Cursor)
    requires At(paths, c, k)
    ensures found <==> k + 1 < |Places(paths)|
    ensures found ==> At(paths, next, k + 1)
  {
    ghost var j: nat :| Stands(paths, c, k, j);
    StandsIn(paths, c, k, j);
    var segment;
    found, segment := NextSegment(paths[c.index], c.segment, j);
    next := Cursor(c.index, segment);
    if found {
      assert Stands(paths, next, k + 1, j + 1);
      StandsIn(paths, next, k + 1, j + 1);
      return;
    }
    OffsetStep(paths, c.index);
    found, next := NextPath(paths, c.index + 1, segment, k + 1);
  }

  /** The loop behind that: the first segment of the paths from index on. */
  method NextPath(paths: Paths, index0: nat, segment0: Segment, ghost k: nat) returns (found: bool, next: Cursor)
    requires index0 <= |paths| && Offset(paths, index0) == k
    ensures found <==> k < |Places(paths)|
    ensures found ==> At(paths, next, k)
  {
    found := false;
    var index: nat, segment := index0, segment0;
    while index < |paths| && !found
      invariant index <= |paths| && Offset(paths, index) == k
      invariant found ==> index < |paths| && Stands(paths, Cursor(index, segment), k, 0)
      decreases !found, |paths| - index
    {
      found, segment := FirstSegmentWithoutRoot(paths[index], 0);
      if !found {
        OffsetStep(paths, index);
        index := index + 1;
      }
    }
    next := Cursor(index, segment);
    if found {
      StandsIn(paths, next, k, 0);
    }
  }

  /** cwk_path_get_previous_segment_joined */
  method PreviousJoined(paths: Paths, c: Cursor, ghost k: nat) returns (found: bool, previous: Cursor)
    requires At(paths, c, k)
    ensures found <==> k > 0
    ensures found ==> At(paths, previous, k - 1)
  {
    ghost var j: nat :| Stands(paths, c, k, j);
    var segment;
    found, segment := PreviousSegment(paths[c.index], c.segment, j);
    previous := Cursor(c.index, segment);
    if found {
      assert Stands(paths, previous, k - 1, j - 1);
      return;
    }
    found, previous := PreviousPath(paths, c.index, segment, k);
  }

  /** The loop behind that: the last segment of the paths before index. */
  method PreviousPath(paths: Paths, index0: nat, segment0: Segment, ghost k: nat)
          returns (found: bool, previous: Cursor)
    requires index0 < |paths| && Offset(paths, index0) == k
    ensures found <==> k > 0
    ensures found ==> At(paths, previous, k - 1)
  {
    found := false;
    var index: nat, segment := index0, segment0;
    while index > 0 && !found
      invariant index < |paths|
      invariant if found then k > 0 && At(paths, Cursor(index, segment), k - 1) else Offset(paths, index) == k
      decreases !found, index
    {
      index := index - 1;
      OffsetStep(paths, index);
      found, segment := LastOfPath(paths, index, k);
    }
    previous := Cursor(index, segment);
  }

  /** cwk_path_get_last_segment for the first path, and without_root for any other */
  method LastOfPath(paths: Paths, index: nat, ghost k: nat) returns (found: bool, segment: Segment)
    requires index < |paths| && Offset(paths, index + 1) == k
    ensures found <==> Segs(paths[index], 0) != []
    ensures found ==> k > 0 && At(paths, Cursor(index, segment), k - 1)
  {
    if index == 0 {
      found, segment := FirstSegment(paths[index]);
    } else {
      found, segment := FirstSegmentWithoutRoot(paths[index], 0);
    }
    RootIsSkipped(paths[index]);
    if found {
      segment := LastSegmentFrom(paths[index], segment);
      OffsetStep(paths, index);
      assert Stands(paths, Cursor(index, segment), k - 1, |Segs(paths[index], 0)| - 1);
    }
  }

  // ---- Types

  /** The text of a segment. */
  function NameOf(paths: Paths, place: Place): (name: string)
    requires InPath(paths, place)
  {
    paths[place.path][place.seg.begin..place.seg.End()]
  }

  function TypeOf(name: string): SegType {
    if name == "." then Current else if name == ".." then Back else Normal
  }

  /** The segment lies in its path and is not empty. */
  predicate InPath(paths: Paths, place: Place) {
    place.path < |paths| && place.seg.size > 0 && place.seg.End() <= |paths[place.path]|
  }

  lemma {:induction false} PlacesInPaths(paths: Paths, n: nat)
    requires n <= |paths|
    ensures forall k: nat {:trigger InPath(paths, PlacesUpTo(paths, n)[k])} :: k < Offset(paths, n) ==>
              InPath(paths, PlacesUpTo(paths, n)[k])
    decreases n
  {
    if n > 0 {
      PlacesInPaths(paths, n - 1);
      var before, segs := PlacesUpTo(paths, n - 1), Segs(paths[n - 1], 0);
      forall k: nat | k < Offset(paths, n) ensures InPath(paths, PlacesUpTo(paths, n)[k]) {
        if k < |before| {
          assert InPath(paths, before[k]);
        } else {
          SegsFrom(paths[n - 1], 0, k - |before|);
        }
      }
    }
  }

  /** The names of all segments. */
  function Names(paths: Paths): (names: seq<string>)
    ensures |names| == |Places(paths)|
  {
    PlacesInPaths(paths, |paths|);
    var places := Places(paths);
    seq(|places|, (k: nat) requires k < |places| => NameOf(paths, places[k]))
  }

  function TypesOf(names: seq<string>): (ts: Types)
    ensures |ts| == |names|
  {
    seq(|names|, (k: nat) requires k < |names| => TypeOf(names[k]))
  }

  /** strncmp(path + begin, literal, size) == 0 */
  predicate SameChars(path: string, begin: nat, literal: string, i: nat, size: nat)
    decreases size - i
  {
    i >= size
    || (CharAt(path, begin + i) == CharAt(literal, i)
        && (CharAt(literal, i) == NUL || SameChars(path, begin, literal, i + 1, size)))
  }

  lemma {:induction false} SameCharsIs(path: string, begin: nat, literal: string, i: nat, size: nat)
    requires IsPath(path) && IsPath(literal) && begin + size <= |path| && i <= size && i <= |literal|
    ensures SameChars(path, begin, literal, i, size) <==>
              size <= |literal| && forall k: nat :: i <= k < size ==> path[begin + k] == literal[k]
    decreases size - i
  {
    if i < size {
      assert path[begin + i] in path;
      if i < |literal| {
        assert literal[i] in literal;
        SameCharsIs(path, begin, literal, i + 1, size);
      }
    }
  }

  /** cwk_path_get_segment_type: the comparison stops at the segment's size, yet only the very
      segments "." and ".." are special. */
  method SegmentType(path: string, s: Segment) returns (t: SegType)
    requires IsPath(path) && s.size > 0 && s.begin + s.size <= |path|
    ensures t == TypeOf(path[s.begin..s.begin + s.size])
    ensures t.Current? <==> path[s.begin..s.begin + s.size] == "."
    ensures t.Back? <==> path[s.begin..s.begin + s.size] == ".."
  {
    SpecialNames(path, s.begin, s.size);
    if SameChars(path, s.begin, ".", 0, s.size) {
      return Current;
    } else if SameChars(path, s.begin, "..", 0, s.size) {
      return Back;
    }
    return Normal;
  }

  lemma {:induction false} SpecialNames(path: string, begin: nat, size: nat)
    requires IsPath(path) && size > 0 && begin + size <= |path|
    ensures var name := path[begin..begin + size];
            && (SameChars(path, begin, ".", 0, size) <==> name == ".")
            && (SameChars(path, begin, "..", 0, size) <==> name == "." || name == "..")
  {
    var name := path[begin..begin + size];
    SameCharsIs(path, begin, ".", 0, size);
    SameCharsIs(path, begin, "..", 0, size);
    assert forall k: nat :: k < size ==> path[begin + k] == name[k];
  }

  method TypeHere(paths: Paths, c: Cursor, ghost k: nat) returns (t: SegType)
    requires At(paths, c, k)
    ensures k < |Names(paths)| && t == TypesOf(Names(paths))[k]
  {
    ghost var j: nat :| Stands(paths, c, k, j);
    StandsIn(paths, c, k, j);
    PlacesInPaths(paths, |paths|);
    assert InPath(paths, Places(paths)[k]);
    assert Names(paths)[k] == paths[c.index][c.segment.begin..c.segment.begin + c.segment.size];
    t := SegmentType(paths[c.index], c.segment);
  }

  // ---- The scans

  /** cwk_path_segment_back_will_be_removed */
  method BackWillBeRemoved(paths: Paths, c0: Cursor, ghost k: nat) returns (removed: bool)
    requires At(paths, c0, k) && k < |Names(paths)|
    ensures removed <==> !NeverAhead(TypesOf(Names(paths)), k)
  {
    hide At, Names;
    ghost var ts := TypesOf(Names(paths));
    var c, counter := c0, 0;
    ghost var i: nat := k;
    var more := true;
    while more
      invariant i <= k && counter == Balance(ts, i, k)
      invariant forall j: nat {:trigger Balance(ts, j, k)} :: i <= j <= k ==> Balance(ts, j, k) <= 0
      invariant if more then At(paths, c, i) else i == 0
      decreases more, i
    {
      more, c := PreviousJoined(paths, c, i);
      if more {
        i := i - 1;
        var t := TypeHere(paths, c, i);
        BalanceLeft(ts, i, k);
        if t.Normal? {
          counter := counter + 1;
          if counter > 0 {
            return true;
          }
        } else if t.Back? {
          counter := counter - 1;
        }
      }
    }
    return false;
  }

  /** cwk_path_segment_normal_will_be_removed */
  method NormalWillBeRemoved(paths: Paths, c0: Cursor, ghost k: nat) returns (removed: bool)
    requires At(paths, c0, k) && k < |Names(paths)| == |Places(paths)|
    ensures removed <==> !NeverBelow(TypesOf(Names(paths)), k, |Names(paths)|)
  {
    hide At, Names;
    ghost var ts := TypesOf(Names(paths));
    var c, counter := c0, 0;
    ghost var i: nat := k;
    var more := true;
    while more
      invariant k <= i < |ts| && counter == Balance(ts, k + 1, i + 1)
      invariant forall j: nat {:trigger Balance(ts, k + 1, j)} :: k < j <= i + 1 ==> Balance(ts, k + 1, j) >= 0
      invariant if more then At(paths, c, i) else i + 1 == |ts|
      decreases more, |ts| - i
    {
      more, c := NextJoined(paths, c, i);
      if more {
        i := i + 1;
        var t := TypeHere(paths, c, i);
        if t.Normal? {
          counter := counter + 1;
        } else if t.Back? {
          counter := counter - 1;
          if counter < 0 {
            assert Balance(ts, k + 1, i + 1) < 0;
            return true;
          }
        }
      }
    }
    return false;
  }

  /** cwk_path_segment_will_be_removed */
  method WillBeRemoved(paths: Paths, c: Cursor, absolute: bool, ghost k: nat) returns (removed: bool)
    requires At(paths, c, k) && k < |Names(paths)| == |Places(paths)|
    ensures removed <==> !Kept(TypesOf(Names(paths)), absolute, k)
  {
    hide At, Names, NeverAhead, NeverBelow;
    var t := TypeHere(paths, c, k);
    if t.Current? || (t.Back? && absolute) {
      return true;
    } else if t.Back? {
      removed := BackWillBeRemoved(paths, c, k);
    } else {
      removed := NormalWillBeRemoved(paths, c, k);
    }
  }
}
