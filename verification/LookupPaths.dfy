/** The path prefixes a lookup tries. */
module LookupPaths {
  import opened Bytes
  import opened PercentEncoding
  import opened PathSegments
  import opened CanonPath

  const MAX_PATH_COMPONENTS: nat := 4

  /** The non-empty segments of a path. */
  function Components(path: bytes): seq<bytes> {
    NonEmpty(Split(path, SLASH))
  }

  /** Directory prefixes of `i` up to (not including) `n` components. */
  function Directories(comps: seq<bytes>, i: nat, n: nat): seq<bytes>
    requires n <= |comps|
    decreases n - i
  {
    if i < n then [Render(comps[..i], true)] + Directories(comps, i + 1, n) else []
  }

  function WithQuery(path: bytes, query: bytes): bytes {
    if query == [] then path else path + [QUESTION] + query
  }

  function PathsOf(path: bytes, query: bytes): seq<bytes> {
    var comps := Components(path);
    [[SLASH]] + Directories(comps, 1, Min(|comps|, MAX_PATH_COMPONENTS))
    + (if path != [SLASH] then [path] else [])
    + (if query != [] then [WithQuery(path, query)] else [])
  }

  method GenerateLookupPaths(path: bytes, query: bytes) returns (paths: seq<bytes>)
    ensures paths == PathsOf(path, query)
  {
    paths := [[SLASH]];
    var parts := Split(path, SLASH);
    var components := [];
    for k := 0 to |parts|
      invariant components + NonEmpty(parts[k..]) == Components(path)
    {
      assert parts[k..][1..] == parts[k + 1..];
      ConcatAssociates(components, [parts[k]], NonEmpty(parts[k + 1..]));
      if parts[k] != [] {
        components := components + [parts[k]];
      }
    }
    assert components == Components(path);
    var n := |components|;
    if n > MAX_PATH_COMPONENTS {
      n := MAX_PATH_COMPONENTS;
    }
    var i := 1;
    while i < n
      invariant paths + Directories(components, i, n) == [[SLASH]] + Directories(components, 1, n)
    {
      ConcatAssociates(paths, [Render(components[..i], true)], Directories(components, i + 1, n));
      paths := paths + [[SLASH] + Join(components[..i], SLASH) + [SLASH]];
      i := i + 1;
    }
    if path != [SLASH] {
      paths := paths + [path];
    }
    if |query| > 0 {
      paths := paths + [path + [QUESTION] + query];
    }
  }

  // --- Slashed segment lists ---

  /** "/a/b": every segment behind its slash. */
  function Slashed(segs: segments): bytes
    decreases |segs|
  {
    if segs == [] then [] else [SLASH] + segs[0] + Slashed(segs[1..])
  }

  lemma {:induction false} RenderIsSlashed(segs: segments)
    ensures segs != [] ==> Render(segs, false) == Slashed(segs)
    ensures Render(segs, true) == Slashed(segs) + [SLASH]
    decreases |segs|
  {
    if |segs| >= 2 {
      RenderIsSlashed(segs[1..]);
      assert Join(segs, SLASH) == segs[0] + Slashed(segs[1..]);
    } else if |segs| == 1 {
      assert Slashed(segs[1..]) == [];
    }
  }

  lemma {:induction false} SlashedConcat(a: segments, b: segments)
    ensures Slashed(a + b) == Slashed(a) + Slashed(b)
    decreases |a|
  {
    if a == [] {
      assert a + b == b;
    } else {
      assert (a + b)[1..] == a[1..] + b;
      SlashedConcat(a[1..], b);
    }
  }

  /** A prefix that ends on a slash cuts between segments. */
  lemma {:induction false} DirectoryPrefix(segs: segments, tail: bytes, x: bytes) returns (i: nat)
    requires PathSegs(segs)
    requires tail == [] || tail == [SLASH]
    requires x != [] && x[|x| - 1] == SLASH && x <= Slashed(segs) + tail
    ensures i <= |segs| && x == Slashed(segs[..i]) + [SLASH]
    decreases |segs|
  {
    var whole := Slashed(segs) + tail;
    if |x| == 1 || segs == [] {
      assert x[0] == whole[0];
      i := 0;
    } else {
      var first, rest := segs[0], Slashed(segs[1..]) + tail;
      assert first in segs;
      TailMembers(segs);
      ConcatAssociates([SLASH] + first, Slashed(segs[1..]), tail);
      var y := BeyondFirstSegment(first, rest, x);
      var j := DirectoryPrefix(segs[1..], tail, y);
      i := j + 1;
      assert segs[..i][1..] == segs[1..][..j];
      ConcatAssociates([SLASH] + first, Slashed(segs[1..][..j]), [SLASH]);
    }
  }

  /** A prefix longer than one byte that ends on a slash goes past the first segment. */
  lemma BeyondFirstSegment(first: bytes, rest: bytes, x: bytes) returns (y: bytes)
    requires SLASH !in first && |x| > 1 && x[|x| - 1] == SLASH
    requires x <= [SLASH] + first + rest
    ensures x == [SLASH] + first + y && y <= rest && y != [] && y[|y| - 1] == SLASH
  {
    var whole := [SLASH] + first + rest;
    assert forall k :: 0 <= k < |first| ==> whole[k + 1] == first[k] && first[k] in first;
    y := x[1 + |first|..];
    assert x == whole[..|x|];
    assert y == rest[..|y|];
  }

  // --- Canonical paths ---

  /** What a canonical path is made of once encoded: slash-free non-empty segments. */
  ghost predicate PathSegs(segs: segments) {
    forall s :: s in segs ==> s != [] && SLASH !in s && QUESTION !in s
  }

  lemma {:induction false} NonEmptyKeeps(segs: segments, more: segments)
    requires PathSegs(segs)
    ensures NonEmpty(segs + more) == segs + NonEmpty(more)
    decreases |segs|
  {
    if segs == [] {
      assert segs + more == more;
    } else {
      assert segs[0] in segs;
      TailMembers(segs);
      assert (segs + more)[1..] == segs[1..] + more;
      NonEmptyKeeps(segs[1..], more);
      assert segs == [segs[0]] + segs[1..];
      ConcatAssociates([segs[0]], segs[1..], NonEmpty(more));
    }
  }

  lemma ComponentsOfRender(segs: segments, dir: bool)
    requires PathSegs(segs)
    ensures Components(Render(segs, dir)) == segs
  {
    var path := Render(segs, dir);
    SplitRender(segs, dir);
    assert [] + [SLASH] + path[1..] == path;
    SplitConcat([], path[1..], SLASH);
    NonEmptyKeeps(segs, []);
    NonEmptyKeeps(segs, [[]]);
    assert segs + [] == segs;
    assert NonEmpty([[]]) == [] by {
      var one: segments := [[]];
      assert one[1..] == [];
    }
    var parts := Split(path, SLASH);
    assert parts == [[]] + Split(path[1..], SLASH);
    assert parts[1..] == Split(path[1..], SLASH);
  }

  function EncodedSegments(segs: segments): (es: segments)
    ensures |es| == |segs|
    decreases |segs|
  {
    if segs == [] then [] else [EscapePath(segs[0])] + EncodedSegments(segs[1..])
  }

  lemma {:induction false} EncodedPrefix(segs: segments, i: nat)
    requires i <= |segs|
    ensures EncodedSegments(segs)[..i] == EncodedSegments(segs[..i])
    decreases |segs|
  {
    if i > 0 {
      EncodedPrefix(segs[1..], i - 1);
      assert segs[..i][1..] == segs[1..][..i - 1];
    }
  }

  lemma {:induction false} EncodedSegmentsArePathSegs(segs: segments)
    requires PlainSegments(segs)
    ensures PathSegs(EncodedSegments(segs))
    decreases |segs|
  {
    if segs != [] {
      assert segs[0] in segs;
      EscapedBytes(segs[0], PATH_EXTRA);
      assert QUESTION !in EscapePath(segs[0]);
      EncodedSegmentsArePathSegs(segs[1..]);
    }
  }

  lemma {:induction false} EscapeSlashed(segs: segments)
    ensures EscapePath(Slashed(segs)) == Slashed(EncodedSegments(segs))
    decreases |segs|
  {
    if segs != [] {
      EscapeSlashed(segs[1..]);
      EscapeConcat([SLASH] + segs[0], Slashed(segs[1..]), PATH_EXTRA);
      EscapeConcat([SLASH], segs[0], PATH_EXTRA);
      EscapeSlash();
    }
  }

  lemma EscapeSlash()
    ensures EscapePath([SLASH]) == [SLASH]
  {
    var one: bytes := [SLASH];
    assert !MustEscape(SLASH, PATH_EXTRA);
    assert one[1..] == [] && Escape(one[1..], PATH_EXTRA) == [];
  }

  /** Encoding a rendered path encodes its segments. */
  lemma EscapeRender(segs: segments, dir: bool)
    ensures EscapePath(Render(segs, dir)) == Render(EncodedSegments(segs), dir)
  {
    var es := EncodedSegments(segs);
    RenderIsSlashed(segs);
    RenderIsSlashed(es);
    EscapeSlashed(segs);
    EscapeSlash();
    if segs == [] {
      assert Render(segs, dir) == [SLASH] == Render(es, dir);
    } else if dir {
      EscapeConcat(Slashed(segs), [SLASH], PATH_EXTRA);
    }
  }

  /** A canonical path, segment by segment, before and after encoding. */
  lemma CanonicalSegments(p: bytes) returns (segs: segments, dir: bool)
    requires IsCanonicalPath(p)
    ensures PlainSegments(segs) && PathSegs(EncodedSegments(segs))
    ensures p == Render(EncodedSegments(segs), dir) && Components(p) == EncodedSegments(segs)
  {
    segs, dir := CanonicalIsRendered(p);
    EncodedSegmentsArePathSegs(segs);
    EscapeRender(segs, dir);
    ComponentsOfRender(EncodedSegments(segs), dir);
  }

  lemma CanonicalPathBytes(p: bytes)
    requires IsCanonicalPath(p)
    ensures p != [] && p[0] == SLASH && QUESTION !in p
  {
    var segs, dir := CanonicalIsRendered(p);
    EscapedBytes(Render(segs, dir), PATH_EXTRA);
    EscapeRender(segs, dir);
  }

  // --- Which paths are tried ---

  /** A proper prefix that ends on a slash. */
  predicate IsDirectoryOf(c: bytes, path: bytes) {
    c < path && c != [] && c[|c| - 1] == SLASH
  }

  /** The paths, without a query, whose entries cover `path`: the root, the path itself, and
      its proper directory prefixes of at most three components. */
  predicate PathCovers(c: bytes, path: bytes) {
    || c == [SLASH]
    || c == path
    || (IsDirectoryOf(c, path) && |Components(c)| <= 3)
  }

  lemma {:induction false} DirectoriesAt(comps: seq<bytes>, i: nat, n: nat)
    requires n <= |comps|
    ensures |Directories(comps, i, n)| == if i < n then n - i else 0
    ensures forall k :: 0 <= k < |Directories(comps, i, n)| ==> Directories(comps, i, n)[k] == Render(comps[..i + k], true)
    decreases n - i
  {
    if i < n {
      DirectoriesAt(comps, i + 1, n);
      var rest := Directories(comps, i + 1, n);
      forall k | 0 <= k < |Directories(comps, i, n)|
        ensures Directories(comps, i, n)[k] == Render(comps[..i + k], true)
      {
        if k > 0 {
          assert Directories(comps, i, n)[k] == rest[k - 1];
        }
      }
    }
  }

  lemma SlashedGrows(segs: segments, i: nat, j: nat)
    requires PathSegs(segs) && i < j <= |segs|
    ensures Slashed(segs[..i]) + [SLASH] < Slashed(segs[..j])
  {
    var rest := segs[i..j];
    assert segs[..j] == segs[..i] + rest;
    SlashedConcat(segs[..i], rest);
    assert rest[0] == segs[i] && segs[i] in segs;
    assert Slashed(rest) == [SLASH] + rest[0] + Slashed(rest[1..]);
  }

  /** Directory prefixes grow with the number of components, and stay below the path. */
  lemma DirectoryGrows(segs: segments, i: nat, j: nat, dir: bool)
    requires PathSegs(segs) && i < j <= |segs|
    ensures Render(segs[..i], true) < Render(segs[..j], true)
    ensures Render(segs[..i], true) < Render(segs, dir)
  {
    RenderIsSlashed(segs[..i]);
    RenderIsSlashed(segs[..j]);
    RenderIsSlashed(segs);
    SlashedGrows(segs, i, j);
    SlashedGrows(segs, i, |segs|);
    assert segs[..|segs|] == segs;
  }

  lemma PrefixMembers(segs: segments, i: nat)
    requires i <= |segs|
    ensures forall s :: s in segs[..i] ==> s in segs
  {
  }

  /** A proper directory prefix of a path consists of some first segments of it. */
  lemma CoveringDirectory(segs: segments, dir: bool, c: bytes) returns (i: nat)
    requires PathSegs(segs) && IsDirectoryOf(c, Render(segs, dir))
    ensures i < |segs| && c == Render(segs[..i], true) && Components(c) == segs[..i]
  {
    RenderIsSlashed(segs);
    var tail := if dir || segs == [] then [SLASH] else [];
    assert Render(segs, dir) == Slashed(segs) + tail;
    i := DirectoryPrefix(segs, tail, c);
    RenderIsSlashed(segs[..i]);
    assert segs[..|segs|] == segs;
    PrefixMembers(segs, i);
    ComponentsOfRender(segs[..i], true);
  }

  /** One of the covering directories below the root. */
  predicate IsShortDirectory(c: bytes, path: bytes) {
    IsDirectoryOf(c, path) && c != [SLASH] && |Components(c)| < MAX_PATH_COMPONENTS
  }

  lemma DirectoryIsShort(comps: segments, dir: bool, k: nat)
    requires PathSegs(comps) && 1 <= k < Min(|comps|, MAX_PATH_COMPONENTS)
    ensures IsShortDirectory(Render(comps[..k], true), Render(comps, dir))
  {
    DirectoryGrows(comps, k, |comps|, dir);
    DirectoryGrows(comps, 0, k, dir);
    PrefixMembers(comps, k);
    ComponentsOfRender(comps[..k], true);
  }

  lemma DirectoryMembers(comps: segments, n: nat, c: bytes)
    requires n <= |comps|
    ensures c in Directories(comps, 1, n) <==> exists k: nat :: 1 <= k < n && c == Render(comps[..k], true)
  {
    var dirs := Directories(comps, 1, n);
    DirectoriesAt(comps, 1, n);
    forall k: nat | 1 <= k < n && c == Render(comps[..k], true)
      ensures c in dirs
    {
      assert dirs[k - 1] == c;
    }
  }

  lemma DirectoriesExact(comps: segments, dir: bool, c: bytes)
    requires PathSegs(comps)
    ensures c in Directories(comps, 1, Min(|comps|, MAX_PATH_COMPONENTS)) <==> IsShortDirectory(c, Render(comps, dir))
  {
    var n := Min(|comps|, MAX_PATH_COMPONENTS);
    DirectoryMembers(comps, n, c);
    forall k: nat | 1 <= k < n && c == Render(comps[..k], true)
      ensures IsShortDirectory(c, Render(comps, dir))
    {
      DirectoryIsShort(comps, dir, k);
    }
    if IsShortDirectory(c, Render(comps, dir)) {
      var k := ShortDirectoryAt(comps, dir, c);
    }
  }

  lemma ShortDirectoryAt(comps: segments, dir: bool, c: bytes) returns (k: nat)
    requires PathSegs(comps) && IsShortDirectory(c, Render(comps, dir))
    ensures 1 <= k < Min(|comps|, MAX_PATH_COMPONENTS) && c == Render(comps[..k], true)
  {
    k := CoveringDirectory(comps, dir, c);
    RootHasNoComponents(comps, k);
  }

  lemma RootHasNoComponents(comps: segments, i: nat)
    requires i <= |comps| && Render(comps[..i], true) != [SLASH]
    ensures i > 0
  {
    assert comps[..0] == [];
  }

  /** The generated paths are the covering ones, and the full path with its query. */
  lemma PathsExact(path: bytes, query: bytes, c: bytes)
    requires IsCanonicalPath(path)
    ensures c in PathsOf(path, query) <==> PathCovers(c, path) || (query != [] && c == WithQuery(path, query))
  {
    var segs, dir := CanonicalSegments(path);
    DirectoriesExact(EncodedSegments(segs), dir, c);
  }

  ghost predicate Lengthening(s: seq<bytes>) {
    forall i, j :: 0 <= i < j < |s| ==> |s[i]| < |s[j]|
  }

  lemma LengtheningAppend(s: seq<bytes>, x: bytes)
    requires Lengthening(s) && (s != [] ==> |s[|s| - 1]| < |x|)
    ensures Lengthening(s + [x])
  {
  }

  /** At most six paths, each longer than the one before it. */
  lemma PathsDistinct(path: bytes, query: bytes)
    requires IsCanonicalPath(path)
    ensures 1 <= |PathsOf(path, query)| <= 6 && Lengthening(PathsOf(path, query))
  {
    var segs, dir := CanonicalSegments(path);
    CanonicalPathBytes(path);
    PathsWithoutQuery(EncodedSegments(segs), dir, path);
    LengtheningByQuery(ShortPaths(EncodedSegments(segs), path), path, query);
  }

  /** The tried paths without the one with the query. */
  function ShortPaths(comps: seq<bytes>, path: bytes): seq<bytes> {
    [[SLASH]] + Directories(comps, 1, Min(|comps|, MAX_PATH_COMPONENTS)) + (if path != [SLASH] then [path] else [])
  }

  lemma PathsWithoutQuery(comps: segments, dir: bool, path: bytes)
    requires PathSegs(comps) && path == Render(comps, dir)
    ensures var paths := ShortPaths(comps, path);
            Lengthening(paths) && 1 <= |paths| <= 5 && |paths[|paths| - 1]| <= |path|
  {
    var n := Min(|comps|, MAX_PATH_COMPONENTS);
    var first := [[SLASH]] + Directories(comps, 1, n);
    RootAndDirectories(comps, n);
    if path != [SLASH] {
      assert comps != [];
      DirectoryGrows(comps, |first| - 1, |comps|, dir);
      LengtheningAppend(first, path);
    }
  }

  lemma LengtheningByQuery(s: seq<bytes>, path: bytes, query: bytes)
    requires Lengthening(s) && s != [] && |s[|s| - 1]| <= |path|
    ensures Lengthening(s + if query != [] then [WithQuery(path, query)] else [])
  {
    if query != [] {
      LengtheningAppend(s, WithQuery(path, query));
    }
  }

  lemma RootAndDirectories(comps: segments, n: nat)
    requires PathSegs(comps) && n == Min(|comps|, MAX_PATH_COMPONENTS)
    ensures var first := [[SLASH]] + Directories(comps, 1, n);
            && Lengthening(first) && |first| == (if n == 0 then 1 else n)
            && first[|first| - 1] == Render(comps[..|first| - 1], true)
  {
    var first := [[SLASH]] + Directories(comps, 1, n);
    DirectoriesAt(comps, 1, n);
    assert Render(comps[..0], true) == [SLASH];
    assert forall k :: 0 <= k < |first| ==> first[k] == Render(comps[..k], true);
    forall i, j | 0 <= i < j < |first|
      ensures |first[i]| < |first[j]|
    {
      DirectoryGrows(comps, i, j, true);
    }
  }

  /** Each tried path without the query is itself canonical. */
  lemma PathsAreCanonical(path: bytes, query: bytes, c: bytes)
    requires IsCanonicalPath(path) && c in PathsOf(path, query)
    ensures IsCanonicalPath(c) || (query != [] && c == WithQuery(path, query))
  {
    var segs, dir := CanonicalSegments(path);
    var comps := EncodedSegments(segs);
    var n := Min(|comps|, MAX_PATH_COMPONENTS);
    var dirs := Directories(comps, 1, n);
    DirectoriesAt(comps, 1, n);
    if c in dirs {
      var k :| 0 <= k < |dirs| && dirs[k] == c;
      DirectoryIsCanonical(segs, k + 1);
    } else if c == [SLASH] {
      assert comps[..0] == [];
      DirectoryIsCanonical(segs, 0);
    }
  }

  lemma DirectoryIsCanonical(segs: segments, i: nat)
    requires PlainSegments(segs) && i <= |EncodedSegments(segs)|
    ensures IsCanonicalPath(Render(EncodedSegments(segs)[..i], true))
  {
    EncodedPrefix(segs, i);
    EscapeRender(segs[..i], true);
    PrefixMembers(segs, i);
    RenderedIsCanonical(segs[..i], true);
  }
}
