/** Canonical paths: decoded until stable, cleaned segment by segment, encoded once. */
module CanonPath {
  import opened Bytes
  import opened PercentDecoding
  import opened PercentEncoding
  import opened PathSegments

  /** "/a/b", or "/a/b/" for a directory; the root is "/" either way. */
  function Render(segs: segments, dir: bool): bytes {
    [SLASH] + Join(segs, SLASH) + (if |segs| > 0 && dir then [SLASH] else [])
  }

  /** The segments after the leading slash, which is supplied when missing. */
  function PathSplit(p: bytes): (segs: segments)
    ensures |segs| >= 1
  {
    Split(if |p| > 0 && p[0] == SLASH then p[1..] else p, SLASH)
  }

  /** A decoded path with ".", ".." and empty segments resolved. */
  function CleanPath(p: bytes): bytes {
    var segs := PathSplit(p);
    Render(Resolve([], segs), !Ordinary(segs[|segs| - 1]))
  }

  function CanonicalPath(p: bytes): Option<bytes> {
    var q := RecursiveUnescape(p);
    if q.None? then None else Some(EscapePath(CleanPath(q.value)))
  }

  method CanonPathLoop(raw: bytes) returns (r: Option<bytes>)
    ensures r == CanonicalPath(raw)
  {
    var decoded := DecodeUntilStable(raw);
    if decoded.None? {
      return None;
    }
    var p := decoded.value;
    if !([SLASH] <= p) {
      p := [SLASH] + p;
    }
    var segs := Split(p[1..], SLASH);
    assert segs == PathSplit(decoded.value) by {
      if p != decoded.value {
        assert p[1..] == decoded.value;
      }
    }
    var out := ResolveLoop(segs);
    var res := [SLASH] + Join(out, SLASH);
    var last := segs[|segs| - 1];
    if |out| > 0 && (last == [] || last == [DOT] || last == DOT_DOT) {
      res := res + [SLASH];
    }
    assert res == CleanPath(decoded.value);
    var escaped := EscapeLoop(res, PATH_EXTRA);
    return Some(escaped);
  }

  // --- The shape of a canonical path ---

  /** What a cleaned path is made of: fully decoded ordinary segments without a slash. */
  predicate PlainSegment(seg: bytes) {
    Ordinary(seg) && SLASH !in seg && EscapeFree(seg)
  }

  ghost predicate PlainSegments(segs: segments) {
    forall s :: s in segs ==> PlainSegment(s)
  }

  /** A slash separates escapes: none can form across it. */
  lemma SlashKeepsEscapeFree(a: bytes, b: bytes)
    requires EscapeFree(a) && EscapeFree(b)
    ensures EscapeFree(a + [SLASH] + b)
  {
    var s := a + [SLASH] + b;
    forall i: nat | i < |s|
      ensures !EscapeAt(s, i)
    {
      assert s[|a|] == SLASH;
      assert EscapeAt(s, i) ==> EscapeAt(a, i) || (i > |a| && EscapeAt(b, i - |a| - 1));
    }
  }

  lemma {:induction false} JoinEscapeFree(segs: segments)
    requires forall s :: s in segs ==> EscapeFree(s)
    ensures EscapeFree(Join(segs, SLASH))
    decreases |segs|
  {
    if |segs| >= 2 {
      JoinEscapeFree(segs[1..]);
      SlashKeepsEscapeFree(segs[0], Join(segs[1..], SLASH));
    }
  }

  lemma RenderEscapeFree(segs: segments, dir: bool)
    requires PlainSegments(segs)
    ensures EscapeFree(Render(segs, dir))
  {
    var joined := Join(segs, SLASH);
    JoinEscapeFree(segs);
    SlashKeepsEscapeFree([], joined);
    assert [] + [SLASH] + joined == [SLASH] + joined;
    SlashKeepsEscapeFree([SLASH] + joined, []);
    assert [SLASH] + joined + [SLASH] + [] == [SLASH] + joined + [SLASH];
    assert [SLASH] + joined + [] == [SLASH] + joined;
  }

  /** Pieces of a fully decoded string are fully decoded. */
  lemma {:induction false} SplitEscapeFree(s: bytes, sep: byte)
    requires EscapeFree(s)
    ensures forall p :: p in Split(s, sep) ==> EscapeFree(p)
    ensures Split(s, sep)[0] <= s
    decreases |s|
  {
    if s != [] {
      assert forall i: nat :: i < |s[1..]| ==> (EscapeAt(s[1..], i) <==> EscapeAt(s, i + 1));
      SplitEscapeFree(s[1..], sep);
      var parts, rest := Split(s, sep), Split(s[1..], sep);
      assert forall i: nat :: i < |parts[0]| ==> EscapeAt(parts[0], i) ==> EscapeAt(s, i);
      forall p | p in parts
        ensures EscapeFree(p)
      {
        if p != parts[0] {
          assert p in rest;
        }
      }
    }
  }

  /** Splitting a rendered path gives its segments back, and an empty one after a final slash. */
  lemma SplitRender(segs: segments, dir: bool)
    requires forall s :: s in segs ==> SLASH !in s
    ensures PathSplit(Render(segs, dir)) ==
            if segs == [] then [[]] else if dir then segs + [[]] else segs
  {
    var parts: segments := if segs == [] then [[]] else if dir then segs + [[]] else segs;
    JoinSnoc(segs);
    assert Render(segs, dir)[1..] == Join(parts, SLASH);
    SplitJoin(parts, SLASH);
  }

  lemma {:induction false} JoinSnoc(segs: segments)
    ensures segs != [] ==> Join(segs + [[]], SLASH) == Join(segs, SLASH) + [SLASH]
    decreases |segs|
  {
    if |segs| == 1 {
      assert (segs + [[]])[1..] == [[]];
    } else if |segs| >= 2 {
      JoinSnoc(segs[1..]);
      assert (segs + [[]])[1..] == segs[1..] + [[]];
    }
  }

  /** Cleaning leaves a path of plain segments alone. */
  lemma CleanRender(segs: segments, dir: bool)
    requires PlainSegments(segs)
    ensures CleanPath(Render(segs, dir)) == Render(segs, dir)
  {
    SplitRender(segs, dir);
    ResolveOrdinary([], segs);
    assert [] + segs == segs;
    ResolveConcat([], segs, [[]]);
    var tail: segments := [[]];
    assert tail[1..] == [];
    if segs != [] && !dir {
      assert segs[|segs| - 1] in segs;
    }
  }

  /** Cleaning a fully decoded path yields a rendering of plain segments, with a
      final slash exactly when something is left and the input ended on a directory. */
  lemma CleanPathShape(p: bytes) returns (segs: segments, dir: bool)
    requires EscapeFree(p)
    ensures PlainSegments(segs) && CleanPath(p) == Render(segs, dir)
    ensures segs == Resolve([], PathSplit(p)) && dir == !Ordinary(PathSplit(p)[|PathSplit(p)| - 1])
  {
    var body := if |p| > 0 && p[0] == SLASH then p[1..] else p;
    assert EscapeFree(body) by {
      assert body != p ==> forall i: nat :: i < |body| ==> (EscapeAt(body, i) <==> EscapeAt(p, i + 1));
    }
    SplitEscapeFree(body, SLASH);
    SplitPieces(body, SLASH);
    ResolveKeeps([], PathSplit(p));
    segs, dir := Resolve([], PathSplit(p)), !Ordinary(PathSplit(p)[|PathSplit(p)| - 1]);
  }

  /** The fixed points of canonicalization. */
  predicate IsCanonicalPath(p: bytes) {
    CanonicalPath(p) == Some(p)
  }

  lemma RenderedIsCanonical(segs: segments, dir: bool)
    requires PlainSegments(segs)
    ensures IsCanonicalPath(EscapePath(Render(segs, dir)))
  {
    RenderEscapeFree(segs, dir);
    RecursiveUnescapeEscape(Render(segs, dir), PATH_EXTRA);
    CleanRender(segs, dir);
  }

  lemma CanonicalIsRendered(p: bytes) returns (segs: segments, dir: bool)
    requires CanonicalPath(p).Some?
    ensures PlainSegments(segs) && CanonicalPath(p) == Some(EscapePath(Render(segs, dir)))
  {
    RecursiveUnescapeExact(p);
    segs, dir := CleanPathShape(RecursiveUnescape(p).value);
  }

  /** Canonicalizing a canonical path changes nothing and never fails. */
  lemma CanonicalPathIdempotent(p: bytes)
    requires CanonicalPath(p).Some?
    ensures IsCanonicalPath(CanonicalPath(p).value)
  {
    var segs, dir := CanonicalIsRendered(p);
    RenderedIsCanonical(segs, dir);
  }

  /** A path is canonical exactly when it is the encoding of a rendering of plain segments. */
  lemma CanonicalPathShape(p: bytes)
    ensures IsCanonicalPath(p) <==>
            exists segs, dir :: PlainSegments(segs) && p == EscapePath(Render(segs, dir))
  {
    if IsCanonicalPath(p) {
      var segs, dir := CanonicalIsRendered(p);
    } else if exists segs, dir :: PlainSegments(segs) && p == EscapePath(Render(segs, dir)) {
      var segs, dir :| PlainSegments(segs) && p == EscapePath(Render(segs, dir));
      RenderedIsCanonical(segs, dir);
    }
  }

  /** Spelling a path with some of its escapes decoded, in any order, changes neither the canonical path
      nor the canonical query, as long as the decoder's depth suffices; up to 2048 bytes it always does. */
  lemma SpellingKeepsCanonical(s: bytes, at: seq<nat>)
    requires DecodeSteps(s, at).Some?
    ensures var t := DecodeSteps(s, at).value;
            (RecursiveUnescape(s).Some? && RecursiveUnescape(t).Some?) || |s| <= 2048 ==>
              && CanonicalPath(t) == CanonicalPath(s) && CanonicalPath(s).Some?
              && CanonQuery(t) == CanonQuery(s) && CanonQuery(s).Some?
  {
    SpellingDoesNotMatter(s, at);
  }
}
