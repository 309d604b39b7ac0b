/** Paths whose dot segments are resolved before they are decoded. */
module DotPaths {
  import opened Bytes
  import opened PercentDecoding
  import opened PercentEncoding
  import opened PathSegments
  import opened CanonPath
  import opened DotSegments

  // --- Segments as they are spelled ---

  predicate Decodable(segs: segments) {
    forall i :: 0 <= i < |segs| ==> RecursiveUnescape(segs[i]).Some?
  }

  function DecodedAll(segs: segments): (ds: segments)
    requires Decodable(segs)
    ensures |ds| == |segs| && forall i :: 0 <= i < |segs| ==> ds[i] == RecursiveUnescape(segs[i]).value
  {
    seq(|segs|, i requires 0 <= i < |segs| => RecursiveUnescape(segs[i]).value)
  }

  /** No segment hides a slash, or a dot segment that the parser does not see. */
  predicate PlainlySpelled(segs: segments) {
    Decodable(segs) && forall i :: 0 <= i < |segs| ==> PlainSpelling(segs[i], RecursiveUnescape(segs[i]).value)
  }

  predicate PlainSpelling(seg: bytes, decoded: bytes) {
    SLASH !in decoded && (decoded == [DOT] ==> SingleDot(seg)) && (decoded == DOT_DOT ==> DoubleDot(seg))
  }

  predicate SameKind(a: bytes, b: bytes) {
    (SingleDot(a) <==> SingleDot(b)) && (DoubleDot(a) <==> DoubleDot(b)) && (a == [] <==> b == [])
  }

  predicate SameKinds(a: segments, b: segments) {
    |a| == |b| && forall i :: 0 <= i < |a| ==> SameKind(a[i], b[i])
  }

  lemma {:induction false} DipsSame(spare: nat, a: segments, b: segments)
    requires SameKinds(a, b)
    ensures Dips(Solid, spare, a) == Dips(Solid, spare, b)
    ensures Dips(Named, spare, a) == Dips(Named, spare, b)
    decreases |a|
  {
    if a != [] {
      assert SameKind(a[0], b[0]) && SameKinds(a[1..], b[1..]);
      if DoubleDot(a[0]) {
        if spare > 0 {
          DipsSame(spare - 1, a[1..], b[1..]);
        }
      } else {
        DipsSame(spare, a[1..], b[1..]);
        DipsSame(spare + 1, a[1..], b[1..]);
      }
    }
  }

  lemma {:induction false} LosesSame(a: segments, b: segments)
    requires SameKinds(a, b)
    ensures LosesSome(a) == LosesSome(b)
    decreases |a|
  {
    if a != [] {
      assert SameKind(a[0], b[0]) && SameKinds(a[1..], b[1..]);
      DipsSame(0, a[1..], b[1..]);
      LosesSame(a[1..], b[1..]);
    }
  }

  // --- Decoding keeps the kinds of segments ---

  lemma DotIsDecoded()
    ensures EscapeFree([DOT]) && EscapeFree(DOT_DOT) && EscapeFree([])
    ensures Unescape([DOT]) == [DOT] && Unescape(DOT_DOT) == DOT_DOT
  {
    PassFixesEscapeFree([DOT]);
    PassFixesEscapeFree(DOT_DOT);
  }

  lemma SingleDotIsDecoded(seg: bytes)
    requires SingleDot(seg)
    ensures Unescape(seg) == [DOT]
  {
    DotIsDecoded();
    if EncodedDot(seg) {
      assert EscapeAt(seg, 0) && seg[3..] == [];
      assert DecodedByte(seg[1], seg[2]) == DOT;
    }
  }

  lemma DoubleDotIsDecoded(seg: bytes)
    requires DoubleDot(seg)
    ensures Unescape(seg) == DOT_DOT
  {
    if seg[0] == DOT {
      SingleDotIsDecoded(seg[1..]);
    } else {
      SingleDotIsDecoded(seg[3..]);
      assert EscapeAt(seg[..3], 0);
      assert EscapeAt(seg, 0) && seg[1] == seg[..3][1] && seg[2] == seg[..3][2];
      assert DecodedByte(seg[1], seg[2]) == DOT;
    }
  }

  lemma NothingDecoded(s: bytes)
    ensures Unescape(s) == [] <==> s == []
  {
  }

  lemma DotDigits(hi: byte, lo: byte)
    requires IsHex(hi) && IsHex(lo)
    ensures DecodedByte(hi, lo) == DOT <==> hi == TWO && (lo == 0x65 || lo == 0x45)
  {
    Nibbles(Unhex(hi), Unhex(lo));
  }

  /** The first byte that decoding yields is the first byte, or what the escape in front stands for. */
  lemma FrontIsDot(seg: bytes) returns (n: nat)
    requires seg != [] && Unescape(seg)[0] == DOT
    ensures n <= |seg| && SingleDot(seg[..n]) && (n == 1 || n == 3) && Unescape(seg) == [DOT] + Unescape(seg[n..])
    ensures n == 1 ==> seg[0] == DOT
    ensures n == 3 ==> EncodedDot(seg[..3])
  {
    if EscapeAt(seg, 0) {
      n := 3;
      DotDigits(seg[1], seg[2]);
    } else {
      n := 1;
      assert seg[..1] == [DOT];
    }
  }

  /** The parser's dot segments are those that one decoding pass turns into "." and "..", whatever their spelling. */
  lemma DotsExact(seg: bytes)
    ensures SingleDot(seg) <==> Unescape(seg) == [0x2e]
    ensures DoubleDot(seg) <==> Unescape(seg) == [0x2e, 0x2e]
  {
    if SingleDot(seg) {
      SingleDotIsDecoded(seg);
    }
    if DoubleDot(seg) {
      DoubleDotIsDecoded(seg);
    }
    if Unescape(seg) == [0x2e] {
      var n := FrontIsDot(seg);
      NothingDecoded(seg[n..]);
      assert seg == seg[..n];
    }
    if Unescape(seg) == [0x2e, 0x2e] {
      TwoDots(seg);
    }
  }

  lemma TwoDots(seg: bytes)
    requires Unescape(seg) == [0x2e, 0x2e]
    ensures DoubleDot(seg)
  {
    var n := FrontIsDot(seg);
    var rest := seg[n..];
    assert Unescape(rest) == Unescape(seg)[1..] == [0x2e];
    var m := FrontIsDot(rest);
    NothingDecoded(rest[m..]);
    assert rest == rest[..m];
  }

  lemma OnePass(s: bytes, t: bytes)
    requires Unescape(s) == t && EscapeFree(t)
    ensures RecursiveUnescape(s) == Some(t)
  {
    PassFixesEscapeFree(t);
    assert UnescapeUpTo(t, MAX_DEPTH - 1) == Some(t);
  }

  lemma {:induction false} NothingFromNothing(s: bytes, depth: nat)
    requires UnescapeUpTo(s, depth) == Some([])
    ensures s == []
    decreases depth
  {
    if Unescape(s) != s {
      NothingFromNothing(Unescape(s), depth - 1);
    }
  }

  lemma KindIsKept(seg: bytes)
    requires RecursiveUnescape(seg).Some? && PlainSpelling(seg, RecursiveUnescape(seg).value)
    ensures SameKind(seg, RecursiveUnescape(seg).value) && EscapeFree(RecursiveUnescape(seg).value)
  {
    var d := RecursiveUnescape(seg).value;
    RecursiveUnescapeExact(seg);
    DecodedDots(d);
    DotIsDecoded();
    if SingleDot(seg) {
      SingleDotIsDecoded(seg);
      OnePass(seg, [DOT]);
    }
    if DoubleDot(seg) {
      DoubleDotIsDecoded(seg);
      OnePass(seg, DOT_DOT);
    }
    if d == [] {
      NothingFromNothing(seg, MAX_DEPTH);
    }
    OnePass([], []);
  }

  lemma KindsAreKept(segs: segments)
    requires PlainlySpelled(segs)
    ensures SameKinds(segs, DecodedAll(segs)) && forall s :: s in DecodedAll(segs) ==> EscapeFree(s) && SLASH !in s
  {
    var ds := DecodedAll(segs);
    forall i | 0 <= i < |segs|
      ensures SameKind(segs[i], ds[i]) && EscapeFree(ds[i]) && SLASH !in ds[i]
    {
      KindIsKept(segs[i]);
    }
  }

  lemma EmptyIsDecoded()
    ensures RecursiveUnescape([]) == Some([])
  {
    assert UnescapeUpTo([], MAX_DEPTH) == Some([]);
  }

  /** Resolving dot segments and decoding the segments commute. */
  lemma {:induction false} VisibleDecoded(stack: segments, segs: segments)
    requires segs != [] && Decodable(stack) && Decodable(segs) && SameKinds(segs, DecodedAll(segs))
    ensures Decodable(Visible(stack, segs))
    ensures DecodedAll(Visible(stack, segs)) == Visible(DecodedAll(stack), DecodedAll(segs))
    decreases |segs|
  {
    var ds, next := DecodedAll(segs), PushVisible(stack, segs[0]);
    assert SameKind(segs[0], ds[0]);
    assert Decodable(next) && DecodedAll(next) == PushVisible(DecodedAll(stack), ds[0]);
    if |segs| == 1 {
      EmptyIsDecoded();
      assert Decodable(next + [[]]);
      assert DecodedAll(next + [[]]) == DecodedAll(next) + [[]];
      assert next + [] == next && DecodedAll(next) + [] == DecodedAll(next);
    } else {
      assert DecodedAll(segs[1..]) == ds[1..];
      VisibleDecoded(next, segs[1..]);
    }
  }

  // --- Decoding between slashes ---

  /** No escape reaches across a slash. */
  lemma {:induction false} UnescapeAcrossSlash(a: bytes, b: bytes)
    ensures Unescape(a + [SLASH] + b) == Unescape(a) + [SLASH] + Unescape(b)
    decreases |a|
  {
    var s := a + [SLASH] + b;
    assert s[|a|] == SLASH;
    if a == [] {
      assert s[1..] == b;
    } else {
      assert EscapeAt(s, 0) <==> EscapeAt(a, 0);
      var k := if EscapeAt(a, 0) then 3 else 1;
      assert s[k..] == a[k..] + [SLASH] + b;
      UnescapeAcrossSlash(a[k..], b);
      ConcatAssociates([if k == 3 then DecodedByte(a[1], a[2]) else a[0]], Unescape(a[k..]), [SLASH]);
      ConcatAssociates([if k == 3 then DecodedByte(a[1], a[2]) else a[0]], Unescape(a[k..]) + [SLASH], Unescape(b));
    }
  }

  lemma StableAcrossSlash(a: bytes, b: bytes)
    ensures Unescape(a + [SLASH] + b) == a + [SLASH] + b <==> Unescape(a) == a && Unescape(b) == b
  {
    var s := a + [SLASH] + b;
    PassFixesEscapeFree(s);
    PassFixesEscapeFree(a);
    PassFixesEscapeFree(b);
    if EscapeFree(s) {
      assert forall i: nat :: EscapeAt(a, i) ==> EscapeAt(s, i);
      assert forall i: nat :: EscapeAt(b, i) ==> EscapeAt(s, |a| + 1 + i);
    } else if EscapeFree(a) && EscapeFree(b) {
      SlashKeepsEscapeFree(a, b);
    }
  }

  lemma {:induction false} DecodeAcrossSlash(a: bytes, b: bytes, depth: nat)
    ensures var r, x, y := UnescapeUpTo(a + [SLASH] + b, depth), UnescapeUpTo(a, depth), UnescapeUpTo(b, depth);
            && (r.Some? <==> x.Some? && y.Some?)
            && (r.Some? ==> r.value == x.value + [SLASH] + y.value)
    decreases depth
  {
    if depth > 0 {
      StableAcrossSlash(a, b);
      if Unescape(a) != a || Unescape(b) != b {
        UnescapeAcrossSlash(a, b);
        DecodeAcrossSlash(Unescape(a), Unescape(b), depth - 1);
      }
    }
  }

  /** A path is decoded segment by segment, and within the decoder's depth when each segment is. */
  lemma {:induction false} DecodeJoin(segs: segments)
    requires segs != []
    ensures RecursiveUnescape(Join(segs, SLASH)).Some? <==> Decodable(segs)
    ensures Decodable(segs) ==> RecursiveUnescape(Join(segs, SLASH)) == Some(Join(DecodedAll(segs), SLASH))
    decreases |segs|
  {
    if |segs| > 1 {
      var rest := segs[1..];
      DecodeJoin(rest);
      DecodeAcrossSlash(segs[0], Join(rest, SLASH), MAX_DEPTH);
      assert Decodable(segs) <==> RecursiveUnescape(segs[0]).Some? && Decodable(rest) by {
        assert forall i :: 0 <= i < |rest| ==> rest[i] == segs[i + 1];
      }
      if Decodable(segs) {
        assert DecodedAll(segs)[1..] == DecodedAll(rest);
      }
    }
  }

  predicate StartsWithSlash(path: bytes) {
    path != [] && path[0] == SLASH
  }

  lemma PathIsJoined(path: bytes)
    ensures StartsWithSlash(path) ==> path == [SLASH] + Join(PathSplit(path), SLASH)
    ensures !StartsWithSlash(path) ==> path == Join(PathSplit(path), SLASH)
  {
    if StartsWithSlash(path) {
      SplitPieces(path[1..], SLASH);
      assert path == [SLASH] + path[1..];
    } else {
      SplitPieces(path, SLASH);
    }
  }

  lemma SplitSlashed(segs: segments)
    requires segs != [] && forall s :: s in segs ==> SLASH !in s
    ensures PathSplit([SLASH] + Join(segs, SLASH)) == segs
  {
    SplitJoin(segs, SLASH);
    assert ([SLASH] + Join(segs, SLASH))[1..] == Join(segs, SLASH);
  }

  lemma DecodeSlashed(segs: segments)
    requires segs != [] && Decodable(segs)
    ensures RecursiveUnescape([SLASH] + Join(segs, SLASH)) == Some([SLASH] + Join(DecodedAll(segs), SLASH))
  {
    EmptyIsDecoded();
    DecodeJoin(segs);
    DecodeAcrossSlash([], Join(segs, SLASH), MAX_DEPTH);
    assert [] + [SLASH] + Join(segs, SLASH) == [SLASH] + Join(segs, SLASH);
  }

  lemma JoinStart(segs: segments)
    requires segs != [] && SLASH !in segs[0] && (|segs| > 1 ==> segs[0] != [])
    ensures !StartsWithSlash(Join(segs, SLASH))
  {
    if |segs| > 1 {
      assert Join(segs, SLASH)[0] == segs[0][0] && segs[0][0] in segs[0];
    } else if segs[0] != [] {
      assert segs[0][0] in segs[0];
    }
  }

  lemma FirstIsFilled(segs: segments)
    requires segs != [] && !StartsWithSlash(Join(segs, SLASH))
    ensures |segs| == 1 || segs[0] != []
  {
  }

  /** Decoding a path decodes its segments. */
  lemma DecodedSplit(path: bytes)
    requires PlainlySpelled(PathSplit(path))
    ensures RecursiveUnescape(path).Some?
    ensures PathSplit(RecursiveUnescape(path).value) == DecodedAll(PathSplit(path))
  {
    var segs := PathSplit(path);
    var ds := DecodedAll(segs);
    PathIsJoined(path);
    KindsAreKept(segs);
    if StartsWithSlash(path) {
      DecodeSlashed(segs);
      SplitSlashed(ds);
    } else {
      assert path == Join(segs, SLASH);
      DecodeJoin(segs);
      FirstIsFilled(segs);
      assert SameKind(segs[0], ds[0]);
      assert ds[0] in ds;
      JoinStart(ds);
      SplitJoin(ds, SLASH);
    }
  }

  lemma DecodedVisible(path: bytes)
    requires PlainlySpelled(PathSplit(path))
    ensures RecursiveUnescape(ResolveDots(path)).Some?
    ensures PathSplit(RecursiveUnescape(ResolveDots(path)).value) == Visible([], DecodedAll(PathSplit(path)))
  {
    var segs := PathSplit(path);
    var ds := DecodedAll(segs);
    KindsAreKept(segs);
    assert DecodedAll([]) == [];
    VisibleDecoded([], segs);
    DecodeSlashed(Visible([], segs));
    VisibleMembers([], ds);
    SplitSlashed(Visible([], ds));
  }

  lemma RenderSeparates(a: segments, b: segments, dir: bool)
    requires forall s :: s in a ==> Ordinary(s) && SLASH !in s
    requires forall s :: s in b ==> Ordinary(s) && SLASH !in s
    ensures Render(a, dir) == Render(b, dir) <==> a == b
  {
    RenderIsResolved(a, dir);
    RenderIsResolved(b, dir);
  }

  lemma RenderIsResolved(segs: segments, dir: bool)
    requires forall s :: s in segs ==> Ordinary(s) && SLASH !in s
    ensures Resolve([], PathSplit(Render(segs, dir))) == segs
  {
    SplitRender(segs, dir);
    ResolveOrdinary([], segs);
    ResolveConcat([], segs, [[]]);
    assert [] + segs == segs;
    assert Resolve(segs, [[]]) == Push(segs, []) by {
      var one: segments := [[]];
      assert one[1..] == [];
    }
  }

  /** When no segment hides a slash or a dot segment, the canonical path stays the same under a parser that resolves the
      dot segments first exactly when no segment is lost. */
  lemma DotsMayBeResolved(path: bytes)
    requires PlainlySpelled(PathSplit(path))
    ensures CanonicalPath(path).Some? && CanonicalPath(ResolveDots(path)).Some?
    ensures CanonicalPath(ResolveDots(path)) == CanonicalPath(path) <==> !Loses(PathSplit(path))
  {
    var segs := PathSplit(path);
    var ds := DecodedAll(segs);
    KindsAreKept(segs);
    DecodedSplit(path);
    DecodedVisible(path);
    LosesExact(segs);
    LosesExact(ds);
    LosesSame(segs, ds);
    CleanAfterParser(ds, RecursiveUnescape(path).value, RecursiveUnescape(ResolveDots(path)).value);
    EscapeSeparates(CleanPath(RecursiveUnescape(ResolveDots(path)).value), CleanPath(RecursiveUnescape(path).value));
  }

  lemma EscapeSeparates(a: bytes, b: bytes)
    ensures EscapePath(a) == EscapePath(b) <==> a == b
  {
    if EscapePath(a) == EscapePath(b) {
      EscapeInjective(a, b, PATH_EXTRA);
    }
  }

  lemma CleanAfterParser(segs: segments, path: bytes, resolved: bytes)
    requires segs != [] && forall s :: s in segs ==> EscapeFree(s) && SLASH !in s
    requires PathSplit(path) == segs && PathSplit(resolved) == Visible([], segs)
    ensures CleanPath(resolved) == CleanPath(path) <==> !Loses(segs)
  {
    ResolveAfterParser(segs);
    VisibleEnd([], segs);
    ResolvedBytes(segs);
    VisibleBytes(segs);
    CleanOf(path);
    CleanOf(resolved);
    RenderSeparates(Resolve([], Visible([], segs)), Resolve([], segs), EndsOnDirectory(segs));
  }

  lemma CleanOf(path: bytes)
    ensures CleanPath(path) == Render(Resolve([], PathSplit(path)), EndsOnDirectory(PathSplit(path)))
  {
  }

  lemma VisibleBytes(segs: segments)
    requires segs != [] && forall s :: s in segs ==> SLASH !in s
    ensures forall s :: s in Resolve([], Visible([], segs)) ==> Ordinary(s) && SLASH !in s
  {
    VisibleMembers([], segs);
    ResolvedBytes(Visible([], segs));
  }

  lemma ResolvedBytes(segs: segments)
    requires forall s :: s in segs ==> SLASH !in s
    ensures forall s :: s in Resolve([], segs) ==> Ordinary(s) && SLASH !in s
  {
    ResolveKeeps([], segs);
  }
}
