/** URLs on which the two sides differ because of dot segments. */
module DotExamples {
  import opened Bytes
  import opened PercentDecoding
  import opened PercentEncoding
  import opened PathSegments
  import opened CanonPath
  import opened HostSuffixes
  import opened Candidates
  import opened DotSegments
  import opened DotPaths

  // --- An entry that never matches itself ---

  const A: byte := 0x61
  const B: byte := 0x62

  lemma SplitFour(a: bytes, b: bytes, c: bytes, d: bytes)
    requires SLASH !in a && SLASH !in b && SLASH !in c && SLASH !in d
    ensures PathSplit([SLASH] + (a + [SLASH] + (b + [SLASH] + (c + [SLASH] + d)))) == [a, b, c, d]
  {
    var segs: segments := [a, b, c, d];
    var s1, s2, s3: segments := segs[1..], segs[2..], segs[3..];
    assert s1[1..] == s2 && s2[1..] == s3;
    assert Join(s3, SLASH) == d;
    assert Join(s2, SLASH) == c + [SLASH] + d;
    assert Join(s1, SLASH) == b + [SLASH] + Join(s2, SLASH);
    assert Join(segs, SLASH) == a + [SLASH] + Join(s1, SLASH);
    SplitSlashed(segs);
  }

  lemma PlainPath(segs: segments)
    requires segs != [] && forall s :: s in segs ==> PlainSegment(s)
    requires forall c :: c in Render(segs, false) ==> !MustEscape(c, PATH_EXTRA)
    ensures IsCanonicalPath(Render(segs, false))
  {
    RenderedIsCanonical(segs, false);
    EscapesNothing(Render(segs, false));
  }

  lemma WithoutPercent(s: bytes)
    requires PERCENT !in s
    ensures EscapeFree(s) && RecursiveUnescape(s) == Some(s)
  {
    assert forall i: nat :: i < |s| ==> s[i] in s;
    PassFixesEscapeFree(s);
    OnePass(s, s);
  }

  lemma Kinds()
    ensures Solid([A]) && Solid([B]) && Ordinary([A]) && Ordinary([B]) && Named([]) && DoubleDot(DOT_DOT)
  {
    assert DOT_DOT[1..] == [DOT];
  }

  lemma StoredSegments()
    ensures Resolve([], [[A], [], DOT_DOT, [B]]) == [[B]]
  {
    var s0: segments := [[A], [], DOT_DOT, [B]];
    var s1, s2, s3 := s0[1..], s0[2..], s0[3..];
    Kinds();
    assert s1[1..] == s2 && s2[1..] == s3 && s3[1..] == [];
    var a, none: segments := [[A]], [];
    assert none + [[A]] == a && none + [[B]] == [[B]] && a[..0] == none;
    assert Push(none, [A]) == a && Push(a, []) == a && Push(a, DOT_DOT) == none && Push(none, [B]) == [[B]];
    assert Resolve(a, s1) == Resolve(a, s2) == Resolve(none, s3) == Resolve([[B]], s3[1..]);
  }

  lemma SubmittedSegments()
    ensures Visible([], [[A], [], DOT_DOT, [B]]) == [[A], [B]]
  {
    var s0: segments := [[A], [], DOT_DOT, [B]];
    var s1, s2, s3 := s0[1..], s0[2..], s0[3..];
    Kinds();
    assert s1[1..] == s2 && s2[1..] == s3 && s3 == [[B]];
    var a, a0, none: segments := [[A]], [[A], []], [];
    assert none + [[A]] == a && a + [[]] == a0 && a0[..1] == a && a + [[B]] == [[A], [B]];
    assert PushVisible(none, [A]) == a && PushVisible(a, []) == a0 && PushVisible(a0, DOT_DOT) == a;
    assert Visible(none, s0) == Visible(a, s1) && Visible(a, s1) == Visible(a0, s2) && Visible(a0, s2) == Visible(a, s3);
    assert PushVisible(a, [B]) == [[A], [B]];
  }

  lemma StoredPath(path: bytes)
    requires PERCENT !in path && PathSplit(path) == [[A], [], DOT_DOT, [B]]
    ensures CanonicalPath(path) == Some([SLASH, B])
  {
    var segs: segments := [[B]];
    WithoutPercent(path);
    StoredSegments();
    Kinds();
    assert CleanPath(path) == Render(segs, false) == [SLASH, B];
    EscapesNothing([SLASH, B]);
  }

  lemma SubmittedPath(path: bytes)
    requires PathSplit(path) == [[A], [], DOT_DOT, [B]]
    ensures CanonicalPath(ResolveDots(path)) == Some([SLASH, A, SLASH, B])
  {
    var segs: segments := [[A], [B]];
    SubmittedSegments();
    Kinds();
    assert segs[1..] == [[B]] && Join([[B]], SLASH) == [B];
    assert Join(segs, SLASH) == [A, SLASH, B];
    assert ResolveDots(path) == Render(segs, false) == [SLASH, A, SLASH, B];
    PlainPath(segs);
  }

  lemma OtherPath(host: bytes, path: bytes)
    requires IsHost(host) && CanonicalPath(path) == Some([SLASH, B])
    requires CanonicalPath(ResolveDots(path)) == Some([SLASH, A, SLASH, B])
    ensures Pattern(Parts(host, [SLASH, B], [])) !in CandidatesOf(Parts(host, [SLASH, A, SLASH, B], []))
  {
    var p, q := Parts(host, [SLASH, A, SLASH, B], []), Parts(host, [SLASH, B], []);
    CanonicalPathIdempotent(path);
    CanonicalPathIdempotent(ResolveDots(path));
    EmptyQueryIsCanonical();
    CandidatesExact(p, q);
    assert p.path[1] != q.path[1];
  }

  /** "/a//../b": the feed side stores "/b", the lookup side's parser hands over "/a/b", and no host makes them meet. */
  lemma EntryMissesItself(host: bytes)
    requires IsHost(host)
    ensures var path: bytes := [SLASH, A, SLASH, SLASH, DOT, DOT, SLASH, B];
            && CanonicalPath(path) == Some([SLASH, B])
            && CanonicalPath(ResolveDots(path)) == Some([SLASH, A, SLASH, B])
            && Pattern(Parts(host, [SLASH, B], [])) !in CandidatesOf(Parts(host, [SLASH, A, SLASH, B], []))
  {
    var path: bytes := [SLASH, A, SLASH, SLASH, DOT, DOT, SLASH, B];
    SplitFour([A], [], DOT_DOT, [B]);
    assert [SLASH] + ([A] + [SLASH] + ([] + [SLASH] + (DOT_DOT + [SLASH] + [B]))) == path;
    StoredPath(path);
    SubmittedPath(path);
    OtherPath(host, path);
  }

  // --- A slash that the parser does not see ---

  lemma UnescapeCons(c: byte, s: bytes)
    requires c != PERCENT
    ensures Unescape([c] + s) == [c] + Unescape(s)
  {
    assert ([c] + s)[1..] == s;
  }

  lemma UnescapeSlash(s: bytes)
    ensures Unescape([PERCENT, TWO, 0x46] + s) == [SLASH] + Unescape(s)
  {
    var t := [PERCENT, TWO, 0x46] + s;
    assert EscapeAt(t, 0) && t[3..] == s && DecodedByte(t[1], t[2]) == SLASH;
  }

  lemma HiddenSlashDecoded(tail: bytes)
    requires PERCENT !in tail
    ensures RecursiveUnescape([SLASH] + ([A] + ([PERCENT, TWO, 0x46] + tail))) == Some([SLASH] + ([A] + ([SLASH] + tail)))
  {
    WithoutPercent(tail);
    PassFixesEscapeFree(tail);
    UnescapeSlash(tail);
    UnescapeCons(A, [PERCENT, TWO, 0x46] + tail);
    UnescapeCons(SLASH, [A] + ([PERCENT, TWO, 0x46] + tail));
    WithoutPercent([SLASH] + ([A] + ([SLASH] + tail)));
    OnePass([SLASH] + ([A] + ([PERCENT, TWO, 0x46] + tail)), [SLASH] + ([A] + ([SLASH] + tail)));
  }

  lemma HiddenSegments()
    ensures Resolve([], [[A], [B], DOT_DOT, [B]]) == [[A], [B]]
    ensures Visible([], [[A, PERCENT, TWO, 0x46, B], DOT_DOT, [B]]) == [[B]]
  {
    var s0: segments := [[A], [B], DOT_DOT, [B]];
    var v0: segments := [[A, PERCENT, TWO, 0x46, B], DOT_DOT, [B]];
    var a, ab, none, x: segments := [[A]], [[A], [B]], [], [v0[0]];
    Kinds();
    assert s0[1..][1..] == s0[2..] && s0[2..][1..] == s0[3..] && s0[3..][1..] == none;
    assert none + [[A]] == a && a + [[B]] == ab && ab[..1] == a;
    assert Push(none, [A]) == a && Push(a, [B]) == ab && Push(ab, DOT_DOT) == a;
    assert Resolve(none, s0) == Resolve(a, s0[1..]);
    assert Resolve(a, s0[1..]) == Resolve(ab, s0[2..]) == Resolve(a, s0[3..]) == Resolve(ab, none);
    assert none + [v0[0]] == x && x[..0] == none && none + [[B]] == [[B]];
    assert v0[1..][1..] == [[B]];
    assert PushVisible(none, v0[0]) == x && PushVisible(x, DOT_DOT) == none && PushVisible(none, [B]) == [[B]];
    assert Visible(none, v0) == Visible(x, v0[1..]) == Visible(none, v0[1..][1..]);
  }

  lemma HiddenPath(path: bytes)
    requires RecursiveUnescape(path).Some? && PathSplit(RecursiveUnescape(path).value) == [[A], [B], DOT_DOT, [B]]
    requires PathSplit(path) == [[A, PERCENT, TWO, 0x46, B], DOT_DOT, [B]]
    ensures CanonicalPath(path) == Some([SLASH, A, SLASH, B]) && CanonicalPath(ResolveDots(path)) == Some([SLASH, B])
  {
    var stored, submitted: segments := [[A], [B]], [[B]];
    HiddenSegments();
    Kinds();
    assert stored[1..] == [[B]] && Join([[B]], SLASH) == [B];
    assert Join(stored, SLASH) == [A, SLASH, B];
    assert CleanPath(RecursiveUnescape(path).value) == Render(stored, false) == [SLASH, A, SLASH, B];
    EscapesNothing([SLASH, A, SLASH, B]);
    assert ResolveDots(path) == Render(submitted, false) == [SLASH, B];
    PlainPath(submitted);
  }

  /** "/a%2Fb/../b": the ".." takes away one segment on the feed side and two on the lookup side. */
  lemma HiddenSlashMatters()
    ensures var path: bytes := [SLASH, A, PERCENT, TWO, 0x46, B, SLASH, DOT, DOT, SLASH, B];
            && CanonicalPath(path) == Some([SLASH, A, SLASH, B])
            && CanonicalPath(ResolveDots(path)) == Some([SLASH, B])
  {
    var tail: bytes := [B, SLASH, DOT, DOT, SLASH, B];
    var path: bytes := [SLASH, A, PERCENT, TWO, 0x46, B, SLASH, DOT, DOT, SLASH, B];
    assert path == [SLASH] + ([A] + ([PERCENT, TWO, 0x46] + tail));
    HiddenSlashDecoded(tail);
    SplitFour([A], [B], DOT_DOT, [B]);
    assert [SLASH] + ([A] + [SLASH] + ([B] + [SLASH] + (DOT_DOT + [SLASH] + [B]))) == [SLASH] + ([A] + ([SLASH] + tail));
    SplitThree([A, PERCENT, TWO, 0x46, B], DOT_DOT, [B]);
    assert [SLASH] + ([A, PERCENT, TWO, 0x46, B] + [SLASH] + (DOT_DOT + [SLASH] + [B])) == path;
    HiddenPath(path);
  }

  lemma SplitThree(a: bytes, b: bytes, c: bytes)
    requires SLASH !in a && SLASH !in b && SLASH !in c
    ensures PathSplit([SLASH] + (a + [SLASH] + (b + [SLASH] + c))) == [a, b, c]
  {
    var segs: segments := [a, b, c];
    var s1, s2: segments := segs[1..], segs[2..];
    assert s1[1..] == s2;
    assert Join(s2, SLASH) == c;
    assert Join(s1, SLASH) == b + [SLASH] + Join(s2, SLASH);
    assert Join(segs, SLASH) == a + [SLASH] + Join(s1, SLASH);
    SplitSlashed(segs);
  }
}
