/** Feeding a stored pattern back into canonicalization, and the one byte that stops it from being stable. */
module Resubmission {
  import opened Bytes
  import opened PercentDecoding
  import opened PercentEncoding
  import opened Preprocess
  import opened Authority
  import opened PathSegments
  import opened CanonPath
  import opened HostSuffixes
  import opened LookupPaths
  import opened Candidates
  import opened CanonHost
  import opened Canonical

  predicate WebName(name: bytes) {
    name == HTTP || name == HTTPS
  }

  lemma WebNameBytes(name: bytes)
    requires WebName(name)
    ensures Inert(name + SCHEME_TAIL) && BACKSLASH !in name + SCHEME_TAIL
    ensures name != [] && IsLetter(name[0]) && forall c :: c in name ==> IsSchemeByte(c)
    ensures ToLower(name) != FTPS && ToLower(name) != SFTP
  {
    if name == HTTP {
      HttpBytes();
    } else {
      HttpsBytes();
    }
    PlainIsInert(name + SCHEME_TAIL);
    assert ToLower(name)[0] == LowerByte(name[0]);
  }

  lemma HttpBytes()
    ensures forall c :: c in HTTP + SCHEME_TAIL ==> 0x20 < c < 0x7f && c != NUMBER_SIGN && c != PERCENT && c != BACKSLASH
    ensures forall c :: c in HTTP ==> IsSchemeByte(c)
  {
  }

  lemma HttpsBytes()
    ensures forall c :: c in HTTPS + SCHEME_TAIL ==> 0x20 < c < 0x7f && c != NUMBER_SIGN && c != PERCENT && c != BACKSLASH
    ensures forall c :: c in HTTPS ==> IsSchemeByte(c)
  {
  }

  /** A pattern as a URL again. */
  function AsUrl(name: bytes, p: Parts): bytes {
    name + SCHEME_TAIL + Pattern(p)
  }

  /** Bytes that the steps before parsing leave alone. */
  predicate Inert(s: bytes) {
    PercentsValid(s) && forall c :: c in s ==> c > 0x20 && c != 0x7f && c != NUMBER_SIGN
  }

  lemma {:induction false} EscapedIsInert(s: bytes, extra: bytes)
    requires forall c: byte :: c in extra ==> !IsHex(c)
    ensures Inert(Escape(s, extra))
    decreases |s|
  {
    if s != [] {
      EscapedIsInert(s[1..], extra);
      EscapedByteIsInert(s[0], extra);
      InertConcat(EscapeByte(s[0], extra), Escape(s[1..], extra));
    }
  }

  lemma EscapedByteIsInert(c: byte, extra: bytes)
    ensures Inert(EscapeByte(c, extra))
  {
    if MustEscape(c, extra) {
      var t := EscapeByte(c, extra);
      assert EscapeAt(t, 0) && t[1] != PERCENT && t[2] != PERCENT;
    }
  }

  lemma InertConcat(a: bytes, b: bytes)
    requires Inert(a) && Inert(b)
    ensures Inert(a + b)
  {
    var s := a + b;
    forall i: nat | i < |s| && s[i] == PERCENT
      ensures EscapeAt(s, i)
    {
      assert i < |a| ==> EscapeAt(a, i);
      assert i >= |a| ==> EscapeAt(b, i - |a|);
    }
  }

  lemma PlainIsInert(s: bytes)
    requires forall c :: c in s ==> c > 0x20 && c != 0x7f && c != NUMBER_SIGN && c != PERCENT
    ensures Inert(s)
  {
    assert forall i :: 0 <= i < |s| ==> s[i] in s;
  }

  lemma {:induction false} InertSteps(s: bytes)
    requires Inert(s)
    ensures UntilFragment(s) == s && WithoutLineBreaks(s) == s && EscapeControl(s) == s
    decreases |s|
  {
    if s != [] {
      assert s[0] in s;
      TailMembers(s);
      PercentsValidTail(s);
      InertSteps(s[1..]);
      assert s == [s[0]] + s[1..];
    }
  }

  lemma {:induction false} BackslashesGone(s: bytes)
    ensures |BackslashToSlash(s)| == |s|
    ensures forall i :: 0 <= i < |s| ==> BackslashToSlash(s)[i] == if s[i] == BACKSLASH then SLASH else s[i]
    decreases |s|
  {
    if s != [] {
      BackslashesGone(s[1..]);
    }
  }

  lemma BackslashesKeepInert(s: bytes)
    requires Inert(s)
    ensures Inert(BackslashToSlash(s))
  {
    var t := BackslashToSlash(s);
    BackslashesGone(s);
    assert forall i: nat :: i < |s| ==> s[i] in s;
    assert forall i: nat :: i < |s| ==> (EscapeAt(s, i) <==> EscapeAt(t, i));
  }

  lemma BackslashesConcat(a: bytes, b: bytes)
    ensures BackslashToSlash(a + b) == BackslashToSlash(a) + BackslashToSlash(b)
  {
    BackslashesGone(a);
    BackslashesGone(b);
    BackslashesGone(a + b);
  }

  lemma NoBackslashNoChange(s: bytes)
    ensures BackslashToSlash(s) == s <==> BACKSLASH !in s
    ensures BACKSLASH !in BackslashToSlash(s)
  {
    BackslashesGone(s);
    if BACKSLASH in s {
      var i :| 0 <= i < |s| && s[i] == BACKSLASH;
    }
  }

  /** The host, path and query of canonical parts are made of inert bytes. */
  lemma PartsAreInert(p: Parts)
    requires CanonicalParts(p)
    ensures Inert(p.host) && Inert(p.path) && Inert(p.query) && BACKSLASH !in p.host && CleanHost(p.host)
  {
    forall c | c in p.host
      ensures !NeverInHost(c)
    {
      if NeverInHost(c) {
        HostAvoids(p.host, c);
      }
    }
    PlainIsInert(p.host);
    var segs, dir := CanonicalIsRendered(p.path);
    EscapedIsInert(Render(segs, dir), PATH_EXTRA);
    EscapedIsInert(RecursiveUnescape(p.query).value, QUERY_EXTRA);
  }

  lemma PatternIsInert(name: bytes, p: Parts)
    requires WebName(name) && CanonicalParts(p)
    ensures Inert(WithQuery(p.path, p.query)) && Inert(p.host + WithQuery(p.path, p.query)) && Inert(AsUrl(name, p))
  {
    PartsAreInert(p);
    WithQueryIsInert(p.path, p.query);
    InertConcat(p.host, WithQuery(p.path, p.query));
    PatternCut(p);
    WebNameBytes(name);
    InertConcat(name + SCHEME_TAIL, Pattern(p));
  }

  lemma WithQueryIsInert(path: bytes, query: bytes)
    requires Inert(path) && Inert(query)
    ensures Inert(WithQuery(path, query))
  {
    if query != [] {
      PlainIsInert([QUESTION]);
      InertConcat(path, [QUESTION]);
      InertConcat(path + [QUESTION], query);
    }
  }

  /** The path and query of a resubmitted pattern. */
  function Resubmitted(p: Parts): bytes {
    WithQuery(BackslashToSlash(p.path), BackslashToSlash(p.query))
  }

  lemma ResubmittedText(name: bytes, p: Parts)
    requires WebName(name) && CanonicalParts(p)
    ensures BackslashToSlash(AsUrl(name, p)) == name + SCHEME_TAIL + p.host + Resubmitted(p)
    ensures Resubmitted(p) != [] && Resubmitted(p)[0] == SLASH
  {
    PatternCut(p);
    PartsAreInert(p);
    ConcatAssociates(name + SCHEME_TAIL, p.host, WithQuery(p.path, p.query));
    BackslashesBehind(name, p.host, WithQuery(p.path, p.query));
    BackslashesInQuery(p.path, p.query);
    SlashStays(WithQuery(p.path, p.query));
  }

  lemma SlashStays(s: bytes)
    requires s != [] && s[0] == SLASH
    ensures BackslashToSlash(s) != [] && BackslashToSlash(s)[0] == SLASH
  {
  }

  lemma BackslashesBehind(name: bytes, host: bytes, rest: bytes)
    requires WebName(name) && BACKSLASH !in host
    ensures BackslashToSlash(name + SCHEME_TAIL + host + rest) == name + SCHEME_TAIL + host + BackslashToSlash(rest)
  {
    BackslashesConcat(name + SCHEME_TAIL + host, rest);
    BackslashesConcat(name + SCHEME_TAIL, host);
    WebNameBytes(name);
    NoBackslashNoChange(name + SCHEME_TAIL);
    NoBackslashNoChange(host);
  }

  lemma BackslashesInQuery(path: bytes, query: bytes)
    ensures BackslashToSlash(WithQuery(path, query)) == WithQuery(BackslashToSlash(path), BackslashToSlash(query))
  {
    BackslashesGone(query);
    if query != [] {
      BackslashesConcat(path + [QUESTION], query);
      BackslashesConcat(path, [QUESTION]);
      NoBackslashNoChange([QUESTION]);
    }
  }

  /** A URL made of inert bytes with a clean host is left alone once its scheme is "http" or "https". */
  lemma CleanUrlPasses(name: bytes, host: bytes, rest: bytes)
    requires WebName(name) && CleanHost(host) && (rest != [] ==> IsDelimiter(rest[0]))
    requires Inert(name + SCHEME_TAIL + host + rest)
    ensures var url := name + SCHEME_TAIL + host + rest;
            && EscapeControl(EscapeLonePercent(url)) == url
            && DecodeAuthority(FixScheme(url)) == Some(url)
            && SplitsInto(url, name, host, rest)
  {
    var url := name + SCHEME_TAIL + host + rest;
    LonePercentsGone(url);
    InertSteps(url);
    JoinedUrlSplits(name, host, rest);
    DecodeAuthorityOf(url, name, host, rest);
    CleanHostIsDecoded(host);
    WebNameBytes(name);
  }

  /** A pattern submitted as a URL passes the steps before parsing with its host untouched
      and nothing changed but backslashes into slashes. */
  lemma PreprocessedPattern(name: bytes, p: Parts, trim: bytes -> bytes)
    requires WebName(name) && CanonicalParts(p) && trim(AsUrl(name, p)) == AsUrl(name, p)
    ensures var out := name + SCHEME_TAIL + p.host + Resubmitted(p);
            PreprocessUrl(AsUrl(name, p), trim) == Some(out) && SplitsInto(out, name, p.host, Resubmitted(p))
  {
    PatternIsInert(name, p);
    PartsAreInert(p);
    InertSteps(AsUrl(name, p));
    ResubmittedText(name, p);
    BackslashesKeepInert(AsUrl(name, p));
    CleanUrlPasses(name, p.host, Resubmitted(p));
  }

  // --- What becomes of the path and the query ---

  lemma {:induction false} EscapeBackslashes(s: bytes, extra: bytes)
    requires SLASH !in extra && BACKSLASH !in extra
    ensures BackslashToSlash(Escape(s, extra)) == Escape(BackslashToSlash(s), extra)
    decreases |s|
  {
    if s != [] {
      var c := s[0];
      EscapeBackslashes(s[1..], extra);
      BackslashesConcat(EscapeByte(c, extra), Escape(s[1..], extra));
      NoBackslashNoChange(EscapeByte(c, extra));
      var one: bytes := [BACKSLASH];
      assert c == BACKSLASH ==> EscapeByte(c, extra) == one && one[1..] == [] && BackslashToSlash(one) == [SLASH];
    }
  }

  /** The decoded form of an encoded string whose backslashes became slashes. */
  lemma DecodedWithoutBackslash(s: bytes, extra: bytes)
    requires EscapeFree(s) && SLASH !in extra && BACKSLASH !in extra
    ensures RecursiveUnescape(BackslashToSlash(Escape(s, extra))) == Some(BackslashToSlash(s))
  {
    var t := BackslashToSlash(s);
    BackslashesGone(s);
    assert forall i: nat :: i < |t| ==> EscapeAt(t, i) ==> EscapeAt(s, i);
    EscapeBackslashes(s, extra);
    RecursiveUnescapeEscape(t, extra);
  }

  /** Cleaning invents no byte but the slash. */
  lemma CleanPathBytes(q: bytes, c: byte)
    requires c !in q && c != SLASH
    ensures c !in CleanPath(q)
  {
    var body := if |q| > 0 && q[0] == SLASH then q[1..] else q;
    assert c !in body;
    SplitPieces(body, SLASH);
    SplitPieceBytes(body, c);
    ResolveKeeps([], PathSplit(q));
    JoinAvoids(Resolve([], PathSplit(q)), SLASH, c);
  }

  lemma {:induction false} SplitPieceBytes(s: bytes, c: byte)
    requires c !in s
    ensures forall p :: p in Split(s, SLASH) ==> c !in p
    decreases |s|
  {
    if s != [] {
      SplitPieceBytes(s[1..], c);
      var parts, rest := Split(s, SLASH), Split(s[1..], SLASH);
      assert rest[0] in rest;
      forall p | p in parts
        ensures c !in p
      {
        assert p == parts[0] || p in rest;
      }
    }
  }

  lemma ResubmittedPathResult(path: bytes)
    requires IsCanonicalPath(path)
    ensures CanonicalPath(BackslashToSlash(path)).Some?
    ensures BACKSLASH !in CanonicalPath(BackslashToSlash(path)).value
  {
    var segs, dir := CanonicalIsRendered(path);
    var s := Render(segs, dir);
    RenderEscapeFree(segs, dir);
    DecodedWithoutBackslash(s, PATH_EXTRA);
    NoBackslashNoChange(s);
    CleanPathBytes(BackslashToSlash(s), BACKSLASH);
    EscapeKeepsByte(CleanPath(BackslashToSlash(s)), PATH_EXTRA, BACKSLASH);
  }

  lemma ResubmittedPath(path: bytes)
    requires IsCanonicalPath(path)
    ensures CanonicalPath(BackslashToSlash(path)) == Some(path) <==> BACKSLASH !in path
  {
    NoBackslashNoChange(path);
    ResubmittedPathResult(path);
  }

  lemma ResubmittedQuery(query: bytes)
    requires CanonQuery(query) == Some(query)
    ensures CanonQuery(BackslashToSlash(query)) == Some(query) <==> BACKSLASH !in query
  {
    NoBackslashNoChange(query);
    RecursiveUnescapeExact(query);
    ResubmittedQueryBytes(RecursiveUnescape(query).value);
  }

  lemma ResubmittedQueryBytes(q: bytes)
    requires EscapeFree(q)
    ensures CanonQuery(BackslashToSlash(EscapeQuery(q))).Some?
    ensures BACKSLASH !in CanonQuery(BackslashToSlash(EscapeQuery(q))).value
  {
    DecodedWithoutBackslash(q, QUERY_EXTRA);
    NoBackslashNoChange(q);
    EscapeKeepsByte(BackslashToSlash(q), QUERY_EXTRA, BACKSLASH);
  }

  lemma PatternBackslash(p: Parts)
    requires CanonicalParts(p)
    ensures BACKSLASH in Pattern(p) <==> BACKSLASH in p.path || BACKSLASH in p.query
  {
    PartsAreInert(p);
  }

  /** Canonical parts stay the same exactly without a backslash. */
  lemma ResubmittedParts(p: Parts, toASCII: bytes -> Option<bytes>)
    requires CanonicalParts(p)
    ensures ParsePieces(p.host, BackslashToSlash(p.path), BackslashToSlash(p.query), toASCII) == Ok(p) <==>
            BACKSLASH !in Pattern(p)
  {
    PatternBackslash(p);
    HostIsFixed(p.host, toASCII);
    ResubmittedPath(p.path);
    ResubmittedQuery(p.query);
  }

  // --- The whole round ---

  /** The part of a URL before its first '?'. */
  function BeforeQuestion(s: bytes): (path: bytes)
    ensures path <= s && QUESTION !in path
    ensures |path| < |s| ==> s[|path|] == QUESTION
    decreases |s|
  {
    if s == [] || s[0] == QUESTION then [] else [s[0]] + BeforeQuestion(s[1..])
  }

  /** The part after it, "" without one. */
  function AfterQuestion(s: bytes): bytes {
    var n := |BeforeQuestion(s)|;
    if n < |s| then s[n + 1..] else []
  }

  lemma CutAtQuestion(path: bytes, query: bytes)
    requires QUESTION !in path
    ensures BeforeQuestion(WithQuery(path, query)) == path && AfterQuestion(WithQuery(path, query)) == query
  {
    var s := WithQuery(path, query);
    var n := |BeforeQuestion(s)|;
    var mark: bytes := if query == [] then [] else [QUESTION] + query;
    assert s == path + mark && s == s[..n] + s[n..];
    CutIsUnique(path, mark, s[..n], s[n..], QUESTION);
  }

  /** What a parser makes of a URL with an explicit scheme: its scheme, its authority as the host, and the pieces before
      and after the first '?', in which it may have encoded some more bytes. */
  ghost predicate HandsOver(url: bytes, u: Pieces, inPath: seq<nat>, inQuery: seq<nat>) {
    forall name, host, rest :: SplitsInto(url, name, host, rest) ==>
      && u.scheme == name && !u.isIPv6 && u.hostname == host
      && DecodesEitherWay(u.path, inPath) && DecodeSteps(u.path, inPath).value == BeforeQuestion(rest)
      && DecodesEitherWay(u.query, inQuery) && DecodeSteps(u.query, inQuery).value == AfterQuestion(rest)
  }

  lemma QuestionStays(p: Parts)
    requires CanonicalParts(p)
    ensures QUESTION !in BackslashToSlash(p.path)
  {
    PatternCut(p);
    BackslashesGone(p.path);
    forall i | 0 <= i < |p.path|
      ensures BackslashToSlash(p.path)[i] != QUESTION
    {
      assert p.path[i] in p.path;
    }
  }

  /** Canonicalizing a stored pattern again gives the same parts exactly when it holds no backslash. */
  lemma ResubmissionExact(name: bytes, p: Parts, lib: Libraries, u: Pieces, inPath: seq<nat>, inQuery: seq<nat>)
    requires WebName(name) && CanonicalParts(p) && lib.trim(AsUrl(name, p)) == AsUrl(name, p)
    requires var url := PreprocessUrl(AsUrl(name, p), lib.trim);
             url.Some? ==> lib.parse(url.value) == Some(u) && HandsOver(url.value, u, inPath, inQuery)
    ensures ParseUrl(AsUrl(name, p), lib) == Ok(p) <==> BACKSLASH !in Pattern(p)
  {
    PreprocessedPattern(name, p, lib.trim);
    QuestionStays(p);
    CutAtQuestion(BackslashToSlash(p.path), BackslashToSlash(p.query));
    PiecesMayBeDecoded(u.hostname, u.path, u.query, lib.toASCII, inPath, inQuery);
    ResubmittedParts(p, lib.toASCII);
    assert ParseUrl(AsUrl(name, p), lib) == PartsOf(u, lib.toASCII);
  }

  /** "/a\b" is a canonical path: the byte comes from an escape. Submitted again it becomes "/a/b". */
  lemma BackslashIsUnstable()
    ensures var path: bytes := [SLASH, 0x61, BACKSLASH, 0x62];
            IsCanonicalPath(path) && CanonicalPath(BackslashToSlash(path)) != Some(path)
  {
    var seg: bytes := [0x61, BACKSLASH, 0x62];
    var segs: segments := [seg];
    var path: bytes := [SLASH, 0x61, BACKSLASH, 0x62];
    assert Render(segs, false) == path;
    assert PlainSegment(seg) && forall s :: s in segs ==> s == seg;
    RenderedIsCanonical(segs, false);
    EscapesNothing(path);
    assert path[2] == BACKSLASH;
    ResubmittedPath(path);
  }
}
