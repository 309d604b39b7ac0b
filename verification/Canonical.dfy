/** From a raw URL to its canonical parts, on the feed side and on the lookup side. */
module Canonical {
  import opened Bytes
  import opened PercentDecoding
  import opened PercentEncoding
  import opened CanonPath
  import opened DotSegments
  import opened DotPaths
  import opened HostSuffixes
  import opened IpAddress
  import opened IpLiteral
  import opened Preprocess
  import opened Authority
  import opened Candidates
  import opened CanonHost

  /** What a URL parser hands over. */
  datatype Pieces = Pieces(scheme: bytes, isIPv6: bool, hostname: bytes, path: bytes, query: bytes)

  /** What a side takes from its libraries: trimming white space, parsing, None where it fails, and the IDNA mapping. */
  datatype Libraries = Libraries(trim: bytes -> bytes, parse: bytes -> Option<Pieces>, toASCII: bytes -> Option<bytes>)

  predicate IsWeb(u: Pieces) {
    u.scheme == HTTP || u.scheme == HTTPS
  }

  /** The parts of a URL that the parser has split, or why it has none. */
  function PartsOf(u: Pieces, toASCII: bytes -> Option<bytes>): Result<Parts> {
    if !IsWeb(u) then Err(Invalid)
    else if u.isIPv6 then Err(IpHost)
    else ParsePieces(u.hostname, u.path, u.query, toASCII)
  }

  /** The feed side. */
  function ParseUrl(raw: bytes, lib: Libraries): Result<Parts> {
    var url := PreprocessUrl(raw, lib.trim);
    if url.None? then Err(Invalid)
    else
      var u := lib.parse(url.value);
      if u.None? then Err(Invalid) else PartsOf(u.value, lib.toASCII)
  }

  /** The pattern of a raw URL of a feed, None when it has none. */
  function CanonicalPattern(raw: bytes, lib: Libraries): Option<bytes> {
    var p := ParseUrl(raw, lib);
    if p.Err? then None else Some(Pattern(p.value))
  }

  function Canonicalizer(lib: Libraries): bytes -> Option<bytes> {
    raw => CanonicalPattern(raw, lib)
  }

  // --- The lookup side ---

  /** The browser's parser encodes control bytes and decodes the host itself. */
  function PreprocessSubmitted(raw: bytes, trim: bytes -> bytes): bytes {
    FixScheme(EscapeLonePercent(BackslashToSlash(WithoutLineBreaks(trim(UntilFragment(raw))))))
  }

  /** The parser has mapped the host already. */
  function SubmittedHost(h: bytes): Result<bytes> {
    var folded := FoldHost(h);
    if ParseIP(TsParseUint, folded) != [] then Err(IpHost)
    else if !IsHost(folded) then Err(Invalid)
    else Ok(folded)
  }

  /** An error of the decoder ends a lookup like any other. */
  function SubmittedParts(u: Pieces): Result<Parts> {
    if !IsWeb(u) then Err(Invalid)
    else if u.isIPv6 then Err(IpHost)
    else
      var host := SubmittedHost(u.hostname);
      if host.Err? then Err(host.error)
      else if CanonicalPath(u.path).None? || CanonQuery(u.query).None? then Err(Invalid)
      else Ok(Parts(host.value, CanonicalPath(u.path).value, CanonQuery(u.query).value))
  }

  function ParseSubmitted(raw: bytes, lib: Libraries): Result<Parts> {
    var u := lib.parse(PreprocessSubmitted(raw, lib.trim));
    if u.None? then Err(Invalid) else SubmittedParts(u.value)
  }

  // --- What the two parsers are handed ---

  lemma {:induction false} ControlConcat(a: bytes, b: bytes)
    requires forall c :: c in a ==> !IsControl(c)
    ensures EscapeControl(a + b) == a + EscapeControl(b)
    decreases |a|
  {
    if a == [] {
      assert a + b == b;
    } else {
      assert a[0] in a;
      TailMembers(a);
      assert (a + b)[1..] == a[1..] + b;
      ControlConcat(a[1..], b);
    }
  }

  /** Encoding control bytes neither makes nor breaks a "://" at the front. */
  lemma ControlTail(s: bytes)
    ensures SCHEME_TAIL <= EscapeControl(s) <==> SCHEME_TAIL <= s
    ensures SCHEME_TAIL <= s ==> EscapeControl(s) == SCHEME_TAIL + EscapeControl(s[3..])
  {
    if SCHEME_TAIL <= s {
      assert s == SCHEME_TAIL + s[3..];
      ControlConcat(SCHEME_TAIL, s[3..]);
    } else if SCHEME_TAIL <= EscapeControl(s) {
      ControlStart(s, 0);
      ControlStart(s, 1);
      ControlStart(s, 2);
    }
  }

  /** Bytes that no escape holds are where they were, as long as only such bytes come before them. */
  lemma {:induction false} ControlStart(s: bytes, k: nat)
    requires k < |EscapeControl(s)|
    requires forall i :: 0 <= i <= k ==> EscapeControl(s)[i] == COLON || EscapeControl(s)[i] == SLASH
    ensures k < |s| && s[k] == EscapeControl(s)[k]
    decreases k
  {
    if k > 0 {
      assert EscapeControl(s)[0] == COLON || EscapeControl(s)[0] == SLASH;
      assert EscapeControl(s)[1..] == EscapeControl(s[1..]);
      ControlStart(s[1..], k - 1);
    }
  }

  lemma {:induction false} ControlKeepsRun(s: bytes)
    ensures SchemeRun(EscapeControl(s)) == SchemeRun(s)
    decreases |s|
  {
    if s != [] && IsSchemeByte(s[0]) {
      ControlKeepsRun(s[1..]);
      assert EscapeControl(s)[1..] == EscapeControl(s[1..]);
    }
  }

  lemma ControlBehindRun(s: bytes)
    ensures EscapeControl(s) == s[..SchemeRun(s)] + EscapeControl(s[SchemeRun(s)..])
  {
    var n := SchemeRun(s);
    assert s == s[..n] + s[n..];
    ControlConcat(s[..n], s[n..]);
  }

  lemma SchemeByTail(s: bytes)
    ensures var n := SchemeRun(s);
            Scheme(s) == if n > 0 && IsLetter(s[0]) && SCHEME_TAIL <= s[n..] then Some(s[..n]) else None
  {
    var n := SchemeRun(s);
    if n + 3 <= |s| {
      assert s[n..][..3] == s[n..n + 3];
    }
  }

  lemma ControlKeepsScheme(s: bytes)
    ensures Scheme(EscapeControl(s)) == Scheme(s)
    ensures AfterScheme(EscapeControl(s)) == EscapeControl(AfterScheme(s))
  {
    var n, t := SchemeRun(s), EscapeControl(s);
    ControlKeepsRun(s);
    ControlBehindRun(s);
    SchemeByTail(s);
    SchemeByTail(t);
    assert t[..n] == s[..n] && t[n..] == EscapeControl(s[n..]);
    ControlTail(s[n..]);
    assert n > 0 ==> t[0] == s[0];
    if Scheme(s).Some? {
      assert s[n..][3..] == s[n + 3..] && t[n..][3..] == t[n + 3..];
    }
  }

  /** The scheme name that a URL with this one ends up with. */
  function FixedName(name: bytes): bytes {
    if ToLower(name) == FTPS || ToLower(name) == SFTP then HTTPS else name
  }

  lemma FixSchemeNamed(s: bytes)
    requires Scheme(s).Some?
    ensures FixScheme(s) == FixedName(Scheme(s).value) + SCHEME_TAIL + AfterScheme(s)
  {
    SchemeParts(s);
    var from := SchemeEnd(Scheme(s).value);
    assert s == s[..from] + s[from..];
  }

  lemma ControlBehindName(s: bytes, rest: bytes)
    requires Scheme(s).Some?
    ensures var start := FixedName(Scheme(s).value) + SCHEME_TAIL;
            EscapeControl(start + rest) == start + EscapeControl(rest)
  {
    var name := FixedName(Scheme(s).value);
    SchemeParts(s);
    forall c | c in name + SCHEME_TAIL
      ensures !IsControl(c)
    {
      assert c in name || c in SCHEME_TAIL;
    }
    ControlConcat(name + SCHEME_TAIL, rest);
  }

  /** The feed side's parser is handed what the lookup side's parser is handed, with control bytes encoded and the
      authority decoded. */
  lemma PreprocessingsAgree(raw: bytes, trim: bytes -> bytes)
    ensures PreprocessUrl(raw, trim) == DecodeAuthority(EscapeControl(PreprocessSubmitted(raw, trim)))
  {
    FixSchemeAfterControl(EscapeLonePercent(BackslashToSlash(WithoutLineBreaks(trim(UntilFragment(raw))))));
  }

  lemma FixSchemeAfterControl(s: bytes)
    ensures FixScheme(EscapeControl(s)) == EscapeControl(FixScheme(s))
  {
    ControlKeepsScheme(s);
    if Scheme(s).None? {
      ControlConcat(HTTP + SCHEME_TAIL, s);
    } else {
      FixSchemeNamed(s);
      FixSchemeNamed(EscapeControl(s));
      ControlBehindName(s, AfterScheme(s));
    }
  }

  // --- What both sides promise ---

  function AsGiven(h: bytes): Option<bytes> {
    Some(h)
  }

  lemma SidesComputeTheSame(u: Pieces)
    ensures SubmittedParts(u) == PartsOf(u, AsGiven)
  {
    SidesAgree(FoldHost(u.hostname));
  }

  lemma PartsAreCanonical(u: Pieces, toASCII: bytes -> Option<bytes>)
    requires PartsOf(u, toASCII).Ok?
    ensures CanonicalParts(PartsOf(u, toASCII).value)
  {
    var p := PartsOf(u, toASCII).value;
    assert ParsePieces(u.hostname, u.path, u.query, toASCII) == Ok(p);
    ParsePiecesResult(p, toASCII);
  }

  /** The feed side returns canonical parts or an error. */
  lemma ParsedIsCanonical(raw: bytes, lib: Libraries)
    requires ParseUrl(raw, lib).Ok?
    ensures CanonicalParts(ParseUrl(raw, lib).value)
  {
    PartsAreCanonical(lib.parse(PreprocessUrl(raw, lib.trim).value).value, lib.toASCII);
  }

  /** So does the lookup side. */
  lemma SubmittedIsCanonical(u: Pieces)
    requires SubmittedParts(u).Ok?
    ensures CanonicalParts(SubmittedParts(u).value)
  {
    SidesComputeTheSame(u);
    PartsAreCanonical(u, AsGiven);
  }

  /** Two spellings with the same normal form, or two that the decoder refuses. */
  ghost predicate SpellAlike(a: bytes, b: bytes) {
    if RecursiveUnescape(a).Some? && RecursiveUnescape(b).Some? then Normal(a) == Normal(b)
    else RecursiveUnescape(a).None? && RecursiveUnescape(b).None?
  }

  /** Spellings are alike exactly when they decode alike, and encoding or decoding some bytes more keeps them alike. */
  lemma SpellAlikeExact(a: bytes, b: bytes)
    ensures SpellAlike(a, b) <==> RecursiveUnescape(a) == RecursiveUnescape(b)
    ensures forall at :: DecodesEitherWay(a, at) && DecodeSteps(a, at) == Some(b) ==> SpellAlike(a, b) && SpellAlike(b, a)
  {
    RecursiveUnescapeExact(a);
    RecursiveUnescapeExact(b);
    forall at | DecodesEitherWay(a, at) && DecodeSteps(a, at) == Some(b)
      ensures RecursiveUnescape(a) == RecursiveUnescape(b)
    {
      SpellingDoesNotMatter(a, at);
    }
  }

  /** `b` spells the path `a`, possibly after the dot segments have been resolved without losing a segment. */
  ghost predicate SamePath(a: bytes, b: bytes) {
    || SpellAlike(a, b)
    || (PlainlySpelled(PathSplit(a)) && !Loses(PathSplit(a)) && SpellAlike(ResolveDots(a), b))
  }

  lemma SamePathResult(a: bytes, b: bytes)
    requires SamePath(a, b)
    ensures CanonicalPath(b) == CanonicalPath(a)
  {
    SpellAlikeExact(a, b);
    if !SpellAlike(a, b) {
      SpellAlikeExact(ResolveDots(a), b);
      DotsMayBeResolved(a);
    }
  }

  /** `v` is another spelling of `u`: the mapped host up to letter case and extra dots, the query with any bytes encoded
      or decoded, and the path as well or with its dot segments resolved. */
  ghost predicate Respells(v: Pieces, u: Pieces, toASCII: bytes -> Option<bytes>) {
    && (IsWeb(v) <==> IsWeb(u)) && v.isIPv6 == u.isIPv6
    && Mapped(u.hostname, toASCII).Some? && SameLabels(Mapped(u.hostname, toASCII).value, v.hostname)
    && SamePath(u.path, v.path) && SpellAlike(u.query, v.query)
  }

  /** The two sides find the same parts, or the same error, in two spellings of a URL. */
  lemma SidesFindTheSameParts(u: Pieces, v: Pieces, toASCII: bytes -> Option<bytes>)
    requires Respells(v, u, toASCII)
    ensures SubmittedParts(v) == PartsOf(u, toASCII)
  {
    SidesComputeTheSame(v);
    HostIsRespelled(u.hostname, v.hostname, toASCII);
    SamePathResult(u.path, v.path);
    SameQueryResult(u.query, v.query);
    PartsByPieces(u, v, toASCII, AsGiven);
  }

  lemma SameQueryResult(a: bytes, b: bytes)
    requires SpellAlike(a, b)
    ensures CanonQuery(b) == CanonQuery(a)
  {
    SpellAlikeExact(a, b);
  }

  lemma PartsByPieces(u: Pieces, v: Pieces, f: bytes -> Option<bytes>, g: bytes -> Option<bytes>)
    requires (IsWeb(v) <==> IsWeb(u)) && v.isIPv6 == u.isIPv6
    requires CanonicalHost(v.hostname, g) == CanonicalHost(u.hostname, f)
    requires CanonicalPath(v.path) == CanonicalPath(u.path) && CanonQuery(v.query) == CanonQuery(u.query)
    ensures PartsOf(v, g) == PartsOf(u, f)
  {
  }

  lemma HostIsRespelled(h: bytes, respelled: bytes, toASCII: bytes -> Option<bytes>)
    requires Mapped(h, toASCII).Some? && SameLabels(Mapped(h, toASCII).value, respelled)
    ensures CanonicalHost(respelled, AsGiven) == CanonicalHost(h, toASCII)
  {
    FoldHostExact(Mapped(h, toASCII).value, respelled);
  }

  // --- Which URLs have parts ---

  /** Both schemes are accepted alike, and no other one. */
  lemma SchemesAlike(u: Pieces, toASCII: bytes -> Option<bytes>)
    ensures PartsOf(u.(scheme := HTTP), toASCII) == PartsOf(u.(scheme := HTTPS), toASCII)
    ensures SubmittedParts(u.(scheme := HTTP)) == SubmittedParts(u.(scheme := HTTPS))
    ensures u.scheme != HTTP && u.scheme != HTTPS ==> PartsOf(u, toASCII) == SubmittedParts(u) == Err(Invalid)
    ensures (u.scheme == HTTP || u.scheme == HTTPS) && u.isIPv6 ==> PartsOf(u, toASCII) == SubmittedParts(u) == Err(IpHost)
  {
    SidesComputeTheSame(u);
  }

  /** A web URL has the parts its host, path and query have, and none exactly when one of them has none. */
  lemma PartsExact(u: Pieces, toASCII: bytes -> Option<bytes>, p: Parts)
    requires (u.scheme == HTTP || u.scheme == HTTPS) && !u.isIPv6
    ensures PartsOf(u, toASCII) == Ok(p) <==>
            && CanonicalHost(u.hostname, toASCII) == Ok(p.host)
            && CanonicalPath(u.path) == Some(p.path) && CanonQuery(u.query) == Some(p.query)
    ensures PartsOf(u, toASCII) == Err(IpHost) <==> CanonicalHost(u.hostname, toASCII) == Err(IpHost)
  {
  }

  /** In particular every host that matches the pattern is accepted, with every path and query that can be decoded. */
  lemma WebUrlIsAccepted(u: Pieces, toASCII: bytes -> Option<bytes>)
    requires (u.scheme == HTTP || u.scheme == HTTPS) && !u.isIPv6 && IsHost(u.hostname)
    requires RecursiveUnescape(u.path).Some? && RecursiveUnescape(u.query).Some?
    ensures CanonicalPath(u.path).Some? && CanonQuery(u.query).Some?
    ensures var p := Parts(u.hostname, CanonicalPath(u.path).value, CanonQuery(u.query).value);
            PartsOf(u, toASCII) == Ok(p) && SubmittedParts(u) == Ok(p)
  {
    HostIsFixed(u.hostname, toASCII);
    HostIsFixed(u.hostname, AsGiven);
    SidesComputeTheSame(u);
    PartsExact(u, toASCII, Parts(u.hostname, CanonicalPath(u.path).value, CanonQuery(u.query).value));
    PartsExact(u, AsGiven, Parts(u.hostname, CanonicalPath(u.path).value, CanonQuery(u.query).value));
  }

  /** A raw URL has the parts of what its parser makes of it after the steps before parsing, and none when one of the
      steps or the parser fails. */
  lemma ParsedExact(raw: bytes, lib: Libraries, url: bytes, u: Pieces)
    ensures PreprocessUrl(raw, lib.trim).None? ==> ParseUrl(raw, lib) == Err(Invalid)
    ensures PreprocessUrl(raw, lib.trim) == Some(url) && lib.parse(url).None? ==> ParseUrl(raw, lib) == Err(Invalid)
    ensures PreprocessUrl(raw, lib.trim) == Some(url) && lib.parse(url) == Some(u) ==>
              ParseUrl(raw, lib) == PartsOf(u, lib.toASCII)
  {
  }

  lemma SubmittedExact(raw: bytes, lib: Libraries, u: Pieces)
    ensures lib.parse(PreprocessSubmitted(raw, lib.trim)).None? ==> ParseSubmitted(raw, lib) == Err(Invalid)
    ensures lib.parse(PreprocessSubmitted(raw, lib.trim)) == Some(u) ==> ParseSubmitted(raw, lib) == SubmittedParts(u)
  {
  }
}
