/** Finding and decoding the authority of a URL, and the whole step before parsing. */
module Authority {
  import opened Bytes
  import opened PercentDecoding
  import opened Preprocess

  const COLON: byte := 0x3a
  const BACKSLASH: byte := 0x5c
  const SCHEME_TAIL: bytes := [COLON, SLASH, SLASH]
  const HTTP: bytes := [0x68, 0x74, 0x74, 0x70] // "http"
  const HTTPS: bytes := [0x68, 0x74, 0x74, 0x70, 0x73] // "https"
  const FTPS: bytes := [0x66, 0x74, 0x70, 0x73] // "ftps"
  const SFTP: bytes := [0x73, 0x66, 0x74, 0x70] // "sftp"

  /** The forbidden host code points, '%' included. */
  const FORBIDDEN: bytes :=
    [0x00, 0x09, 0x0a, 0x0d, SPACE, NUMBER_SIGN, PERCENT, SLASH, COLON, 0x3c, 0x3e, QUESTION, AT,
     0x5b, BACKSLASH, 0x5d, 0x5e, 0x7c]

  // --- The scheme ---

  predicate IsLetter(c: byte) {
    0x41 <= c <= 0x5a || 0x61 <= c <= 0x7a
  }

  predicate IsSchemeByte(c: byte) {
    IsLetter(c) || IsDigit(c) || c == 0x2b || c == DOT || c == 0x2d
  }

  /** The length of the longest prefix of scheme bytes. */
  function SchemeRun(s: bytes): (n: nat)
    ensures n <= |s|
    ensures forall i :: 0 <= i < n ==> IsSchemeByte(s[i])
    ensures n < |s| ==> !IsSchemeByte(s[n])
    decreases |s|
  {
    if s == [] || !IsSchemeByte(s[0]) then 0 else 1 + SchemeRun(s[1..])
  }

  /** The scheme name of "scheme://...", None without an explicit scheme. */
  function Scheme(s: bytes): Option<bytes> {
    var n := SchemeRun(s);
    if n > 0 && IsLetter(s[0]) && n + 3 <= |s| && s[n..n + 3] == SCHEME_TAIL then Some(s[..n]) else None
  }

  /** Where a URL with the given scheme name has its authority. */
  function SchemeEnd(name: bytes): nat {
    |name| + 3
  }

  lemma SchemeOf(name: bytes, rest: bytes)
    requires name != [] && IsLetter(name[0]) && forall c :: c in name ==> IsSchemeByte(c)
    ensures Scheme(name + SCHEME_TAIL + rest) == Some(name)
  {
    var s := name + SCHEME_TAIL + rest;
    var n := SchemeRun(s);
    assert s[|name|] == COLON && s[|name|..|name| + 3] == SCHEME_TAIL;
    assert forall i :: 0 <= i < |name| ==> s[i] == name[i] && name[i] in name;
    assert n == |name|;
    assert s[..|name|] == name;
  }

  lemma SchemeParts(s: bytes)
    requires Scheme(s).Some?
    ensures var name := Scheme(s).value;
            && SchemeEnd(name) <= |s| && s[..SchemeEnd(name)] == name + SCHEME_TAIL
            && name != [] && IsLetter(name[0]) && forall c :: c in name ==> IsSchemeByte(c)
  {
  }

  // --- The authority ---

  predicate IsDelimiter(c: byte) {
    c == SLASH || c == QUESTION || c == NUMBER_SIGN
  }

  /** The length of the longest prefix without '/', '?' and '#'. */
  function AuthorityLength(s: bytes): (n: nat)
    ensures n <= |s|
    ensures forall i :: 0 <= i < n ==> !IsDelimiter(s[i])
    ensures n < |s| ==> IsDelimiter(s[n])
    decreases |s|
  {
    if s == [] || IsDelimiter(s[0]) then 0 else 1 + AuthorityLength(s[1..])
  }

  /** What follows the last '@'. */
  function AfterUserinfo(s: bytes): (h: bytes)
    ensures |h| <= |s| && h == s[|s| - |h|..]
    ensures AT !in h
    ensures AT !in s ==> h == s
    decreases |s|
  {
    if s == [] then []
    else if s[|s| - 1] == AT then []
    else
      var h := AfterUserinfo(s[..|s| - 1]) + [s[|s| - 1]];
      assert s == s[..|s| - 1] + [s[|s| - 1]];
      h
  }

  /** One decoding pass over the host, None when it yields a forbidden byte. */
  function DecodeHost(host: bytes): Option<bytes>
    decreases |host|
  {
    if host == [] then Some([])
    else if EscapeAt(host, 0) then
      var c := DecodedByte(host[1], host[2]);
      if c in FORBIDDEN then None
      else Prepend([c], DecodeHost(host[3..]))
    else Prepend([host[0]], DecodeHost(host[1..]))
  }

  function Prepend(s: bytes, r: Option<bytes>): Option<bytes> {
    if r.None? then None else Some(s + r.value)
  }

  function DecodeAuthority(raw: bytes): Option<bytes> {
    var name := Scheme(raw);
    if name.None? then Some(raw)
    else
      var from := SchemeEnd(name.value);
      var rest := raw[from..];
      var n := AuthorityLength(rest);
      var host := DecodeHost(AfterUserinfo(rest[..n]));
      if host.None? then None else Some(raw[..from] + host.value + rest[n..])
  }

  lemma PrependTwice(a: bytes, b: bytes, r: Option<bytes>)
    ensures Prepend(a + b, r) == Prepend(a, Prepend(b, r))
  {
    if r.Some? {
      assert a + b + r.value == a + (b + r.value);
    }
  }

  /** The loop over the host, with its early exit. */
  method DecodeHostLoop(host: bytes) returns (r: Option<bytes>)
    ensures r == DecodeHost(host)
  {
    var out := [];
    var i := 0;
    assert host[0..] == host;
    assert DecodeHost(host).Some? ==> [] + DecodeHost(host).value == DecodeHost(host).value;
    while i < |host|
      invariant i <= |host|
      invariant DecodeHost(host) == Prepend(out, DecodeHost(host[i..]))
    {
      ghost var rest := host[i..];
      ghost var before := out;
      assert EscapeAt(rest, 0) <==> EscapeAt(host, i);
      assert rest[1..] == host[i + 1..];
      if host[i] == PERCENT && i + 2 < |host| && IsHex(host[i + 1]) && IsHex(host[i + 2]) {
        assert rest[3..] == host[i + 3..];
        var c := DecodedByte(host[i + 1], host[i + 2]);
        if c in FORBIDDEN {
          return None;
        }
        out := out + [c];
        i := i + 3;
        PrependTwice(before, [c], DecodeHost(rest[3..]));
        continue;
      }
      out := out + [host[i]];
      PrependTwice(before, [host[i]], DecodeHost(rest[1..]));
      i := i + 1;
    }
    assert out + [] == out;
    return Some(out);
  }

  /** Decoding the host succeeds exactly when no escape in it stands for a forbidden byte, and is then one plain pass. */
  lemma {:induction false} DecodeHostExact(host: bytes)
    ensures DecodeHost(host).Some? <==>
            forall i: nat :: EscapeAt(host, i) ==> DecodedByte(host[i + 1], host[i + 2]) !in FORBIDDEN
    ensures DecodeHost(host).Some? ==> DecodeHost(host).value == Unescape(host)
    decreases |host|
  {
    if host != [] {
      var k := if EscapeAt(host, 0) then 3 else 1;
      DecodeHostExact(host[k..]);
      ForbiddenBehind(host, k);
    }
  }

  /** An escape of a forbidden byte is the first one or one behind it. */
  lemma ForbiddenBehind(host: bytes, k: nat)
    requires host != [] && k == if EscapeAt(host, 0) then 3 else 1
    ensures (forall i: nat :: EscapeAt(host, i) ==> DecodedByte(host[i + 1], host[i + 2]) !in FORBIDDEN) <==>
            && (EscapeAt(host, 0) ==> DecodedByte(host[1], host[2]) !in FORBIDDEN)
            && forall i: nat :: EscapeAt(host[k..], i) ==>
                 DecodedByte(host[k..][i + 1], host[k..][i + 2]) !in FORBIDDEN
  {
    var rest := host[k..];
    assert forall i: nat :: i < |rest| ==> (EscapeAt(rest, i) <==> EscapeAt(host, i + k)) && rest[i] == host[i + k];
    forall i: nat | EscapeAt(host, i) && i > 0
      ensures i >= k && EscapeAt(rest, i - k)
    {
    }
  }

  /** Bytes a decoded host is free of when every '%' of the host started an escape. */
  predicate CleanHost(h: bytes) {
    AT !in h && PERCENT !in h && forall c :: c in h ==> !IsDelimiter(c)
  }

  lemma {:induction false} DecodeHostIsClean(host: bytes)
    requires PercentsValid(host) && AT !in host && forall c :: c in host ==> !IsDelimiter(c)
    requires DecodeHost(host).Some?
    ensures CleanHost(DecodeHost(host).value)
    decreases |host|
  {
    if host != [] {
      PercentsValidTail(host);
      if EscapeAt(host, 0) {
        PercentsValidTail(host[1..]);
        assert host[1..][1..] == host[2..];
        PercentsValidTail(host[2..]);
        assert host[2..][1..] == host[3..];
        DecodeHostIsClean(host[3..]);
      } else {
        assert host[0] in host;
        DecodeHostIsClean(host[1..]);
      }
    }
  }

  lemma {:induction false} CleanHostIsDecoded(h: bytes)
    requires PERCENT !in h
    ensures DecodeHost(h) == Some(h)
    decreases |h|
  {
    if h != [] {
      assert h[0] in h;
      CleanHostIsDecoded(h[1..]);
      assert h == [h[0]] + h[1..];
    }
  }

  /** A slice whose end falls on no escape keeps its escapes. */
  lemma SliceKeepsPercents(s: bytes, from: nat, to: nat)
    requires from <= to <= |s| && PercentsValid(s)
    requires to < |s| ==> IsDelimiter(s[to])
    ensures PercentsValid(s[from..to])
  {
    var t := s[from..to];
    forall i: nat | i < |t| && t[i] == PERCENT
      ensures EscapeAt(t, i)
    {
      assert EscapeAt(s, from + i);
    }
  }

  lemma AuthorityLengthOf(h: bytes, rest: bytes)
    requires forall c :: c in h ==> !IsDelimiter(c)
    requires rest != [] ==> IsDelimiter(rest[0])
    ensures AuthorityLength(h + rest) == |h|
  {
    var s := h + rest;
    var n := AuthorityLength(s);
    assert forall i :: 0 <= i < |h| ==> s[i] == h[i] && h[i] in h;
    assert rest != [] ==> s[|h|] == rest[0];
  }

  /** A URL taken apart at its authority. */
  ghost predicate SplitsInto(url: bytes, name: bytes, host: bytes, rest: bytes) {
    && url == name + SCHEME_TAIL + host + rest
    && Scheme(url) == Some(name)
    && AuthorityLength(url[SchemeEnd(name)..]) == |host|
  }

  lemma JoinedUrlSplits(name: bytes, host: bytes, rest: bytes)
    requires name != [] && IsLetter(name[0]) && forall c :: c in name ==> IsSchemeByte(c)
    requires forall c :: c in host ==> !IsDelimiter(c)
    requires rest != [] ==> IsDelimiter(rest[0])
    ensures SplitsInto(name + SCHEME_TAIL + host + rest, name, host, rest)
  {
    var url := name + SCHEME_TAIL + host + rest;
    assert url == name + SCHEME_TAIL + (host + rest);
    SchemeOf(name, host + rest);
    assert url[SchemeEnd(name)..] == host + rest;
    AuthorityLengthOf(host, rest);
  }

  lemma UrlSplits(url: bytes) returns (name: bytes, authority: bytes, rest: bytes)
    requires Scheme(url).Some?
    ensures SplitsInto(url, name, authority, rest)
    ensures name != [] && IsLetter(name[0]) && forall c :: c in name ==> IsSchemeByte(c)
    ensures forall c :: c in authority ==> !IsDelimiter(c)
    ensures rest != [] ==> IsDelimiter(rest[0])
  {
    name := Scheme(url).value;
    SchemeParts(url);
    var from := SchemeEnd(name);
    var n := AuthorityLength(url[from..]);
    CutTwice(url, from, n);
    authority, rest := url[from..][..n], url[from..][n..];
    JoinedUrlSplits(name, authority, rest);
  }

  lemma CutTwice(s: bytes, from: nat, n: nat)
    requires from + n <= |s|
    ensures s == s[..from] + s[from..][..n] + s[from..][n..]
  {
  }

  /** Only the authority of a URL is decoded. */
  lemma DecodeAuthorityOf(url: bytes, name: bytes, authority: bytes, rest: bytes)
    requires SplitsInto(url, name, authority, rest)
    ensures DecodeAuthority(url) ==
            match DecodeHost(AfterUserinfo(authority))
            case None => None
            case Some(host) => Some(name + SCHEME_TAIL + host + rest)
  {
    var from := SchemeEnd(name);
    assert url[..from] == name + SCHEME_TAIL && url[from..] == authority + rest;
    assert url[from..][..|authority|] == authority && url[from..][|authority|..] == rest;
  }

  /** When every '%' starts an escape, a successful decoding leaves a clean authority behind,
      keeps the scheme and everything after the authority, and has nothing left to do. */
  lemma DecodeAuthorityResult(raw: bytes) returns (name: bytes, authority: bytes, host: bytes, rest: bytes)
    requires PercentsValid(raw) && Scheme(raw).Some? && DecodeAuthority(raw).Some?
    ensures SplitsInto(raw, name, authority, rest)
    ensures SplitsInto(DecodeAuthority(raw).value, name, host, rest)
    ensures host == Unescape(AfterUserinfo(authority)) && CleanHost(host)
    ensures DecodeAuthority(DecodeAuthority(raw).value) == DecodeAuthority(raw)
  {
    name, authority, rest := UrlSplits(raw);
    DecodeAuthorityOf(raw, name, authority, rest);
    AuthorityKeepsPercents(raw, name, authority, rest);
    HostKeepsPercents(authority);
    DecodeHostIsClean(AfterUserinfo(authority));
    DecodeHostExact(AfterUserinfo(authority));
    host := DecodeHost(AfterUserinfo(authority)).value;
    JoinedUrlSplits(name, host, rest);
    CleanHostIsDecoded(host);
    DecodeAuthorityOf(name + SCHEME_TAIL + host + rest, name, host, rest);
  }

  lemma AuthorityKeepsPercents(url: bytes, name: bytes, authority: bytes, rest: bytes)
    requires PercentsValid(url) && SplitsInto(url, name, authority, rest) && (rest != [] ==> IsDelimiter(rest[0]))
    ensures PercentsValid(authority)
  {
    var to := SchemeEnd(name) + |authority|;
    assert authority == url[SchemeEnd(name)..to] && url[to..] == rest;
    SliceKeepsPercents(url, SchemeEnd(name), to);
  }

  /** The host keeps the escapes of the authority, and holds neither delimiters nor userinfo. */
  lemma HostKeepsPercents(authority: bytes)
    requires PercentsValid(authority) && forall c :: c in authority ==> !IsDelimiter(c)
    ensures var h := AfterUserinfo(authority);
            PercentsValid(h) && AT !in h && forall c :: c in h ==> !IsDelimiter(c)
  {
    var n := |authority| - |AfterUserinfo(authority)|;
    SliceKeepsPercents(authority, n, |authority|);
    assert authority[n..|authority|] == AfterUserinfo(authority);
    assert forall c :: c in authority[n..] ==> c in authority;
  }

  // --- The whole step ---

  function UntilFragment(s: bytes): (t: bytes)
    ensures t <= s && NUMBER_SIGN !in t
    decreases |s|
  {
    if s == [] || s[0] == NUMBER_SIGN then [] else [s[0]] + UntilFragment(s[1..])
  }

  function WithoutLineBreaks(s: bytes): bytes
    decreases |s|
  {
    if s == [] then []
    else if s[0] == 0x09 || s[0] == 0x0d || s[0] == 0x0a then WithoutLineBreaks(s[1..])
    else [s[0]] + WithoutLineBreaks(s[1..])
  }

  function BackslashToSlash(s: bytes): bytes
    decreases |s|
  {
    if s == [] then [] else [if s[0] == BACKSLASH then SLASH else s[0]] + BackslashToSlash(s[1..])
  }

  function ToLower(s: bytes): (t: bytes)
    ensures |t| == |s|
    ensures forall i :: 0 <= i < |s| ==> t[i] == LowerByte(s[i])
    decreases |s|
  {
    if s == [] then [] else [LowerByte(s[0])] + ToLower(s[1..])
  }

  /** Schemeless URLs get "http", "ftps" and "sftp" become "https". */
  function FixScheme(raw: bytes): bytes {
    var name := Scheme(raw);
    if name.None? then HTTP + SCHEME_TAIL + raw
    else if ToLower(name.value) == FTPS || ToLower(name.value) == SFTP then
      HTTPS + SCHEME_TAIL + raw[SchemeEnd(name.value)..]
    else raw
  }

  /** Everything before the authority is decoded, after trimming white space. */
  function Escaped(trimmed: bytes): bytes {
    EscapeControl(EscapeLonePercent(BackslashToSlash(WithoutLineBreaks(trimmed))))
  }

  /** None when a host byte is forbidden. Trimming Unicode white space is the caller's. */
  function PreprocessUrl(raw: bytes, trim: bytes -> bytes): Option<bytes> {
    DecodeAuthority(FixScheme(Escaped(trim(UntilFragment(raw)))))
  }

  /** What follows "scheme://", or the whole string without a scheme. */
  function AfterScheme(s: bytes): bytes {
    if Scheme(s).None? then s else s[SchemeEnd(Scheme(s).value)..]
  }

  /** The result has an explicit scheme other than "ftps" and "sftp", and nothing behind the scheme has changed. */
  lemma FixSchemeResult(raw: bytes)
    requires PercentsValid(raw)
    ensures Scheme(FixScheme(raw)).Some? && PercentsValid(FixScheme(raw))
    ensures ToLower(Scheme(FixScheme(raw)).value) != FTPS && ToLower(Scheme(FixScheme(raw)).value) != SFTP
    ensures AfterScheme(FixScheme(raw)) == AfterScheme(raw)
  {
    var name := Scheme(raw);
    if name.None? {
      WithSchemeResult(HTTP, raw);
    } else if FixScheme(raw) != raw {
      var rest := AfterScheme(raw);
      assert rest == raw[SchemeEnd(name.value)..|raw|];
      SliceKeepsPercents(raw, SchemeEnd(name.value), |raw|);
      WithSchemeResult(HTTPS, rest);
    }
  }

  lemma WithSchemeResult(name: bytes, rest: bytes)
    requires (name == HTTP || name == HTTPS) && PercentsValid(rest)
    ensures var url := name + SCHEME_TAIL + rest;
            && Scheme(url) == Some(name) && PercentsValid(url) && AfterScheme(url) == rest
            && ToLower(name) != FTPS && ToLower(name) != SFTP
  {
    SchemeOf(name, rest);
    PrependKeepsPercents(name + SCHEME_TAIL, rest);
    assert ToLower(name)[0] == 0x68;
  }

  lemma PrependKeepsPercents(a: bytes, b: bytes)
    requires PERCENT !in a && PercentsValid(b)
    ensures PercentsValid(a + b)
  {
    var s := a + b;
    forall i: nat | i < |s| && s[i] == PERCENT
      ensures EscapeAt(s, i)
    {
      assert forall j :: 0 <= j < |a| ==> s[j] == a[j] && a[j] in a;
      assert EscapeAt(b, i - |a|);
    }
  }

  /** Whatever the feed ships, the parser gets a URL with an explicit scheme and an
      authority free of userinfo, escapes and delimiters, and decoding it again is the identity. */
  lemma PreprocessResult(raw: bytes, trim: bytes -> bytes) returns (name: bytes, host: bytes, rest: bytes)
    requires PreprocessUrl(raw, trim).Some?
    ensures var out := PreprocessUrl(raw, trim).value;
            SplitsInto(out, name, host, rest) && CleanHost(host) && DecodeAuthority(out) == Some(out)
  {
    var t := BackslashToSlash(WithoutLineBreaks(trim(UntilFragment(raw))));
    PreprocessingKeepsMeaning(t);
    var escaped := EscapeControl(EscapeLonePercent(t));
    FixSchemeResult(escaped);
    var authority: bytes;
    name, authority, host, rest := DecodeAuthorityResult(FixScheme(escaped));
  }
}
