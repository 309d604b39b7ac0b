/** Canonical hosts, and the canonical parts of a URL that has been split into its pieces. */
module CanonHost {
  import opened Bytes
  import opened PercentDecoding
  import opened PercentEncoding
  import opened CanonPath
  import opened HostSuffixes
  import opened LookupPaths
  import opened IpAddress
  import opened IpLiteral
  import opened Candidates
  import opened Authority

  datatype Failure = Invalid | IpHost

  datatype Result<+T> = Ok(value: T) | Err(error: Failure)

  predicate IsUnicode(s: bytes) {
    exists c :: c in s && c > 0x80
  }

  /** Every run of dots becomes one dot. */
  function CollapseDots(s: bytes): bytes
    decreases |s|
  {
    if s == [] then []
    else if s[0] == DOT && |s| > 1 && s[1] == DOT then CollapseDots(s[1..])
    else [s[0]] + CollapseDots(s[1..])
  }

  function TrimLeft(s: bytes): bytes
    decreases |s|
  {
    if s != [] && s[0] == DOT then TrimLeft(s[1..]) else s
  }

  function TrimRight(s: bytes): bytes
    decreases |s|
  {
    if s != [] && s[|s| - 1] == DOT then TrimRight(s[..|s| - 1]) else s
  }

  function FoldHost(s: bytes): bytes {
    ToLower(TrimRight(TrimLeft(CollapseDots(s))))
  }

  /** The host after the IDNA mapping, which is a parameter and None where it fails. */
  function Mapped(h: bytes, toASCII: bytes -> Option<bytes>): Option<bytes> {
    if IsUnicode(h) then toASCII(h) else Some(h)
  }

  function CanonicalHost(h: bytes, toASCII: bytes -> Option<bytes>): Result<bytes> {
    if Mapped(h, toASCII).None? then Err(Invalid)
    else
      var folded := FoldHost(Mapped(h, toASCII).value);
      if ParseIP(GoParseUint, folded) != [] then Err(IpHost)
      else if !IsHost(folded) then Err(Invalid)
      else Ok(folded)
  }

  // --- What folding does ---

  predicate NoDoubleDot(s: bytes) {
    forall i :: 0 <= i < |s| - 1 ==> s[i] != DOT || s[i + 1] != DOT
  }

  lemma {:induction false} CollapsedPieces(s: bytes)
    ensures var before, after := Split(s, DOT), Split(CollapseDots(s), DOT);
            before[0] == after[0] && NonEmpty(before[1..]) == NonEmpty(after[1..])
    ensures NoDoubleDot(CollapseDots(s)) && (s != [] ==> CollapseDots(s) != [] && CollapseDots(s)[0] == s[0])
    decreases |s|
  {
    if s != [] {
      CollapsedPieces(s[1..]);
      var rest, after := Split(s[1..], DOT), Split(CollapseDots(s[1..]), DOT);
      assert rest == [rest[0]] + rest[1..] && after == [after[0]] + after[1..];
      assert Split(s, DOT)[1..] == if s[0] == DOT then rest else rest[1..];
      if !(s[0] == DOT && |s| > 1 && s[1] == DOT) {
        var t := CollapseDots(s);
        assert t[1..] == CollapseDots(s[1..]);
        assert Split(t, DOT)[1..] == if s[0] == DOT then after else after[1..];
      }
    }
  }

  lemma {:induction false} TrimmedLeftPieces(s: bytes)
    ensures NonEmpty(Split(TrimLeft(s), DOT)) == NonEmpty(Split(s, DOT))
    ensures NoDoubleDot(s) ==> NoDoubleDot(TrimLeft(s))
    ensures TrimLeft(s) != [] ==> TrimLeft(s)[0] != DOT
    decreases |s|
  {
    if s != [] && s[0] == DOT {
      TrimmedLeftPieces(s[1..]);
      assert Split(s, DOT)[1..] == Split(s[1..], DOT);
      assert forall i :: 0 <= i < |s[1..]| ==> s[1..][i] == s[i + 1];
    }
  }

  lemma {:induction false} TrimmedRightPieces(s: bytes)
    ensures NonEmpty(Split(TrimRight(s), DOT)) == NonEmpty(Split(s, DOT))
    ensures TrimRight(s) <= s && (TrimRight(s) != [] ==> TrimRight(s)[|TrimRight(s)| - 1] != DOT)
    decreases |s|
  {
    if s != [] && s[|s| - 1] == DOT {
      var front := s[..|s| - 1];
      TrimmedRightPieces(front);
      assert s == front + [DOT] + [];
      SplitConcat(front, [], DOT);
      NonEmptySnoc(Split(front, DOT));
    }
  }

  lemma {:induction false} PiecesAreNonEmpty(s: bytes)
    requires s != [] && s[0] != DOT && s[|s| - 1] != DOT && NoDoubleDot(s)
    ensures forall p :: p in Split(s, DOT) ==> p != []
    decreases |s|
  {
    if |s| == 1 {
      assert s[1..] == [];
    } else if s[1] == DOT {
      assert s[2..] == s[1..][1..];
      PiecesAreNonEmpty(s[2..]);
      var rest := Split(s[1..], DOT);
      assert rest == [[]] + Split(s[2..], DOT) && rest[1..] == Split(s[2..], DOT);
      assert [s[0]] + rest[0] == [s[0]];
    } else {
      PiecesAreNonEmpty(s[1..]);
      var rest := Split(s[1..], DOT);
      TailMembers(rest);
      forall p | p in Split(s, DOT)
        ensures p != []
      {
        assert p == [s[0]] + rest[0] || p in rest[1..];
      }
    }
  }

  lemma SameNonEmpty(a: seq<bytes>, b: seq<bytes>)
    requires a != [] && b != [] && a[0] == b[0] && NonEmpty(a[1..]) == NonEmpty(b[1..])
    ensures NonEmpty(a) == NonEmpty(b)
  {
  }

  /** A string without a dot at its ends or two in a row is the join of its non-empty labels. */
  lemma TrimmedIsJoined(t: bytes)
    requires t != [] ==> t[0] != DOT && t[|t| - 1] != DOT
    requires NoDoubleDot(t)
    ensures t == Join(NonEmpty(Split(t, DOT)), DOT)
  {
    if t == [] {
      assert Split(t, DOT)[1..] == [];
    } else {
      PiecesAreNonEmpty(t);
      AllNonEmpty(Split(t, DOT));
      SplitPieces(t, DOT);
    }
  }

  /** Collapsing and trimming dots drops exactly the empty labels. */
  lemma FoldHostMeaning(s: bytes)
    ensures FoldHost(s) == ToLower(Join(NonEmpty(Split(s, DOT)), DOT))
  {
    var t1 := CollapseDots(s);
    var t2 := TrimLeft(t1);
    CollapsedPieces(s);
    SameNonEmpty(Split(s, DOT), Split(t1, DOT));
    TrimmedLeftPieces(t1);
    TrimmedRightPieces(t2);
    TrimmedIsJoined(TrimRight(t2));
  }

  /** The labels of a host as written, without the empty ones. */
  function RawLabels(s: bytes): seq<bytes> {
    NonEmpty(Split(s, DOT))
  }

  /** The same labels up to letter case. */
  predicate SameLabels(a: bytes, b: bytes) {
    && |RawLabels(a)| == |RawLabels(b)|
    && forall i :: 0 <= i < |RawLabels(a)| ==> ToLower(RawLabels(a)[i]) == ToLower(RawLabels(b)[i])
  }

  function Lowered(parts: seq<bytes>): (lowered: seq<bytes>)
    ensures |lowered| == |parts| && forall i :: 0 <= i < |parts| ==> lowered[i] == ToLower(parts[i])
  {
    seq(|parts|, i requires 0 <= i < |parts| => ToLower(parts[i]))
  }

  ghost predicate IsMapped(f: byte -> byte, s: bytes, t: bytes) {
    |t| == |s| && forall i :: 0 <= i < |s| ==> t[i] == f(s[i])
  }

  lemma MappedConcat(f: byte -> byte, a: bytes, b: bytes, x: bytes, y: bytes, z: bytes)
    requires IsMapped(f, a, x) && IsMapped(f, b, y) && IsMapped(f, a + b, z)
    ensures z == x + y
  {
  }

  lemma LowerConcat(a: bytes, b: bytes)
    ensures ToLower(a + b) == ToLower(a) + ToLower(b)
  {
    MappedConcat(LowerByte, a, b, ToLower(a), ToLower(b), ToLower(a + b));
  }

  lemma {:induction false} LowerJoin(parts: seq<bytes>)
    ensures ToLower(Join(parts, DOT)) == Join(Lowered(parts), DOT)
    decreases |parts|
  {
    if |parts| > 1 {
      var rest := Join(parts[1..], DOT);
      LowerJoin(parts[1..]);
      LowerConcat(parts[0] + [DOT], rest);
      LowerConcat(parts[0], [DOT]);
      assert Lowered(parts)[1..] == Lowered(parts[1..]);
    }
  }

  lemma {:induction false} NonEmptyMembers(parts: seq<bytes>)
    ensures forall p :: p in NonEmpty(parts) ==> p in parts && p != []
    decreases |parts|
  {
    if parts != [] {
      NonEmptyMembers(parts[1..]);
      TailMembers(parts);
    }
  }

  lemma LoweredLabels(s: bytes)
    ensures FoldHost(s) == Join(Lowered(RawLabels(s)), DOT)
    ensures forall l :: l in Lowered(RawLabels(s)) ==> l != [] && DOT !in l
  {
    FoldHostMeaning(s);
    LowerJoin(RawLabels(s));
    SplitPieces(s, DOT);
    NonEmptyMembers(Split(s, DOT));
    LoweredMembers(RawLabels(s));
  }

  lemma LoweredMembers(labels: seq<bytes>)
    requires forall l :: l in labels ==> l != [] && DOT !in l
    ensures forall l :: l in Lowered(labels) ==> l != [] && DOT !in l
  {
    forall l | l in Lowered(labels)
      ensures l != [] && DOT !in l
    {
      var i :| 0 <= i < |labels| && Lowered(labels)[i] == l;
      assert labels[i] in labels;
    }
  }

  lemma JoinSeparates(a: seq<bytes>, b: seq<bytes>)
    requires forall l :: l in a ==> l != [] && DOT !in l
    requires forall l :: l in b ==> l != [] && DOT !in l
    requires Join(a, DOT) == Join(b, DOT)
    ensures a == b
  {
    assert a != [] ==> a[0] in a;
    assert b != [] ==> b[0] in b;
    if a != [] && b != [] {
      SplitJoin(a, DOT);
      SplitJoin(b, DOT);
    }
  }

  /** Folding identifies exactly the hosts that differ in letter case and empty labels. */
  lemma FoldHostExact(a: bytes, b: bytes)
    ensures FoldHost(a) == FoldHost(b) <==> SameLabels(a, b)
  {
    LoweredLabels(a);
    LoweredLabels(b);
    var x, y := Lowered(RawLabels(a)), Lowered(RawLabels(b));
    if FoldHost(a) == FoldHost(b) {
      JoinSeparates(x, y);
      assert forall i :: 0 <= i < |x| ==> ToLower(RawLabels(a)[i]) == x[i] == y[i];
    }
    if SameLabels(a, b) {
      assert x == y;
    }
  }

  /** The two hosts fail to be mapped, or their mapped forms have the same labels up to letter case. */
  predicate SameHost(h1: bytes, h2: bytes, toASCII: bytes -> Option<bytes>) {
    var m1, m2 := Mapped(h1, toASCII), Mapped(h2, toASCII);
    if m1.Some? && m2.Some? then SameLabels(m1.value, m2.value) else m1.None? && m2.None?
  }

  /** Letter case and extra dots make no difference to the outcome; accepted hosts with the same outcome differ in
      nothing else. */
  lemma HostSpellingDoesNotMatter(h1: bytes, h2: bytes, toASCII: bytes -> Option<bytes>)
    ensures SameHost(h1, h2, toASCII) ==> CanonicalHost(h1, toASCII) == CanonicalHost(h2, toASCII)
    ensures CanonicalHost(h1, toASCII) == CanonicalHost(h2, toASCII) && CanonicalHost(h1, toASCII).Ok? ==>
              SameHost(h1, h2, toASCII)
  {
    if Mapped(h1, toASCII).Some? && Mapped(h2, toASCII).Some? {
      FoldHostExact(Mapped(h1, toASCII).value, Mapped(h2, toASCII).value);
    }
  }

  lemma {:induction false} NoEmptyPieceIsCollapsed(s: bytes)
    requires forall p :: p in Split(s, DOT) ==> p != []
    ensures CollapseDots(s) == s && s != [] && s[0] != DOT
    decreases |s|
  {
    var parts := Split(s, DOT);
    assert parts[0] in parts;
    var rest := Split(s[1..], DOT);
    assert parts[1..] == rest[1..];
    assert s == [s[0]] + s[1..];
    if s[1..] == [] {
      assert CollapseDots(s[1..]) == [];
    } else if s[1] == DOT {
      var tail := s[1..];
      var after := Split(tail[1..], DOT);
      assert rest == [[]] + after && parts[1..] == after;
      forall p | p in after
        ensures p != []
      {
        assert p in parts[1..];
        TailMembers(parts);
      }
      NoEmptyPieceIsCollapsed(tail[1..]);
      assert tail[1..][0] != DOT && tail == [DOT] + tail[1..];
      assert CollapseDots(tail) == tail;
    } else {
      assert rest[0] != [];
      TailMembers(parts);
      forall p | p in rest
        ensures p != []
      {
        assert p == rest[0] || p in parts[1..];
      }
      NoEmptyPieceIsCollapsed(s[1..]);
    }
  }

  lemma HostIsCollapsed(host: bytes)
    requires IsHost(host)
    ensures CollapseDots(host) == host && TrimLeft(host) == host
  {
    var labels := Labels(host);
    forall l | l in labels
      ensures l != []
    {
      var i :| 0 <= i < |labels| && labels[i] == l;
    }
    NoEmptyPieceIsCollapsed(host);
  }

  lemma HostEndsOnLabel(host: bytes)
    requires IsHost(host)
    ensures TrimRight(host) == host
  {
    var labels := Labels(host);
    var n := |labels| - 1;
    var last := labels[n];
    SplitPieces(host, DOT);
    assert labels == labels[..n] + [last];
    JoinConcat(labels[..n], [last], DOT);
    assert host == Join(labels[..n], DOT) + [DOT] + last;
    assert host[|host| - 1] == last[|last| - 1];
    assert last[|last| - 1] in last;
  }

  lemma HostIsLower(host: bytes)
    requires IsHost(host)
    ensures ToLower(host) == host && !IsUnicode(host)
  {
    forall c | c in host
      ensures !(0x41 <= c <= 0x5a) && c <= 0x80
    {
      if NeverInHost(c) {
        HostAvoids(host, c);
      }
    }
    assert forall i :: 0 <= i < |host| ==> host[i] in host;
  }

  /** A canonical host matches the host pattern, is no IP address, and is its own canonical form. */
  lemma CanonicalHostResult(h: bytes, toASCII: bytes -> Option<bytes>)
    requires CanonicalHost(h, toASCII).Ok?
    ensures var host := CanonicalHost(h, toASCII).value;
            && IsHost(host) && ParseIP(GoParseUint, host) == []
            && CanonicalHost(host, toASCII) == Ok(host)
  {
    HostIsFixed(CanonicalHost(h, toASCII).value, toASCII);
  }

  lemma HostIsFixed(host: bytes, toASCII: bytes -> Option<bytes>)
    requires IsHost(host)
    ensures CanonicalHost(host, toASCII) == Ok(host)
  {
    HostIsCollapsed(host);
    HostEndsOnLabel(host);
    HostIsLower(host);
    HostIsNoIP(GoParseUint, host);
  }

  // --- All parts ---

  /** Canonicalization of the pieces the URL parser hands over. */
  function ParsePieces(hostname: bytes, path: bytes, query: bytes, toASCII: bytes -> Option<bytes>): Result<Parts> {
    var host := CanonicalHost(hostname, toASCII);
    if host.Err? then Err(host.error)
    else if CanonicalPath(path).None? || CanonQuery(query).None? then Err(Invalid)
    else Ok(Parts(host.value, CanonicalPath(path).value, CanonQuery(query).value))
  }

  /** Canonical parts are exactly the results of canonicalization, and canonicalizing them piece by piece changes nothing. */
  lemma ParsePiecesResult(p: Parts, toASCII: bytes -> Option<bytes>)
    ensures CanonicalParts(p) <==> ParsePieces(p.host, p.path, p.query, toASCII) == Ok(p)
    ensures CanonicalParts(p) <==> exists hostname, path, query :: ParsePieces(hostname, path, query, toASCII) == Ok(p)
  {
    forall hostname, path, query | ParsePieces(hostname, path, query, toASCII) == Ok(p)
      ensures CanonicalParts(p)
    {
      CanonicalPathIdempotent(path);
      CanonQueryIdempotent(query);
    }
    if CanonicalParts(p) {
      HostIsFixed(p.host, toASCII);
    }
  }

  /** The root of every well-formed host is canonical. */
  lemma RootIsCanonical(host: bytes)
    requires IsHost(host)
    ensures CanonicalParts(Parts(host, [SLASH], []))
  {
    EmptyQueryIsCanonical();
    RenderedIsCanonical([], false);
    EscapeSlash();
    assert Render([], false) == [SLASH];
  }

  /** Decoding some escapes beforehand, in any order, leaves the decoder within its depth. */
  predicate DecodesEitherWay(s: bytes, at: seq<nat>) {
    && DecodeSteps(s, at).Some?
    && (|s| <= 2048 || (RecursiveUnescape(s).Some? && RecursiveUnescape(DecodeSteps(s, at).value).Some?))
  }

  /** Decoding some escapes of the path or the query beforehand, in any order, makes no difference to a URL whose
      path and query the decoder accepts before and after, as it always does up to 2048 bytes. */
  lemma PiecesMayBeDecoded(hostname: bytes, path: bytes, query: bytes, toASCII: bytes -> Option<bytes>,
                           inPath: seq<nat>, inQuery: seq<nat>)
    requires DecodesEitherWay(path, inPath) && DecodesEitherWay(query, inQuery)
    ensures ParsePieces(hostname, DecodeSteps(path, inPath).value, DecodeSteps(query, inQuery).value, toASCII) ==
            ParsePieces(hostname, path, query, toASCII)
  {
    SpellingKeepsCanonical(path, inPath);
    SpellingKeepsCanonical(query, inQuery);
  }
}
