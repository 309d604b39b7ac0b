/** Percent-encoding, and what decoding makes of it. */
module PercentEncoding {
  import opened Bytes
  import opened PercentDecoding

  /** The bytes escaped beyond the common set: '?' in a path, none in a query. */
  const PATH_EXTRA: bytes := [QUESTION]
  const QUERY_EXTRA: bytes := []

  predicate MustEscape(c: byte, extra: bytes) {
    c < 0x20 || c >= 0x7f || c == SPACE || c == NUMBER_SIGN || c == PERCENT || c in extra
  }

  /** "%hh" with lowercase digits, or the byte itself. */
  function EscapeByte(c: byte, extra: bytes): bytes {
    if MustEscape(c, extra) then [PERCENT, HexDigit(c / 16), HexDigit(c % 16)] else [c]
  }

  function Escape(s: bytes, extra: bytes): bytes
    decreases |s|
  {
    if s == [] then [] else EscapeByte(s[0], extra) + Escape(s[1..], extra)
  }

  function EscapePath(s: bytes): bytes {
    Escape(s, PATH_EXTRA)
  }

  function EscapeQuery(s: bytes): bytes {
    Escape(s, QUERY_EXTRA)
  }

  method EscapeLoop(s: bytes, extra: bytes) returns (out: bytes)
    ensures out == Escape(s, extra)
  {
    out := [];
    for i := 0 to |s|
      invariant out + Escape(s[i..], extra) == Escape(s, extra)
    {
      assert s[i..][1..] == s[i + 1..];
      ConcatAssociates(out, EscapeByte(s[i], extra), Escape(s[i + 1..], extra));
      out := out + EscapeByte(s[i], extra);
    }
  }

  lemma {:induction false} EscapeConcat(a: bytes, b: bytes, extra: bytes)
    ensures Escape(a + b, extra) == Escape(a, extra) + Escape(b, extra)
    decreases |a|
  {
    if a == [] {
      assert a + b == b;
    } else {
      EscapeConcat(a[1..], b, extra);
      assert (a + b)[1..] == a[1..] + b;
      ConcatAssociates(EscapeByte(a[0], extra), Escape(a[1..], extra), Escape(b, extra));
    }
  }

  /** One pass of decoding undoes the encoding, whatever the extra set. */
  lemma {:induction false} UnescapeEscape(s: bytes, extra: bytes)
    ensures Unescape(Escape(s, extra)) == s
    decreases |s|
  {
    if s != [] {
      var c, rest := s[0], Escape(s[1..], extra);
      UnescapeEscape(s[1..], extra);
      var t := Escape(s, extra);
      assert s == [c] + s[1..];
      if MustEscape(c, extra) {
        assert t[3..] == rest && EscapeAt(t, 0);
        assert DecodedByte(t[1], t[2]) == c;
      } else {
        assert t[0] == c && t[1..] == rest;
      }
    }
  }

  /** How often a byte occurs. */
  function Count(s: bytes, c: byte): nat {
    multiset(s)[c]
  }

  lemma CountConcat(a: bytes, b: bytes, c: byte)
    ensures Count(a + b, c) == Count(a, c) + Count(b, c)
  {
  }

  lemma CountMember(s: bytes, c: byte)
    ensures Count(s, c) > 0 <==> c in s
  {
  }

  lemma CountOne(x: byte, c: byte)
    ensures Count([x], c) == if x == c then 1 else 0
  {
  }

  lemma CountEscaped(x: byte, extra: bytes, c: byte)
    requires !MustEscape(c, extra) && !IsHex(c)
    ensures Count(EscapeByte(x, extra), c) == Count([x], c)
  {
    CountOne(x, c);
    if MustEscape(x, extra) {
      assert c !in EscapeByte(x, extra);
      CountMember(EscapeByte(x, extra), c);
    }
  }

  lemma {:induction false} EscapeKeepsCount(s: bytes, extra: bytes, c: byte)
    requires !MustEscape(c, extra) && !IsHex(c)
    ensures Count(Escape(s, extra), c) == Count(s, c)
    decreases |s|
  {
    if s != [] {
      EscapeKeepsCount(s[1..], extra, c);
      assert s == [s[0]] + s[1..];
      CountConcat([s[0]], s[1..], c);
      CountEscaped(s[0], extra, c);
      CountConcat(EscapeByte(s[0], extra), Escape(s[1..], extra), c);
    }
  }

  lemma EscapeKeepsByte(s: bytes, extra: bytes, c: byte)
    requires !MustEscape(c, extra) && !IsHex(c)
    ensures Count(Escape(s, extra), c) == Count(s, c)
    ensures c in Escape(s, extra) <==> c in s
  {
    EscapeKeepsCount(s, extra, c);
    CountMember(s, c);
    CountMember(Escape(s, extra), c);
  }

  /** A printable ASCII byte that is no hexadecimal digit occurs in an encoded path as often as in the plain one, unless
      it is a space, '#', '%' or '?'; in a query '?' is kept as well. */
  lemma PrintableBytesAreKept(s: bytes, c: byte)
    requires 0x20 < c < 0x7f && !IsHex(c) && c != 0x23 && c != 0x25
    ensures c != 0x3f ==> Count(EscapePath(s), c) == Count(s, c)
    ensures c == 0x3f ==> c !in EscapePath(s)
    ensures Count(EscapeQuery(s), c) == Count(s, c)
  {
    EscapeKeepsByte(s, QUERY_EXTRA, c);
    EscapedBytes(s, PATH_EXTRA);
    if c != 0x3f {
      EscapeKeepsByte(s, PATH_EXTRA, c);
    }
  }

  predicate IsLowerHex(c: byte) {
    IsDigit(c) || 0x61 <= c <= 0x66
  }

  /** The escapes written are all in lowercase, and each stands for a byte that had to be escaped. */
  lemma {:induction false} EscapesAreLowercase(s: bytes, extra: bytes, i: nat)
    requires EscapeAt(Escape(s, extra), i)
    ensures var t := Escape(s, extra);
            IsLowerHex(t[i + 1]) && IsLowerHex(t[i + 2]) && MustEscape(DecodedByte(t[i + 1], t[i + 2]), extra)
    decreases |s|
  {
    var c, rest, t := s[0], Escape(s[1..], extra), Escape(s, extra);
    var k := |EscapeByte(c, extra)|;
    assert forall j :: k <= j < |t| ==> t[j] == rest[j - k];
    if i >= k {
      assert EscapeAt(rest, i - k);
      EscapesAreLowercase(s[1..], extra, i - k);
    }
  }

  lemma {:induction false} EscapesNothing(s: bytes)
    requires forall c :: c in s ==> !MustEscape(c, PATH_EXTRA)
    ensures EscapePath(s) == s
    decreases |s|
  {
    if s != [] {
      assert s[0] in s;
      TailMembers(s);
      EscapesNothing(s[1..]);
    }
  }

  lemma EscapeInjective(a: bytes, b: bytes, extra: bytes)
    requires Escape(a, extra) == Escape(b, extra)
    ensures a == b
  {
    UnescapeEscape(a, extra);
    UnescapeEscape(b, extra);
  }

  /** Encoding a fully decoded string and decoding it again is the identity. */
  lemma RecursiveUnescapeEscape(s: bytes, extra: bytes)
    requires EscapeFree(s)
    ensures RecursiveUnescape(Escape(s, extra)) == Some(s)
  {
    UnescapeEscape(s, extra);
    PassFixesEscapeFree(s);
    assert UnescapeUpTo(s, MAX_DEPTH - 1) == Some(s);
  }

  /** Which bytes an encoded string is made of: none that must be escaped (apart from
      the '%' of an escape), and '/' as often as in the plain string unless '/' itself is escaped. */
  lemma EscapedBytes(s: bytes, extra: bytes)
    requires forall c: byte :: c in extra ==> !IsHex(c)
    ensures forall c: byte :: c in Escape(s, extra) ==> c == PERCENT || !MustEscape(c, extra)
    ensures SLASH !in extra ==> Count(Escape(s, extra), SLASH) == Count(s, SLASH)
    ensures SLASH in Escape(s, extra) <==> SLASH in s && SLASH !in extra
    ensures Escape(s, extra) == [] <==> s == []
  {
    EscapedMembers(s, extra);
    if SLASH !in extra {
      EscapeKeepsByte(s, extra, SLASH);
    }
  }

  lemma {:induction false} EscapedMembers(s: bytes, extra: bytes)
    requires forall c: byte :: c in extra ==> !IsHex(c)
    ensures forall c: byte :: c in Escape(s, extra) ==> c == PERCENT || !MustEscape(c, extra)
    ensures Escape(s, extra) == [] <==> s == []
    decreases |s|
  {
    if s != [] {
      EscapedMembers(s[1..], extra);
      assert forall c: byte :: IsHex(c) && c !in extra ==> !MustEscape(c, extra);
    }
  }

  // --- The query ---

  /** The canonical query: decoded until stable, then encoded once. */
  function CanonQuery(raw: bytes): Option<bytes> {
    var q := RecursiveUnescape(raw);
    if q.None? then None else Some(EscapeQuery(q.value))
  }

  /** Canonicalizing a canonical query changes nothing and never fails. */
  lemma CanonQueryIdempotent(raw: bytes)
    requires CanonQuery(raw).Some?
    ensures CanonQuery(CanonQuery(raw).value) == CanonQuery(raw)
  {
    RecursiveUnescapeExact(raw);
    RecursiveUnescapeEscape(RecursiveUnescape(raw).value, QUERY_EXTRA);
  }

  /** Two canonical queries agree exactly when the raw queries decode alike. */
  lemma CanonQuerySeparates(a: bytes, b: bytes)
    requires CanonQuery(a).Some? && CanonQuery(b).Some?
    ensures CanonQuery(a) == CanonQuery(b) <==> Normal(a) == Normal(b)
  {
    RecursiveUnescapeExact(a);
    RecursiveUnescapeExact(b);
    if CanonQuery(a) == CanonQuery(b) {
      EscapeInjective(Normal(a), Normal(b), QUERY_EXTRA);
    }
  }

  // --- The bytes of an encoded string ---

  lemma MustEscapeExact(c: byte)
    ensures MustEscape(c, PATH_EXTRA) <==> !(0x21 <= c <= 0x7e) || Char(c) in "#%?"
    ensures MustEscape(c, QUERY_EXTRA) <==> !(0x21 <= c <= 0x7e) || Char(c) in "#%"
  {
  }

  lemma EscapeCons(c: byte, s: bytes, extra: bytes)
    ensures Escape([c] + s, extra) == EscapeByte(c, extra) + Escape(s, extra)
  {
    assert ([c] + s)[1..] == s;
  }

  lemma {:induction false} KeptExact(s: bytes, extra: bytes)
    ensures |Escape(s, extra)| >= |s|
    ensures Escape(s, extra) == s <==> forall c :: c in s ==> !MustEscape(c, extra)
    decreases |s|
  {
    if s != [] {
      KeptExact(s[1..], extra);
      EscapeCons(s[0], s[1..], extra);
      assert s == [s[0]] + s[1..];
      assert forall c :: c in s <==> c == s[0] || c in s[1..];
      if !MustEscape(s[0], extra) {
        assert Escape(s, extra)[1..] == Escape(s[1..], extra);
      }
    }
  }

  /** A path stays as it is exactly when it holds nothing but printable bytes other than '#', '%' and '?'. */
  lemma PathKeptExact(s: bytes)
    ensures EscapePath(s) == s <==> forall c :: c in s ==> 0x21 <= c <= 0x7e && Char(c) !in "#%?"
  {
    KeptExact(s, PATH_EXTRA);
    forall c
      ensures MustEscape(c, PATH_EXTRA) <==> !(0x21 <= c <= 0x7e) || Char(c) in "#%?"
    {
      MustEscapeExact(c);
    }
  }

  /** A query may hold '?' as well. */
  lemma QueryKeptExact(s: bytes)
    ensures EscapeQuery(s) == s <==> forall c :: c in s ==> 0x21 <= c <= 0x7e && Char(c) !in "#%"
  {
    KeptExact(s, QUERY_EXTRA);
    forall c
      ensures MustEscape(c, QUERY_EXTRA) <==> !(0x21 <= c <= 0x7e) || Char(c) in "#%"
    {
      MustEscapeExact(c);
    }
  }

  /** Every other byte becomes '%' and its two lower-case digits. */
  lemma EncodedByte(c: byte, rest: bytes)
    ensures !(0x21 <= c <= 0x7e) || Char(c) in "#%?" ==>
              EscapePath([c] + rest) == [0x25, HexDigit(c / 16), HexDigit(c % 16)] + EscapePath(rest)
    ensures !(0x21 <= c <= 0x7e) || Char(c) in "#%" ==>
              EscapeQuery([c] + rest) == [0x25, HexDigit(c / 16), HexDigit(c % 16)] + EscapeQuery(rest)
    ensures Char(HexDigit(c / 16)) == "0123456789abcdef"[c / 16] && Char(HexDigit(c % 16)) == "0123456789abcdef"[c % 16]
  {
    MustEscapeExact(c);
    EscapeCons(c, rest, PATH_EXTRA);
    EscapeCons(c, rest, QUERY_EXTRA);
    HexDigitExact(c / 16);
    HexDigitExact(c % 16);
  }

  /** What an encoded string is made of. */
  lemma EncodedIsPrintable(s: bytes)
    ensures forall c :: c in EscapePath(s) ==> 0x21 <= c <= 0x7e && Char(c) !in "#?"
    ensures forall c :: c in EscapeQuery(s) ==> 0x21 <= c <= 0x7e && Char(c) != '#'
  {
    EscapedMembers(s, PATH_EXTRA);
    EscapedMembers(s, QUERY_EXTRA);
    forall c: byte
      ensures c == PERCENT || !MustEscape(c, PATH_EXTRA) ==> 0x21 <= c <= 0x7e && Char(c) !in "#?"
      ensures c == PERCENT || !MustEscape(c, QUERY_EXTRA) ==> 0x21 <= c <= 0x7e && Char(c) != '#'
    {
      MustEscapeExact(c);
    }
  }
}
