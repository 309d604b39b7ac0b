/** The steps before parsing in terms of the characters of a URL. */
module UrlText {
  import opened Bytes
  import opened PercentDecoding
  import opened Preprocess
  import opened Authority

  const MARKS: string := "0123456789+.-"

  // --- The fragment, line breaks and backslashes ---

  /** Everything from the first '#' on is dropped, and nothing else. */
  lemma {:induction false} FragmentIsDropped(s: bytes, fragment: bytes)
    requires 0x23 !in s
    ensures UntilFragment(s) == s && UntilFragment(s + [0x23] + fragment) == s
    decreases |s|
  {
    if s == [] {
      assert ([] + [0x23] + fragment)[0] == 0x23;
    } else {
      FragmentIsDropped(s[1..], fragment);
      assert (s + [0x23] + fragment)[1..] == s[1..] + [0x23] + fragment;
      assert s == [s[0]] + s[1..];
    }
  }

  /** So a fragment makes no difference to either side. */
  lemma FragmentDoesNotMatter(s: bytes, fragment: bytes, trim: bytes -> bytes)
    requires 0x23 !in s
    ensures PreprocessUrl(s + [0x23] + fragment, trim) == PreprocessUrl(s, trim)
  {
    FragmentIsDropped(s, fragment);
  }

  lemma {:induction false} LineBreaksConcat(a: bytes, b: bytes)
    ensures WithoutLineBreaks(a + b) == WithoutLineBreaks(a) + WithoutLineBreaks(b)
    decreases |a|
  {
    if a == [] {
      assert a + b == b;
    } else {
      assert (a + b)[1..] == a[1..] + b;
      LineBreaksConcat(a[1..], b);
    }
  }

  lemma LineBreakOne(c: byte)
    ensures WithoutLineBreaks([c]) == if Char(c) in "\t\r\n" then [] else [c]
  {
    var s: bytes := [c];
    assert s[1..] == [];
  }

  lemma BackslashOne(c: byte)
    ensures BackslashToSlash([c]) == [if Char(c) == '\\' then 0x2f else c]
  {
    var s: bytes := [c];
    assert s[1..] == [];
  }

  lemma {:induction false} BackslashConcat(a: bytes, b: bytes)
    ensures BackslashToSlash(a + b) == BackslashToSlash(a) + BackslashToSlash(b)
    decreases |a|
  {
    if a == [] {
      assert a + b == b;
    } else {
      assert (a + b)[1..] == a[1..] + b;
      BackslashConcat(a[1..], b);
    }
  }

  /** A tab or a line break anywhere, or a backslash for a slash, makes no difference. */
  lemma LineBreaksDoNotMatter(a: bytes, c: byte, b: bytes)
    ensures Char(c) in "\t\r\n" ==> Escaped(a + [c] + b) == Escaped(a + b)
    ensures Escaped(a + [0x5c] + b) == Escaped(a + [0x2f] + b)
  {
    LineBreaksConcat(a + [c], b);
    LineBreaksConcat(a, [c]);
    LineBreaksConcat(a, b);
    LineBreakOne(c);
    assert WithoutLineBreaks(a) + [] == WithoutLineBreaks(a);
    SlashesAlike(a, b);
  }

  lemma SlashesAlike(a: bytes, b: bytes)
    ensures BackslashToSlash(WithoutLineBreaks(a + [0x5c] + b)) == BackslashToSlash(WithoutLineBreaks(a + [0x2f] + b))
  {
    LineBreaksConcat(a + [0x5c], b);
    LineBreaksConcat(a + [0x2f], b);
    LineBreaksConcat(a, [0x5c]);
    LineBreaksConcat(a, [0x2f]);
    LineBreakOne(0x5c);
    LineBreakOne(0x2f);
    var x, y := WithoutLineBreaks(a), WithoutLineBreaks(b);
    BackslashConcat(x + [0x5c], y);
    BackslashConcat(x + [0x2f], y);
    BackslashConcat(x, [0x5c]);
    BackslashConcat(x, [0x2f]);
    BackslashOne(0x5c);
    BackslashOne(0x2f);
  }

  // --- Control bytes ---

  /** Afterwards there is no control byte, and a string without one is left alone. */
  lemma {:induction false} ControlExact(s: bytes)
    ensures forall c :: c in EscapeControl(s) ==> c >= 0x20 && c != 0x7f
    ensures EscapeControl(s) == s <==> forall c :: c in s ==> c >= 0x20 && c != 0x7f
    decreases |s|
  {
    if s != [] {
      ControlExact(s[1..]);
      assert s == [s[0]] + s[1..];
      assert forall c :: c in s <==> c == s[0] || c in s[1..];
      if IsControl(s[0]) {
        assert EscapeControl(s)[0] == 0x25 && s[0] in s;
      } else {
        assert EscapeControl(s)[1..] == EscapeControl(s[1..]);
      }
    }
  }

  /** A control byte becomes '%' and its two lower-case digits. */
  lemma ControlByte(c: byte, rest: bytes)
    requires c < 0x20 || c == 0x7f
    ensures EscapeControl([c] + rest) == [0x25, HexDigit(c / 16), HexDigit(c % 16)] + EscapeControl(rest)
    ensures Char(HexDigit(c / 16)) == LOWER_HEX[c / 16] && Char(HexDigit(c % 16)) == LOWER_HEX[c % 16]
  {
    assert ([c] + rest)[1..] == rest;
    HexDigitExact(c / 16);
    HexDigitExact(c % 16);
  }

  // --- The scheme ---

  predicate AnyLetter(c: byte) {
    Char(c) in UPPER_LETTERS || Char(c) in LOWER_LETTERS
  }

  predicate SchemeName(name: bytes) {
    && name != [] && AnyLetter(name[0])
    && forall c :: c in name ==> AnyLetter(c) || Char(c) in MARKS
  }

  lemma UpperExact(c: byte)
    ensures 0x41 <= c <= 0x5a <==> Char(c) in UPPER_LETTERS
  {
  }

  lemma LowerExact(c: byte)
    ensures 0x61 <= c <= 0x7a <==> Char(c) in LOWER_LETTERS
  {
  }

  lemma SchemeBytesExact(c: byte)
    ensures IsLetter(c) <==> AnyLetter(c)
    ensures IsSchemeByte(c) <==> AnyLetter(c) || Char(c) in MARKS
  {
    UpperExact(c);
    LowerExact(c);
    MarksExact(c);
  }

  lemma MarksExact(c: byte)
    ensures IsDigit(c) || c == 0x2b || c == DOT || c == 0x2d <==> Char(c) in MARKS
  {
  }

  lemma TailIsColonSlashes()
    ensures SCHEME_TAIL == Ascii("://")
  {
  }

  lemma SchemeNameExact(name: bytes)
    ensures SchemeName(name) <==>
            name != [] && IsLetter(name[0]) && forall c :: c in name ==> IsSchemeByte(c)
  {
    forall c: byte
      ensures IsLetter(c) <==> AnyLetter(c)
      ensures IsSchemeByte(c) <==> AnyLetter(c) || Char(c) in MARKS
    {
      SchemeBytesExact(c);
    }
  }

  /** A URL has exactly the scheme that stands before its "://", a letter followed by letters, digits, '+', '.' and '-'. */
  lemma SchemeExact(s: bytes, name: bytes)
    ensures Scheme(s) == Some(name) <==> SchemeName(name) && name + SCHEME_TAIL <= s
  {
    SchemeNameExact(name);
    if Scheme(s) == Some(name) {
      SchemeParts(s);
      assert name + SCHEME_TAIL == s[..SchemeEnd(name)];
    }
    if SchemeName(name) && name + SCHEME_TAIL <= s {
      SchemeOf(name, s[|name| + 3..]);
      assert s == name + SCHEME_TAIL + s[|name| + 3..];
    }
  }

  lemma LowerWord(name: bytes, word: bytes)
    requires forall i :: 0 <= i < |word| ==> Char(word[i]) in LOWER_LETTERS
    ensures ToLower(name) == word <==> CaseVariant(name, word)
  {
    if |name| == |word| {
      forall i | 0 <= i < |name|
        ensures LowerByte(name[i]) == word[i] <==> SameLetter(name[i], word[i])
      {
        LowerLetter(name[i], word[i]);
      }
    }
  }

  lemma LowerLetter(b: byte, c: byte)
    requires Char(c) in LOWER_LETTERS
    ensures LowerByte(b) == c <==> SameLetter(b, c)
  {
  }

  /** The names in the source. */
  lemma Words()
    ensures HTTP == Ascii("http") && HTTPS == Ascii("https") && FTPS == Ascii("ftps") && SFTP == Ascii("sftp")
  {
  }

  lemma LowerWords()
    ensures forall i :: 0 <= i < |FTPS| ==> Char(FTPS[i]) in LOWER_LETTERS
    ensures forall i :: 0 <= i < |SFTP| ==> Char(SFTP[i]) in LOWER_LETTERS
  {
    assert LOWER_LETTERS[0x66 - 0x61] == 'f' && LOWER_LETTERS[0x70 - 0x61] == 'p';
    assert LOWER_LETTERS[0x73 - 0x61] == 's' && LOWER_LETTERS[0x74 - 0x61] == 't';
  }

  /** "ftps" and "sftp" become "https" in whatever letter case, and every other scheme stays. */
  lemma FixSchemeNamed(name: bytes, rest: bytes)
    requires SchemeName(name)
    ensures FixScheme(name + SCHEME_TAIL + rest) ==
            (if CaseVariant(name, FTPS) || CaseVariant(name, SFTP) then HTTPS else name) + SCHEME_TAIL + rest
  {
    var s := name + SCHEME_TAIL + rest;
    SchemeExact(s, name);
    assert s[SchemeEnd(name)..] == rest;
    LowerWords();
    LowerWord(name, FTPS);
    LowerWord(name, SFTP);
  }

  /** A URL without a scheme gets "http"; its authority could not be told apart without one. */
  lemma FixSchemeless(raw: bytes)
    requires forall name :: SchemeName(name) ==> !(name + SCHEME_TAIL <= raw)
    ensures FixScheme(raw) == HTTP + SCHEME_TAIL + raw && DecodeAuthority(raw) == Some(raw)
  {
    if Scheme(raw).Some? {
      SchemeExact(raw, Scheme(raw).value);
    }
  }

  // --- The authority ---

  lemma DelimitersExact(c: byte)
    ensures IsDelimiter(c) <==> Char(c) in "/?#"
  {
  }

  predicate WithoutAny(s: bytes, marks: string) {
    forall c :: c in s ==> Char(c) !in marks
  }

  lemma NoDelimiters(s: bytes)
    ensures WithoutAny(s, "/?#") <==> forall c :: c in s ==> !IsDelimiter(c)
  {
    forall c: byte
      ensures IsDelimiter(c) <==> Char(c) in "/?#"
    {
      DelimitersExact(c);
    }
  }

  lemma {:induction false} UserinfoEnds(s: bytes, host: bytes)
    requires 0x40 !in host && |host| < |s| && s[|s| - |host|..] == host && s[|s| - |host| - 1] == 0x40
    ensures AfterUserinfo(s) == host
    decreases |host|
  {
    if host != [] {
      var t, front, last := s[..|s| - 1], host[..|host| - 1], host[|host| - 1];
      assert last in host && s[|s| - 1] == last;
      assert t[|t| - |front|..] == front && t[|t| - |front| - 1] == 0x40;
      UserinfoEnds(t, front);
      UserinfoSnoc(s);
      assert host == front + [last];
    }
  }

  lemma UserinfoSnoc(s: bytes)
    requires s != [] && s[|s| - 1] != 0x40
    ensures AfterUserinfo(s) == AfterUserinfo(s[..|s| - 1]) + [s[|s| - 1]]
  {
  }

  /** What precedes the last '@' is dropped. */
  lemma UserinfoIsDropped(user: bytes, host: bytes)
    requires 0x40 !in host
    ensures AfterUserinfo(host) == host && AfterUserinfo(user + [0x40] + host) == host
  {
    UserinfoEnds(user + [0x40] + host, host);
  }

  /** A URL with an authority: scheme, what is before the path, and the rest. */
  predicate HasAuthority(name: bytes, authority: bytes, rest: bytes) {
    && SchemeName(name) && WithoutAny(authority, "/?#")
    && (rest != [] ==> Char(rest[0]) in "/?#")
  }

  lemma AuthorityIsCut(name: bytes, authority: bytes, rest: bytes)
    requires HasAuthority(name, authority, rest)
    ensures DecodeAuthority(name + SCHEME_TAIL + authority + rest) ==
            match DecodeHost(AfterUserinfo(authority))
            case None => None
            case Some(host) => Some(name + SCHEME_TAIL + host + rest)
  {
    SchemeNameExact(name);
    NoDelimiters(authority);
    if rest != [] {
      DelimitersExact(rest[0]);
    }
    JoinedUrlSplits(name, authority, rest);
    DecodeAuthorityOf(name + SCHEME_TAIL + authority + rest, name, authority, rest);
  }

  /** Userinfo of any kind makes no difference, whatever the scheme; a host without escapes is kept byte for byte. */
  lemma UserinfoDoesNotMatter(name: bytes, user: bytes, host: bytes, rest: bytes)
    requires HasAuthority(name, host, rest) && WithoutAny(user, "/?#") && 0x40 !in host
    ensures DecodeAuthority(name + SCHEME_TAIL + (user + [0x40] + host) + rest) ==
            DecodeAuthority(name + SCHEME_TAIL + host + rest)
    ensures 0x25 !in host ==>
              DecodeAuthority(name + SCHEME_TAIL + (user + [0x40] + host) + rest) ==
              Some(name + SCHEME_TAIL + host + rest)
  {
    assert WithoutAny(user + [0x40] + host, "/?#") by {
      assert forall c :: c in user + [0x40] + host ==> c in user || c == 0x40 || c in host;
    }
    AuthorityIsCut(name, user + [0x40] + host, rest);
    AuthorityIsCut(name, host, rest);
    UserinfoIsDropped(user, host);
    if 0x25 !in host {
      CleanHostIsDecoded(host);
    }
  }

  predicate Forbidden(c: byte) {
    c == 0 || Char(c) in "\t\n\r #%/:<>?@[\\]^|"
  }

  /** The bytes no escape in a host may stand for. */
  lemma ForbiddenExact(c: byte)
    ensures c in FORBIDDEN <==> Forbidden(c)
  {
  }

  /** An escape in a host is decoded, once, unless it stands for one of them. */
  lemma HostEscape(b: byte, hi: byte, lo: byte, rest: bytes)
    requires Spells(hi, lo, b)
    ensures DecodeHost([0x25, hi, lo] + rest) == if Forbidden(b) then None else Prepend([b], DecodeHost(rest))
  {
    SpelledByte(hi, lo, b);
    ForbiddenExact(b);
    HostEscapeOf(b, hi, lo, rest);
  }

  lemma HostEscapeOf(b: byte, hi: byte, lo: byte, rest: bytes)
    requires IsHex(hi) && IsHex(lo) && DecodedByte(hi, lo) == b
    ensures DecodeHost([PERCENT, hi, lo] + rest) == if b in FORBIDDEN then None else Prepend([b], DecodeHost(rest))
  {
    HostEscapeInFront(hi, lo, rest);
  }

  lemma HostEscapeInFront(hi: byte, lo: byte, rest: bytes)
    requires IsHex(hi) && IsHex(lo)
    ensures var b := DecodedByte(hi, lo);
            DecodeHost([PERCENT, hi, lo] + rest) == if b in FORBIDDEN then None else Prepend([b], DecodeHost(rest))
  {
    var s := [PERCENT, hi, lo] + rest;
    assert EscapeAt(s, 0) && s[3..] == rest;
  }
}
