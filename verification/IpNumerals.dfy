/** Which hosts are IP addresses, in terms of the numerals they are written in. */
module IpNumerals {
  import opened Bytes
  import opened IpAddress
  import opened IpLiteral

  // --- Numerals ---

  predicate Octal(d: bytes) {
    forall c :: c in d ==> Char(c) in "01234567"
  }

  predicate Decimals10(d: bytes) {
    forall c :: c in d ==> Char(c) in "0123456789"
  }

  predicate Hexadecimal(d: bytes) {
    forall c :: c in d ==> Char(c) in LOWER_HEX || Char(c) in UPPER_HEX
  }

  /** The number that digits stand for, the last one counting once. */
  function Number(base: nat, d: bytes): nat
    decreases |d|
  {
    if d == [] then 0 else Number(base, d[..|d| - 1]) * base + Unhex(d[|d| - 1]) as nat
  }

  /** "0x" and hexadecimal digits, "0" and octal digits, or decimal digits, and the number they stand for. */
  predicate Numeral(s: bytes, v: nat) {
    || (|s| >= 3 && Char(s[0]) == '0' && Char(s[1]) in "xX" && Hexadecimal(s[2..]) && v == Number(16, s[2..]))
    || (s != [] && Char(s[0]) == '0' && Octal(s) && v == Number(8, s))
    || (s != [] && Char(s[0]) != '0' && Decimals10(s) && v == Number(10, s))
  }

  lemma DigitExact(c: byte)
    ensures DigitOf(c).Some? && DigitOf(c).value < 8 <==> Char(c) in "01234567"
    ensures DigitOf(c).Some? && DigitOf(c).value < 10 <==> Char(c) in "0123456789"
    ensures DigitOf(c).Some? && DigitOf(c).value < 16 <==> IsHex(c)
    ensures IsHex(c) ==> DigitOf(c) == Some(Unhex(c) as nat)
  {
  }

  lemma AllDigitsExact(d: bytes)
    ensures AllDigits(8, d) <==> Octal(d)
    ensures AllDigits(10, d) <==> Decimals10(d)
    ensures AllDigits(16, d) <==> Hexadecimal(d)
  {
    forall c
      ensures DigitOf(c).Some? && DigitOf(c).value < 8 <==> Char(c) in "01234567"
      ensures DigitOf(c).Some? && DigitOf(c).value < 10 <==> Char(c) in "0123456789"
      ensures DigitOf(c).Some? && DigitOf(c).value < 16 <==> Char(c) in LOWER_HEX || Char(c) in UPPER_HEX
    {
      DigitExact(c);
      HexDigitsExact(c);
    }
  }

  /** One more digit at the end. The steps from a value to the next are kept apart from the arithmetic in them. */
  lemma {:induction false} ValueSnoc(n: nat, base: nat, d: bytes, c: byte)
    requires AllDigits(base, d + [c])
    ensures AllDigits(base, d) && DigitOf(c).Some?
    ensures Value(n, base, d + [c]) == NextValue(Value(n, base, d), base, DigitOf(c).value)
    decreases |d|
  {
    var s := d + [c];
    assert c in s && forall x :: x in d ==> x in s;
    if d == [] {
      ValueOne(n, base, c);
      assert s == [c];
    } else {
      var m := NextValue(n, base, DigitOf(d[0]).value);
      ValueCons(n, base, d);
      ValueCons(n, base, s);
      assert s[0] == d[0] && s[1..] == d[1..] + [c];
      ValueSnoc(m, base, d[1..], c);
    }
  }

  function NextValue(n: nat, base: nat, digit: nat): nat {
    n * base + digit
  }

  lemma ValueCons(n: nat, base: nat, d: bytes)
    requires d != [] && AllDigits(base, d)
    ensures DigitOf(d[0]).Some? && AllDigits(base, d[1..])
    ensures Value(n, base, d) == Value(NextValue(n, base, DigitOf(d[0]).value), base, d[1..])
  {
    assert d[0] in d;
    TailMembers(d);
  }

  lemma ValueOne(n: nat, base: nat, c: byte)
    requires AllDigits(base, [c])
    ensures DigitOf(c).Some? && Value(n, base, [c]) == n * base + DigitOf(c).value
  {
    var s: bytes := [c];
    assert s[0] in s && s[1..] == [];
  }

  lemma {:induction false} ValueIsNumber(base: nat, d: bytes)
    requires base <= 16 && AllDigits(base, d)
    ensures Value(0, base, d) == Number(base, d)
    decreases |d|
  {
    if d != [] {
      var front, c := d[..|d| - 1], d[|d| - 1];
      assert d == front + [c] && c in d;
      ValueSnoc(0, base, front, c);
      ValueIsNumber(base, front);
      DigitExact(c);
    }
  }

  lemma LeadingZero(base: nat, d: bytes)
    requires d != [] && Char(d[0]) == '0' && AllDigits(base, d)
    ensures AllDigits(base, d[1..]) && Value(0, base, d) == Value(0, base, d[1..])
  {
    TailMembers(d);
    assert DigitOf(d[0]) == Some(0);
  }

  lemma AllDigitsCons(base: nat, d: bytes)
    requires d != []
    ensures AllDigits(base, d) <==> DigitOf(d[0]).Some? && DigitOf(d[0]).value < base && AllDigits(base, d[1..])
  {
    assert d == [d[0]] + d[1..];
    assert forall c :: c in d <==> c == d[0] || c in d[1..];
  }

  /** The lookup side's parser accepts exactly the numerals below 2^32, with their numbers. */
  lemma NumeralExact(s: bytes, v: nat)
    ensures TsParseUint(s) == Some(v) <==> Numeral(s, v) && v < 0x1_0000_0000
  {
    if s != [] {
      AllDigitsExact(s);
      AllDigitsCons(8, s);
      if AllDigits(10, s) {
        ValueIsNumber(10, s);
      }
      if AllDigits(8, s) {
        ValueIsNumber(8, s);
      }
      if Char(s[0]) == '0' {
        ZeroCase(s);
      }
    }
  }

  lemma ZeroCase(s: bytes)
    requires s != [] && Char(s[0]) == '0'
    ensures AllDigits(8, s) ==> Value(0, 8, s) == Value(0, 8, s[1..])
    ensures |s| >= 3 ==> (AllDigits(16, s[2..]) <==> Hexadecimal(s[2..]))
    ensures |s| >= 3 && AllDigits(16, s[2..]) ==> Value(0, 16, s[2..]) == Number(16, s[2..])
    ensures |s| >= 2 && Char(s[1]) in "xX" ==> !AllDigits(8, s) && !AllDigits(8, s[1..])
  {
    if AllDigits(8, s) {
      LeadingZero(8, s);
    }
    if |s| >= 3 {
      HexTail(s[2..]);
    }
    if |s| >= 2 {
      XIsNoDigit(s);
    }
  }

  lemma HexTail(d: bytes)
    ensures AllDigits(16, d) <==> Hexadecimal(d)
    ensures AllDigits(16, d) ==> Value(0, 16, d) == Number(16, d)
  {
    AllDigitsExact(d);
    if AllDigits(16, d) {
      ValueIsNumber(16, d);
    }
  }

  lemma XIsNoDigit(s: bytes)
    requires |s| >= 2
    ensures Char(s[1]) in "xX" ==> !AllDigits(8, s) && !AllDigits(8, s[1..])
  {
    assert s[1] in s && s[1..][0] == s[1] && s[1] in s[1..];
    DigitExact(s[1]);
  }

  // --- Hosts ---

  /** One to four numerals below 2^32 between dots. */
  ghost predicate AddressShape(s: bytes) {
    && |Split(s, 0x2e)| <= 4
    && forall p :: p in Split(s, 0x2e) ==> exists v :: Numeral(p, v) && v < 0x1_0000_0000
  }

  lemma NumberParts(p: bytes)
    ensures (exists v :: Numeral(p, v) && v < 0x1_0000_0000) <==> TsParseUint(p).Some?
  {
    if TsParseUint(p).Some? {
      NumeralExact(p, TsParseUint(p).value);
    }
    if exists v :: Numeral(p, v) && v < 0x1_0000_0000 {
      var v :| Numeral(p, v) && v < 0x1_0000_0000;
      NumeralExact(p, v);
    }
  }

  lemma {:induction false} DigitsThenTokens(d: bytes, rest: bytes)
    requires (forall c :: c in d ==> IsDigit(c)) && Tokens(rest)
    ensures Tokens(d + rest)
    decreases |d|
  {
    if d == [] {
      assert d + rest == rest;
    } else {
      assert d[0] in d;
      TailMembers(d);
      DigitsThenTokens(d[1..], rest);
      assert (d + rest)[1..] == d[1..] + rest;
    }
  }

  lemma {:induction false} HexThen(d: bytes, rest: bytes)
    requires (forall c :: c in d ==> IsHex(c)) && Tokens(rest)
    ensures HexThenTokens(d + rest)
    decreases |d|
  {
    if d == [] {
      assert d + rest == rest;
    } else {
      assert d[0] in d;
      TailMembers(d);
      HexThen(d[1..], rest);
      assert (d + rest)[1..] == d[1..] + rest;
    }
  }

  lemma NumberThenTokens(p: bytes, rest: bytes)
    requires TsParseUint(p).Some? && Tokens(rest)
    ensures Tokens(p + rest)
  {
    var s := p + rest;
    if |p| >= 3 && p[0] == ZERO && IsX(p[1]) && AllDigits(16, p[2..]) {
      forall c | c in p[2..]
        ensures IsHex(c)
      {
        DigitExact(c);
      }
      assert p[2] == p[2..][0] && p[2] in p[2..];
      TailMembers(p[2..]);
      assert p[2..][1..] == p[3..];
      HexThen(p[3..], rest);
      assert s[3..] == p[3..] + rest;
    } else {
      DecimalBytes(p);
      DigitsThenTokens(p, rest);
    }
  }

  lemma DecimalBytes(p: bytes)
    requires TsParseUint(p).Some?
    requires !(|p| >= 3 && p[0] == ZERO && IsX(p[1]) && AllDigits(16, p[2..]))
    ensures forall c :: c in p ==> IsDigit(c)
  {
    assert p == [p[0]] + p[1..];
    forall c | c in p
      ensures IsDigit(c)
    {
      DigitExact(c);
      assert c == p[0] || c in p[1..];
    }
  }

  lemma {:induction false} NumbersAreTokens(parts: seq<bytes>)
    requires forall p :: p in parts ==> TsParseUint(p).Some?
    ensures Tokens(Join(parts, DOT))
    decreases |parts|
  {
    if parts != [] {
      assert parts[0] in parts;
      TailMembers(parts);
      NumbersAreTokens(parts[1..]);
      if |parts| == 1 {
        NumberThenTokens(parts[0], []);
        assert parts[0] + [] == parts[0];
      } else {
        var rest := [DOT] + Join(parts[1..], DOT);
        assert rest[1..] == Join(parts[1..], DOT);
        NumberThenTokens(parts[0], rest);
        assert Join(parts, DOT) == parts[0] + rest;
      }
    }
  }

  lemma NumberShape(s: bytes)
    ensures AddressShape(s) <==> |Split(s, DOT)| <= 4 && forall p :: p in Split(s, DOT) ==> TsParseUint(p).Some?
  {
    forall p
      ensures (exists v :: Numeral(p, v) && v < 0x1_0000_0000) <==> TsParseUint(p).Some?
    {
      NumberParts(p);
    }
  }

  lemma ShapeIsPossible(s: bytes)
    requires AddressShape(s)
    ensures PossibleIP(s)
  {
    NumberShape(s);
    NumbersAreTokens(Split(s, DOT));
    SplitPieces(s, DOT);
    assert Split(s, DOT)[0] in Split(s, DOT);
    assert s != [];
  }

  lemma ShapeIsFormatted(s: bytes)
    requires AddressShape(s)
    ensures FormatParts(NumText(TsParseUint), Split(s, DOT)) != []
  {
    var parts := Split(s, DOT);
    var texts := PartTexts(NumText(TsParseUint), parts);
    NumberShape(s);
    forall i | 0 <= i < |parts|
      ensures texts[i] != []
    {
      assert parts[i] in parts;
      var n := if i == |parts| - 1 then 5 - |parts| else 1;
      PartIsWritten(TsParseUint, parts[i], n);
      DotTextBytes(Octets(TsParseUint(parts[i]).value, n));
      assert texts[i] == PartText(NumText(TsParseUint), parts, i);
    }
    assert Join(texts, DOT) != [] by {
      assert texts[0] != [];
    }
  }

  /** A host is an IP address exactly when, apart from what follows a dotted quad and a space, it is one to four numerals
      below 2^32 between dots, each decimal, octal or hexadecimal. */
  lemma RecognizedExact(host: bytes)
    ensures ParseIP(GoParseUint, host) != [] <==> AddressShape(WithoutRubbish(host))
  {
    var s := WithoutRubbish(host);
    SidesAgree(host);
    if AddressShape(s) {
      ShapeIsPossible(s);
      ShapeIsFormatted(s);
    }
    if ParseIP(TsParseUint, host) != [] {
      FormatPartsResult(TsParseUint, Split(s, DOT));
      NumberShape(s);
    }
  }

  // --- Dotted quads ---

  predicate Group(g: bytes) {
    1 <= |g| <= 3 && forall c :: c in g ==> Char(c) in "0123456789"
  }

  /** A quad is four groups of one to three digits between dots. */
  lemma QuadExact(q: bytes)
    ensures IsQuad(q) <==> exists a, b, c, d ::
      Group(a) && Group(b) && Group(c) && Group(d) && q == Join([a, b, c, d], 0x2e)
  {
    forall g: bytes
      ensures IsGroup(g) <==> Group(g)
    {
      GroupExact(g);
    }
    var gs := Split(q, DOT);
    if IsQuad(q) {
      SplitPieces(q, DOT);
      assert gs == [gs[0], gs[1], gs[2], gs[3]];
      assert gs[0] in gs && gs[1] in gs && gs[2] in gs && gs[3] in gs;
    }
    forall a, b, c, d | Group(a) && Group(b) && Group(c) && Group(d) && q == Join([a, b, c, d], 0x2e)
      ensures IsQuad(q)
    {
      SplitJoin([a, b, c, d], DOT);
    }
  }

  lemma GroupExact(g: bytes)
    ensures IsGroup(g) <==> Group(g)
    ensures Group(g) ==> DOT !in g
  {
    forall c: byte
      ensures IsDigit(c) <==> Char(c) in "0123456789"
    {
      HexDigitsExact(c);
    }
  }
}
