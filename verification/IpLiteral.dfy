/** IP literals: from a host spelling to the canonical dotted form, and why no stored host is one. */
module IpLiteral {
  import opened Bytes
  import opened IpAddress
  import opened HostSuffixes

  /** An octet in decimal. */
  function Decimal(v: byte): (s: bytes)
    ensures 1 <= |s| <= 3 && forall c :: c in s ==> IsDigit(c)
  {
    if v < 10 then [0x30 + v]
    else if v < 100 then [0x30 + v / 10, 0x30 + v % 10]
    else [0x30 + v / 100, 0x30 + v / 10 % 10, 0x30 + v % 10]
  }

  function Decimals(octets: bytes): (ss: seq<bytes>)
    ensures |ss| == |octets| && forall i :: 0 <= i < |octets| ==> ss[i] == Decimal(octets[i])
  {
    seq(|octets|, i requires 0 <= i < |octets| => Decimal(octets[i]))
  }

  function DotText(octets: bytes): bytes {
    Join(Decimals(octets), DOT)
  }

  // --- One number ---

  /** The dotted text of a part that stands for `n` octets, "" when it is no number. */
  function CanonicalNum(parse: bytes -> Option<nat>, s: bytes, n: int): bytes {
    if n <= 0 || n > 4 || parse(s).None? then [] else DotText(Octets(parse(s).value, n))
  }

  /** The feed side: mask and shift, filling the pieces from the back. */
  method CanonicalNumGo(s: bytes, n: int) returns (r: bytes)
    ensures r == CanonicalNum(GoParseUint, s, n)
  {
    if n <= 0 || n > 4 {
      return [];
    }
    var parsed := GoParseUint(s);
    if parsed.None? {
      return [];
    }
    var ss := FillByMask(parsed.value, n);
    return Join(ss[..], DOT);
  }

  method FillByMask(number: nat, n: nat) returns (ss: array<bytes>)
    ensures fresh(ss) && ss[..] == Decimals(Octets(number, n))
  {
    var v := number;
    ss := new bytes[n];
    ghost var all := Octets(v, n);
    for i := n downto 0
      invariant Octets(v, i) == all[..i]
      invariant forall k :: i <= k < n ==> ss[k] == Decimal(all[k])
    {
      LastOctet(v, i + 1);
      assert all[..i + 1][i] == all[i] && all[..i + 1][..i] == all[..i];
      var low, high := LowByte(v);
      ss[i] := Decimal(low);
      v := high;
    }
  }

  method LowByte(v: nat) returns (low: byte, high: nat)
    ensures low == (v % 256) as byte && high == v / 256
  {
    MaskAndShift(v);
    low := BitAnd(v, 0xff) as byte;
    high := ShiftRight(v, 8);
  }

  /** The lookup side: remainder and quotient. */
  method CanonicalNumTs(s: bytes, n: int) returns (r: bytes)
    ensures r == CanonicalNum(TsParseUint, s, n)
  {
    if n <= 0 || n > 4 {
      return [];
    }
    var v := TsParseUint(s);
    if v.None? {
      return [];
    }
    var ss := FillByDivision(v.value, n);
    return Join(ss[..], DOT);
  }

  method FillByDivision(number: nat, n: nat) returns (ss: array<bytes>)
    ensures fresh(ss) && ss[..] == Decimals(Octets(number, n))
  {
    var rest := number;
    ss := new bytes[n];
    ghost var all := Octets(rest, n);
    for i := n downto 0
      invariant Octets(rest, i) == all[..i]
      invariant forall k :: i <= k < n ==> ss[k] == Decimal(all[k])
    {
      LastOctet(rest, i + 1);
      assert all[..i + 1][i] == all[i] && all[..i + 1][..i] == all[..i];
      ss[i] := Decimal((rest % 256) as byte);
      rest := rest / 256;
    }
  }

  // --- The whole address ---

  /** The text of one part, given the way to write a number in some octets. */
  function PartText(num: (bytes, int) -> bytes, parts: seq<bytes>, i: nat): bytes
    requires i < |parts|
  {
    num(parts[i], if i == |parts| - 1 then 5 - |parts| else 1)
  }

  function NumText(parse: bytes -> Option<nat>): (bytes, int) -> bytes {
    (s, n) => CanonicalNum(parse, s, n)
  }

  /** The texts of all parts, the last one standing for the octets that are left. */
  function PartTexts(num: (bytes, int) -> bytes, parts: seq<bytes>): (ss: seq<bytes>)
    ensures |ss| == |parts| && forall i :: 0 <= i < |parts| ==> ss[i] == PartText(num, parts, i)
  {
    seq(|parts|, i requires 0 <= i < |parts| => PartText(num, parts, i))
  }

  /** "" when there are too many parts or one is no number. */
  function FormatParts(num: (bytes, int) -> bytes, parts: seq<bytes>): bytes {
    if |parts| > 4 || [] in PartTexts(num, parts) then [] else Join(PartTexts(num, parts), DOT)
  }

  /** The canonical form of an IP host, "" for any other host. */
  function ParseIP(parse: bytes -> Option<nat>, host: bytes): bytes {
    var s := WithoutRubbish(host);
    if PossibleIP(s) then FormatParts(NumText(parse), Split(s, DOT)) else []
  }

  method PartTextGo(parts: seq<bytes>, i: nat) returns (text: bytes)
    requires i < |parts|
    ensures text == PartText(NumText(GoParseUint), parts, i)
  {
    text := CanonicalNumGo(parts[i], if i == |parts| - 1 then 5 - |parts| else 1);
  }

  method FormatPartsGo(parts: seq<bytes>) returns (r: bytes)
    ensures r == FormatParts(NumText(GoParseUint), parts)
  {
    if |parts| > 4 {
      return [];
    }
    var ss := new bytes[|parts|];
    ghost var texts := PartTexts(NumText(GoParseUint), parts);
    for i := 0 to |parts|
      invariant forall k :: 0 <= k < i ==> ss[k] == texts[k] && texts[k] != []
    {
      ss[i] := PartTextGo(parts, i);
      if ss[i] == [] {
        assert texts[i] in texts;
        return [];
      }
    }
    assert ss[..] == texts && [] !in texts;
    return Join(ss[..], DOT);
  }

  method ParseIPAddressGo(host: bytes) returns (r: bytes)
    ensures r == ParseIP(GoParseUint, host)
  {
    var s := WithoutRubbish(host);
    if !PossibleIP(s) {
      return [];
    }
    r := FormatPartsGo(Split(s, DOT));
  }

  // --- Both sides agree ---

  /** No token goes across a dot, so every part is made of tokens itself. */
  lemma {:induction false} TokensOfParts(s: bytes)
    requires Tokens(s)
    ensures forall p :: p in Split(s, DOT) ==> Tokens(p)
    decreases |s|, 0
  {
    if s == [] {
    } else if (IsDigit(s[0]) || s[0] == DOT) && Tokens(s[1..]) {
      TokensOfParts(s[1..]);
      var rest := Split(s[1..], DOT);
      assert rest[0] in rest;
      if s[0] != DOT {
        PartsFromHead(Tokens, [s[0]], rest);
      }
    } else {
      HexTokensOfParts(s[3..]);
      var head, rest := s[..3], Split(s[3..], DOT);
      assert s == head + s[3..];
      SplitHead(head, s[3..], DOT);
      assert (head + rest[0])[3..] == rest[0];
      PartsFromHead(Tokens, head, rest);
    }
  }

  lemma {:induction false} HexTokensOfParts(s: bytes)
    requires HexThenTokens(s)
    ensures HexThenTokens(Split(s, DOT)[0])
    ensures forall p :: p in Split(s, DOT)[1..] ==> Tokens(p)
    decreases |s|, 1
  {
    if Tokens(s) {
      TokensOfParts(s);
      assert Split(s, DOT)[0] in Split(s, DOT);
      TailMembers(Split(s, DOT));
    } else {
      HexTokensOfParts(s[1..]);
      assert ([s[0]] + Split(s[1..], DOT)[0])[1..] == Split(s[1..], DOT)[0];
    }
  }

  lemma PartsFromHead(ok: bytes -> bool, head: bytes, rest: seq<bytes>)
    requires |rest| >= 1 && ok(head + rest[0]) && forall p :: p in rest[1..] ==> ok(p)
    ensures forall p :: p in [head + rest[0]] + rest[1..] ==> ok(p)
  {
  }

  /** A part made of tokens has no spelling that only the feed side reads. */
  lemma TokensAreNotGoOnly(p: bytes)
    requires Tokens(p) && DOT !in p
    ensures !GoOnly(p)
  {
    TokensHaveNoUnderscore(p);
  }

  lemma {:induction false} TokensHaveNoUnderscore(s: bytes)
    ensures Tokens(s) ==> UNDERSCORE !in s
    ensures HexThenTokens(s) ==> UNDERSCORE !in s
    decreases |s|
  {
    if s != [] {
      TokensHaveNoUnderscore(s[1..]);
      assert s == [s[0]] + s[1..];
      if |s| >= 3 {
        TokensHaveNoUnderscore(s[3..]);
        assert s == [s[0], s[1], s[2]] + s[3..];
      }
    }
  }

  /** Whatever host they are given, the two sides find the same IP address or none. */
  lemma SidesAgree(host: bytes)
    ensures ParseIP(GoParseUint, host) == ParseIP(TsParseUint, host)
  {
    var s := WithoutRubbish(host);
    var parts := Split(s, DOT);
    if PossibleIP(s) {
      TokensOfParts(s);
      SplitPieces(s, DOT);
      forall i | 0 <= i < |parts|
        ensures GoParseUint(parts[i]) == TsParseUint(parts[i])
      {
        assert parts[i] in parts;
        TokensAreNotGoOnly(parts[i]);
        ParsersAgree(parts[i]);
      }
      assert PartTexts(NumText(GoParseUint), parts) == PartTexts(NumText(TsParseUint), parts);
    }
  }

  /** Without the shape filter they would not: "0b1" is a number to the feed side only. */
  lemma FilterIsNeeded()
    ensures var s := [ZERO, 0x62, 0x31];
            GoParseUint(s) == Some(1) && TsParseUint(s) == None && !PossibleIP(s)
  {
    var s: bytes := [ZERO, 0x62, 0x31];
    assert s[2..] == [0x31] && s[1..] == [0x62, 0x31];
    assert ScanDigits(0, 2, [0x31]) == Some(1);
    assert s[1] in s[1..];
  }

  // --- What comes out ---

  /** The number each part stands for. */
  function Numbers(parse: bytes -> Option<nat>, parts: seq<bytes>): seq<nat>
    requires forall p :: p in parts ==> parse(p).Some?
    decreases |parts|
  {
    if parts == [] then []
    else
      assert parts[0] in parts;
      [parse(parts[0]).value] + Numbers(parse, parts[1..])
  }

  /** One octet for every number but the last, which fills up to `left` octets. */
  function AddressOctets(numbers: seq<nat>, left: nat): (o: bytes)
    requires 1 <= |numbers| <= left
    ensures |o| == left
    decreases |numbers|
  {
    if |numbers| == 1 then Octets(numbers[0], left) else Octets(numbers[0], 1) + AddressOctets(numbers[1..], left - 1)
  }

  lemma DotTextConcat(a: bytes, b: bytes)
    requires a != [] && b != []
    ensures DotText(a + b) == DotText(a) + [DOT] + DotText(b)
  {
    assert Decimals(a + b) == Decimals(a) + Decimals(b);
    JoinConcat(Decimals(a), Decimals(b), DOT);
  }

  /** The part texts, first to last, with `left` octets still to fill. */
  function TextsOf(num: (bytes, int) -> bytes, parts: seq<bytes>, left: int): (ss: seq<bytes>)
    ensures |ss| == |parts|
    decreases |parts|
  {
    if parts == [] then []
    else if |parts| == 1 then [num(parts[0], left)]
    else [num(parts[0], 1)] + TextsOf(num, parts[1..], left - 1)
  }

  lemma {:induction false} TextsAt(num: (bytes, int) -> bytes, parts: seq<bytes>, left: int, i: nat)
    requires i < |parts|
    ensures TextsOf(num, parts, left)[i] == num(parts[i], if i == |parts| - 1 then left + 1 - |parts| else 1)
    decreases |parts|
  {
    if i > 0 {
      TextsAt(num, parts[1..], left - 1, i - 1);
    }
  }

  lemma {:induction false} JoinedTexts(parse: bytes -> Option<nat>, parts: seq<bytes>, left: nat)
    requires 1 <= |parts| <= left <= 4
    requires forall p :: p in parts ==> parse(p).Some?
    ensures |Numbers(parse, parts)| == |parts|
    ensures Join(TextsOf(NumText(parse), parts, left), DOT) == DotText(AddressOctets(Numbers(parse, parts), left))
    decreases |parts|
  {
    assert parts[0] in parts;
    TailMembers(parts);
    var v, rest := parse(parts[0]).value, parts[1..];
    if |parts| == 1 {
      assert Numbers(parse, rest) == [];
      PartIsWritten(parse, parts[0], left);
    } else {
      JoinedTexts(parse, rest, left - 1);
      PartIsWritten(parse, parts[0], 1);
      JoinCons(DotText(Octets(v, 1)), TextsOf(NumText(parse), rest, left - 1));
      AddressCons(v, Numbers(parse, rest), left);
      DotTextConcat(Octets(v, 1), AddressOctets(Numbers(parse, rest), left - 1));
    }
  }

  lemma PartIsWritten(parse: bytes -> Option<nat>, s: bytes, n: nat)
    requires parse(s).Some? && 1 <= n <= 4
    ensures NumText(parse)(s, n) == DotText(Octets(parse(s).value, n))
  {
  }

  lemma JoinCons(head: bytes, tail: seq<bytes>)
    requires tail != []
    ensures Join([head] + tail, DOT) == head + [DOT] + Join(tail, DOT)
  {
    assert ([head] + tail)[1..] == tail;
  }

  lemma AddressCons(v: nat, numbers: seq<nat>, left: nat)
    requires 1 <= |numbers| < left
    ensures AddressOctets([v] + numbers, left) == Octets(v, 1) + AddressOctets(numbers, left - 1)
  {
    assert ([v] + numbers)[1..] == numbers;
  }

  lemma EveryPartIsNumber(parse: bytes -> Option<nat>, parts: seq<bytes>)
    requires [] !in PartTexts(NumText(parse), parts)
    ensures forall p :: p in parts ==> parse(p).Some?
  {
    var texts := PartTexts(NumText(parse), parts);
    forall p | p in parts
      ensures parse(p).Some?
    {
      var i :| 0 <= i < |parts| && parts[i] == p;
      assert texts[i] in texts && texts[i] == PartText(NumText(parse), parts, i);
    }
  }

  lemma FormatPartsResult(parse: bytes -> Option<nat>, parts: seq<bytes>)
    requires |parts| >= 1 && FormatParts(NumText(parse), parts) != []
    ensures |parts| <= 4 && forall p :: p in parts ==> parse(p).Some?
    ensures |Numbers(parse, parts)| == |parts|
    ensures FormatParts(NumText(parse), parts) == DotText(AddressOctets(Numbers(parse, parts), 4))
  {
    EveryPartIsNumber(parse, parts);
    forall i | 0 <= i < |parts|
      ensures PartTexts(NumText(parse), parts)[i] == TextsOf(NumText(parse), parts, 4)[i]
    {
      TextsAt(NumText(parse), parts, 4, i);
    }
    assert PartTexts(NumText(parse), parts) == TextsOf(NumText(parse), parts, 4);
    JoinedTexts(parse, parts, 4);
  }

  /** The octets behind some numeric parts: each leading part modulo 256, then the last part
      modulo 256^(5-k) in big-endian octets, k being the number of parts. */
  ghost predicate AddressOf(octets: bytes, parse: bytes -> Option<nat>, parts: seq<bytes>) {
    && 1 <= |parts| <= 4 && |octets| == 4
    && (forall p :: p in parts ==> parse(p).Some?)
    && (forall i :: 0 <= i < |parts| - 1 ==> parts[i] in parts && octets[i] as nat == parse(parts[i]).value % 256)
    && parts[|parts| - 1] in parts
    && BigEndian(octets[|parts| - 1..]) == parse(parts[|parts| - 1]).value % Power256(5 - |parts|)
  }

  lemma {:induction false} NumbersAt(parse: bytes -> Option<nat>, parts: seq<bytes>, i: nat)
    requires (forall p :: p in parts ==> parse(p).Some?) && i < |parts|
    ensures |Numbers(parse, parts)| == |parts| && parts[i] in parts && Numbers(parse, parts)[i] == parse(parts[i]).value
    decreases |parts|
  {
    TailMembers(parts);
    if i > 0 {
      NumbersAt(parse, parts[1..], i - 1);
    } else if |parts| > 1 {
      NumbersAt(parse, parts[1..], 0);
    }
  }

  lemma LastPartOctets(parse: bytes -> Option<nat>, parts: seq<bytes>, octets: bytes)
    requires 1 <= |parts| <= 4 && forall p :: p in parts ==> parse(p).Some?
    requires |Numbers(parse, parts)| == |parts| && octets == AddressOctets(Numbers(parse, parts), 4)
    ensures parts[|parts| - 1] in parts
    ensures BigEndian(octets[|parts| - 1..]) == parse(parts[|parts| - 1]).value % Power256(5 - |parts|)
  {
    NumbersAt(parse, parts, |parts| - 1);
    LastNumberOctets(Numbers(parse, parts), octets);
  }

  lemma LastNumberOctets(numbers: seq<nat>, octets: bytes)
    requires 1 <= |numbers| <= 4 && octets == AddressOctets(numbers, 4)
    ensures BigEndian(octets[|numbers| - 1..]) == numbers[|numbers| - 1] % Power256(5 - |numbers|)
  {
    var n := 5 - |numbers|;
    AddressOctetsAt(numbers, 4);
    assert octets[|numbers| - 1..] == Octets(numbers[|numbers| - 1], n);
    OctetsAreBigEndian(numbers[|numbers| - 1], n);
  }

  lemma NumbersGiveAddress(parse: bytes -> Option<nat>, parts: seq<bytes>)
    requires 1 <= |parts| <= 4 && forall p :: p in parts ==> parse(p).Some?
    ensures |Numbers(parse, parts)| == |parts|
    ensures AddressOf(AddressOctets(Numbers(parse, parts), 4), parse, parts)
  {
    NumbersAt(parse, parts, |parts| - 1);
    var octets := AddressOctets(Numbers(parse, parts), 4);
    LastPartOctets(parse, parts, octets);
    AddressOctetsAt(Numbers(parse, parts), 4);
    forall i | 0 <= i < |parts| - 1
      ensures parts[i] in parts && octets[i] as nat == parse(parts[i]).value % 256
    {
      NumbersAt(parse, parts, i);
    }
  }

  lemma AddressOfParts(parse: bytes -> Option<nat>, parts: seq<bytes>) returns (octets: bytes)
    requires |parts| >= 1 && FormatParts(NumText(parse), parts) != []
    ensures AddressOf(octets, parse, parts) && FormatParts(NumText(parse), parts) == DotText(octets)
  {
    FormatPartsResult(parse, parts);
    NumbersGiveAddress(parse, parts);
    octets := AddressOctets(Numbers(parse, parts), 4);
  }

  /** The canonical form of an IP host is the dotted text of the octets of its one to four parts. */
  lemma ParseIPResult(parse: bytes -> Option<nat>, host: bytes) returns (octets: bytes)
    requires ParseIP(parse, host) != []
    ensures ParseIP(parse, host) == DotText(octets) && AddressOf(octets, parse, Split(WithoutRubbish(host), DOT))
  {
    octets := AddressOfParts(parse, Split(WithoutRubbish(host), DOT));
  }

  lemma AddressOctetsAt(numbers: seq<nat>, left: nat)
    requires 1 <= |numbers| <= left
    ensures var o, k := AddressOctets(numbers, left), |numbers|;
            && (forall i :: 0 <= i < k - 1 ==> o[i] as nat == numbers[i] % 256)
            && o[k - 1..] == Octets(numbers[k - 1], left + 1 - k)
  {
    forall i | 0 <= i < |numbers| - 1
      ensures AddressOctets(numbers, left)[i] as nat == numbers[i] % 256
    {
      LeadingOctet(numbers, left, i);
    }
    TrailingOctets(numbers, left);
  }

  lemma FirstOctet(numbers: seq<nat>, left: nat)
    requires 2 <= |numbers| <= left
    ensures AddressOctets(numbers, left) == [(numbers[0] % 256) as byte] + AddressOctets(numbers[1..], left - 1)
  {
    LastOctet(numbers[0], 1);
  }

  lemma {:induction false} LeadingOctet(numbers: seq<nat>, left: nat, i: nat)
    requires 1 <= |numbers| <= left && i < |numbers| - 1
    ensures AddressOctets(numbers, left)[i] as nat == numbers[i] % 256
    decreases |numbers|
  {
    FirstOctet(numbers, left);
    if i > 0 {
      LeadingOctet(numbers[1..], left - 1, i - 1);
    }
  }

  lemma {:induction false} TrailingOctets(numbers: seq<nat>, left: nat)
    requires 1 <= |numbers| <= left
    ensures AddressOctets(numbers, left)[|numbers| - 1..] ==
            Octets(numbers[|numbers| - 1], left + 1 - |numbers|)
    decreases |numbers|
  {
    if |numbers| > 1 {
      FirstOctet(numbers, left);
      TrailingOctets(numbers[1..], left - 1);
      Prepended((numbers[0] % 256) as byte, AddressOctets(numbers[1..], left - 1), |numbers| - 1);
    }
  }

  lemma Prepended(first: byte, rest: bytes, k: nat)
    requires 1 <= k <= |rest|
    ensures ([first] + rest)[k..] == rest[k - 1..]
  {
  }

  // --- Canonical addresses and hosts ---

  lemma ScanDigit(n: nat, s: bytes)
    requires s != [] && IsDigit(s[0]) && n * 10 + (s[0] - 0x30) as nat <= MAX_UINT32
    ensures ScanDigits(n, 10, s) == ScanDigits(n * 10 + (s[0] - 0x30) as nat, 10, s[1..])
  {
  }

  /** The decimal text of an octet is read back. */
  lemma DecimalIsParsed(v: byte)
    ensures GoParseUint(Decimal(v)) == Some(v as nat)
  {
    assert UNDERSCORE !in Decimal(v);
    DecimalIsScanned(v);
  }

  lemma DecimalIsScanned(v: byte)
    ensures v > 0 ==> Decimal(v)[0] != 0x30 && ScanDigits(0, 10, Decimal(v)) == Some(v as nat)
  {
    if v < 10 {
      ScanLast(0, v);
    } else if v < 100 {
      ScanTwo(0, v / 10, v % 10);
    } else {
      ScanThree(v / 100, v / 10 % 10, v % 10);
    }
  }

  lemma ScanThree(a: byte, b: byte, c: byte)
    requires a <= 2 && b < 10 && c < 10
    ensures ScanDigits(0, 10, [0x30 + a, 0x30 + b, 0x30 + c]) == Some(a as nat * 100 + b as nat * 10 + c as nat)
  {
    var s: bytes := [0x30 + a, 0x30 + b, 0x30 + c];
    assert s[1..] == [0x30 + b, 0x30 + c];
    ScanDigit(0, s);
    ScanTwo(a as nat, b, c);
  }

  lemma ScanTwo(n: nat, d: byte, e: byte)
    requires d < 10 && e < 10 && n <= 2
    ensures ScanDigits(n, 10, [0x30 + d, 0x30 + e]) == Some(n * 100 + d as nat * 10 + e as nat)
  {
    var s: bytes := [0x30 + d, 0x30 + e];
    assert s[1..] == [0x30 + e];
    ScanDigit(n, s);
    ScanLast(n * 10 + d as nat, e);
  }

  lemma ScanLast(n: nat, d: byte)
    requires d < 10 && n * 10 + d as nat <= MAX_UINT32
    ensures ScanDigits(n, 10, [0x30 + d]) == Some(n * 10 + d as nat)
  {
    var s: bytes := [0x30 + d];
    ScanDigit(n, s);
    assert s[1..] == [];
  }

  lemma {:induction false} DigitsAndDotsAreTokens(s: bytes)
    requires forall c :: c in s ==> IsDigit(c) || c == DOT
    ensures Tokens(s)
    decreases |s|
  {
    if s != [] {
      assert s[0] in s;
      TailMembers(s);
      DigitsAndDotsAreTokens(s[1..]);
    }
  }

  lemma {:induction false} DotTextBytes(octets: bytes)
    ensures forall c :: c in DotText(octets) ==> IsDigit(c) || c == DOT
    ensures octets != [] ==> DotText(octets) != []
    decreases |octets|
  {
    if |octets| >= 2 {
      var rest := octets[1..];
      DotTextBytes(rest);
      assert octets == [octets[0]] + rest;
      DotTextConcat([octets[0]], rest);
      assert DotText([octets[0]]) == Decimal(octets[0]);
    }
  }

  lemma NoSpaceNoRubbish(s: bytes)
    requires SPACE !in s
    ensures WithoutRubbish(s) == s
  {
  }

  /** The canonical form of an address is its own canonical form. */
  lemma CanonicalAddressIsFixed(octets: bytes)
    requires |octets| == 4
    ensures ParseIP(GoParseUint, DotText(octets)) == DotText(octets)
  {
    var s, parts := DotText(octets), Decimals(octets);
    DotTextBytes(octets);
    NoSpaceNoRubbish(s);
    DigitsAndDotsAreTokens(s);
    SplitJoin(parts, DOT);
    OctetTexts(octets);
  }

  lemma OctetTexts(octets: bytes)
    requires |octets| == 4
    ensures PartTexts(NumText(GoParseUint), Decimals(octets)) == Decimals(octets)
  {
    var parts := Decimals(octets);
    var texts := PartTexts(NumText(GoParseUint), parts);
    forall i | 0 <= i < 4
      ensures texts[i] == parts[i]
    {
      OctetRoundTrip(octets[i]);
      assert texts[i] == PartText(NumText(GoParseUint), parts, i);
    }
  }

  lemma OctetRoundTrip(v: byte)
    ensures CanonicalNum(GoParseUint, Decimal(v), 1) == Decimal(v)
  {
    DecimalIsParsed(v);
    LastOctet(v as nat, 1);
    assert Octets(v as nat, 1) == [v];
    assert Decimals([v]) == [Decimal(v)];
  }

  lemma ParseIPIdempotent(host: bytes)
    requires ParseIP(GoParseUint, host) != []
    ensures ParseIP(GoParseUint, ParseIP(GoParseUint, host)) == ParseIP(GoParseUint, host)
  {
    var octets := ParseIPResult(GoParseUint, host);
    CanonicalAddressIsFixed(octets);
  }

  /** The host language and the IP language are disjoint. */
  lemma HostIsNoIP(parse: bytes -> Option<nat>, host: bytes)
    requires IsHost(host)
    ensures ParseIP(parse, host) == []
  {
    HostAvoids(host, SPACE);
    NoSpaceNoRubbish(host);
    if PossibleIP(host) {
      TokensStartOnDigit(host);
    }
  }

  lemma TokensStartOnDigit(s: bytes)
    requires Tokens(s)
    ensures var last := Labels(s)[|Labels(s)| - 1]; last == [] || IsDigit(last[0]) || last[0] == DOT
  {
    TokensOfParts(s);
    assert Labels(s)[|Labels(s)| - 1] in Labels(s);
  }
}
