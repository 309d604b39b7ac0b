/** Recognizing IP literals in the spellings legacy resolvers accept, on both sides. */
module IpAddress {
  import opened Bytes

  const UNDERSCORE: byte := 0x5f
  const MAX_UINT32: nat := 0xffff_ffff

  // --- "1.2.3.4 rubbish" ---

  predicate IsGroup(g: bytes) {
    1 <= |g| <= 3 && forall c :: c in g ==> IsDigit(c)
  }

  /** "1.2.3.4": four dotted groups of one to three digits. */
  predicate IsQuad(q: bytes) {
    |Split(q, DOT)| == 4 && forall g :: g in Split(q, DOT) ==> IsGroup(g)
  }

  function UntilSpace(s: bytes): (t: bytes)
    ensures t <= s && SPACE !in t && (t == s || s[|t|] == SPACE)
    decreases |s|
  {
    if s == [] || s[0] == SPACE then [] else [s[0]] + UntilSpace(s[1..])
  }

  /** A short host that starts with a quad and a space is reduced to the quad. */
  function WithoutRubbish(s: bytes): bytes {
    var q := UntilSpace(s);
    if |s| <= 15 && |q| < |s| && IsQuad(q) then q else s
  }

  /** A host of at most 15 bytes that starts with some quad and a space is read as that quad;
      every other host is read as it stands. */
  lemma RubbishExact(s: bytes, q: bytes)
    requires IsQuad(q)
    ensures |s| <= 15 && q + [SPACE] <= s ==> WithoutRubbish(s) == q
    ensures WithoutRubbish(s) == s || (|s| <= 15 && IsQuad(WithoutRubbish(s)) && WithoutRubbish(s) + [SPACE] <= s)
  {
    SplitPieces(q, DOT);
    assert forall g :: g in Split(q, DOT) ==> SPACE !in g;
    JoinAvoids(Split(q, DOT), DOT, SPACE);
    var t := UntilSpace(s);
    if q + [SPACE] <= s {
      var rest := s[|q|..];
      assert s == q + rest && rest[0] == (q + [SPACE])[|q|];
      assert s == t + s[|t|..];
      CutIsUnique(q, rest, t, s[|t|..], SPACE);
    }
    if t != s {
      assert t + [SPACE] == s[..|t| + 1];
    }
  }

  // --- The shape filter ---

  /** Any number of tokens "0x" + hexadecimal digits, a digit, or a dot. */
  predicate Tokens(s: bytes)
    decreases |s|, 0
  {
    || s == []
    || ((IsDigit(s[0]) || s[0] == DOT) && Tokens(s[1..]))
    || (|s| >= 3 && s[0] == ZERO && IsX(s[1]) && IsHex(s[2]) && HexThenTokens(s[3..]))
  }

  predicate HexThenTokens(s: bytes)
    decreases |s|, 1
  {
    Tokens(s) || (s != [] && IsHex(s[0]) && HexThenTokens(s[1..]))
  }

  predicate IsX(c: byte) {
    c == 0x78 || c == 0x58
  }

  predicate PossibleIP(s: bytes) {
    s != [] && Tokens(s)
  }

  // --- Numbers in base 0, Go ---

  /** The value of a digit in any base up to 36. */
  function DigitOf(c: byte): Option<nat> {
    if IsDigit(c) then Some((c - 0x30) as nat)
    else if 0x61 <= LowerByte(c) <= 0x7a then Some((LowerByte(c) - 0x61) as nat + 10)
    else None
  }

  /** The digit loop: underscores are skipped, a bad digit or an overflow of 32 bits ends it. */
  function ScanDigits(n: nat, base: nat, s: bytes): Option<nat>
    decreases |s|
  {
    if s == [] then Some(n)
    else if s[0] == UNDERSCORE then ScanDigits(n, base, s[1..])
    else
      match DigitOf(s[0])
      case None => None
      case Some(d) => if d >= base || n * base + d > MAX_UINT32 then None else ScanDigits(n * base + d, base, s[1..])
  }

  datatype Saw = Begin | Digit | Underscore | Other

  /** Underscores only between digits, a base prefix counting as a digit. */
  predicate UnderscoresBetween(s: bytes, hex: bool, saw: Saw)
    decreases |s|
  {
    if s == [] then !saw.Underscore?
    else if IsDigit(s[0]) || (hex && 0x61 <= LowerByte(s[0]) <= 0x66) then UnderscoresBetween(s[1..], hex, Digit)
    else if s[0] == UNDERSCORE then saw.Digit? && UnderscoresBetween(s[1..], hex, Underscore)
    else !saw.Underscore? && UnderscoresBetween(s[1..], hex, Other)
  }

  predicate UnderscoresOk(s: bytes) {
    if |s| >= 2 && s[0] == ZERO && LowerByte(s[1]) in PREFIXES then
      UnderscoresBetween(s[2..], IsX(s[1]), Digit)
    else UnderscoresBetween(s, false, Begin)
  }

  const PREFIXES: bytes := [0x62, 0x6f, 0x78] // "b", "o", "x"

  /** Parsing an unsigned 32-bit integer in base 0. */
  function GoParseUint(s: bytes): Option<nat> {
    if s == [] then None
    else
      var v :=
        if s[0] != ZERO then ScanDigits(0, 10, s)
        else if |s| >= 3 && LowerByte(s[1]) == 0x62 then ScanDigits(0, 2, s[2..])
        else if |s| >= 3 && LowerByte(s[1]) == 0x6f then ScanDigits(0, 8, s[2..])
        else if |s| >= 3 && LowerByte(s[1]) == 0x78 then ScanDigits(0, 16, s[2..])
        else ScanDigits(0, 8, s[1..]);
      if UNDERSCORE in s && !UnderscoresOk(s) then None else v
  }

  // --- Numbers in base 0, TypeScript ---

  predicate AllDigits(base: nat, s: bytes) {
    forall c :: c in s ==> DigitOf(c).Some? && DigitOf(c).value < base
  }

  /** The value of a digit string behind the value `n`. */
  function Value(n: nat, base: nat, s: bytes): nat
    requires AllDigits(base, s)
    decreases |s|
  {
    if s == [] then n
    else
      assert s[0] in s;
      Value(n * base + DigitOf(s[0]).value, base, s[1..])
  }

  /** One of the three number patterns: hexadecimal, octal, decimal. */
  function TsParseUint(s: bytes): Option<nat> {
    if |s| >= 3 && s[0] == ZERO && IsX(s[1]) && AllDigits(16, s[2..]) then Within32(Value(0, 16, s[2..]))
    else if |s| >= 1 && s[0] == ZERO && AllDigits(8, s[1..]) then Within32(Value(0, 8, s[1..]))
    else if |s| >= 1 && s[0] != ZERO && AllDigits(10, s) then Within32(Value(0, 10, s))
    else None
  }

  function Within32(v: nat): Option<nat> {
    if v > MAX_UINT32 then None else Some(v)
  }

  lemma MulGrows(n: nat, base: nat)
    requires base >= 1
    ensures n * base >= n
  {
  }

  lemma {:induction false} ValueGrows(n: nat, base: nat, s: bytes)
    requires base >= 1 && AllDigits(base, s)
    ensures Value(n, base, s) >= n
    decreases |s|
  {
    if s != [] {
      assert s[0] in s;
      TailMembers(s);
      MulGrows(n, base);
      ValueGrows(n * base + DigitOf(s[0]).value, base, s[1..]);
    }
  }

  /** Checking for overflow at every digit accepts what checking at the end accepts. */
  lemma {:induction false} ScanIsValue(n: nat, base: nat, s: bytes)
    requires base >= 1 && UNDERSCORE !in s && n <= MAX_UINT32
    ensures ScanDigits(n, base, s) == if AllDigits(base, s) then Within32(Value(n, base, s)) else None
    decreases |s|
  {
    if s != [] {
      assert s[0] in s;
      TailMembers(s);
      var d := DigitOf(s[0]);
      if d.Some? && d.value < base {
        var m := n * base + d.value;
        assert AllDigits(base, s) <==> AllDigits(base, s[1..]) by {
          assert s == [s[0]] + s[1..];
        }
        if m <= MAX_UINT32 {
          ScanIsValue(m, base, s[1..]);
        } else if AllDigits(base, s) {
          ValueGrows(m, base, s[1..]);
        }
      }
    }
  }

  /** Spellings that only the feed side reads as numbers: underscores, and the prefixes "0b" and "0o". */
  predicate GoOnly(s: bytes) {
    UNDERSCORE in s || (|s| >= 2 && s[0] == ZERO && (LowerByte(s[1]) == 0x62 || LowerByte(s[1]) == 0x6f))
  }

  /** The two parsers agree on everything else, and the lookup side never accepts what is left. */
  lemma ParsersAgree(s: bytes)
    ensures !GoOnly(s) ==> GoParseUint(s) == TsParseUint(s)
    ensures GoOnly(s) ==> TsParseUint(s).None?
  {
    if GoOnly(s) {
      if UNDERSCORE in s {
        UnderscoreIsNoDigit(s);
      } else {
        assert s[1] in s[1..];
      }
    } else if s != [] {
      assert UNDERSCORE !in s[1..];
      ScanIsValue(0, 10, s);
      ScanIsValue(0, 8, s[1..]);
      if |s| >= 2 {
        assert UNDERSCORE !in s[2..];
        ScanIsValue(0, 16, s[2..]);
        assert s[1] in s[1..];
      }
    }
  }

  lemma UnderscoreIsNoDigit(s: bytes)
    requires UNDERSCORE in s
    ensures TsParseUint(s).None?
  {
    assert DigitOf(UNDERSCORE).None?;
    var i :| 0 <= i < |s| && s[i] == UNDERSCORE;
    assert i >= 1 ==> s[1..][i - 1] == UNDERSCORE;
    assert i >= 2 ==> s[2..][i - 2] == UNDERSCORE;
    assert i == 1 ==> !IsX(s[1]);
  }

  // --- Octets ---

  /** The low `n` octets of a number, most significant first. */
  function Octets(v: nat, n: nat): (o: bytes)
    ensures |o| == n
    decreases n
  {
    if n == 0 then [] else Octets(v / 256, n - 1) + [(v % 256) as byte]
  }

  function BigEndian(octets: bytes): nat
    decreases |octets|
  {
    if octets == [] then 0 else 256 * BigEndian(octets[..|octets| - 1]) + octets[|octets| - 1] as nat
  }

  function Power256(n: nat): (p: nat)
    ensures p >= 1
  {
    if n == 0 then 1 else 256 * Power256(n - 1)
  }

  /** The octets are the big-endian digits of the number modulo 256^n. */
  lemma {:induction false} OctetsAreBigEndian(v: nat, n: nat)
    ensures BigEndian(Octets(v, n)) == v % Power256(n)
    decreases n
  {
    if n > 0 {
      OctetsAreBigEndian(v / 256, n - 1);
      assert Octets(v, n)[..n - 1] == Octets(v / 256, n - 1);
      ModSplit(v, Power256(n - 1));
    }
  }

  lemma ModSplit(v: nat, p: nat)
    requires p >= 1
    ensures v % (256 * p) == 256 * ((v / 256) % p) + v % 256
  {
    var q, r := v / 256 / p, (v / 256) % p;
    assert v / 256 == p * q + r;
    assert v == 256 * (p * q + r) + v % 256;
    assert v == (256 * p) * q + (256 * r + v % 256);
    assert 256 * r + v % 256 < 256 * p;
    DivModIs(v, 256 * p, q, 256 * r + v % 256);
  }

  lemma {:induction false} MulOrder(m: nat, a: int, b: int)
    requires a < b
    ensures m * a + m <= m * b
    decreases b - a
  {
    assert m * (b - 1) + m == m * b;
    if a < b - 1 {
      MulOrder(m, a, b - 1);
    }
  }

  /** Quotient and remainder are unique. */
  lemma DivModIs(v: nat, m: nat, q: nat, r: nat)
    requires v == m * q + r && r < m
    ensures v / m == q && v % m == r
  {
    var k := v / m;
    assert v == m * k + v % m;
    if k < q {
      MulOrder(m, k, q);
    } else if q < k {
      MulOrder(m, q, k);
    }
  }

  lemma LastOctet(v: nat, n: nat)
    requires n > 0
    ensures Octets(v, n)[n - 1] == (v % 256) as byte && Octets(v, n)[..n - 1] == Octets(v / 256, n - 1)
  {
  }

  /** Bitwise "and" and right shift of natural numbers. */
  function BitAnd(a: nat, b: nat): nat
    decreases b
  {
    if b == 0 then 0 else 2 * BitAnd(a / 2, b / 2) + (if a % 2 == 1 && b % 2 == 1 then 1 else 0)
  }

  function ShiftRight(v: nat, k: nat): nat
    decreases k
  {
    if k == 0 then v else ShiftRight(v / 2, k - 1)
  }

  lemma MaskAndShift(v: nat)
    ensures BitAnd(v, 0xff) == v % 256 && ShiftRight(v, 8) == v / 256
  {
    assert Power2(8) == 256;
    MaskAndShiftBy(v, 8, 256);
  }

  lemma MaskAndShiftBy(v: nat, k: nat, p: nat)
    requires p == Power2(k)
    ensures BitAnd(v, p - 1) == v % p && ShiftRight(v, k) == v / p
  {
    LowBits(v, k);
    LowIsRemainder(v, k);
    ShiftDivides(v, k);
  }

  function Power2(k: nat): (p: nat)
    ensures p >= 1
  {
    if k == 0 then 1 else 2 * Power2(k - 1)
  }

  lemma HalfDigits(v: nat, p: nat)
    requires p >= 1
    ensures v % (2 * p) == 2 * ((v / 2) % p) + v % 2 && v / (2 * p) == v / 2 / p
  {
    var q, r := v / 2 / p, (v / 2) % p;
    assert v / 2 == p * q + r;
    assert 2 * (p * q) == (2 * p) * q;
    DivModIs(v, 2 * p, q, 2 * r + v % 2);
  }

  /** The number that the `k` lowest binary digits stand for. */
  function Low(v: nat, k: nat): nat
    decreases k
  {
    if k == 0 then 0 else 2 * Low(v / 2, k - 1) + v % 2
  }

  lemma {:induction false} LowIsRemainder(v: nat, k: nat)
    ensures Low(v, k) == v % Power2(k)
    decreases k
  {
    if k > 0 {
      LowIsRemainder(v / 2, k - 1);
      HalfDigits(v, Power2(k - 1));
    }
  }

  lemma {:induction false} LowBits(v: nat, k: nat)
    ensures BitAnd(v, Power2(k) - 1) == Low(v, k)
    decreases k
  {
    if k > 0 {
      LowBits(v / 2, k - 1);
      MaskHalves(v, Power2(k - 1));
    }
  }

  lemma MaskHalves(v: nat, p: nat)
    requires p >= 1
    ensures BitAnd(v, 2 * p - 1) == 2 * BitAnd(v / 2, p - 1) + v % 2
  {
    var b: nat := 2 * p - 1;
    assert b / 2 == p - 1 && b % 2 == 1;
  }

  lemma {:induction false} ShiftDivides(v: nat, k: nat)
    ensures ShiftRight(v, k) == v / Power2(k)
    decreases k
  {
    if k > 0 {
      ShiftDivides(v / 2, k - 1);
      HalfDigits(v, Power2(k - 1));
    }
  }
}
