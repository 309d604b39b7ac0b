/** The SQL text of the diff, and reading the rows back from it. */
module SqlText {
  import opened Bytes
  import opened Tables

  const HEAD := "INSERT OR REPLACE INTO abuse_feeds(h, pId) VALUES (X'"
  const MIDDLE := "', "
  const TAIL := ");\n"
  const DIGITS := "0123456789abcdef"

  // --- Writing ---

  function HexText(h: bytes): (s: string)
    ensures |s| == 2 * |h|
    decreases |h|
  {
    if h == [] then "" else [DIGITS[h[0] / 16], DIGITS[h[0] % 16]] + HexText(h[1..])
  }

  function DecimalText(n: nat): (s: string)
    ensures |s| >= 1
    ensures forall c :: c in s ==> '0' <= c <= '9'
  {
    if n < 10 then [DIGITS[n]] else DecimalText(n / 10) + [DIGITS[n % 10]]
  }

  function Statement(r: Row): string {
    HEAD + HexText(r.h) + MIDDLE + DecimalText(r.pId as nat) + TAIL
  }

  function Statements(rows: seq<Row>): (statements: seq<string>)
    ensures |statements| == |rows|
    ensures forall i :: 0 <= i < |rows| ==> statements[i] == Statement(rows[i])
  {
    seq(|rows|, i requires 0 <= i < |rows| => Statement(rows[i]))
  }

  /** The text of several statements. */
  function Text(statements: seq<string>): string
    decreases |statements|
  {
    if statements == [] then "" else Text(statements[..|statements| - 1]) + statements[|statements| - 1]
  }

  // --- Reading ---

  function DigitValue(c: char): Option<byte> {
    if '0' <= c <= '9' then Some((c as int - '0' as int) as byte)
    else if 'a' <= c <= 'f' then Some((c as int - 'a' as int + 10) as byte)
    else None
  }

  /** The longest run of hexadecimal pairs, and what follows it. */
  function ReadHex(s: string): (bytes, string)
    decreases |s|
  {
    if |s| >= 2 && DigitValue(s[0]).Some? && DigitValue(s[1]).Some? then
      var (h, rest) := ReadHex(s[2..]);
      ([16 * DigitValue(s[0]).value + DigitValue(s[1]).value] + h, rest)
    else ([], s)
  }

  /** The longest run of decimal digits behind the value `n` read so far, and what follows it. */
  function ReadDecimal(n: nat, s: string): (nat, string)
    decreases |s|
  {
    if |s| > 0 && '0' <= s[0] <= '9' then ReadDecimal(10 * n + (s[0] as int - '0' as int), s[1..]) else (n, s)
  }

  /** One row between the given texts, and what follows it. */
  function ReadFramed(head: string, middle: string, tail: string, s: string): (r: Option<(Row, string)>)
    requires head != ""
    ensures r.Some? ==> |r.value.1| < |s|
  {
    if !(head <= s) then None
    else
      var (h, s1) := ReadHex(s[|head|..]);
      ReadHexShortens(s[|head|..]);
      if !(middle <= s1) then None
      else
        var (n, s2) := ReadDecimal(0, s1[|middle|..]);
        ReadDecimalShortens(0, s1[|middle|..]);
        if n < 0x1_0000_0000 && tail <= s2 then Some((Row(h, n as Mask), s2[|tail|..])) else None
  }

  function ReadStatement(s: string): (r: Option<(Row, string)>)
    ensures r.Some? ==> |r.value.1| < |s|
  {
    ReadFramed(HEAD, MIDDLE, TAIL, s)
  }

  lemma {:induction false} ReadHexShortens(s: string)
    ensures |ReadHex(s).1| <= |s|
    decreases |s|
  {
    if |s| >= 2 {
      ReadHexShortens(s[2..]);
    }
  }

  lemma {:induction false} ReadDecimalShortens(n: nat, s: string)
    ensures |ReadDecimal(n, s).1| <= |s|
    decreases |s|
  {
    if |s| > 0 && '0' <= s[0] <= '9' {
      ReadDecimalShortens(10 * n + (s[0] as int - '0' as int), s[1..]);
    }
  }

  /** All statements of a text, None when it is not a list of them. */
  function ReadRows(s: string): Option<seq<Row>>
    decreases |s|
  {
    if s == "" then Some([])
    else
      match ReadStatement(s)
      case None => None
      case Some((row, rest)) =>
        match ReadRows(rest)
        case None => None
        case Some(rows) => Some([row] + rows)
  }

  // --- Round trips ---

  lemma DigitRoundTrip(v: byte)
    requires v < 16
    ensures DigitValue(DIGITS[v]) == Some(v)
  {
  }

  lemma HexPair(c: byte, rest: string)
    ensures ReadHex([DIGITS[c / 16], DIGITS[c % 16]] + rest) == ([c] + ReadHex(rest).0, ReadHex(rest).1)
  {
    DigitRoundTrip(c / 16);
    DigitRoundTrip(c % 16);
    var s := [DIGITS[c / 16], DIGITS[c % 16]] + rest;
    assert s[2..] == rest;
    ReadPair(c / 16, c % 16, s);
  }

  lemma ReadPair(a: byte, b: byte, s: string)
    requires a < 16 && b < 16 && |s| >= 2 && DigitValue(s[0]) == Some(a) && DigitValue(s[1]) == Some(b)
    ensures ReadHex(s) == ([16 * a + b] + ReadHex(s[2..]).0, ReadHex(s[2..]).1)
  {
  }

  lemma {:induction false} HexRoundTrip(h: bytes, rest: string)
    requires rest != "" && DigitValue(rest[0]).None?
    ensures ReadHex(HexText(h) + rest) == (h, rest)
    decreases |h|
  {
    if h == [] {
      assert HexText(h) + rest == rest;
    } else {
      HexRoundTrip(h[1..], rest);
      ConcatAssociates([DIGITS[h[0] / 16], DIGITS[h[0] % 16]], HexText(h[1..]), rest);
      HexPair(h[0], HexText(h[1..]) + rest);
      assert h == [h[0]] + h[1..];
    }
  }

  function DecimalValue(c: char): (d: nat)
    requires '0' <= c <= '9'
  {
    c as nat - '0' as nat
  }

  predicate AllDecimal(s: string) {
    forall i :: 0 <= i < |s| ==> '0' <= s[i] <= '9'
  }

  /** The number that the digits stand for behind the value `n`. */
  function DecimalBehind(n: nat, s: string): nat
    requires AllDecimal(s)
    decreases |s|
  {
    if s == "" then n else DecimalBehind(10 * n + DecimalValue(s[0]), s[1..])
  }

  lemma {:induction false} DecimalIsRead(n: nat, s: string, rest: string)
    requires AllDecimal(s) && rest != "" && !('0' <= rest[0] <= '9')
    ensures ReadDecimal(n, s + rest) == (DecimalBehind(n, s), rest)
    decreases |s|
  {
    if s == "" {
      assert s + rest == rest;
    } else {
      assert (s + rest)[1..] == s[1..] + rest;
      DecimalIsRead(10 * n + DecimalValue(s[0]), s[1..], rest);
    }
  }

  lemma {:induction false} DecimalSnoc(n: nat, s: string, c: char)
    requires AllDecimal(s) && '0' <= c <= '9'
    ensures DecimalBehind(n, s + [c]) == 10 * DecimalBehind(n, s) + DecimalValue(c)
    decreases |s|
  {
    var t := s + [c];
    if s == "" {
      assert t[1..] == "";
    } else {
      assert t[1..] == s[1..] + [c];
      DecimalSnoc(10 * n + DecimalValue(s[0]), s[1..], c);
    }
  }

  lemma DecimalDigit(d: nat)
    requires d < 10
    ensures '0' <= DIGITS[d] <= '9' && DecimalValue(DIGITS[d]) == d
  {
  }

  lemma {:induction false} DecimalTextValue(n: nat)
    ensures AllDecimal(DecimalText(n)) && DecimalBehind(0, DecimalText(n)) == n
    decreases n
  {
    DecimalDigit(n % 10);
    if n >= 10 {
      DecimalTextValue(n / 10);
      DecimalSnoc(0, DecimalText(n / 10), DIGITS[n % 10]);
    } else {
      DecimalSnoc(0, "", DIGITS[n]);
      assert "" + [DIGITS[n]] == DecimalText(n);
    }
  }

  lemma DecimalRoundTrip(n: nat, rest: string)
    requires rest != "" && !('0' <= rest[0] <= '9')
    ensures ReadDecimal(0, DecimalText(n) + rest) == (n, rest)
  {
    DecimalTextValue(n);
    DecimalIsRead(0, DecimalText(n), rest);
  }

  lemma PrefixOff(a: string, b: string)
    ensures a <= a + b && (a + b)[|a|..] == b
  {
  }

  lemma FramedRoundTrip(head: string, middle: string, tail: string, r: Row, rest: string)
    requires head != ""
    requires middle != "" && DigitValue(middle[0]).None?
    requires tail != "" && !('0' <= tail[0] <= '9')
    ensures ReadFramed(head, middle, tail, head + (HexText(r.h) + (middle + (DecimalText(r.pId as nat) + (tail + rest))))) ==
            Some((r, rest))
  {
    var s3 := tail + rest;
    var s2 := DecimalText(r.pId as nat) + s3;
    var s1 := middle + s2;
    PrefixOff(head, HexText(r.h) + s1);
    HexRoundTrip(r.h, s1);
    PrefixOff(middle, s2);
    DecimalRoundTrip(r.pId as nat, s3);
    PrefixOff(tail, rest);
  }

  lemma StatementRoundTrip(r: Row, rest: string)
    ensures ReadStatement(Statement(r) + rest) == Some((r, rest))
  {
    var hex, decimal := HexText(r.h), DecimalText(r.pId as nat);
    ConcatAssociates(HEAD + hex + MIDDLE + decimal, TAIL, rest);
    ConcatAssociates(HEAD + hex + MIDDLE, decimal, TAIL + rest);
    ConcatAssociates(HEAD + hex, MIDDLE, decimal + (TAIL + rest));
    ConcatAssociates(HEAD, hex, MIDDLE + (decimal + (TAIL + rest)));
    FramedRoundTrip(HEAD, MIDDLE, TAIL, r, rest);
  }

  lemma {:induction false} TextCons(statements: seq<string>)
    requires statements != []
    ensures Text(statements) == statements[0] + Text(statements[1..])
    decreases |statements|
  {
    var n := |statements| - 1;
    if n > 0 {
      TextCons(statements[..n]);
      assert statements[..n][1..] == statements[1..][..n - 1];
      assert statements[1..][n - 1] == statements[n];
    } else {
      assert statements[..0] == [] && statements[1..] == [];
    }
  }

  lemma RowsTextCons(rows: seq<Row>)
    requires rows != []
    ensures Text(Statements(rows)) == Statement(rows[0]) + Text(Statements(rows[1..]))
  {
    TextCons(Statements(rows));
    assert Statements(rows)[1..] == Statements(rows[1..]);
  }

  lemma ReadRowsStep(s: string, row: Row, rest: string)
    requires ReadStatement(s) == Some((row, rest)) && ReadRows(rest).Some?
    ensures ReadRows(s) == Some([row] + ReadRows(rest).value)
  {
  }

  /** Reading the text of some rows gives back exactly these rows. */
  lemma {:induction false} RowsRoundTrip(rows: seq<Row>)
    ensures ReadRows(Text(Statements(rows))) == Some(rows)
    decreases |rows|
  {
    if rows == [] {
    } else {
      RowsTextCons(rows);
      StatementRoundTrip(rows[0], Text(Statements(rows[1..])));
      RowsRoundTrip(rows[1..]);
      ReadRowsStep(Text(Statements(rows)), rows[0], Text(Statements(rows[1..])));
      assert rows == [rows[0]] + rows[1..];
    }
  }

  // --- Sizes ---

  lemma {:induction false} DecimalLength(n: nat, digits: nat)
    requires digits >= 1 && n < Power10(digits)
    ensures |DecimalText(n)| <= digits
    decreases digits
  {
    if n >= 10 {
      DecimalLength(n / 10, digits - 1);
    }
  }

  function Power10(k: nat): nat {
    if k == 0 then 1 else 10 * Power10(k - 1)
  }

  /** The statement of a SHA-256 hash has at most 133 characters. */
  lemma StatementLength(r: Row)
    requires |r.h| == 32
    ensures |Statement(r)| <= 133
  {
    assert Power10(10) == 10_000_000_000;
    DecimalLength(r.pId as nat, 10);
  }

  // --- The text itself ---

  /** The statement of a row, written out. */
  lemma StatementExact(r: Row)
    ensures Statement(r) ==
            "INSERT OR REPLACE INTO abuse_feeds(h, pId) VALUES (X'" + HexText(r.h) + "', " + DecimalText(r.pId as nat) + ");\n"
  {
  }

  /** Two lower-case hexadecimal digits for every byte of the hash. */
  lemma {:induction false} HexTextExact(h: bytes, i: nat)
    requires i < |h|
    ensures HexText(h)[2 * i] == "0123456789abcdef"[h[i] / 16] && HexText(h)[2 * i + 1] == "0123456789abcdef"[h[i] % 16]
    decreases |h|
  {
    if i > 0 {
      HexTextExact(h[1..], i - 1);
    }
  }
}
