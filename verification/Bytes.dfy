/** Byte strings, hexadecimal digits, and splitting a byte string on a separator. */
module Bytes {

  newtype byte = x: int | 0 <= x < 256

  type bytes = seq<byte>

  const PERCENT: byte := 0x25
  const SLASH: byte := 0x2f
  const DOT: byte := 0x2e
  const QUESTION: byte := 0x3f
  const NUMBER_SIGN: byte := 0x23
  const AT: byte := 0x40
  const SPACE: byte := 0x20
  const ZERO: byte := 0x30
  const TWO: byte := 0x32
  const FIVE: byte := 0x35

  datatype Option<+T> = None | Some(value: T)

  lemma ConcatAssociates<T>(a: seq<T>, b: seq<T>, c: seq<T>)
    ensures a + (b + c) == a + b + c
  {
  }

  lemma TailMembers<T>(s: seq<T>)
    requires s != []
    ensures forall x :: x in s[1..] ==> x in s
  {
    forall x | x in s[1..]
      ensures x in s
    {
      var i :| 0 <= i < |s| - 1 && s[1..][i] == x;
      assert s[i + 1] == x;
    }
  }

  function Min(a: nat, b: nat): nat {
    if a < b then a else b
  }

  /** A letter in lower case, any other byte as it is. */
  function LowerByte(c: byte): byte {
    if 0x41 <= c <= 0x5a then c + 0x20 else c
  }

  predicate IsDigit(c: byte) {
    0x30 <= c <= 0x39
  }

  predicate IsHex(c: byte) {
    IsDigit(c) || 0x61 <= c <= 0x66 || 0x41 <= c <= 0x46
  }

  /** The value of a hexadecimal digit, 0 for any other byte. */
  function Unhex(c: byte): (v: byte)
    ensures v < 16
  {
    if IsDigit(c) then c - 0x30
    else if 0x61 <= c <= 0x66 then c - 0x61 + 10
    else if 0x41 <= c <= 0x46 then c - 0x41 + 10
    else 0
  }

  /** The lowercase hexadecimal digit of a value below 16. */
  function HexDigit(v: byte): (c: byte)
    requires v < 16
    ensures IsHex(c) && Unhex(c) == v
  {
    if v < 10 then 0x30 + v else 0x61 + (v - 10)
  }

  // --- Bytes as characters ---

  function Char(c: byte): char {
    c as int as char
  }

  /** The bytes of a string of one-byte characters. */
  function Ascii(s: string): (b: bytes)
    requires forall i :: 0 <= i < |s| ==> s[i] < 256 as char
    ensures |b| == |s| && forall i :: 0 <= i < |s| ==> Char(b[i]) == s[i]
  {
    seq(|s|, i requires 0 <= i < |s| => s[i] as int as byte)
  }

  const LOWER_HEX: string := "0123456789abcdef"
  const UPPER_HEX: string := "0123456789ABCDEF"

  /** The hexadecimal digits are these, and each has its position as its value. */
  lemma HexDigitsExact(c: byte)
    ensures IsHex(c) <==> Char(c) in LOWER_HEX || Char(c) in UPPER_HEX
    ensures IsDigit(c) <==> Char(c) in "0123456789"
    ensures forall v: nat :: v < 16 && (Char(c) == LOWER_HEX[v] || Char(c) == UPPER_HEX[v]) ==> Unhex(c) as nat == v
  {
  }

  lemma HexDigitExact(v: byte)
    requires v < 16
    ensures Char(HexDigit(v)) == LOWER_HEX[v]
  {
  }

  /** The digit of a value below 16, in either case. */
  predicate DigitFor(c: byte, v: byte)
    requires v < 16
  {
    Char(c) == LOWER_HEX[v] || Char(c) == UPPER_HEX[v]
  }

  /** The two digits spell the byte. */
  predicate Spells(hi: byte, lo: byte, b: byte) {
    DigitFor(hi, b / 16) && DigitFor(lo, b % 16)
  }

  lemma DigitForExact(c: byte, v: byte)
    requires v < 16
    ensures DigitFor(c, v) <==> IsHex(c) && Unhex(c) == v
  {
    HexDigitsExact(c);
  }

  /** Two hexadecimal digits spell exactly the byte with these digits. */
  lemma SpelledByte(hi: byte, lo: byte, b: byte)
    ensures Spells(hi, lo, b) <==> IsHex(hi) && IsHex(lo) && 16 * Unhex(hi) + Unhex(lo) == b
  {
    DigitForExact(hi, b / 16);
    DigitForExact(lo, b % 16);
    Nibbles(Unhex(hi), Unhex(lo));
  }

  lemma Nibbles(a: byte, b: byte)
    requires a < 16 && b < 16
    ensures (16 * a + b) / 16 == a && (16 * a + b) % 16 == b
  {
  }

  // --- Letter case ---

  const LOWER_LETTERS: string := "abcdefghijklmnopqrstuvwxyz"
  const UPPER_LETTERS: string := "ABCDEFGHIJKLMNOPQRSTUVWXYZ"

  /** `b` is `c`, or `c` is a lower-case letter and `b` its capital. */
  predicate SameLetter(b: byte, c: byte) {
    b == c || (Char(c) in LOWER_LETTERS && b == c - 0x20)
  }

  /** `s` is `t` with some of its letters in upper case. */
  predicate CaseVariant(s: bytes, t: bytes) {
    |s| == |t| && forall i :: 0 <= i < |s| ==> SameLetter(s[i], t[i])
  }

  lemma LowerByteExact(b: byte)
    ensures Char(b) in UPPER_LETTERS ==> LowerByte(b) == b + 0x20
    ensures Char(b) !in UPPER_LETTERS ==> LowerByte(b) == b
    ensures forall c :: SameLetter(b, c) && LowerByte(c) == c ==> LowerByte(b) == c
  {
  }

  /** The pieces of `s` between occurrences of `sep`; "" has one empty piece. */
  function Split(s: bytes, sep: byte): (parts: seq<bytes>)
    ensures |parts| >= 1
  {
    if s == [] then [[]]
    else
      var rest := Split(s[1..], sep);
      if s[0] == sep then [[]] + rest else [[s[0]] + rest[0]] + rest[1..]
  }

  function Join(parts: seq<bytes>, sep: byte): bytes {
    if |parts| == 0 then []
    else if |parts| == 1 then parts[0]
    else parts[0] + [sep] + Join(parts[1..], sep)
  }

  /** The pieces without the empty ones. */
  function NonEmpty(parts: seq<bytes>): seq<bytes>
    decreases |parts|
  {
    if parts == [] then []
    else if parts[0] != [] then [parts[0]] + NonEmpty(parts[1..])
    else NonEmpty(parts[1..])
  }

  lemma {:induction false} NonEmptySnoc(parts: seq<bytes>)
    ensures NonEmpty(parts + [[]]) == NonEmpty(parts)
    decreases |parts|
  {
    if parts == [] {
      assert (parts + [[]])[1..] == [];
    } else {
      assert (parts + [[]])[1..] == parts[1..] + [[]];
      NonEmptySnoc(parts[1..]);
    }
  }

  lemma {:induction false} AllNonEmpty(parts: seq<bytes>)
    requires forall p :: p in parts ==> p != []
    ensures NonEmpty(parts) == parts
    decreases |parts|
  {
    if parts != [] {
      assert parts[0] in parts;
      TailMembers(parts);
      AllNonEmpty(parts[1..]);
    }
  }

  /** No piece holds the separator, and joining the pieces restores the string. */
  lemma SplitPieces(s: bytes, sep: byte)
    ensures forall p :: p in Split(s, sep) ==> sep !in p
    ensures Join(Split(s, sep), sep) == s
  {
    PiecesAvoid(s, sep);
    PiecesJoin(s, sep);
  }

  lemma {:induction false} PiecesAvoid(s: bytes, sep: byte)
    ensures forall p :: p in Split(s, sep) ==> sep !in p
    decreases |s|
  {
    if s != [] {
      PiecesAvoid(s[1..], sep);
      var rest := Split(s[1..], sep);
      TailMembers(rest);
      assert rest[0] in rest;
    }
  }

  lemma {:induction false} PiecesJoin(s: bytes, sep: byte)
    ensures Join(Split(s, sep), sep) == s
    decreases |s|
  {
    if s != [] {
      PiecesJoin(s[1..], sep);
      var rest, parts := Split(s[1..], sep), Split(s, sep);
      assert s == [s[0]] + s[1..];
      if s[0] == sep {
        assert parts[1..] == rest;
      } else {
        assert parts[1..] == rest[1..];
      }
    }
  }

  /** Splitting is the only way to take a joined string apart. */
  lemma {:induction false} SplitJoin(parts: seq<bytes>, sep: byte)
    requires |parts| >= 1
    requires forall p :: p in parts ==> sep !in p
    ensures Split(Join(parts, sep), sep) == parts
  {
    var head, tail := parts[0], parts[1..];
    assert head in parts;
    if tail == [] {
      SplitHead(head, [], sep);
      assert head + [] == head;
      assert parts == [head];
    } else {
      SplitJoin(tail, sep);
      var rest := [sep] + Join(tail, sep);
      SplitHead(head, rest, sep);
      assert Join(parts, sep) == head + rest;
      assert rest[1..] == Join(tail, sep);
      assert Split(rest, sep) == [[]] + tail;
      assert head + [] == head;
      assert parts == [head] + tail;
    }
  }

  lemma SplitCons(c: byte, s: bytes, sep: byte)
    requires c != sep
    ensures Split([c] + s, sep) == [[c] + Split(s, sep)[0]] + Split(s, sep)[1..]
  {
    assert ([c] + s)[1..] == s;
  }

  /** A prefix free of separators is glued to the first piece of what follows. */
  lemma {:induction false} SplitHead(head: bytes, s: bytes, sep: byte)
    requires sep !in head
    ensures Split(head + s, sep) == [head + Split(s, sep)[0]] + Split(s, sep)[1..]
  {
    if head == [] {
      assert head + s == s;
      assert head + Split(s, sep)[0] == Split(s, sep)[0];
    } else {
      var tail := head[1..];
      SplitHead(tail, s, sep);
      SplitCons(head[0], tail + s, sep);
      assert head + s == [head[0]] + (tail + s);
      assert head + Split(s, sep)[0] == [head[0]] + (tail + Split(s, sep)[0]);
    }
  }

  lemma {:induction false} JoinConcat(a: seq<bytes>, b: seq<bytes>, sep: byte)
    requires a != [] && b != []
    ensures Join(a + b, sep) == Join(a, sep) + [sep] + Join(b, sep)
    decreases |a|
  {
    assert (a + b)[1..] == a[1..] + b;
    if |a| > 1 {
      JoinConcat(a[1..], b, sep);
    } else {
      assert a[1..] + b == b;
    }
  }

  lemma {:induction false} JoinAvoids(parts: seq<bytes>, sep: byte, c: byte)
    requires c != sep && forall p :: p in parts ==> c !in p
    ensures c !in Join(parts, sep)
    decreases |parts|
  {
    if |parts| > 0 {
      assert parts[0] in parts;
      TailMembers(parts);
      JoinAvoids(parts[1..], sep, c);
    }
  }

  /** Cutting at a separator cuts the list of pieces. */
  lemma SplitConcat(a: bytes, b: bytes, sep: byte)
    ensures Split(a + [sep] + b, sep) == Split(a, sep) + Split(b, sep)
  {
    SplitPieces(a, sep);
    SplitPieces(b, sep);
    JoinConcat(Split(a, sep), Split(b, sep), sep);
    SplitJoin(Split(a, sep) + Split(b, sep), sep);
  }

  /** The part before the first separator and the part from it on are determined by the whole. */
  lemma CutIsUnique(a: bytes, x: bytes, b: bytes, y: bytes, sep: byte)
    requires sep !in a && sep !in b
    requires (x != [] ==> x[0] == sep) && (y != [] ==> y[0] == sep)
    requires a + x == b + y
    ensures a == b && x == y
  {
    var s := a + x;
    assert forall i :: 0 <= i < |a| ==> s[i] == a[i] && a[i] in a;
    assert forall i :: 0 <= i < |b| ==> s[i] == b[i] && b[i] in b;
    assert x != [] ==> s[|a|] == sep;
    assert y != [] ==> s[|b|] == sep;
    assert |a| == |b|;
    assert a == s[..|a|] == b && x == s[|a|..] == y;
  }
}
