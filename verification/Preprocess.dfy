/** What happens to a raw URL before the host language's parser sees it. */
module Preprocess {
  import opened Bytes
  import opened PercentDecoding

  // --- Making every '%' start a valid escape ---

  /** A '%' that starts no escape becomes "%25". */
  function EscapeLonePercent(s: bytes): bytes
    decreases |s|
  {
    if s == [] then []
    else if s[0] == PERCENT && !EscapeAt(s, 0) then [PERCENT, TWO, FIVE] + EscapeLonePercent(s[1..])
    else [s[0]] + EscapeLonePercent(s[1..])
  }

  method EscapeLonePercentLoop(s: bytes) returns (out: bytes)
    ensures out == EscapeLonePercent(s)
  {
    out := [];
    for i := 0 to |s|
      invariant out + EscapeLonePercent(s[i..]) == EscapeLonePercent(s)
    {
      assert s[i..][1..] == s[i + 1..];
      assert EscapeAt(s[i..], 0) <==> EscapeAt(s, i);
      ConcatAssociates(out, [PERCENT, TWO, FIVE], EscapeLonePercent(s[i + 1..]));
      ConcatAssociates(out, [s[i]], EscapeLonePercent(s[i + 1..]));
      if s[i] == PERCENT && !(i + 2 < |s| && IsHex(s[i + 1]) && IsHex(s[i + 2])) {
        out := out + [PERCENT, TWO, FIVE];
        continue;
      }
      out := out + [s[i]];
    }
  }

  predicate PercentsValid(s: bytes) {
    forall i: nat :: i < |s| && s[i] == PERCENT ==> EscapeAt(s, i)
  }

  lemma PercentsValidTail(s: bytes)
    requires s != []
    ensures PercentsValid(s) <==> (s[0] == PERCENT ==> EscapeAt(s, 0)) && PercentsValid(s[1..])
  {
    assert forall i: nat :: i < |s[1..]| ==> s[1..][i] == s[i + 1] && (EscapeAt(s[1..], i) <==> EscapeAt(s, i + 1));
    if (s[0] == PERCENT ==> EscapeAt(s, 0)) && PercentsValid(s[1..]) {
      forall i: nat | i < |s| && s[i] == PERCENT
        ensures EscapeAt(s, i)
      {
        assert i > 0 ==> s[1..][i - 1] == PERCENT;
      }
    }
  }

  /** An escape at the front is copied as it stands. */
  lemma LonePercentHead(s: bytes)
    requires EscapeAt(s, 0)
    ensures EscapeLonePercent(s) == s[..3] + EscapeLonePercent(s[3..])
  {
    assert s[1..][1..] == s[2..] && s[2..][1..] == s[3..];
    assert EscapeLonePercent(s[2..]) == [s[2]] + EscapeLonePercent(s[3..]);
    assert EscapeLonePercent(s[1..]) == [s[1]] + EscapeLonePercent(s[2..]);
  }

  lemma {:induction false} LonePercentsGone(s: bytes)
    ensures PercentsValid(EscapeLonePercent(s))
    ensures PercentsValid(s) ==> EscapeLonePercent(s) == s
    decreases |s|
  {
    if s != [] {
      var t, rest := EscapeLonePercent(s), EscapeLonePercent(s[1..]);
      LonePercentsGone(s[1..]);
      PercentsValidTail(s);
      PercentsValidTail(t);
      if s[0] == PERCENT && !EscapeAt(s, 0) {
        assert t[1..] == [TWO, FIVE] + rest && t[1..][1..] == [FIVE] + rest && t[1..][1..][1..] == rest;
        PercentsValidTail(t[1..]);
        PercentsValidTail(t[1..][1..]);
      } else {
        assert t[1..] == rest;
        if EscapeAt(s, 0) {
          LonePercentHead(s);
        }
        assert s == [s[0]] + s[1..];
      }
    }
  }

  /** Encoding lone percent signs is undone by the first decoding pass. */
  lemma {:induction false} UnescapeLonePercent(s: bytes)
    ensures Unescape(EscapeLonePercent(s)) == Unescape(s)
    decreases |s|
  {
    var t := EscapeLonePercent(s);
    if s == [] {
    } else if EscapeAt(s, 0) {
      LonePercentHead(s);
      UnescapeLonePercent(s[3..]);
      assert t[3..] == EscapeLonePercent(s[3..]) && EscapeAt(t, 0);
    } else if s[0] == PERCENT {
      UnescapeLonePercent(s[1..]);
      assert t[3..] == EscapeLonePercent(s[1..]) && EscapeAt(t, 0);
      assert DecodedByte(TWO, FIVE) == PERCENT;
    } else {
      UnescapeLonePercent(s[1..]);
      assert t[1..] == EscapeLonePercent(s[1..]);
    }
  }

  // --- Encoding control bytes ---

  predicate IsControl(c: byte) {
    c < 0x20 || c == 0x7f
  }

  function EscapeControl(s: bytes): bytes
    decreases |s|
  {
    if s == [] then []
    else if IsControl(s[0]) then [PERCENT, HexDigit(s[0] / 16), HexDigit(s[0] % 16)] + EscapeControl(s[1..])
    else [s[0]] + EscapeControl(s[1..])
  }

  method EscapeControlLoop(s: bytes) returns (out: bytes)
    ensures out == EscapeControl(s)
  {
    out := [];
    for i := 0 to |s|
      invariant out + EscapeControl(s[i..]) == EscapeControl(s)
    {
      assert s[i..][1..] == s[i + 1..];
      var c := s[i];
      ConcatAssociates(out, [PERCENT, HexDigit(c / 16), HexDigit(c % 16)], EscapeControl(s[i + 1..]));
      ConcatAssociates(out, [c], EscapeControl(s[i + 1..]));
      if c < 0x20 || c == 0x7f {
        out := out + [PERCENT, HexDigit(c / 16), HexDigit(c % 16)];
        continue;
      }
      out := out + [c];
    }
  }

  /** Encoding control bytes neither makes nor breaks an escape at the front. */
  lemma ControlHead(s: bytes)
    requires s != [] && !IsControl(s[0])
    ensures EscapeAt(EscapeControl(s), 0) <==> EscapeAt(s, 0)
    ensures EscapeAt(s, 0) ==> EscapeControl(s) == s[..3] + EscapeControl(s[3..])
  {
    var t := EscapeControl(s);
    if |s| >= 2 {
      assert EscapeControl(s[1..])[0] == if IsControl(s[1]) then PERCENT else s[1];
      if |s| >= 3 && !IsControl(s[1]) {
        assert s[1..][1..] == s[2..];
        assert EscapeControl(s[2..])[0] == if IsControl(s[2]) then PERCENT else s[2];
        if !IsControl(s[2]) {
          assert s[2..][1..] == s[3..];
          assert EscapeControl(s[2..]) == [s[2]] + EscapeControl(s[3..]);
          assert EscapeControl(s[1..]) == [s[1]] + EscapeControl(s[2..]);
        }
      }
    }
  }

  lemma {:induction false} UnescapeControl(s: bytes)
    ensures Unescape(EscapeControl(s)) == Unescape(s)
    decreases |s|
  {
    var t := EscapeControl(s);
    if s == [] {
    } else if IsControl(s[0]) {
      UnescapeControl(s[1..]);
      assert t[3..] == EscapeControl(s[1..]) && EscapeAt(t, 0);
      assert DecodedByte(t[1], t[2]) == s[0];
    } else {
      ControlHead(s);
      if EscapeAt(s, 0) {
        UnescapeControl(s[3..]);
        assert t[3..] == EscapeControl(s[3..]);
      } else {
        UnescapeControl(s[1..]);
        assert t[1..] == EscapeControl(s[1..]);
      }
    }
  }

  lemma {:induction false} ControlKeepsPercentsValid(s: bytes)
    requires PercentsValid(s)
    ensures PercentsValid(EscapeControl(s))
    decreases |s|
  {
    if s != [] {
      var t, rest := EscapeControl(s), EscapeControl(s[1..]);
      PercentsValidTail(s);
      ControlKeepsPercentsValid(s[1..]);
      PercentsValidTail(t);
      if IsControl(s[0]) {
        var hi, lo := HexDigit(s[0] / 16), HexDigit(s[0] % 16);
        assert t[1..] == [hi, lo] + rest && t[1..][1..] == [lo] + rest && t[1..][1..][1..] == rest;
        PercentsValidTail(t[1..]);
        PercentsValidTail(t[1..][1..]);
      } else {
        ControlHead(s);
        assert t[1..] == rest;
      }
    }
  }

  /** Strings that agree after one pass decode alike, whether or not they are already stable. */
  lemma SamePassSameResult(s: bytes, t: bytes)
    requires Unescape(s) == Unescape(t)
    ensures RecursiveUnescape(s) == RecursiveUnescape(t)
    ensures Passes(t) <= Passes(s) || (Passes(s) == 0 && Passes(t) == 1)
  {
    var u := Unescape(s);
    assert Unescape(u) == u ==> UnescapeUpTo(u, MAX_DEPTH - 1) == Some(u);
  }

  /** Encoding lone percent signs and control bytes changes nothing that decoding sees,
      the refusal of too deeply nested input included. */
  lemma PreprocessingKeepsMeaning(s: bytes)
    ensures RecursiveUnescape(EscapeControl(EscapeLonePercent(s))) == RecursiveUnescape(s)
    ensures Passes(EscapeControl(EscapeLonePercent(s))) <= Passes(s) + 1
    ensures PercentsValid(EscapeControl(EscapeLonePercent(s)))
    ensures EscapeLonePercent(EscapeLonePercent(s)) == EscapeLonePercent(s)
  {
    var t := EscapeLonePercent(s);
    UnescapeLonePercent(s);
    UnescapeControl(t);
    SamePassSameResult(s, EscapeControl(t));
    LonePercentsGone(s);
    LonePercentsGone(t);
    ControlKeepsPercentsValid(t);
  }
}
