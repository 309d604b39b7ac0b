/** Percent-decoding as a rewrite relation, and the bounded decoder that computes its normal form. */
module PercentDecoding {
  import opened Bytes

  const MAX_DEPTH: nat := 1024

  // --- One escape at a time ---

  /** A valid escape "%HH" starts at position `i`. */
  predicate EscapeAt(s: bytes, i: nat) {
    i + 2 < |s| && s[i] == PERCENT && IsHex(s[i + 1]) && IsHex(s[i + 2])
  }

  predicate EscapeFree(s: bytes) {
    forall i: nat :: i < |s| ==> !EscapeAt(s, i)
  }

  function DecodedByte(hi: byte, lo: byte): byte {
    16 * Unhex(hi) + Unhex(lo)
  }

  /** One rewrite step: the escape at `i` becomes the byte it stands for. */
  function DecodeAt(s: bytes, i: nat): (t: bytes)
    requires EscapeAt(s, i)
    ensures |t| == |s| - 2
  {
    s[..i] + [DecodedByte(s[i + 1], s[i + 2])] + s[i + 3..]
  }

  /** The string after decoding single escapes at the given positions in turn,
      None if one of the positions holds no escape by then. */
  function DecodeSteps(s: bytes, at: seq<nat>): Option<bytes>
    decreases |at|
  {
    if at == [] then Some(s)
    else if EscapeAt(s, at[0]) then DecodeSteps(DecodeAt(s, at[0]), at[1..])
    else None
  }

  /** The leftmost escape. */
  ghost function FirstEscape(s: bytes): (i: nat)
    requires !EscapeFree(s)
    ensures EscapeAt(s, i) && forall j: nat :: j < i ==> !EscapeAt(s, j)
  {
    FirstEscapeFrom(s, 0)
  }

  ghost function FirstEscapeFrom(s: bytes, from: nat): (i: nat)
    requires !EscapeFree(s)
    requires forall j: nat :: j < from ==> !EscapeAt(s, j)
    ensures EscapeAt(s, i) && forall j: nat :: j < i ==> !EscapeAt(s, j)
    decreases |s| - from
  {
    if EscapeAt(s, from) then from else FirstEscapeFrom(s, from + 1)
  }

  /** Decode leftmost escapes until none is left. */
  ghost function Normal(s: bytes): (n: bytes)
    ensures EscapeFree(n)
    decreases |s|
  {
    if EscapeFree(s) then s else Normal(DecodeAt(s, FirstEscape(s)))
  }

  /** Escapes never overlap, so two of them can be decoded in either order. */
  lemma StepsCommute(s: bytes, i: nat, j: nat)
    requires EscapeAt(s, i) && EscapeAt(s, j) && i < j
    ensures i + 3 <= j
    ensures EscapeAt(DecodeAt(s, i), j - 2) && EscapeAt(DecodeAt(s, j), i)
    ensures DecodeAt(DecodeAt(s, i), j - 2) == DecodeAt(DecodeAt(s, j), i)
  {
    assert i + 3 <= j;
    var a, b := DecodeAt(s, i), DecodeAt(s, j);
    assert a[j - 2..] == s[j..];
    assert b[..i + 3] == s[..i + 3];
    assert DecodeAt(a, j - 2) == DecodeAt(b, i);
  }

  ghost predicate IsFirst(s: bytes, f: nat) {
    EscapeAt(s, f) && forall j: nat :: j < f ==> !EscapeAt(s, j)
  }

  /** A function that keeps its value in every leftmost step keeps it in every step. */
  lemma {:induction false} AnyStepKeeps(n: bytes -> bytes, s: bytes, i: nat)
    requires forall t, f: nat :: IsFirst(t, f) ==> n(DecodeAt(t, f)) == n(t)
    requires EscapeAt(s, i)
    ensures n(DecodeAt(s, i)) == n(s)
    decreases |s|
  {
    var f := FirstEscape(s);
    assert IsFirst(s, f);
    if i != f {
      StepsCommute(s, f, i);
      AnyStepKeeps(n, DecodeAt(s, f), i - 2);
      AnyStepKeeps(n, DecodeAt(s, i), f);
    }
  }

  lemma FirstIsUnique(s: bytes, f: nat)
    requires IsFirst(s, f)
    ensures !EscapeFree(s) && FirstEscape(s) == f
  {
  }

  /** Whichever escape is decoded first, the normal form stays the same. */
  lemma StepKeepsNormal(s: bytes, i: nat)
    requires EscapeAt(s, i)
    ensures Normal(DecodeAt(s, i)) == Normal(s)
  {
    forall t, f: nat | IsFirst(t, f)
      ensures Normal(DecodeAt(t, f)) == Normal(t)
    {
      FirstIsUnique(t, f);
    }
    AnyStepKeeps(Normal, s, i);
  }

  lemma {:induction false} StepsKeepNormal(s: bytes, at: seq<nat>)
    requires DecodeSteps(s, at).Some?
    ensures Normal(DecodeSteps(s, at).value) == Normal(s)
    decreases |at|
  {
    if at != [] {
      StepKeepsNormal(s, at[0]);
      StepsKeepNormal(DecodeAt(s, at[0]), at[1..]);
    }
  }

  lemma {:induction false} NormalIsReached(s: bytes) returns (at: seq<nat>)
    ensures DecodeSteps(s, at) == Some(Normal(s))
    decreases |s|
  {
    if EscapeFree(s) {
      at := [];
    } else {
      var f := FirstEscape(s);
      var rest := NormalIsReached(DecodeAt(s, f));
      at := [f] + rest;
    }
  }

  /** Decoding is confluent: two partial decodings of `s`, however their steps were
      chosen, can be continued to the same string, and a string reached from `s` in
      which nothing is left to decode is the normal form of `s`. */
  lemma DecodingIsConfluent(s: bytes, at1: seq<nat>, at2: seq<nat>)
    requires DecodeSteps(s, at1).Some? && DecodeSteps(s, at2).Some?
    ensures exists more1, more2 ::
              && DecodeSteps(DecodeSteps(s, at1).value, more1) == Some(Normal(s))
              && DecodeSteps(DecodeSteps(s, at2).value, more2) == Some(Normal(s))
    ensures EscapeFree(DecodeSteps(s, at1).value) ==> DecodeSteps(s, at1).value == Normal(s)
  {
    StepsKeepNormal(s, at1);
    StepsKeepNormal(s, at2);
    var more1 := NormalIsReached(DecodeSteps(s, at1).value);
    var more2 := NormalIsReached(DecodeSteps(s, at2).value);
  }

  // --- One pass over the string ---

  /** All escapes of `s` decoded once, left to right, without looking again at what a decoded byte forms. */
  function Unescape(s: bytes): bytes
    decreases |s|
  {
    if s == [] then []
    else if EscapeAt(s, 0) then [DecodedByte(s[1], s[2])] + Unescape(s[3..])
    else [s[0]] + Unescape(s[1..])
  }

  lemma DecodeBelow(pre: bytes, s: bytes)
    requires EscapeAt(s, 0)
    ensures EscapeAt(pre + s, |pre|)
    ensures DecodeAt(pre + s, |pre|) == pre + [DecodedByte(s[1], s[2])] + s[3..]
  {
    var u := pre + s;
    assert u[..|pre|] == pre && u[|pre| + 3..] == s[3..];
  }

  /** A pass is a sequence of rewrite steps, so it keeps the normal form (below any prefix). */
  lemma {:induction false} PassKeepsNormalBelow(pre: bytes, s: bytes)
    ensures Normal(pre + Unescape(s)) == Normal(pre + s)
    decreases |s|
  {
    if s == [] {
      assert Unescape(s) == s;
    } else {
      var isEscape := EscapeAt(s, 0);
      var c := if isEscape then DecodedByte(s[1], s[2]) else s[0];
      var rest := if isEscape then s[3..] else s[1..];
      assert Unescape(s) == [c] + Unescape(rest);
      ConcatAssociates(pre, [c], Unescape(rest));
      PassKeepsNormalBelow(pre + [c], rest);
      if isEscape {
        DecodeBelow(pre, s);
        StepKeepsNormal(pre + s, |pre|);
      } else {
        assert s == [c] + rest;
        ConcatAssociates(pre, [c], rest);
      }
    }
  }

  lemma PassKeepsNormal(s: bytes)
    ensures Normal(Unescape(s)) == Normal(s)
  {
    PassKeepsNormalBelow([], s);
    assert [] + s == s && [] + Unescape(s) == Unescape(s);
  }

  /** A pass changes exactly the strings that hold an escape, and shortens them. */
  lemma {:induction false} PassFixesEscapeFree(s: bytes)
    ensures Unescape(s) == s <==> EscapeFree(s)
    decreases |s|
  {
    if s == [] {
    } else if EscapeAt(s, 0) {
      PassShortens(s[3..]);
    } else {
      PassFixesEscapeFree(s[1..]);
      assert forall i: nat :: i < |s[1..]| ==> (EscapeAt(s[1..], i) <==> EscapeAt(s, i + 1));
      assert EscapeFree(s[1..]) <==> EscapeFree(s) by {
        if EscapeFree(s[1..]) {
          forall i: nat | i < |s|
            ensures !EscapeAt(s, i)
          {
            if i > 0 {
              assert !EscapeAt(s[1..], i - 1);
            }
          }
        }
      }
      assert s == [s[0]] + s[1..];
    }
  }

  lemma {:induction false} PassShortens(s: bytes)
    ensures Unescape(s) == s || |Unescape(s)| + 2 <= |s|
    decreases |s|
  {
    if s != [] {
      PassShortens(if EscapeAt(s, 0) then s[3..] else s[1..]);
    }
  }

  // --- Passes until nothing changes ---

  /** Up to `depth` passes; None when the last of them still changed the string. */
  function UnescapeUpTo(s: bytes, depth: nat): Option<bytes>
    decreases depth
  {
    if depth == 0 then None
    else if Unescape(s) == s then Some(s)
    else UnescapeUpTo(Unescape(s), depth - 1)
  }

  function RecursiveUnescape(s: bytes): Option<bytes> {
    UnescapeUpTo(s, MAX_DEPTH)
  }

  /** How many passes change the string before it is stable. */
  function Passes(s: bytes): nat
    decreases |s|
  {
    PassShortens(s);
    if Unescape(s) == s then 0 else 1 + Passes(Unescape(s))
  }

  lemma {:induction false} PassBound(s: bytes)
    ensures Passes(s) == 0 || 2 * Passes(s) < |s|
    decreases |s|
  {
    if Unescape(s) != s {
      PassShortens(s);
      PassBound(Unescape(s));
      PassFixesEscapeFree(s);
    }
  }

  lemma {:induction false} UnescapeUpToExact(s: bytes, depth: nat)
    ensures UnescapeUpTo(s, depth) == if Passes(s) < depth then Some(Normal(s)) else None
    decreases depth
  {
    if depth > 0 {
      PassFixesEscapeFree(s);
      if Unescape(s) != s {
        PassKeepsNormal(s);
        UnescapeUpToExact(Unescape(s), depth - 1);
      }
    }
  }

  /** The decoder returns the normal form exactly when fewer than 1024 passes change
      the string, which every string of at most 2048 bytes satisfies. */
  lemma RecursiveUnescapeExact(s: bytes)
    ensures RecursiveUnescape(s) == if Passes(s) < 1024 then Some(Normal(s)) else None
    ensures |s| <= 2048 ==> RecursiveUnescape(s) == Some(Normal(s))
    ensures RecursiveUnescape(s).Some? ==> EscapeFree(RecursiveUnescape(s).value)
  {
    UnescapeUpToExact(s, MAX_DEPTH);
    PassBound(s);
  }

  /** Two spellings that differ by any decoding steps decode alike. */
  lemma SpellingDoesNotMatter(s: bytes, at: seq<nat>)
    requires DecodeSteps(s, at).Some?
    ensures var t := DecodeSteps(s, at).value;
            RecursiveUnescape(s).Some? && RecursiveUnescape(t).Some? ==>
              RecursiveUnescape(s) == RecursiveUnescape(t)
    ensures |s| <= 2048 ==>
              RecursiveUnescape(DecodeSteps(s, at).value) == RecursiveUnescape(s) == Some(Normal(s))
  {
    StepsKeepNormal(s, at);
    RecursiveUnescapeExact(s);
    RecursiveUnescapeExact(DecodeSteps(s, at).value);
    StepsShorten(s, at);
  }

  lemma {:induction false} StepsShorten(s: bytes, at: seq<nat>)
    requires DecodeSteps(s, at).Some?
    ensures |DecodeSteps(s, at).value| + 2 * |at| == |s|
    decreases |at|
  {
    if at != [] {
      StepsShorten(DecodeAt(s, at[0]), at[1..]);
    }
  }

  // --- The bound is tight ---

  /** "25" repeated `k` times. */
  function TwentyFives(k: nat): (s: bytes)
    ensures |s| == 2 * k
    ensures PERCENT !in s
  {
    if k == 0 then [] else [TWO, FIVE] + TwentyFives(k - 1)
  }

  /** "%" followed by `k` copies of "25": a percent sign encoded `k` times over. */
  function Tower(k: nat): bytes {
    [PERCENT] + TwentyFives(k)
  }

  lemma {:induction false} TowerPasses(k: nat)
    ensures Passes(Tower(k)) == k
  {
    var s := Tower(k);
    if k == 0 {
      assert s == [PERCENT] && EscapeFree(s);
      PassFixesEscapeFree(s);
    } else {
      var rest := TwentyFives(k - 1);
      assert EscapeAt(s, 0) && s[3..] == rest;
      assert EscapeFree(rest) by {
        forall i: nat | i < |rest|
          ensures !EscapeAt(rest, i)
        {
          assert rest[i] in rest;
        }
      }
      PassFixesEscapeFree(rest);
      assert DecodedByte(TWO, FIVE) == PERCENT;
      assert Unescape(s) == Tower(k - 1);
      TowerPasses(k - 1);
    }
  }

  /** 2049 bytes are too many in general: this string of that length is refused. */
  lemma DepthBoundIsTight()
    ensures |Tower(MAX_DEPTH)| == 2049
    ensures RecursiveUnescape(Tower(MAX_DEPTH)) == None
  {
    TowerPasses(MAX_DEPTH);
    RecursiveUnescapeExact(Tower(MAX_DEPTH));
  }

  // --- The loops ---

  /** The feed side consumes its argument from the front. */
  method UnescapeConsuming(s: bytes) returns (out: bytes)
    ensures out == Unescape(s)
  {
    var rest := s;
    out := [];
    while |rest| > 0
      invariant out + Unescape(rest) == Unescape(s)
    {
      if |rest| >= 3 && rest[0] == PERCENT && IsHex(rest[1]) && IsHex(rest[2]) {
        ConcatAssociates(out, [DecodedByte(rest[1], rest[2])], Unescape(rest[3..]));
        out := out + [DecodedByte(rest[1], rest[2])];
        rest := rest[3..];
      } else {
        ConcatAssociates(out, [rest[0]], Unescape(rest[1..]));
        out := out + [rest[0]];
        rest := rest[1..];
      }
    }
  }

  /** The lookup side moves an index over the string, by three for an escape. */
  method UnescapeIndexed(s: bytes) returns (out: bytes)
    ensures out == Unescape(s)
  {
    var i := 0;
    out := [];
    while i < |s|
      invariant i <= |s|
      invariant out + Unescape(s[i..]) == Unescape(s)
    {
      ghost var rest := s[i..];
      if i + 2 < |s| && s[i] == PERCENT && IsHex(s[i + 1]) && IsHex(s[i + 2]) {
        assert EscapeAt(rest, 0) && rest[3..] == s[i + 3..];
        ConcatAssociates(out, [DecodedByte(s[i + 1], s[i + 2])], Unescape(s[i + 3..]));
        out := out + [DecodedByte(s[i + 1], s[i + 2])];
        i := i + 2;
      } else {
        assert rest[1..] == s[i + 1..];
        ConcatAssociates(out, [s[i]], Unescape(s[i + 1..]));
        out := out + [s[i]];
      }
      i := i + 1;
    }
  }

  method DecodeUntilStable(s: bytes) returns (r: Option<bytes>)
    ensures r == RecursiveUnescape(s)
  {
    var u := s;
    for i := 0 to MAX_DEPTH
      invariant UnescapeUpTo(u, MAX_DEPTH - i) == RecursiveUnescape(s)
    {
      var t := UnescapeConsuming(u);
      if t == u {
        return Some(u);
      }
      u := t;
    }
    return None;
  }

  // --- What an escape stands for ---

  /** An escape in front stands for the byte its digits spell, in either case. */
  lemma EscapeStandsFor(b: byte, hi: byte, lo: byte, rest: bytes)
    requires Spells(hi, lo, b)
    ensures Unescape([0x25, hi, lo] + rest) == [b] + Unescape(rest)
  {
    SpelledByte(hi, lo, b);
    EscapeInFront(hi, lo, rest);
  }

  lemma EscapeInFront(hi: byte, lo: byte, rest: bytes)
    requires IsHex(hi) && IsHex(lo)
    ensures Unescape([PERCENT, hi, lo] + rest) == [DecodedByte(hi, lo)] + Unescape(rest)
  {
    var s := [PERCENT, hi, lo] + rest;
    assert EscapeAt(s, 0) && s[3..] == rest;
  }

  /** Any other byte in front stays, and a '%' does when the next two bytes are no two hexadecimal digits. */
  lemma ByteStays(c: byte, rest: bytes)
    requires c == 0x25 && |rest| >= 2 ==> !exists b :: Spells(rest[0], rest[1], b)
    ensures Unescape([c] + rest) == [c] + Unescape(rest)
  {
    var s := [c] + rest;
    assert s[1..] == rest;
    if EscapeAt(s, 0) {
      SpelledByte(rest[0], rest[1], DecodedByte(rest[0], rest[1]));
    }
  }
}
