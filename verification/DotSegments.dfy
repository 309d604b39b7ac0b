/** Dot segments resolved before a path is decoded, as in the path state of the URL Standard. */
module DotSegments {
  import opened Bytes
  import opened PercentDecoding
  import opened PathSegments
  import opened CanonPath

  predicate EncodedDot(seg: bytes) {
    |seg| == 3 && seg[0] == PERCENT && seg[1] == TWO && (seg[2] == 0x65 || seg[2] == 0x45)
  }

  predicate SingleDot(seg: bytes) {
    seg == [DOT] || EncodedDot(seg)
  }

  predicate DoubleDot(seg: bytes) {
    || (|seg| >= 2 && seg[0] == DOT && SingleDot(seg[1..]))
    || (|seg| >= 4 && EncodedDot(seg[..3]) && SingleDot(seg[3..]))
  }

  /** Any other segment, the empty one included. */
  predicate Named(seg: bytes) {
    !SingleDot(seg) && !DoubleDot(seg)
  }

  predicate Solid(seg: bytes) {
    Named(seg) && seg != []
  }

  function DropTop(stack: segments): segments {
    if stack == [] then [] else stack[..|stack| - 1]
  }

  function PushVisible(stack: segments, seg: bytes): segments {
    if DoubleDot(seg) then DropTop(stack) else if SingleDot(seg) then stack else stack + [seg]
  }

  /** The parser's stack, on which empty segments count. A dot segment at the end leaves an empty one behind. */
  function Visible(stack: segments, segs: segments): (out: segments)
    requires segs != []
    ensures out != []
    decreases |segs|
  {
    if |segs| == 1 then PushVisible(stack, segs[0]) + (if Named(segs[0]) then [] else [[]])
    else Visible(PushVisible(stack, segs[0]), segs[1..])
  }

  /** What the parser makes of a path. */
  function ResolveDots(path: bytes): bytes {
    [SLASH] + Join(Visible([], PathSplit(path)), SLASH)
  }

  // --- When a segment is lost ---

  function CountIf(f: bytes -> bool, segs: segments): nat
    decreases |segs|
  {
    if segs == [] then 0 else (if f(segs[0]) then 1 else 0) + CountIf(f, segs[1..])
  }

  ghost predicate SkipsDoubleDots(counts: bytes -> bool) {
    forall seg :: DoubleDot(seg) ==> !counts(seg)
  }

  /** Reading from the left, there are at some point more ".." than segments that count. */
  ghost predicate Outnumbered(counts: bytes -> bool, segs: segments) {
    exists k :: 0 <= k <= |segs| && CountIf(DoubleDot, segs[..k]) > CountIf(counts, segs[..k])
  }

  /** What follows segment `i` takes it away when only non-empty segments count, but not when all do. */
  ghost predicate LosesAt(segs: segments, i: nat) {
    i < |segs| && Solid(segs[i]) && Outnumbered(Solid, segs[i + 1..]) && !Outnumbered(Named, segs[i + 1..])
  }

  ghost predicate Loses(segs: segments) {
    exists i: nat :: LosesAt(segs, i)
  }

  /** The same with a given number of segments to spare. */
  predicate Dips(counts: bytes -> bool, spare: nat, segs: segments)
    decreases |segs|
  {
    if segs == [] then false
    else if DoubleDot(segs[0]) then spare == 0 || Dips(counts, spare - 1, segs[1..])
    else Dips(counts, if counts(segs[0]) then spare + 1 else spare, segs[1..])
  }

  ghost predicate DipsAt(counts: bytes -> bool, spare: nat, segs: segments, k: int) {
    0 <= k <= |segs| && CountIf(DoubleDot, segs[..k]) > spare + CountIf(counts, segs[..k])
  }

  lemma CountPrefix(f: bytes -> bool, segs: segments, k: nat)
    requires 0 < k <= |segs|
    ensures CountIf(f, segs[..k]) == (if f(segs[0]) then 1 else 0) + CountIf(f, segs[1..][..k - 1])
  {
    assert segs[..k][1..] == segs[1..][..k - 1];
  }

  lemma {:induction false} DipsExact(counts: bytes -> bool, spare: nat, segs: segments)
    requires SkipsDoubleDots(counts)
    ensures Dips(counts, spare, segs) <==> exists k :: DipsAt(counts, spare, segs, k)
    decreases |segs|
  {
    if segs != [] {
      var rest := segs[1..];
      if DoubleDot(segs[0]) && spare == 0 {
        CountPrefix(DoubleDot, segs, 1);
        CountPrefix(counts, segs, 1);
        assert rest[..0] == [];
        assert DipsAt(counts, spare, segs, 1);
      } else {
        var left := if DoubleDot(segs[0]) then spare - 1 else if counts(segs[0]) then spare + 1 else spare;
        DipsExact(counts, left, rest);
        forall k | 1 <= k <= |segs|
          ensures DipsAt(counts, spare, segs, k) <==> DipsAt(counts, left, rest, k - 1)
        {
          CountPrefix(DoubleDot, segs, k);
          CountPrefix(counts, segs, k);
        }
        assert !DipsAt(counts, spare, segs, 0);
        if exists k :: DipsAt(counts, left, rest, k) {
          var k :| DipsAt(counts, left, rest, k);
          assert DipsAt(counts, spare, segs, k + 1);
        }
        if exists k :: DipsAt(counts, spare, segs, k) {
          var k :| DipsAt(counts, spare, segs, k);
          assert DipsAt(counts, left, rest, k - 1);
        }
      }
    }
  }

  lemma OutnumberedIsDip(segs: segments)
    ensures Outnumbered(Solid, segs) <==> Dips(Solid, 0, segs)
    ensures Outnumbered(Named, segs) <==> Dips(Named, 0, segs)
  {
    DipsExact(Solid, 0, segs);
    DipsExact(Named, 0, segs);
    assert forall k :: DipsAt(Solid, 0, segs, k) <==>
      0 <= k <= |segs| && CountIf(DoubleDot, segs[..k]) > CountIf(Solid, segs[..k]);
    assert forall k :: DipsAt(Named, 0, segs, k) <==>
      0 <= k <= |segs| && CountIf(DoubleDot, segs[..k]) > CountIf(Named, segs[..k]);
  }

  // --- Both stacks as what survives ---

  /** A stack on which the segments that count are pushed, and ".." pops. */
  function Stack(counts: bytes -> bool, stack: segments, segs: segments): segments
    decreases |segs|
  {
    if segs == [] then stack
    else if DoubleDot(segs[0]) then Stack(counts, DropTop(stack), segs[1..])
    else Stack(counts, if counts(segs[0]) then stack + [segs[0]] else stack, segs[1..])
  }

  /** The segments that count and are not taken away by what follows them. */
  function Survivors(counts: bytes -> bool, segs: segments): segments
    decreases |segs|
  {
    if segs == [] then []
    else if counts(segs[0]) && !Dips(counts, 0, segs[1..]) then [segs[0]] + Survivors(counts, segs[1..])
    else Survivors(counts, segs[1..])
  }

  /** The lowest segment of a stack stays unless ".." outnumber what is above it. */
  lemma {:induction false} StackBottom(counts: bytes -> bool, x: bytes, stack: segments, segs: segments)
    ensures Stack(counts, [x] + stack, segs) ==
            if Dips(counts, |stack|, segs) then Stack(counts, stack, segs) else [x] + Stack(counts, stack, segs)
    decreases |segs|
  {
    if segs != [] {
      var s, rest := segs[0], segs[1..];
      if DoubleDot(s) {
        if stack == [] {
          assert DropTop([x]) == [];
        } else {
          assert DropTop([x] + stack) == [x] + DropTop(stack);
          StackBottom(counts, x, DropTop(stack), rest);
        }
      } else if counts(s) {
        assert [x] + stack + [s] == [x] + (stack + [s]);
        StackBottom(counts, x, stack + [s], rest);
      } else {
        StackBottom(counts, x, stack, rest);
      }
    }
  }

  lemma {:induction false} StackIsSurvivors(counts: bytes -> bool, segs: segments)
    requires SkipsDoubleDots(counts)
    ensures Stack(counts, [], segs) == Survivors(counts, segs)
    decreases |segs|
  {
    if segs != [] {
      StackIsSurvivors(counts, segs[1..]);
      if counts(segs[0]) {
        StackBottom(counts, segs[0], [], segs[1..]);
        assert [segs[0]] + [] == [segs[0]] && [] + [segs[0]] == [segs[0]];
      }
    }
  }

  /** Counting more segments makes fewer of them outnumbered. */
  lemma {:induction false} DipsLess(low: nat, high: nat, segs: segments)
    requires low <= high && Dips(Named, high, segs)
    ensures Dips(Solid, low, segs)
    decreases |segs|
  {
    if DoubleDot(segs[0]) {
      if low > 0 {
        DipsLess(low - 1, high - 1, segs[1..]);
      }
    } else {
      DipsLess(if Solid(segs[0]) then low + 1 else low, if Named(segs[0]) then high + 1 else high, segs[1..]);
    }
  }

  predicate DipsOnlySolid(segs: segments) {
    segs != [] && Solid(segs[0]) && Dips(Solid, 0, segs[1..]) && !Dips(Named, 0, segs[1..])
  }

  /** The same as a recursion over the segments. */
  predicate LosesSome(segs: segments)
    decreases |segs|
  {
    segs != [] && (DipsOnlySolid(segs) || LosesSome(segs[1..]))
  }

  /** The two stacks keep the same non-empty segments exactly when none is lost; otherwise the parser's keeps more. */
  lemma {:induction false} SurvivorsCompare(segs: segments)
    ensures |Survivors(Solid, segs)| <= |NonEmpty(Survivors(Named, segs))|
    ensures Survivors(Solid, segs) == NonEmpty(Survivors(Named, segs)) <==> !LosesSome(segs)
    ensures LosesSome(segs) ==> |Survivors(Solid, segs)| < |NonEmpty(Survivors(Named, segs))|
    decreases |segs|
  {
    if segs != [] {
      var rest := segs[1..];
      SurvivorsCompare(rest);
      if Dips(Named, 0, rest) {
        DipsLess(0, 0, rest);
      }
      NonEmptyCons(segs[0], Survivors(Named, rest));
    }
  }

  lemma NonEmptyCons(x: bytes, parts: seq<bytes>)
    ensures NonEmpty([x] + parts) == if x == [] then NonEmpty(parts) else [x] + NonEmpty(parts)
  {
    assert ([x] + parts)[1..] == parts;
  }

  lemma {:induction false} LosesExact(segs: segments)
    ensures LosesSome(segs) <==> Loses(segs)
    decreases |segs|
  {
    if segs != [] {
      var rest := segs[1..];
      LosesExact(rest);
      OutnumberedIsDip(rest);
      assert LosesAt(segs, 0) <==> DipsOnlySolid(segs);
      forall i: nat
        ensures LosesAt(segs, i + 1) <==> LosesAt(rest, i)
      {
        assert i < |rest| ==> segs[i + 1 + 1..] == rest[i + 1..];
      }
      if exists i: nat :: LosesAt(rest, i) {
        var i: nat :| LosesAt(rest, i);
        assert LosesAt(segs, i + 1);
      }
      if exists i: nat :: LosesAt(segs, i) {
        var i: nat :| LosesAt(segs, i);
        assert i > 0 ==> LosesAt(rest, i - 1);
      }
    }
  }

  // --- Segments that are fully decoded ---

  lemma DecodedDots(seg: bytes)
    requires EscapeFree(seg)
    ensures SingleDot(seg) <==> seg == [DOT]
    ensures DoubleDot(seg) <==> seg == DOT_DOT
    ensures Solid(seg) <==> Ordinary(seg)
  {
    assert |seg| >= 3 ==> !EscapeAt(seg, 0);
    assert |seg| >= 4 ==> !EscapeAt(seg, 1);
    assert seg == DOT_DOT ==> seg[1..] == [DOT];
    assert |seg| == 2 ==> seg == [seg[0], seg[1]] && seg[1..] == [seg[1]];
  }

  lemma {:induction false} ResolveIsStack(stack: segments, segs: segments)
    requires forall s :: s in segs ==> EscapeFree(s)
    ensures Resolve(stack, segs) == Stack(Solid, stack, segs)
    decreases |segs|
  {
    if segs != [] {
      assert segs[0] in segs;
      TailMembers(segs);
      DecodedDots(segs[0]);
      ResolveIsStack(Push(stack, segs[0]), segs[1..]);
    }
  }

  lemma {:induction false} NonEmptyConcat(a: seq<bytes>, b: seq<bytes>)
    ensures NonEmpty(a + b) == NonEmpty(a) + NonEmpty(b)
    decreases |a|
  {
    if a == [] {
      assert a + b == b;
    } else {
      assert (a + b)[1..] == a[1..] + b;
      NonEmptyConcat(a[1..], b);
    }
  }

  /** The parser's result is its stack, apart from empty segments. */
  lemma {:induction false} VisibleIsStack(stack: segments, segs: segments)
    requires segs != []
    ensures NonEmpty(Visible(stack, segs)) == NonEmpty(Stack(Named, stack, segs))
    decreases |segs|
  {
    var next := PushVisible(stack, segs[0]);
    assert Stack(Named, stack, segs) == Stack(Named, next, segs[1..]);
    if |segs| == 1 {
      assert segs[1..] == [];
      NonEmptySnoc(next);
      assert next + [] == next;
    } else {
      VisibleIsStack(next, segs[1..]);
    }
  }

  lemma {:induction false} VisibleMembers(stack: segments, segs: segments)
    requires segs != []
    ensures forall s :: s in Visible(stack, segs) ==> s in stack || (s in segs && Named(s)) || s == []
    decreases |segs|
  {
    TailMembers(segs);
    assert segs[0] in segs;
    assert forall s :: s in PushVisible(stack, segs[0]) ==> s in stack || (s == segs[0] && Named(s));
    if |segs| > 1 {
      VisibleMembers(PushVisible(stack, segs[0]), segs[1..]);
    }
  }

  lemma {:induction false} ResolveNamed(stack: segments, segs: segments)
    requires forall s :: s in segs ==> EscapeFree(s) && Named(s)
    ensures Resolve(stack, segs) == stack + NonEmpty(segs)
    decreases |segs|
  {
    if segs == [] {
      assert stack + [] == stack;
    } else {
      assert segs[0] in segs;
      TailMembers(segs);
      DecodedDots(segs[0]);
      ResolveNamed(Push(stack, segs[0]), segs[1..]);
      if segs[0] != [] {
        ConcatAssociates(stack, [segs[0]], NonEmpty(segs[1..]));
      }
    }
  }

  lemma EmptyIsNamed()
    ensures Named([]) && EscapeFree([])
  {
  }

  /** On fully decoded segments, resolving the dot segments first makes no difference exactly when no segment is lost. */
  lemma ResolveAfterParser(segs: segments)
    requires segs != [] && forall s :: s in segs ==> EscapeFree(s)
    ensures Resolve([], Visible([], segs)) == Resolve([], segs) <==> !Loses(segs)
  {
    EmptyIsNamed();
    VisibleMembers([], segs);
    ResolveNamed([], Visible([], segs));
    assert [] + NonEmpty(Visible([], segs)) == NonEmpty(Visible([], segs));
    VisibleIsStack([], segs);
    ResolveIsStack([], segs);
    StackIsSurvivors(Solid, segs);
    StackIsSurvivors(Named, segs);
    SurvivorsCompare(segs);
    LosesExact(segs);
  }

  predicate EndsOnDirectory(segs: segments)
    requires segs != []
  {
    !Ordinary(segs[|segs| - 1])
  }

  /** The end of the path is a directory before exactly when it is one afterwards. */
  lemma {:induction false} VisibleEnd(stack: segments, segs: segments)
    requires segs != [] && forall s :: s in segs ==> EscapeFree(s)
    ensures EndsOnDirectory(Visible(stack, segs)) <==> EndsOnDirectory(segs)
    decreases |segs|
  {
    if |segs| == 1 {
      assert segs[0] in segs;
      DecodedDots(segs[0]);
    } else {
      TailMembers(segs);
      VisibleEnd(PushVisible(stack, segs[0]), segs[1..]);
    }
  }
}
