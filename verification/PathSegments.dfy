/** Cleaning a list of path segments: the segment stack, and the rewrite rules it stands for. */
module PathSegments {
  import opened Bytes

  type segments = seq<bytes>

  const DOT_DOT: bytes := [DOT, DOT]

  predicate Vanishing(seg: bytes) {
    seg == [] || seg == [DOT]
  }

  predicate Ordinary(seg: bytes) {
    !Vanishing(seg) && seg != DOT_DOT
  }

  // --- The stack ---

  function Push(stack: segments, seg: bytes): segments {
    if Vanishing(seg) then stack
    else if seg == DOT_DOT then (if |stack| > 0 then stack[..|stack| - 1] else stack)
    else stack + [seg]
  }

  function Resolve(stack: segments, segs: segments): segments
    decreases |segs|
  {
    if segs == [] then stack else Resolve(Push(stack, segs[0]), segs[1..])
  }

  method ResolveLoop(segs: segments) returns (out: segments)
    ensures out == Resolve([], segs)
  {
    out := [];
    for i := 0 to |segs|
      invariant Resolve(out, segs[i..]) == Resolve([], segs)
    {
      assert segs[i..][1..] == segs[i + 1..];
      var s := segs[i];
      if s == [] || s == [DOT] {
      } else if s == DOT_DOT {
        if |out| > 0 {
          out := out[..|out| - 1];
        }
      } else {
        out := out + [s];
      }
    }
  }

  lemma {:induction false} ResolveConcat(stack: segments, a: segments, b: segments)
    ensures Resolve(stack, a + b) == Resolve(Resolve(stack, a), b)
    decreases |a|
  {
    if a == [] {
      assert a + b == b;
    } else {
      assert (a + b)[1..] == a[1..] + b;
      ResolveConcat(Push(stack, a[0]), a[1..], b);
    }
  }

  lemma {:induction false} ResolveOrdinary(stack: segments, segs: segments)
    requires forall s :: s in segs ==> Ordinary(s)
    ensures Resolve(stack, segs) == stack + segs
    decreases |segs|
  {
    if segs == [] {
      assert stack + segs == stack;
    } else {
      assert segs[0] in segs;
      assert Push(stack, segs[0]) == stack + [segs[0]];
      ResolveOrdinary(stack + [segs[0]], segs[1..]);
      assert stack + segs == stack + [segs[0]] + segs[1..];
    }
  }

  /** Only ordinary segments of the input end up on the stack. */
  lemma {:induction false} ResolveKeeps(stack: segments, segs: segments)
    ensures forall s :: s in Resolve(stack, segs) ==> s in stack || (s in segs && Ordinary(s))
    decreases |segs|
  {
    if segs != [] {
      ResolveKeeps(Push(stack, segs[0]), segs[1..]);
    }
  }

  // --- The rules ---

  /** A rule applies to the `width` segments at `i`: an empty or "." segment vanishes, an
      ordinary segment is cancelled by the ".." after it, and ".." at the root vanishes. */
  predicate RuleAt(segs: segments, i: nat, width: nat) {
    || (width == 1 && i < |segs| && Vanishing(segs[i]))
    || (width == 2 && i + 1 < |segs| && Ordinary(segs[i]) && segs[i + 1] == DOT_DOT)
    || (width == 1 && i == 0 && |segs| > 0 && segs[0] == DOT_DOT)
  }

  function ApplyRule(segs: segments, i: nat, width: nat): segments
    requires RuleAt(segs, i, width)
  {
    segs[..i] + segs[i + width..]
  }

  function ApplyRules(segs: segments, at: seq<(nat, nat)>): Option<segments>
    decreases |at|
  {
    if at == [] then Some(segs)
    else if RuleAt(segs, at[0].0, at[0].1) then ApplyRules(ApplyRule(segs, at[0].0, at[0].1), at[1..])
    else None
  }

  ghost predicate Clean(segs: segments) {
    forall i: nat, width: nat :: !RuleAt(segs, i, width)
  }

  lemma RuleKeepsResolve(segs: segments, i: nat, width: nat)
    requires RuleAt(segs, i, width)
    ensures Resolve([], ApplyRule(segs, i, width)) == Resolve([], segs)
  {
    var a, redex, b := segs[..i], segs[i..i + width], segs[i + width..];
    var below := Resolve([], a);
    assert segs == a + (redex + b);
    ResolveConcat([], a, redex + b);
    ResolveConcat(below, redex, b);
    ResolveConcat([], a, b);
    assert redex[0] == segs[i] && |redex| == width;
    if width == 1 {
      assert Resolve(below, redex) == Push(below, segs[i]);
      if !Vanishing(segs[i]) {
        assert a == [];
      }
    } else {
      assert redex[1..] == [segs[i + 1]];
      assert Resolve(Push(below, segs[i]), redex[1..]) == Push(Push(below, segs[i]), segs[i + 1]);
      assert Resolve(below, redex) == Push(Push(below, segs[i]), segs[i + 1]);
    }
  }

  lemma {:induction false} RulesKeepResolve(segs: segments, at: seq<(nat, nat)>)
    requires ApplyRules(segs, at).Some?
    ensures Resolve([], ApplyRules(segs, at).value) == Resolve([], segs)
    decreases |at|
  {
    if at != [] {
      RuleKeepsResolve(segs, at[0].0, at[0].1);
      RulesKeepResolve(ApplyRule(segs, at[0].0, at[0].1), at[1..]);
    }
  }

  /** No rule applies exactly when all segments are ordinary. */
  lemma {:induction false} CleanIsOrdinary(segs: segments)
    ensures Clean(segs) <==> forall s :: s in segs ==> Ordinary(s)
  {
    if Clean(segs) {
      var i := 0;
      while i < |segs|
        invariant i <= |segs|
        invariant forall j :: 0 <= j < i ==> Ordinary(segs[j])
      {
        assert !RuleAt(segs, i, 1);
        if i > 0 {
          assert !RuleAt(segs, i - 1, 2);
        }
        i := i + 1;
      }
    } else {
      var i: nat, width: nat :| RuleAt(segs, i, width);
      assert segs[i] in segs && (width == 2 ==> segs[i + 1] in segs);
    }
  }

  lemma {:induction false} CleaningEnds(segs: segments) returns (at: seq<(nat, nat)>)
    ensures ApplyRules(segs, at).Some? && Clean(ApplyRules(segs, at).value)
    decreases |segs|
  {
    if Clean(segs) {
      at := [];
    } else {
      var i: nat, width: nat :| RuleAt(segs, i, width);
      var rest := CleaningEnds(ApplyRule(segs, i, width));
      at := [(i, width)] + rest;
    }
  }

  /** The stack computes the one clean form of the rules: applied in any order until none
      applies they give the stack's result, and from any intermediate point it can still be reached. */
  lemma StackIsTheCleanForm(segs: segments, at: seq<(nat, nat)>)
    requires ApplyRules(segs, at).Some?
    ensures Clean(ApplyRules(segs, at).value) <==> ApplyRules(segs, at).value == Resolve([], segs)
    ensures exists more :: ApplyRules(ApplyRules(segs, at).value, more) == Some(Resolve([], segs))
  {
    var t := ApplyRules(segs, at).value;
    RulesKeepResolve(segs, at);
    var more := CleaningEnds(t);
    RulesKeepResolve(t, more);
    CleanFormIsResolved(ApplyRules(t, more).value);
    ResolveKeeps([], segs);
    CleanIsOrdinary(t);
    if Clean(t) {
      CleanFormIsResolved(t);
    }
  }

  lemma CleanFormIsResolved(segs: segments)
    requires Clean(segs)
    ensures Resolve([], segs) == segs
  {
    CleanIsOrdinary(segs);
    ResolveOrdinary([], segs);
    assert [] + segs == segs;
  }
}
