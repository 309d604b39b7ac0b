/** The sync protocol as a transition system: fetch, diff, apply, rotate, with failures in between. */
module Sync {
  import opened Tables

  /** While syncing, the positions of the diff rows that have been sent so far. */
  datatype Phase = Idle | Fetching | Syncing(sent: set<nat>)

  /** The local tables, the remote table, and the diff rows of the current run. */
  datatype State = State(curr: Table, prev: Table, d1: Table, pending: seq<Row>, phase: Phase)

  /** Apply is the statement of one diff row taking effect remotely; any row, in any order, and again after a retry.
      Abort is any way a run ends without rotating: an error or a crash, before, between or after the statements.
      LoseLocal loses both local tables. */
  datatype Event =
    | Start
    | Insert(h: Hash, bit: Mask)
    | WriteDiff(rows: seq<Row>)
    | Apply(row: nat)
    | Rotate
    | Abort
    | LoseLocal

  datatype Outcome = Stuck | Next(state: State)

  /** Every row of the diff has been sent at least once. */
  ghost predicate AllSent(s: State)
    requires s.phase.Syncing?
  {
    forall i: nat :: i < |s.pending| ==> i in s.phase.sent
  }

  ghost function Step(s: State, e: Event): Outcome {
    match e
    case Start =>
      if s.phase.Idle? then Next(s.(phase := Fetching)) else Stuck
    case Insert(h, bit) =>
      if s.phase.Fetching? then Next(s.(curr := Upsert(s.curr, h, bit))) else Stuck
    case WriteDiff(rows) =>
      if s.phase.Fetching? && Lists(rows, Except(s.curr, s.prev)) then Next(s.(pending := rows, phase := Syncing({})))
      else Stuck
    case Apply(row) =>
      if s.phase.Syncing? && row < |s.pending| then
        Next(s.(d1 := s.d1[s.pending[row].h := s.pending[row].pId], phase := Syncing(s.phase.sent + {row})))
      else Stuck
    case Rotate =>
      if s.phase.Syncing? && AllSent(s) then Next(State(map[], s.curr, s.d1, [], Idle)) else Stuck
    case Abort =>
      if s.phase.Idle? then Stuck else Next(s.(pending := [], phase := Idle))
    case LoseLocal =>
      Next(State(map[], map[], s.d1, [], Idle))
  }

  ghost function Run(s: State, es: seq<Event>): Outcome
    decreases |es|
  {
    if es == [] then Next(s)
    else
      match Run(s, es[..|es| - 1])
      case Stuck => Stuck
      case Next(t) => Step(t, es[|es| - 1])
  }

  /** A first start: nothing local, any remote table. */
  function Initial(d1: Table): State {
    State(map[], map[], d1, [], Idle)
  }

  lemma RunSnoc(s: State, es: seq<Event>, e: Event)
    ensures Run(s, es + [e]) == match Run(s, es) case Stuck => Stuck case Next(t) => Step(t, e)
  {
    assert (es + [e])[..|es|] == es;
  }

  lemma {:induction false} RunConcat(s: State, a: seq<Event>, b: seq<Event>)
    ensures Run(s, a + b) == match Run(s, a) case Stuck => Stuck case Next(t) => Run(t, b)
    decreases |b|
  {
    if b == [] {
      assert a + b == a;
    } else {
      var front := b[..|b| - 1];
      RunConcat(s, a, front);
      assert a + b == a + front + [b[|b| - 1]];
      RunSnoc(s, a + front, b[|b| - 1]);
      assert b == front + [b[|b| - 1]];
    }
  }

  // --- What every state keeps ---

  ghost predicate RowSent(s: State, i: nat)
    requires i < |s.pending|
  {
    s.pending[i].h in s.d1 && s.d1[s.pending[i].h] == s.pending[i].pId
  }

  /** D1 holds the rows of the diff that have been sent so far. */
  ghost predicate SendingDiff(s: State) {
    s.phase.Syncing? ==>
      && Lists(s.pending, Except(s.curr, s.prev))
      && (forall i :: i in s.phase.sent ==> i < |s.pending|)
      && forall i :: i in s.phase.sent && i < |s.pending| ==> RowSent(s, i)
  }

  ghost predicate MaskBounded(s: State, h: Hash)
    requires h in s.prev && h in s.d1
  {
    SubMask(s.d1[h], s.prev[h]) || (h in s.curr && SubMask(s.d1[h], s.curr[h]))
  }

  /** Every rotated hash is in D1, with no bit that neither local table vouches for. */
  ghost predicate Safe(s: State) {
    && SendingDiff(s)
    && (forall h :: h in s.prev ==> h in s.d1)
    && (forall h :: h in s.prev ==> MaskBounded(s, h))
  }

  lemma RotationIsCovered(s: State, h: Hash)
    requires Safe(s) && s.phase.Syncing? && AllSent(s) && h in s.curr
    ensures h in s.d1 && SubMask(s.d1[h], s.curr[h])
    ensures h in Except(s.curr, s.prev) ==> s.d1[h] == s.curr[h]
  {
    if h in Except(s.curr, s.prev) {
      assert Row(h, s.curr[h]) in s.pending;
      var i: nat :| i < |s.pending| && s.pending[i] == Row(h, s.curr[h]);
      assert RowSent(s, i);
    } else {
      assert MaskBounded(s, h);
    }
  }

  lemma ApplyKeepsSending(s: State, row: nat, t: State)
    requires SendingDiff(s) && Step(s, Apply(row)) == Next(t)
    ensures SendingDiff(t) && RowSent(t, row)
  {
    forall i | i in t.phase.sent && i < |t.pending|
      ensures RowSent(t, i)
    {
      if i != row {
        assert RowSent(s, i);
      }
    }
  }

  lemma ApplyKeepsSafe(s: State, row: nat, t: State)
    requires Safe(s) && Step(s, Apply(row)) == Next(t)
    ensures Safe(t)
  {
    ApplyKeepsSending(s, row, t);
    var r := s.pending[row];
    assert r in s.pending && r.pId == s.curr[r.h];
    forall h | h in t.prev
      ensures MaskBounded(t, h)
    {
      assert MaskBounded(s, h);
    }
  }

  lemma InsertKeepsSafe(s: State, h: Hash, bit: Mask, t: State)
    requires Safe(s) && Step(s, Insert(h, bit)) == Next(t)
    ensures Safe(t)
  {
    forall k | k in t.prev
      ensures MaskBounded(t, k)
    {
      assert MaskBounded(s, k);
      if k in s.curr {
        UpsertGrows(s.curr, h, bit, k);
        if SubMask(s.d1[k], s.curr[k]) {
          SubMaskTransitive(s.d1[k], s.curr[k], t.curr[k]);
        }
      }
    }
  }

  lemma StepKeepsSafe(s: State, e: Event, t: State)
    requires Safe(s) && Step(s, e) == Next(t)
    ensures Safe(t)
  {
    match e
    case Apply(row) => ApplyKeepsSafe(s, row, t);
    case Insert(h, bit) => InsertKeepsSafe(s, h, bit, t);
    case Rotate =>
      forall h | h in t.prev
        ensures h in t.d1 && MaskBounded(t, h)
      {
        RotationIsCovered(s, h);
      }
    case LoseLocal =>
    case _ =>
      assert t.prev == s.prev && t.curr == s.curr && t.d1 == s.d1;
      assert forall h :: h in s.prev ==> (MaskBounded(t, h) <==> MaskBounded(s, h));
  }

  /** Every state of every run from a first start is safe. */
  lemma {:induction false} EveryRunIsSafe(d1: Table, es: seq<Event>, s: State)
    requires Run(Initial(d1), es) == Next(s)
    ensures Safe(s)
    decreases |es|
  {
    if es != [] {
      var before := Run(Initial(d1), es[..|es| - 1]).state;
      EveryRunIsSafe(d1, es[..|es| - 1], before);
      StepKeepsSafe(before, es[|es| - 1], s);
    }
  }

  /** D1 never loses a key. */
  lemma {:induction false} RemoteKeysGrow(s: State, es: seq<Event>, t: State)
    requires Run(s, es) == Next(t)
    ensures s.d1.Keys <= t.d1.Keys
    decreases |es|
  {
    if es != [] {
      RemoteKeysGrow(s, es[..|es| - 1], Run(s, es[..|es| - 1]).state);
    }
  }

  // --- Inserted, then rotated ---

  /** Without losing local state, an inserted key stays in `curr` until a rotation. */
  lemma {:induction false} InsertedKeysStay(s: State, es: seq<Event>, t: State, h: Hash)
    requires Run(s, es) == Next(t) && h in s.curr
    requires forall m :: 0 <= m < |es| ==> es[m] != LoseLocal && es[m] != Rotate
    ensures h in t.curr
    decreases |es|
  {
    if es != [] {
      var n := |es| - 1;
      InsertedKeysStay(s, es[..n], Run(s, es[..n]).state, h);
    }
  }

  lemma {:induction false} PrefixRuns(s: State, es: seq<Event>, k: nat)
    requires Run(s, es).Next? && k <= |es|
    ensures Run(s, es[..k]).Next?
    ensures Run(Run(s, es[..k]).state, es[k..]) == Run(s, es)
  {
    var a, b := es[..k], es[k..];
    assert a + b == es;
    RunConcat(s, a, b);
  }

  /** The first rotation at or after a position that is followed by one. */
  lemma FirstRotation(es: seq<Event>, i: nat, j: nat) returns (k: nat)
    requires i <= j < |es| && es[j] == Rotate
    ensures i <= k <= j && es[k] == Rotate && forall m :: i <= m < k ==> es[m] != Rotate
  {
    k := i;
    while es[k] != Rotate
      invariant i <= k <= j && forall m :: i <= m < k ==> es[m] != Rotate
      decreases j - k
    {
      k := k + 1;
    }
  }

  lemma InsertedSinceIsInCurr(s: State, es: seq<Event>, i: nat)
    requires Run(s, es).Next? && i < |es| && es[i].Insert?
    requires forall m :: i < m < |es| ==> es[m] != LoseLocal && es[m] != Rotate
    ensures es[i].h in Run(s, es).state.curr
  {
    PrefixRuns(s, es, i + 1);
    assert es[..i + 1][..i] == es[..i];
    InsertedKeysStay(Run(s, es[..i + 1]).state, es[i + 1..], Run(s, es).state, es[i].h);
  }

  lemma RotationPutsCurrInD1(d1: Table, es: seq<Event>, k: nat, h: Hash)
    requires Run(Initial(d1), es).Next? && k < |es| && es[k] == Rotate
    requires Run(Initial(d1), es[..k]).Next? && h in Run(Initial(d1), es[..k]).state.curr
    ensures h in Run(Initial(d1), es).state.d1
  {
    PrefixRuns(Initial(d1), es, k + 1);
    var rotating, rotated := Run(Initial(d1), es[..k]).state, Run(Initial(d1), es[..k + 1]).state;
    assert es[..k + 1][..k] == es[..k];
    assert Step(rotating, Rotate) == Next(rotated);
    EveryRunIsSafe(d1, es[..k], rotating);
    RotationIsCovered(rotating, h);
    RemoteKeysGrow(rotated, es[k + 1..], Run(Initial(d1), es).state);
  }

  /** A hash inserted by a feed is in D1 once a later run has rotated, whatever failed in between and
      whatever happens afterwards, unless local state was lost between the two. */
  lemma InsertedThenRotated(d1: Table, es: seq<Event>, i: nat, j: nat)
    requires Run(Initial(d1), es).Next?
    requires i < j < |es| && es[i].Insert? && es[j] == Rotate
    requires forall m :: i < m < j ==> es[m] != LoseLocal
    ensures es[i].h in Run(Initial(d1), es).state.d1
  {
    var k := FirstRotation(es, i + 1, j);
    PrefixRuns(Initial(d1), es, k);
    var before := es[..k];
    assert forall m :: 0 <= m < k ==> before[m] == es[m];
    InsertedSinceIsInCurr(Initial(d1), before, i);
    RotationPutsCurrInD1(d1, es, k, es[i].h);
  }

  // --- Complete runs and the masks they leave ---

  /** Sending the rows at some positions, one after the other. */
  function Applies(at: seq<nat>): (es: seq<Event>)
    ensures |es| == |at| && forall k :: 0 <= k < |at| ==> es[k] == Apply(at[k])
  {
    seq(|at|, k requires 0 <= k < |at| => Apply(at[k]))
  }

  /** The state of a sync after sending the rows at some positions. */
  ghost function Applied(s: State, at: seq<nat>): State
    requires s.phase.Syncing? && Within(at, |s.pending|)
  {
    s.(d1 := Replace(s.d1, Pick(s.pending, at)), phase := Syncing(s.phase.sent + set i | i in at))
  }

  lemma AppliedOne(s: State, at: seq<nat>, row: nat)
    requires s.phase.Syncing? && Within(at, |s.pending|) && row < |s.pending|
    ensures Step(Applied(s, at), Apply(row)) == Next(Applied(s, at + [row]))
  {
    var rows, more := Pick(s.pending, at), Pick(s.pending, at + [row]);
    assert more == rows + [s.pending[row]];
    assert more[..|more| - 1] == rows;
    SentOneMore(s.phase.sent, at, row);
  }

  lemma SentOneMore(sent: set<nat>, at: seq<nat>, row: nat)
    ensures sent + (set i | i in at + [row]) == sent + (set i | i in at) + {row}
  {
  }

  lemma AppliedNothing(s: State)
    requires s.phase.Syncing?
    ensures Applied(s, []) == s
  {
    assert Pick(s.pending, []) == [];
    assert (set i: nat | i in []) == {};
  }

  /** Sending rows applies them in that order and changes nothing else. */
  lemma {:induction false} ApplyRun(s: State, at: seq<nat>)
    requires s.phase.Syncing? && Within(at, |s.pending|)
    ensures Run(s, Applies(at)) == Next(Applied(s, at))
    decreases |at|
  {
    if at == [] {
      AppliedNothing(s);
      assert Applies(at) == [];
    } else {
      var front, row := at[..|at| - 1], at[|at| - 1];
      assert at == front + [row];
      ApplyRun(s, front);
      assert Applies(at) == Applies(front) + [Apply(row)];
      RunSnoc(s, Applies(front), Apply(row));
      AppliedOne(s, front, row);
    }
  }

  /** Writing the diff and sending the rows at some positions of it. */
  function SendEvents(rows: seq<Row>, at: seq<nat>): (es: seq<Event>)
    ensures forall k :: 0 <= k < |es| ==> es[k].WriteDiff? || es[k].Apply?
  {
    [WriteDiff(rows)] + Applies(at)
  }

  /** A run that has written its diff and sent the rows at some positions of it. */
  lemma PartialSync(s: State, rows: seq<Row>, at: seq<nat>)
    requires s.phase.Fetching? && Lists(rows, Except(s.curr, s.prev)) && Within(at, |rows|)
    ensures Run(s, SendEvents(rows, at)) ==
            Next(s.(d1 := Replace(s.d1, Pick(rows, at)), pending := rows, phase := Syncing(set i | i in at)))
  {
    var written := s.(pending := rows, phase := Syncing({}));
    DiffIsWritten(s, rows);
    ApplyRun(written, at);
    RunConcat(s, [WriteDiff(rows)], Applies(at));
    AppliedFromNothing(written, at);
  }

  lemma DiffIsWritten(s: State, rows: seq<Row>)
    requires s.phase.Fetching? && Lists(rows, Except(s.curr, s.prev))
    ensures Run(s, [WriteDiff(rows)]) == Next(s.(pending := rows, phase := Syncing({})))
  {
    RunOne(s, WriteDiff(rows));
  }

  lemma AppliedFromNothing(s: State, at: seq<nat>)
    requires s.phase == Syncing({}) && Within(at, |s.pending|)
    ensures Applied(s, at) == s.(d1 := Replace(s.d1, Pick(s.pending, at)), phase := Syncing(set i | i in at))
  {
    var hit := set i | i in at;
    assert s.phase.sent + hit == hit;
    assert Applied(s, at).phase.sent == s.phase.sent + hit;
  }

  lemma RunOne(s: State, e: Event)
    ensures Run(s, [e]) == Step(s, e)
  {
    assert [] + [e] == [e];
    RunSnoc(s, [], e);
  }

  /** A run that gets through moves `curr` to `prev` and overwrites D1 with exactly the diff, in whatever
      order and however often the rows were sent. */
  lemma CompleteSyncResult(s: State, rows: seq<Row>, at: seq<nat>)
    requires s.phase.Fetching? && Lists(rows, Except(s.curr, s.prev)) && Within(at, |rows|) && HitsAll(at, |rows|)
    ensures Run(s, SendEvents(rows, at) + [Rotate]) ==
            Next(State(map[], s.curr, s.d1 + Except(s.curr, s.prev), [], Idle))
  {
    PartialSync(s, rows, at);
    RunSnoc(s, SendEvents(rows, at), Rotate);
    ReplacePicked(s.d1, Except(s.curr, s.prev), rows, at);
  }

  /** One complete run after a loss of local state restores equality, whatever D1 held. */
  lemma LossIsRepaired(s: State, rows: seq<Row>, at: seq<nat>)
    requires s.phase.Fetching? && s.prev == map[] && Lists(rows, Except(s.curr, s.prev))
    requires Within(at, |rows|) && HitsAll(at, |rows|)
    ensures Run(s, SendEvents(rows, at) + [Rotate]).Next?
    ensures var t := Run(s, SendEvents(rows, at) + [Rotate]).state;
            t.prev == s.curr && forall h :: h in t.prev ==> h in t.d1 && t.d1[h] == t.prev[h]
  {
    CompleteSyncResult(s, rows, at);
    assert Except(s.curr, s.prev) == s.curr;
  }

  // --- When D1 agrees with `prev` ---

  /** The current run has already sent its row for this hash. */
  ghost predicate SentAlready(s: State, h: Hash) {
    s.phase.Syncing? && exists i: nat :: i in s.phase.sent && i < |s.pending| && s.pending[i].h == h
  }

  /** A row for this hash had been sent when the events were over. */
  ghost predicate SentAfter(s: State, es: seq<Event>, h: Hash) {
    Run(s, es).Next? && SentAlready(Run(s, es).state, h)
  }

  /** The last run since the last loss of local state that sent a row for this hash ended without rotating. */
  ghost predicate LeftBehind(s: State, es: seq<Event>, h: Hash)
    decreases |es|
  {
    if es == [] then false
    else
      var front := es[..|es| - 1];
      match es[|es| - 1]
      case LoseLocal => false
      case Abort => LeftBehind(s, front, h) || SentAfter(s, front, h)
      case Rotate => LeftBehind(s, front, h) && !SentAfter(s, front, h)
      case _ => LeftBehind(s, front, h)
  }

  /** A hash whose row has been sent differs from `prev` until the rotation; any other one
      agrees with `prev` unless it was left behind. */
  ghost predicate Tracked(s: State, left: bool, h: Hash) {
    h in s.prev ==>
      h in s.d1 && if SentAlready(s, h) then s.d1[h] != s.prev[h] else (s.d1[h] == s.prev[h] <==> !left)
  }

  lemma SentRowDiffers(s: State, h: Hash)
    requires Safe(s) && SentAlready(s, h)
    ensures h in s.curr && h in s.d1 && s.d1[h] == s.curr[h] && h in Except(s.curr, s.prev)
  {
    var i: nat :| i in s.phase.sent && i < |s.pending| && s.pending[i].h == h;
    assert RowSent(s, i) && s.pending[i] in s.pending;
  }

  lemma ApplyKeepsTracked(s: State, row: nat, t: State, left: bool, h: Hash)
    requires Safe(s) && Tracked(s, left, h) && Step(s, Apply(row)) == Next(t)
    ensures Tracked(t, left, h)
  {
    ApplyKeepsSafe(s, row, t);
    if s.pending[row].h == h {
      assert row in t.phase.sent && t.pending[row].h == h;
      assert SentAlready(t, h);
    } else {
      assert SentAlready(t, h) <==> SentAlready(s, h);
    }
    if SentAlready(t, h) {
      SentRowDiffers(t, h);
    }
  }

  lemma RotateKeepsTracked(s: State, t: State, left: bool, h: Hash)
    requires Safe(s) && Tracked(s, left, h) && Step(s, Rotate) == Next(t)
    ensures Tracked(t, left && !SentAlready(s, h), h)
  {
    if h in s.curr {
      RotationIsCovered(s, h);
      if h in Except(s.curr, s.prev) {
        DiffWasSent(s, h);
      }
      if SentAlready(s, h) {
        SentRowDiffers(s, h);
      }
    }
  }

  lemma DiffWasSent(s: State, h: Hash)
    requires SendingDiff(s) && s.phase.Syncing? && AllSent(s) && h in Except(s.curr, s.prev)
    ensures SentAlready(s, h)
  {
    assert Row(h, s.curr[h]) in s.pending;
    var i: nat :| i < |s.pending| && s.pending[i] == Row(h, s.curr[h]);
    assert i in s.phase.sent;
  }

  lemma {:induction false} EveryHashIsTracked(d1: Table, es: seq<Event>, s: State, h: Hash)
    requires Run(Initial(d1), es) == Next(s)
    ensures Tracked(s, LeftBehind(Initial(d1), es, h), h)
    decreases |es|
  {
    if es != [] {
      var front, e := es[..|es| - 1], es[|es| - 1];
      var before, left := Run(Initial(d1), front).state, LeftBehind(Initial(d1), front, h);
      EveryRunIsSafe(d1, front, before);
      EveryHashIsTracked(d1, front, before, h);
      match e
      case Apply(row) => ApplyKeepsTracked(before, row, s, left, h);
      case Rotate => RotateKeepsTracked(before, s, left, h);
      case Abort =>
        if SentAlready(before, h) {
          SentRowDiffers(before, h);
        }
      case _ =>
    }
  }

  /** Whenever nothing is being sent, D1 holds the mask of a rotated hash exactly when the hash was not left behind
      by the last run that sent a row for it. */
  lemma AgreementExact(d1: Table, es: seq<Event>, s: State, h: Hash)
    requires Run(Initial(d1), es) == Next(s) && !s.phase.Syncing? && h in s.prev
    ensures h in s.d1 && (s.d1[h] == s.prev[h] <==> !LeftBehind(Initial(d1), es, h))
  {
    EveryHashIsTracked(d1, es, s, h);
  }

  /** It holds exactly the masks of `prev` when no rotated hash was left behind, and only then. */
  lemma AllAgreeExact(d1: Table, es: seq<Event>, s: State)
    requires Run(Initial(d1), es) == Next(s) && !s.phase.Syncing?
    ensures (forall h :: h in s.prev ==> h in s.d1 && s.d1[h] == s.prev[h]) <==>
            forall h :: h in s.prev ==> !LeftBehind(Initial(d1), es, h)
  {
    forall h | h in s.prev
      ensures h in s.d1 && (s.d1[h] == s.prev[h] <==> !LeftBehind(Initial(d1), es, h))
    {
      AgreementExact(d1, es, s, h);
    }
  }

  /** After a complete run D1 agrees with the new `prev` on a hash exactly when the run sent the hash or none before had
      left it behind. The remote mask never claims more than the local one. */
  lemma AgreementAfterSync(d1: Table, es: seq<Event>, s: State, rows: seq<Row>, at: seq<nat>, h: Hash)
    requires Run(Initial(d1), es) == Next(s) && s.phase.Fetching? && h in s.curr
    requires Lists(rows, Except(s.curr, s.prev)) && Within(at, |rows|) && HitsAll(at, |rows|)
    ensures Run(s, SendEvents(rows, at) + [Rotate]).Next?
    ensures var t := Run(s, SendEvents(rows, at) + [Rotate]).state;
            && h in t.d1 && t.prev == s.curr && SubMask(t.d1[h], t.prev[h])
            && (t.d1[h] == t.prev[h] <==> h in Except(s.curr, s.prev) || !LeftBehind(Initial(d1), es, h))
  {
    CompleteSyncResult(s, rows, at);
    EveryRunIsSafe(d1, es, s);
    if h !in Except(s.curr, s.prev) {
      AgreementExact(d1, es, s, h);
      assert MaskBounded(s, h);
    }
    assert SubMask(s.curr[h], s.curr[h]);
  }

  /** Since the last loss of local state, some run ended without rotating although a statement had taken effect. */
  ghost predicate Tainted(s: State, es: seq<Event>)
    decreases |es|
  {
    if es == [] then false
    else
      var front := es[..|es| - 1];
      match es[|es| - 1]
      case LoseLocal => false
      case Abort =>
        || Tainted(s, front)
        || (Run(s, front).Next? && Run(s, front).state.phase.Syncing? && Run(s, front).state.phase.sent != {})
      case _ => Tainted(s, front)
  }

  lemma {:induction false} LeftBehindTaints(s: State, es: seq<Event>, h: Hash)
    requires LeftBehind(s, es, h)
    ensures Tainted(s, es)
    decreases |es|
  {
    var front := es[..|es| - 1];
    if LeftBehind(s, front, h) {
      LeftBehindTaints(s, front, h);
    }
  }

  /** While no run since the last loss of local state stopped between its first statement and its
      rotation, D1 holds exactly the masks of `prev` whenever nothing is being sent. */
  lemma UntaintedRunsAgree(d1: Table, es: seq<Event>, s: State)
    requires Run(Initial(d1), es) == Next(s) && !s.phase.Syncing? && !Tainted(Initial(d1), es)
    ensures forall h :: h in s.prev ==> h in s.d1 && s.d1[h] == s.prev[h]
  {
    AllAgreeExact(d1, es, s);
    forall h | h in s.prev
      ensures !LeftBehind(Initial(d1), es, h)
    {
      if LeftBehind(Initial(d1), es, h) {
        LeftBehindTaints(Initial(d1), es, h);
      }
    }
  }

  // --- A failed run's diff is not always sent again ---

  /** A run starts, and one hash arrives. */
  lemma StartAndInsert(s: State, h: Hash, bit: Mask)
    requires s.phase.Idle?
    ensures Run(s, [Start] + [Insert(h, bit)]) == Next(s.(curr := Upsert(s.curr, h, bit), phase := Fetching))
  {
    RunOne(s, Start);
    RunSnoc(s, [Start], Insert(h, bit));
    HashArrives(s.(phase := Fetching), h, bit);
  }

  lemma HashArrives(s: State, h: Hash, bit: Mask)
    requires s.phase.Fetching?
    ensures Step(s, Insert(h, bit)) == Next(s.(curr := Upsert(s.curr, h, bit)))
  {
  }

  /** A first run stores mask 3 for a hash. */
  lemma FirstRunStores(h: Hash) returns (es: seq<Event>)
    ensures Run(Initial(map[]), es) == Next(State(map[], map[h := 3], map[h := 3], [], Idle))
  {
    var fetching := State(map[h := 3], map[], map[], [], Fetching);
    var fetch, send := [Start] + [Insert(h, 1)] + [Insert(h, 2)], SendEvents([Row(h, 3)], [0]) + [Rotate];
    StartAndInsert(Initial(map[]), h, 1);
    RunSnoc(Initial(map[]), [Start] + [Insert(h, 1)], Insert(h, 2));
    assert (1 as Mask) | 2 == 3;
    assert Run(Initial(map[]), fetch) == Next(fetching);
    assert Except(fetching.curr, map[]) == map[h := 3];
    CompleteSyncResult(fetching, [Row(h, 3)], [0]);
    es := fetch + send;
    RunConcat(Initial(map[]), fetch, send);
    assert map[] + map[h := 3 as Mask] == map[h := 3];
  }

  /** What a second run finds that sees only bit 1. */
  lemma SecondRunFetches(h: Hash)
    ensures var fetched := State(map[h := 1], map[h := 3], map[h := 3], [], Fetching);
            && Run(State(map[], map[h := 3], map[h := 3], [], Idle), [Start] + [Insert(h, 1)]) == Next(fetched)
            && Lists([Row(h, 1)], Except(fetched.curr, fetched.prev))
  {
    StartAndInsert(State(map[], map[h := 3], map[h := 3], [], Idle), h, 1);
    assert Except(map[h := 1], map[h := 3]) == map[h := 1];
  }

  /** It sends all of its diff, and then fails before it rotates. */
  lemma SecondRunFails(h: Hash) returns (es: seq<Event>)
    ensures Run(State(map[], map[h := 3], map[h := 3], [], Idle), es) ==
            Next(State(map[h := 1], map[h := 3], map[h := 1], [], Idle))
  {
    var s := State(map[], map[h := 3], map[h := 3], [], Idle);
    var fetch, send := [Start] + [Insert(h, 1)], SendEvents([Row(h, 1)], [0]) + [Abort];
    SecondRunFetches(h);
    SecondRunSends(h);
    RunConcat(s, fetch, send);
    es := fetch + send;
  }

  lemma SecondRunSends(h: Hash)
    ensures Run(State(map[h := 1], map[h := 3], map[h := 3], [], Fetching), SendEvents([Row(h, 1)], [0]) + [Abort]) ==
            Next(State(map[h := 1], map[h := 3], map[h := 1], [], Idle))
  {
    var fetched := State(map[h := 1], map[h := 3], map[h := 3], [], Fetching);
    SecondRunFetches(h);
    FailedSync(fetched, [Row(h, 1)], [0]);
    SendOne(map[h := 3], Row(h, 1));
  }

  /** A run that fails after sending the rows at some positions. */
  lemma FailedSync(s: State, rows: seq<Row>, at: seq<nat>)
    requires s.phase.Fetching? && Lists(rows, Except(s.curr, s.prev)) && Within(at, |rows|)
    ensures Run(s, SendEvents(rows, at) + [Abort]) ==
            Next(s.(d1 := Replace(s.d1, Pick(rows, at)), pending := [], phase := Idle))
  {
    PartialSync(s, rows, at);
    RunSnoc(s, SendEvents(rows, at), Abort);
  }

  lemma SendOne(t: Table, row: Row)
    ensures Replace(t, Pick([row], [0])) == t[row.h := row.pId]
  {
    var picked := Pick([row], [0]);
    assert picked == [row] && picked[..0] == [];
  }

  /** In a third run the second bit arrives: the accumulated row equals the one in `prev`, so the diff is
      empty, the run rotates, and D1 keeps the mask of the failed run. */
  lemma StaleMask(h: Hash) returns (es: seq<Event>, s: State)
    ensures Run(Initial(map[]), es) == Next(s) && s.phase.Idle?
    ensures h in s.prev && h in s.d1 && s.prev[h] == 3 && s.d1[h] == 1
  {
    var first := FirstRunStores(h);
    var second := SecondRunFails(h);
    var third := ThirdRunRotates(h);
    RunConcat(Initial(map[]), first, second);
    RunConcat(Initial(map[]), first + second, third);
    es := first + second + third;
    s := State(map[], map[h := 3], map[h := 1], [], Idle);
  }

  lemma ThirdRunRotates(h: Hash) returns (es: seq<Event>)
    ensures Run(State(map[h := 1], map[h := 3], map[h := 1], [], Idle), es) ==
            Next(State(map[], map[h := 3], map[h := 1], [], Idle))
  {
    var failed := State(map[h := 1], map[h := 3], map[h := 1], [], Idle);
    var fetched := State(map[h := 3], map[h := 3], map[h := 1], [], Fetching);
    StartAndInsert(failed, h, 2);
    assert (1 as Mask) | 2 == 3;
    assert Run(failed, [Start] + [Insert(h, 2)]) == Next(fetched);
    assert Except(fetched.curr, fetched.prev) == map[];
    CompleteSyncResult(fetched, [], []);
    es := [Start] + [Insert(h, 2)] + (SendEvents([], []) + [Rotate]);
    RunConcat(failed, [Start] + [Insert(h, 2)], SendEvents([], []) + [Rotate]);
    assert map[h := 1 as Mask] + map[] == map[h := 1];
  }

  // --- Nothing else gets into D1 ---

  ghost predicate Inserted(es: seq<Event>, h: Hash) {
    exists i :: 0 <= i < |es| && es[i].Insert? && es[i].h == h
  }

  /** All keys of the state were there at first or were inserted. */
  ghost predicate KeysFrom(d1: Table, es: seq<Event>, s: State) {
    && (forall h :: h in s.curr ==> Inserted(es, h))
    && (forall h :: h in s.prev ==> Inserted(es, h))
    && (forall h :: h in s.d1 ==> h in d1 || Inserted(es, h))
  }

  lemma InsertedBefore(front: seq<Event>, e: Event, h: Hash)
    ensures Inserted(front + [e], h) <==> Inserted(front, h) || (e.Insert? && e.h == h)
  {
    var es := front + [e];
    assert forall i :: 0 <= i < |front| ==> front[i] == es[i];
    assert es[|front|] == e;
  }

  lemma StepKeepsKeys(d1: Table, front: seq<Event>, e: Event, s: State, t: State)
    requires KeysFrom(d1, front, s) && SendingDiff(s) && Step(s, e) == Next(t)
    ensures KeysFrom(d1, front + [e], t)
  {
    forall h
      ensures Inserted(front + [e], h) <==> Inserted(front, h) || (e.Insert? && e.h == h)
    {
      InsertedBefore(front, e, h);
    }
    if e.Apply? {
      var row := s.pending[e.row];
      assert row in s.pending && row.h in s.curr;
    }
  }

  /** D1 holds nothing but what it held at first and what feeds inserted. */
  lemma {:induction false} RemoteKeysWereInserted(d1: Table, es: seq<Event>, s: State)
    requires Run(Initial(d1), es) == Next(s)
    ensures KeysFrom(d1, es, s)
    decreases |es|
  {
    if es != [] {
      var front, e := es[..|es| - 1], es[|es| - 1];
      var before := Run(Initial(d1), front).state;
      RemoteKeysWereInserted(d1, front, before);
      EveryRunIsSafe(d1, front, before);
      StepKeepsKeys(d1, front, e, before, s);
      assert es == front + [e];
    }
  }
}
