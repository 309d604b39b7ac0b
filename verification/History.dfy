/** Histories of the service, run after run, and what a lookup answers after them. */
module History {
  import opened Bytes
  import opened Tables
  import opened Chunking
  import opened Sync
  import opened Candidates
  import opened Authority
  import opened CanonHost
  import opened Canonical
  import opened FeedMasks
  import opened Lookup
  import Service

  /** A run of the service with what its feeds emitted, what it sent and whether it rotated, or a loss of local state.
      A run that crashed is one that did not rotate. */
  datatype Episode = Ran(emissions: seq<Service.Emission>, sync: seq<Event>, rotated: bool) | Lost

  predicate KnownFeeds(e: Episode, feeds: nat) {
    e.Ran? ==> Service.FeedsKnown(e.emissions, feeds)
  }

  ghost predicate WellFormed(hist: seq<Episode>, feeds: nat) {
    forall k :: 0 <= k < |hist| ==> KnownFeeds(hist[k], feeds) && (hist[k].Ran? ==> Service.OnlySends(hist[k].sync))
  }

  ghost function EpisodeEvents(e: Episode, config: Service.Config): seq<Event>
    requires KnownFeeds(e, |config.bits|)
  {
    if e.Lost? then [LoseLocal] else Service.RunEvents(Service.InsertsOf(e.emissions, config), e.sync, e.rotated)
  }

  /** The events of each episode. */
  ghost function EventLists(hist: seq<Episode>, config: Service.Config): (lists: seq<seq<Event>>)
    requires WellFormed(hist, |config.bits|)
    ensures |lists| == |hist| && forall k :: 0 <= k < |hist| ==> lists[k] == EpisodeEvents(hist[k], config)
  {
    seq(|hist|, k requires 0 <= k < |hist| => EpisodeEvents(hist[k], config))
  }

  ghost function EventsOf(hist: seq<Episode>, config: Service.Config): seq<Event>
    requires WellFormed(hist, |config.bits|)
  {
    Flatten(EventLists(hist, config))
  }

  /** Everything the feeds ever emitted. */
  function AllEmissions(hist: seq<Episode>): seq<Service.Emission>
    decreases |hist|
  {
    if hist == [] then []
    else
      var last := hist[|hist| - 1];
      AllEmissions(hist[..|hist| - 1]) + if last.Ran? then last.emissions else []
  }

  /** One more episode: a run of the service continues the history it started from. */
  lemma HistoryGrows(s0: State, hist: seq<Episode>, e: Episode, config: Service.Config, s: State)
    requires WellFormed(hist, |config.bits|) && KnownFeeds(e, |config.bits|) && (e.Ran? ==> Service.OnlySends(e.sync))
    requires Run(s0, EventsOf(hist, config)) == Next(s)
    ensures WellFormed(hist + [e], |config.bits|)
    ensures Run(s0, EventsOf(hist + [e], config)) == Run(s, EpisodeEvents(e, config))
  {
    EventsSnoc(hist, e, config);
    RunConcat(s0, EventsOf(hist, config), EpisodeEvents(e, config));
  }

  lemma EventsSnoc(hist: seq<Episode>, e: Episode, config: Service.Config)
    requires WellFormed(hist, |config.bits|) && KnownFeeds(e, |config.bits|) && (e.Ran? ==> Service.OnlySends(e.sync))
    ensures WellFormed(hist + [e], |config.bits|)
    ensures EventsOf(hist + [e], config) == EventsOf(hist, config) + EpisodeEvents(e, config)
  {
    assert EventLists(hist + [e], config) == EventLists(hist, config) + [EpisodeEvents(e, config)];
    FlattenSnoc(EventLists(hist, config), EpisodeEvents(e, config));
  }

  // --- One run ---

  /** The patterns that land are among the given ones. */
  ghost predicate EmitsInto(emissions: seq<Service.Emission>, canon: bytes -> Option<bytes>, patterns: set<bytes>) {
    forall c, feed :: Service.Emitted(emissions, canon, c, feed) ==> c in patterns
  }

  ghost predicate OnlyInserts(es: seq<Event>) {
    forall i :: 0 <= i < |es| ==> es[i].Insert?
  }

  lemma RunEventsShape(inserts: seq<Event>, sync: seq<Event>, rotated: bool)
    requires OnlyInserts(inserts) && Service.OnlySends(sync)
    ensures var es, n := Service.RunEvents(inserts, sync, rotated), |inserts|;
            && |es| == n + |sync| + 2 && es[|es| - 1] == Service.RunEnd(rotated)
            && (forall i :: 0 <= i < n ==> es[i + 1] == inserts[i])
            && (forall i :: 0 <= i < |es| && es[i].Insert? ==> 1 <= i <= n && es[i] == inserts[i - 1])
            && (forall i :: 0 <= i < |es| ==> es[i] != LoseLocal)
  {
  }

  lemma InsertHasPattern(emits: seq<Emit>, emissions: seq<Service.Emission>, canon: bytes -> Option<bytes>,
                         hash: bytes -> Hash, patterns: set<bytes>, k: nat)
    requires k < |emits| && Service.EmittedHash(emissions, canon, hash, emits[k]) && EmitsInto(emissions, canon, patterns)
    ensures exists c :: c in patterns && emits[k].h == hash(c)
  {
    var c :| Service.Emitted(emissions, canon, c, emits[k].feed) && emits[k].h == hash(c);
  }

  /** All inserts of a run come from its feeds. */
  lemma InsertsComeFrom(emissions: seq<Service.Emission>, config: Service.Config, patterns: set<bytes>)
    requires Service.FeedsKnown(emissions, |config.bits|)
    requires EmitsInto(emissions, Canonicalizer(config.lib), patterns)
    ensures InsertsFrom(Service.InsertsOf(emissions, config), patterns, config.hash)
  {
    var canon, landed := Canonicalizer(config.lib), Service.LandedOf(emissions, config);
    var inserts := Service.InsertsOf(emissions, config);
    InsertsAt(landed, config.bits);
    forall i | 0 <= i < |inserts| && inserts[i].Insert?
      ensures exists c :: c in patterns && InsertOf(inserts[i], c, config.hash)
    {
      Service.LandedMembers(emissions, canon, config.hash, |config.bits|, landed[i]);
      InsertHasPattern(landed, emissions, canon, config.hash, patterns, i);
      var c :| c in patterns && landed[i].h == config.hash(c);
      assert InsertOf(inserts[i], c, config.hash);
    }
  }

  lemma PatternHasInsert(emissions: seq<Service.Emission>, config: Service.Config, c: bytes, feed: nat)
    returns (k: nat)
    requires Service.FeedsKnown(emissions, |config.bits|)
    requires Service.Emitted(emissions, Canonicalizer(config.lib), c, feed)
    ensures k < |Service.InsertsOf(emissions, config)| && InsertOf(Service.InsertsOf(emissions, config)[k], c, config.hash)
  {
    var canon, landed := Canonicalizer(config.lib), Service.LandedOf(emissions, config);
    var x := Emit(config.hash(c), feed);
    assert Service.EmittedHash(emissions, canon, config.hash, x);
    Service.LandedMembers(emissions, canon, config.hash, |config.bits|, x);
    k :| k < |landed| && landed[k] == x;
    InsertsAt(landed, config.bits);
  }

  lemma InsertsAreInserts(emissions: seq<Service.Emission>, config: Service.Config)
    requires Service.FeedsKnown(emissions, |config.bits|)
    ensures OnlyInserts(Service.InsertsOf(emissions, config))
  {
    InsertsAt(Service.LandedOf(emissions, config), config.bits);
  }

  /** All inserts of an episode come from its feeds. */
  lemma EpisodeInserts(e: Episode, config: Service.Config, patterns: set<bytes>)
    requires KnownFeeds(e, |config.bits|) && (e.Ran? ==> Service.OnlySends(e.sync))
    requires e.Ran? ==> EmitsInto(e.emissions, Canonicalizer(config.lib), patterns)
    ensures InsertsFrom(EpisodeEvents(e, config), patterns, config.hash)
  {
    if e.Ran? {
      InsertsAreInserts(e.emissions, config);
      InsertsComeFrom(e.emissions, config, patterns);
      RunInsertsFrom(Service.InsertsOf(e.emissions, config), e.sync, e.rotated, patterns, config.hash);
    }
  }

  lemma RunInsertsFrom(inserts: seq<Event>, sync: seq<Event>, rotated: bool, patterns: set<bytes>, hash: bytes -> Hash)
    requires OnlyInserts(inserts) && Service.OnlySends(sync) && InsertsFrom(inserts, patterns, hash)
    ensures InsertsFrom(Service.RunEvents(inserts, sync, rotated), patterns, hash)
  {
    RunEventsShape(inserts, sync, rotated);
  }

  /** Every pattern that landed in a run has its insert there. */
  lemma EpisodeHasInsert(e: Episode, config: Service.Config, c: bytes, feed: nat) returns (i: nat)
    requires e.Ran? && KnownFeeds(e, |config.bits|) && Service.OnlySends(e.sync)
    requires Service.Emitted(e.emissions, Canonicalizer(config.lib), c, feed)
    ensures i < |EpisodeEvents(e, config)| && InsertOf(EpisodeEvents(e, config)[i], c, config.hash)
  {
    var k := PatternHasInsert(e.emissions, config, c, feed);
    InsertIsEvent(Service.InsertsOf(e.emissions, config), e.sync, e.rotated, k);
    i := k + 1;
  }

  lemma InsertIsEvent(inserts: seq<Event>, sync: seq<Event>, rotated: bool, k: nat)
    requires k < |inserts|
    ensures var es := Service.RunEvents(inserts, sync, rotated); k + 1 < |es| && es[k + 1] == inserts[k]
  {
  }

  /** A run loses nothing, and ends as it should. */
  lemma EpisodeEnd(e: Episode, config: Service.Config)
    requires e.Ran? && KnownFeeds(e, |config.bits|) && Service.OnlySends(e.sync)
    ensures var es := EpisodeEvents(e, config);
            NothingLost(es) && es != [] && Last(es) == Service.RunEnd(e.rotated)
  {
    InsertsAreInserts(e.emissions, config);
    RunEventsShape(Service.InsertsOf(e.emissions, config), e.sync, e.rotated);
  }

  // --- All runs ---

  lemma InsertsFromConcat(a: seq<Event>, b: seq<Event>, patterns: set<bytes>, hash: bytes -> Hash)
    requires InsertsFrom(a, patterns, hash) && InsertsFrom(b, patterns, hash)
    ensures InsertsFrom(a + b, patterns, hash)
  {
    var es := a + b;
    forall i | 0 <= i < |es| && es[i].Insert?
      ensures exists c :: c in patterns && InsertOf(es[i], c, hash)
    {
      assert es[i] == if i < |a| then a[i] else b[i - |a|];
    }
  }

  lemma {:induction false} InsertsFromAll(lists: seq<seq<Event>>, patterns: set<bytes>, hash: bytes -> Hash)
    requires forall k :: 0 <= k < |lists| ==> InsertsFrom(lists[k], patterns, hash)
    ensures InsertsFrom(Flatten(lists), patterns, hash)
    decreases |lists|
  {
    if lists != [] {
      InsertsFromAll(Init(lists), patterns, hash);
      InsertsFromConcat(Flatten(Init(lists)), Last(lists), patterns, hash);
    }
  }

  ghost predicate AllEmitInto(hist: seq<Episode>, canon: bytes -> Option<bytes>, patterns: set<bytes>) {
    forall k :: 0 <= k < |hist| && hist[k].Ran? ==> EmitsInto(hist[k].emissions, canon, patterns)
  }

  lemma HistoryInserts(hist: seq<Episode>, config: Service.Config, patterns: set<bytes>)
    requires WellFormed(hist, |config.bits|) && AllEmitInto(hist, Canonicalizer(config.lib), patterns)
    ensures InsertsFrom(EventsOf(hist, config), patterns, config.hash)
  {
    var lists := EventLists(hist, config);
    forall k | 0 <= k < |lists|
      ensures InsertsFrom(lists[k], patterns, config.hash)
    {
      EpisodeInserts(hist[k], config, patterns);
    }
    InsertsFromAll(lists, patterns, config.hash);
  }

  /** Between episodes `k` and `m` nothing is lost, and `m` rotates. */
  predicate Settles(hist: seq<Episode>, k: nat, m: nat) {
    && k <= m < |hist|
    && (forall i :: k <= i <= m ==> hist[i].Ran?)
    && hist[m].rotated
  }

  ghost predicate SettledAt(hist: seq<Episode>, k: nat) {
    exists m :: Settles(hist, k, m)
  }

  /** Every run in which a feed emitted something is followed by one that rotates, with no loss in between. */
  ghost predicate Settled(hist: seq<Episode>) {
    forall k :: 0 <= k < |hist| && hist[k].Ran? && hist[k].emissions != [] ==> SettledAt(hist, k)
  }

  ghost predicate NothingLost(es: seq<Event>) {
    forall i :: 0 <= i < |es| ==> es[i] != LoseLocal
  }

  lemma {:induction false} NothingLostInAll(lists: seq<seq<Event>>)
    requires forall k :: 0 <= k < |lists| ==> NothingLost(lists[k])
    ensures NothingLost(Flatten(lists))
    decreases |lists|
  {
    if lists != [] {
      NothingLostInAll(Init(lists));
      var front, last := Flatten(Init(lists)), Last(lists);
      assert forall i :: 0 <= i < |front + last| ==> (front + last)[i] == if i < |front| then front[i] else last[i - |front|];
    }
  }

  /** Lists without a loss that end on a rotation rotate what the first of them inserted. */
  lemma StretchIsRotated(lists: seq<seq<Event>>, i: nat, c: bytes, hash: bytes -> Hash)
    requires lists != [] && forall k :: 0 <= k < |lists| ==> NothingLost(lists[k])
    requires i < |lists[0]| && InsertOf(lists[0][i], c, hash)
    requires Last(lists) != [] && Last(Last(lists)) == Rotate
    ensures RotatedAfterInsert(Flatten(lists), c, hash)
  {
    var es := Flatten(lists);
    NothingLostInAll(lists);
    FlattenStart(lists);
    FlattenEnd(lists);
    assert es[i] == lists[0][i];
    assert RotatedBetween(es, c, hash, i, |es| - 1);
  }

  lemma FlattenStart(lists: seq<seq<Event>>)
    requires lists != []
    ensures lists[0] <= Flatten(lists)
  {
    FlattenConcat([lists[0]], lists[1..]);
    assert [lists[0]] + lists[1..] == lists;
    FlattenOne(lists[0]);
  }

  lemma FlattenEnd(lists: seq<seq<Event>>)
    requires lists != [] && Last(lists) != []
    ensures Flatten(lists) != [] && Last(Flatten(lists)) == Last(Last(lists))
  {
  }

  lemma FlattenThree(a: seq<seq<Event>>, b: seq<seq<Event>>, c: seq<seq<Event>>)
    ensures Flatten(a + b + c) == Flatten(a) + Flatten(b) + Flatten(c)
  {
    FlattenConcat(a, b);
    FlattenConcat(a + b, c);
  }

  lemma FlattenOne(es: seq<Event>)
    ensures Flatten([es]) == es
  {
    FlattenSnoc([], es);
    assert [] + [es] == [es];
  }

  lemma RotatedBefore(es: seq<Event>, b: seq<Event>, c: bytes, hash: bytes -> Hash)
    requires RotatedAfterInsert(es, c, hash)
    ensures RotatedAfterInsert(es + b, c, hash)
  {
    var i: nat, j: nat :| RotatedBetween(es, c, hash, i, j);
    assert forall m :: 0 <= m < |es| ==> (es + b)[m] == es[m];
    assert RotatedBetween(es + b, c, hash, i, j);
  }

  lemma RotatedBehind(a: seq<Event>, es: seq<Event>, c: bytes, hash: bytes -> Hash)
    requires RotatedAfterInsert(es, c, hash)
    ensures RotatedAfterInsert(a + es, c, hash)
  {
    var i: nat, j: nat :| RotatedBetween(es, c, hash, i, j);
    assert forall m :: |a| <= m < |a + es| ==> (a + es)[m] == es[m - |a|];
    assert RotatedBetween(a + es, c, hash, |a| + i, |a| + j);
  }

  /** What landed in a settled run has been rotated after its insert. */
  lemma SettledIsRotated(hist: seq<Episode>, config: Service.Config, k: nat, c: bytes, feed: nat)
    requires WellFormed(hist, |config.bits|) && k < |hist| && hist[k].Ran? && SettledAt(hist, k)
    requires Service.Emitted(hist[k].emissions, Canonicalizer(config.lib), c, feed)
    ensures RotatedAfterInsert(EventsOf(hist, config), c, config.hash)
  {
    var m :| Settles(hist, k, m);
    SettlingRotates(hist, config, k, m, c, feed);
  }

  lemma SettlingRotates(hist: seq<Episode>, config: Service.Config, k: nat, m: nat, c: bytes, feed: nat)
    requires WellFormed(hist, |config.bits|) && Settles(hist, k, m)
    requires Service.Emitted(hist[k].emissions, Canonicalizer(config.lib), c, feed)
    ensures RotatedAfterInsert(EventsOf(hist, config), c, config.hash)
  {
    var lists := EventLists(hist, config);
    var i := EpisodeHasInsert(hist[k], config, c, feed);
    forall x | k <= x <= m
      ensures NothingLost(lists[x])
    {
      EpisodeEnd(hist[x], config);
    }
    EpisodeEnd(hist[m], config);
    RotatedInside(lists, k, m, i, c, config.hash);
  }

  lemma RotatedInside(lists: seq<seq<Event>>, k: nat, m: nat, i: nat, c: bytes, hash: bytes -> Hash)
    requires k <= m < |lists| && forall x :: k <= x <= m ==> NothingLost(lists[x])
    requires i < |lists[k]| && InsertOf(lists[k][i], c, hash) && lists[m] != [] && Last(lists[m]) == Rotate
    ensures RotatedAfterInsert(Flatten(lists), c, hash)
  {
    var a, runs, b := lists[..k], lists[k..m + 1], lists[m + 1..];
    assert a + runs + b == lists;
    assert runs[0] == lists[k] && Last(runs) == lists[m];
    assert forall x :: 0 <= x < |runs| ==> runs[x] == lists[k + x];
    StretchIsRotated(runs, i, c, hash);
    RotatedAround(a, runs, b, c, hash);
  }

  lemma RotatedAround(a: seq<seq<Event>>, runs: seq<seq<Event>>, b: seq<seq<Event>>, c: bytes, hash: bytes -> Hash)
    requires RotatedAfterInsert(Flatten(runs), c, hash)
    ensures RotatedAfterInsert(Flatten(a + runs + b), c, hash)
  {
    FlattenThree(a, runs, b);
    RotatedBehind(Flatten(a), Flatten(runs), c, hash);
    RotatedBefore(Flatten(a) + Flatten(runs), Flatten(b), c, hash);
  }

  // --- What was emitted ---

  ghost predicate EmittedAt(hist: seq<Episode>, k: int, e: Service.Emission) {
    0 <= k < |hist| && hist[k].Ran? && e in hist[k].emissions
  }

  lemma {:induction false} EmissionMembers(hist: seq<Episode>, e: Service.Emission)
    ensures e in AllEmissions(hist) <==> exists k :: EmittedAt(hist, k, e)
    decreases |hist|
  {
    if hist != [] {
      var front, n := hist[..|hist| - 1], |hist| - 1;
      EmissionMembers(front, e);
      assert forall k :: EmittedAt(hist, k, e) <==> EmittedAt(front, k, e) || (k == n && EmittedAt(hist, n, e));
      assert e in AllEmissions(hist) <==> e in AllEmissions(front) || EmittedAt(hist, n, e);
    }
  }

  /** The canonical parts of the URLs that landed. */
  ghost function EntriesOf(emissions: seq<Service.Emission>, lib: Libraries): set<Parts> {
    set e | e in emissions && e.lands && ParseUrl(e.raw, lib).Ok? :: ParseUrl(e.raw, lib).value
  }

  lemma EntryIsEmitted(hist: seq<Episode>, lib: Libraries, q: Parts) returns (k: nat, feed: nat)
    requires q in EntriesOf(AllEmissions(hist), lib)
    ensures k < |hist| && hist[k].Ran? && Service.Emitted(hist[k].emissions, Canonicalizer(lib), Pattern(q), feed)
    ensures CanonicalParts(q)
  {
    var e :| e in AllEmissions(hist) && e.lands && ParseUrl(e.raw, lib) == Ok(q);
    EmissionMembers(hist, e);
    k :| EmittedAt(hist, k, e);
    feed := e.feed;
    ParsedIsCanonical(e.raw, lib);
    assert Canonicalizer(lib)(e.raw) == Some(Pattern(q));
  }

  lemma EmissionsAreEntries(hist: seq<Episode>, lib: Libraries)
    ensures AllEmitInto(hist, Canonicalizer(lib), PatternsOf(EntriesOf(AllEmissions(hist), lib)))
  {
    var canon := Canonicalizer(lib);
    forall k, c, feed | 0 <= k < |hist| && hist[k].Ran? && Service.Emitted(hist[k].emissions, canon, c, feed)
      ensures c in PatternsOf(EntriesOf(AllEmissions(hist), lib))
    {
      var e :| e in hist[k].emissions && e.lands && canon(e.raw) == Some(c) && e.feed == feed;
      assert EmittedAt(hist, k, e);
      EmissionMembers(hist, e);
      assert ParseUrl(e.raw, lib).value in EntriesOf(AllEmissions(hist), lib);
    }
  }

  /** A URL that landed and whose parts cover the looked-up ones. */
  ghost predicate EmissionCovers(e: Service.Emission, lib: Libraries, p: Parts) {
    e.lands && ParseUrl(e.raw, lib).Ok? && Covers(ParseUrl(e.raw, lib).value, p)
  }

  lemma EntriesCover(emissions: seq<Service.Emission>, lib: Libraries, p: Parts)
    ensures (exists q :: q in EntriesOf(emissions, lib) && Covers(q, p)) <==>
            exists e :: e in emissions && EmissionCovers(e, lib, p)
  {
    forall e | e in emissions && EmissionCovers(e, lib, p)
      ensures exists q :: q in EntriesOf(emissions, lib) && Covers(q, p)
    {
      assert ParseUrl(e.raw, lib).value in EntriesOf(emissions, lib);
    }
    if exists q :: q in EntriesOf(emissions, lib) && Covers(q, p) {
      var q :| q in EntriesOf(emissions, lib) && Covers(q, p);
      var e :| e in emissions && e.lands && ParseUrl(e.raw, lib) == Ok(q);
      assert EmissionCovers(e, lib, p);
    }
  }

  lemma EntriesAreRotated(hist: seq<Episode>, config: Service.Config)
    requires WellFormed(hist, |config.bits|) && Settled(hist)
    ensures AllRotated(EventsOf(hist, config), PatternsOf(EntriesOf(AllEmissions(hist), config.lib)), config.hash)
    ensures forall q :: q in EntriesOf(AllEmissions(hist), config.lib) ==> CanonicalParts(q)
  {
    forall q | q in EntriesOf(AllEmissions(hist), config.lib)
      ensures CanonicalParts(q) && RotatedAfterInsert(EventsOf(hist, config), Pattern(q), config.hash)
    {
      var k, feed := EntryIsEmitted(hist, config.lib, q);
      assert hist[k].emissions != [];
      SettledIsRotated(hist, config, k, Pattern(q), feed);
    }
  }

  // --- What a lookup answers ---

  /** After a settled history D1 lists exactly what it listed at first and what the URLs that ever landed cover. */
  lemma HistoryLists(d1: Table, hist: seq<Episode>, config: Service.Config, s: State, p: Parts)
    requires WellFormed(hist, |config.bits|) && Settled(hist)
    requires Run(Initial(d1), EventsOf(hist, config)) == Next(s) && CanonicalParts(p)
    requires CollisionFree(config.hash, PatternsOf(EntriesOf(AllEmissions(hist), config.lib)) + CandidateSet(p))
    ensures IsListed(s.d1, p, config.hash) <==>
            IsListed(d1, p, config.hash) || exists e :: e in AllEmissions(hist) && EmissionCovers(e, config.lib, p)
  {
    var entries := EntriesOf(AllEmissions(hist), config.lib);
    EmissionsAreEntries(hist, config.lib);
    HistoryInserts(hist, config, PatternsOf(entries));
    EntriesAreRotated(hist, config);
    LookupIsExact(d1, EventsOf(hist, config), entries, p, config.hash);
    EntriesCover(AllEmissions(hist), config.lib, p);
  }

  lemma ParsedSubmission(raw: bytes, browser: Libraries, p: Parts)
    requires ParseSubmitted(raw, browser) == Ok(p)
    ensures CanonicalParts(p)
  {
    SubmittedIsCanonical(browser.parse(PreprocessSubmitted(raw, browser.trim)).value);
  }

  /** After any history in which every run that fetched something was followed by a rotation before local state was lost, a
      looked-up URL is listed if and only if D1 listed it at first or one of the URLs that ever landed covers it, as long
      as no two of the patterns involved collide. */
  lemma HistoryIsExact(d1: Table, hist: seq<Episode>, config: Service.Config, s: State,
                       raw: bytes, browser: Libraries, p: Parts)
    requires WellFormed(hist, |config.bits|) && Settled(hist)
    requires Run(Initial(d1), EventsOf(hist, config)) == Next(s)
    requires ParseSubmitted(raw, browser) == Ok(p)
    requires CollisionFree(config.hash, PatternsOf(EntriesOf(AllEmissions(hist), config.lib)) + CandidateSet(p))
    ensures AnswerTo(s.d1, ParseSubmitted(raw, browser), config.hash) ==
            Ok(IsListed(d1, p, config.hash) || exists e :: e in AllEmissions(hist) && EmissionCovers(e, config.lib, p))
  {
    ParsedSubmission(raw, browser, p);
    HistoryLists(d1, hist, config, s, p);
  }

  /** Without any condition on the runs: what is listed was listed at first or is covered by a URL that landed. */
  lemma ListedWasShipped(d1: Table, hist: seq<Episode>, config: Service.Config, s: State, p: Parts)
    requires WellFormed(hist, |config.bits|) && Run(Initial(d1), EventsOf(hist, config)) == Next(s)
    requires CanonicalParts(p) && IsListed(s.d1, p, config.hash)
    requires CollisionFree(config.hash, PatternsOf(EntriesOf(AllEmissions(hist), config.lib)) + CandidateSet(p))
    ensures IsListed(d1, p, config.hash) || exists e :: e in AllEmissions(hist) && EmissionCovers(e, config.lib, p)
  {
    var entries := EntriesOf(AllEmissions(hist), config.lib);
    EmissionsAreEntries(hist, config.lib);
    HistoryInserts(hist, config, PatternsOf(entries));
    if !IsListed(d1, p, config.hash) {
      var c := ListedIsInserted(d1, EventsOf(hist, config), PatternsOf(entries), p, config.hash);
      var q :| q in entries && Pattern(q) == c;
      var k, feed := EntryIsEmitted(hist, config.lib, q);
      CandidatesExact(p, q);
      EntriesCover(AllEmissions(hist), config.lib, p);
    }
  }

  /** And without any condition on the hash: a URL that landed in a settled run is listed in every spelling. */
  lemma ShippedInHistory(d1: Table, hist: seq<Episode>, config: Service.Config, s: State, k: nat, e: Service.Emission,
                         u: Pieces, submitted: bytes, browser: Libraries, v: Pieces)
    requires WellFormed(hist, |config.bits|) && Run(Initial(d1), EventsOf(hist, config)) == Next(s)
    requires k < |hist| && hist[k].Ran? && SettledAt(hist, k) && e in hist[k].emissions && e.lands
    requires ParseUrl(e.raw, config.lib).Ok?
    requires config.lib.parse(PreprocessUrl(e.raw, config.lib.trim).value) == Some(u)
    requires browser.parse(PreprocessSubmitted(submitted, browser.trim)) == Some(v) && Respells(v, u, config.lib.toASCII)
    ensures AnswerTo(s.d1, ParseSubmitted(submitted, browser), config.hash) == Ok(true)
  {
    var q := ParseUrl(e.raw, config.lib).value;
    assert Canonicalizer(config.lib)(e.raw) == Some(Pattern(q));
    assert Service.Emitted(hist[k].emissions, Canonicalizer(config.lib), Pattern(q), e.feed);
    SettledIsRotated(hist, config, k, Pattern(q), e.feed);
    ShippedIsListed(d1, EventsOf(hist, config), e.raw, config.lib, u, submitted, browser, v, config.hash);
  }

  /** Runs whose last one rotates, without a loss, are settled, whatever failed before. */
  lemma LastRunSettles(hist: seq<Episode>)
    requires hist != [] && (forall k :: 0 <= k < |hist| ==> hist[k].Ran?) && hist[|hist| - 1].rotated
    ensures Settled(hist)
  {
    forall k | 0 <= k < |hist|
      ensures SettledAt(hist, k)
    {
      assert Settles(hist, k, |hist| - 1);
    }
  }

  /** A single run that gets through, from empty tables. */
  lemma FirstRunIsExact(run: Episode, config: Service.Config, s: State, raw: bytes, browser: Libraries, p: Parts)
    requires run.Ran? && run.rotated && KnownFeeds(run, |config.bits|) && Service.OnlySends(run.sync)
    requires Run(Initial(map[]), EpisodeEvents(run, config)) == Next(s)
    requires ParseSubmitted(raw, browser) == Ok(p)
    requires CollisionFree(config.hash, PatternsOf(EntriesOf(run.emissions, config.lib)) + CandidateSet(p))
    ensures AnswerTo(s.d1, ParseSubmitted(raw, browser), config.hash) ==
            Ok(exists e :: e in run.emissions && EmissionCovers(e, config.lib, p))
  {
    OneRun(run, config);
    LastRunSettles([run]);
    NothingListed(p, config.hash);
    ParsedSubmission(raw, browser, p);
    HistoryLists(map[], [run], config, s, p);
  }

  lemma NothingListed(p: Parts, hash: bytes -> Hash)
    ensures !IsListed(map[], p, hash)
  {
  }

  lemma OneRun(run: Episode, config: Service.Config)
    requires run.Ran? && KnownFeeds(run, |config.bits|) && Service.OnlySends(run.sync)
    ensures WellFormed([run], |config.bits|)
    ensures EventsOf([run], config) == EpisodeEvents(run, config) && AllEmissions([run]) == run.emissions
  {
    assert EventLists([run], config) == [EpisodeEvents(run, config)];
    FlattenOne(EpisodeEvents(run, config));
    assert [run][..0] == [] && [] + run.emissions == run.emissions;
  }
}
