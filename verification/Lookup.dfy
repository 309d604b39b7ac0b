/** From a feed's insert to the lookup's answer. */
module Lookup {
  import opened Bytes
  import opened PercentDecoding
  import opened Tables
  import opened Sync
  import opened Candidates
  import opened Authority
  import opened CanonHost
  import opened Canonical

  /** Some candidate of the URL has its hash in the remote table. */
  ghost predicate IsListed(d1: Table, p: Parts, hash: bytes -> Hash) {
    exists c :: c in CandidatesOf(p) && hash(c) in d1
  }

  /** The answer to a lookup: whether the URL is listed, or why it has no canonical parts. */
  ghost function AnswerTo(d1: Table, parts: Result<Parts>, hash: bytes -> Hash): Result<bool> {
    if parts.Err? then Err(parts.error) else Ok(IsListed(d1, parts.value, hash))
  }

  /** A submitted URL is parsed, and its parts are looked up. */
  method QueryListed(d1: Table, raw: bytes, browser: Libraries, hash: bytes -> Hash) returns (answer: Result<bool>)
    ensures answer == AnswerTo(d1, ParseSubmitted(raw, browser), hash)
  {
    var parts := ParseSubmitted(raw, browser);
    if parts.Err? {
      return Err(parts.error);
    }
    var listed := QueryCandidates(d1, parts.value, hash);
    return Ok(listed);
  }

  /** One query for all candidate hashes. */
  method QueryCandidates(d1: Table, p: Parts, hash: bytes -> Hash) returns (listed: bool)
    ensures listed == IsListed(d1, p, hash)
  {
    var candidates := GenerateCandidates(p);
    var hashes := seq(|candidates|, i requires 0 <= i < |candidates| => hash(candidates[i]));
    listed := exists k :: 0 <= k < |hashes| && hashes[k] in d1;
    ListedByHashes(d1, candidates, hashes, hash);
  }

  lemma ListedByHashes(d1: Table, candidates: seq<bytes>, hashes: seq<Hash>, hash: bytes -> Hash)
    requires |hashes| == |candidates| && forall k :: 0 <= k < |hashes| ==> hashes[k] == hash(candidates[k])
    ensures (exists k :: 0 <= k < |hashes| && hashes[k] in d1) <==> (exists c :: c in candidates && hash(c) in d1)
  {
    if exists k :: 0 <= k < |hashes| && hashes[k] in d1 {
      var k :| 0 <= k < |hashes| && hashes[k] in d1;
      assert candidates[k] in candidates;
    }
  }

  /** No two of the given patterns have the same hash. */
  ghost predicate CollisionFree(hash: bytes -> Hash, patterns: set<bytes>) {
    forall a, b :: a in patterns && b in patterns && hash(a) == hash(b) ==> a == b
  }

  /** A feed's insert of a pattern. */
  ghost predicate InsertOf(e: Event, pattern: bytes, hash: bytes -> Hash) {
    e.Insert? && e.h == hash(pattern)
  }

  /** Once the run that follows an insert has rotated, every URL the entry covers is listed, from then on and whatever
      the hash function, provided local state was not lost between the insert and the rotation. */
  lemma InsertedIsListed(d1: Table, es: seq<Event>, i: nat, j: nat, q: Parts, p: Parts, hash: bytes -> Hash)
    requires Run(Initial(d1), es).Next?
    requires i < j < |es| && InsertOf(es[i], Pattern(q), hash) && es[j] == Rotate
    requires forall m :: i < m < j ==> es[m] != LoseLocal
    requires CanonicalParts(p) && CanonicalParts(q) && Covers(q, p)
    ensures IsListed(Run(Initial(d1), es).state.d1, p, hash)
  {
    InsertedThenRotated(d1, es, i, j);
    CandidatesExact(p, q);
  }

  /** All inserts of a run come from the given patterns. */
  ghost predicate InsertsFrom(es: seq<Event>, patterns: set<bytes>, hash: bytes -> Hash) {
    forall i :: 0 <= i < |es| && es[i].Insert? ==> exists c :: c in patterns && InsertOf(es[i], c, hash)
  }

  /** Every pattern was inserted and rotated without a loss of local state in between. */
  ghost predicate AllRotated(es: seq<Event>, patterns: set<bytes>, hash: bytes -> Hash) {
    forall c :: c in patterns ==> RotatedAfterInsert(es, c, hash)
  }

  ghost predicate RotatedAfterInsert(es: seq<Event>, pattern: bytes, hash: bytes -> Hash) {
    exists i: nat, j: nat :: RotatedBetween(es, pattern, hash, i, j)
  }

  ghost predicate RotatedBetween(es: seq<Event>, pattern: bytes, hash: bytes -> Hash, i: nat, j: nat) {
    && i < j < |es| && InsertOf(es[i], pattern, hash) && es[j] == Rotate
    && forall m :: i < m < j ==> es[m] != LoseLocal
  }

  ghost function PatternsOf(entries: set<Parts>): set<bytes> {
    set q | q in entries :: Pattern(q)
  }

  ghost function CandidateSet(p: Parts): set<bytes> {
    set c | c in CandidatesOf(p)
  }

  lemma InsertBehind(d1: Table, es: seq<Event>, h: Hash) returns (i: nat)
    requires Run(Initial(d1), es).Next? && h in Run(Initial(d1), es).state.d1 && h !in d1
    ensures i < |es| && es[i].Insert? && es[i].h == h
  {
    RemoteKeysWereInserted(d1, es, Run(Initial(d1), es).state);
    i :| i < |es| && es[i].Insert? && es[i].h == h;
  }

  /** A listed URL that D1 did not list at first has a candidate among the inserted patterns, as long as no two of the
      patterns involved collide. */
  lemma ListedIsInserted(d1: Table, es: seq<Event>, patterns: set<bytes>, p: Parts, hash: bytes -> Hash)
    returns (c: bytes)
    requires Run(Initial(d1), es).Next? && InsertsFrom(es, patterns, hash)
    requires CollisionFree(hash, patterns + CandidateSet(p))
    requires IsListed(Run(Initial(d1), es).state.d1, p, hash) && !IsListed(d1, p, hash)
    ensures c in patterns && c in CandidatesOf(p)
  {
    c :| c in CandidatesOf(p) && hash(c) in Run(Initial(d1), es).state.d1;
    var i := InsertBehind(d1, es, hash(c));
    var stored :| stored in patterns && InsertOf(es[i], stored, hash);
    assert stored in patterns + CandidateSet(p) && c in patterns + CandidateSet(p);
  }

  /** What was listed stays listed. */
  lemma ListedStaysListed(d1: Table, es: seq<Event>, p: Parts, hash: bytes -> Hash)
    requires Run(Initial(d1), es).Next? && IsListed(d1, p, hash)
    ensures IsListed(Run(Initial(d1), es).state.d1, p, hash)
  {
    RemoteKeysGrow(Initial(d1), es, Run(Initial(d1), es).state);
  }

  /** The lookup is exact: with no collision, a URL is listed if and only if D1 listed it at first or one of the inserted
      and rotated entries covers it. */
  lemma LookupIsExact(d1: Table, es: seq<Event>, entries: set<Parts>, p: Parts, hash: bytes -> Hash)
    requires Run(Initial(d1), es).Next?
    requires InsertsFrom(es, PatternsOf(entries), hash) && AllRotated(es, PatternsOf(entries), hash)
    requires CanonicalParts(p) && forall e :: e in entries ==> CanonicalParts(e)
    requires CollisionFree(hash, PatternsOf(entries) + CandidateSet(p))
    ensures IsListed(Run(Initial(d1), es).state.d1, p, hash) <==>
            IsListed(d1, p, hash) || exists q :: q in entries && Covers(q, p)
  {
    if IsListed(d1, p, hash) {
      ListedStaysListed(d1, es, p, hash);
    } else if IsListed(Run(Initial(d1), es).state.d1, p, hash) {
      var c := ListedIsInserted(d1, es, PatternsOf(entries), p, hash);
      var q :| q in entries && Pattern(q) == c;
      CandidatesExact(p, q);
    }
    forall q | q in entries && Covers(q, p)
      ensures IsListed(Run(Initial(d1), es).state.d1, p, hash)
    {
      assert Pattern(q) in PatternsOf(entries);
      RotatedIsListed(d1, es, q, p, hash);
    }
  }

  lemma RotatedIsListed(d1: Table, es: seq<Event>, q: Parts, p: Parts, hash: bytes -> Hash)
    requires Run(Initial(d1), es).Next? && RotatedAfterInsert(es, Pattern(q), hash)
    requires CanonicalParts(p) && CanonicalParts(q) && Covers(q, p)
    ensures IsListed(Run(Initial(d1), es).state.d1, p, hash)
  {
    var i: nat, j: nat :| RotatedBetween(es, Pattern(q), hash, i, j);
    InsertedIsListed(d1, es, i, j, q, p, hash);
  }

  /** A URL that a feed has shipped, looked up in any other spelling, is listed once a run after its insert has rotated,
      whatever the history and whatever the hash function. */
  lemma ShippedIsListed(d1: Table, es: seq<Event>, shipped: bytes, lib: Libraries, u: Pieces,
                        submitted: bytes, browser: Libraries, v: Pieces, hash: bytes -> Hash)
    requires Run(Initial(d1), es).Next?
    requires PreprocessUrl(shipped, lib.trim).Some? && lib.parse(PreprocessUrl(shipped, lib.trim).value) == Some(u)
    requires browser.parse(PreprocessSubmitted(submitted, browser.trim)) == Some(v) && Respells(v, u, lib.toASCII)
    requires ParseUrl(shipped, lib).Ok? && RotatedAfterInsert(es, Pattern(ParseUrl(shipped, lib).value), hash)
    ensures AnswerTo(Run(Initial(d1), es).state.d1, ParseSubmitted(submitted, browser), hash) == Ok(true)
  {
    SidesFindTheSameParts(u, v, lib.toASCII);
    ParsedIsCanonical(shipped, lib);
    RotatedIsListed(d1, es, ParseUrl(shipped, lib).value, ParseUrl(shipped, lib).value, hash);
  }

  /** So an entry shipped with "http" blocks the same URL looked up with "https". */
  lemma HttpEntryBlocksHttps(d1: Table, es: seq<Event>, shipped: bytes, lib: Libraries, u: Pieces,
                             submitted: bytes, browser: Libraries, v: Pieces, hash: bytes -> Hash)
    requires Run(Initial(d1), es).Next?
    requires PreprocessUrl(shipped, lib.trim).Some? && lib.parse(PreprocessUrl(shipped, lib.trim).value) == Some(u)
    requires browser.parse(PreprocessSubmitted(submitted, browser.trim)) == Some(v)
    requires u.scheme == HTTP && v.scheme == HTTPS && Respells(v.(scheme := HTTP), u, lib.toASCII)
    requires ParseUrl(shipped, lib).Ok? && RotatedAfterInsert(es, Pattern(ParseUrl(shipped, lib).value), hash)
    ensures AnswerTo(Run(Initial(d1), es).state.d1, ParseSubmitted(submitted, browser), hash) == Ok(true)
  {
    SchemesAlike(v, lib.toASCII);
    assert v.(scheme := HTTPS) == v;
    SidesFindTheSameParts(u, v.(scheme := HTTP), lib.toASCII);
    ParsedIsCanonical(shipped, lib);
    RotatedIsListed(d1, es, ParseUrl(shipped, lib).value, ParseUrl(shipped, lib).value, hash);
  }

  /** Some escapes of a looked-up URL may have been decoded on the way: the answer is the same. */
  lemma SpellingKeepsAnswer(d1: Table, u: Pieces, hash: bytes -> Hash, inPath: seq<nat>, inQuery: seq<nat>)
    requires DecodesEitherWay(u.path, inPath) && DecodesEitherWay(u.query, inQuery)
    ensures var v := u.(path := DecodeSteps(u.path, inPath).value, query := DecodeSteps(u.query, inQuery).value);
            AnswerTo(d1, SubmittedParts(v), hash) == AnswerTo(d1, SubmittedParts(u), hash)
  {
    var v := u.(path := DecodeSteps(u.path, inPath).value, query := DecodeSteps(u.query, inQuery).value);
    SidesComputeTheSame(u);
    SidesComputeTheSame(v);
    PiecesMayBeDecoded(u.hostname, u.path, u.query, AsGiven, inPath, inQuery);
  }
}
