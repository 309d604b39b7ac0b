/** The sync service: its tables, its diff files, and one run of it. */
module Service {
  import opened Bytes
  import opened Tables
  import opened SqlText
  import opened Chunking
  import opened Sync
  import opened Canonical
  import opened FeedMasks

  /** What the remote database makes of one query: the attempts that failed, each after some statements had taken
      effect, and whether a last attempt went through. */
  datatype Response = Response(failed: seq<nat>, accepted: bool)

  /** A URL as a feed emits it, the index of the feed, and whether the insert reaches the table. */
  datatype Emission = Emission(raw: bytes, feed: nat, lands: bool)

  /** What the service is built with: its libraries, the hash, the mask of each feed, the order of the chunk
      files, and how the remote database reads a text. */
  datatype Config = Config(lib: Libraries, hash: bytes -> Hash, bits: seq<Mask>,
                           sortFiles: seq<string> -> seq<string>, read: string -> seq<Row>)

  /** The files are only reordered, and the statements of a text are read as they were written. */
  ghost predicate Sound(config: Config) {
    ReadsStatements(config.read) && forall names :: multiset(config.sortFiles(names)) == multiset(names)
  }

  /** What can go wrong in a run after the feeds are read. */
  datatype Environment = Environment(diffWritten: bool, responses: nat -> Response, statusWritten: bool, commits: bool)

  lemma {:induction false} ReadPrefix(read: string -> seq<Row>, texts: seq<string>, i: nat)
    requires i <= |texts|
    ensures ReadAll(read, texts[..i]) <= ReadAll(read, texts)
    decreases |texts|
  {
    if i < |texts| {
      ReadPrefix(read, Init(texts), i);
      assert Init(texts)[..i] == texts[..i];
    } else {
      assert texts[..i] == texts;
    }
  }

  // --- One query with its retries ---

  /** The first `n` positions. */
  function Upto(n: nat): (at: seq<nat>)
    ensures |at| == n && forall k :: 0 <= k < n ==> at[k] == k
  {
    seq(n, k requires 0 <= k < n => k)
  }

  /** The rows of one failed attempt after another. */
  function FailedAttempts(failed: seq<nat>, n: nat): (at: seq<nat>)
    ensures Within(at, n)
    decreases |failed|
  {
    if failed == [] then []
    else FailedAttempts(failed[..|failed| - 1], n) + Upto(Min(failed[|failed| - 1], n))
  }

  /** The rows that take effect in a query of `n` rows, in order and with repeats. */
  function Attempts(response: Response, n: nat): (at: seq<nat>)
    ensures Within(at, n) && (response.accepted ==> HitsAll(at, n))
  {
    var failed := FailedAttempts(response.failed, n);
    if response.accepted then
      UptoHitsAll(failed, n);
      failed + Upto(n)
    else failed
  }

  lemma UptoHitsAll(failed: seq<nat>, n: nat)
    ensures HitsAll(failed + Upto(n), n)
  {
    forall i: nat | i < n
      ensures i in failed + Upto(n)
    {
      assert Upto(n)[i] == i;
    }
  }

  lemma PickConcat(rows: seq<Row>, a: seq<nat>, b: seq<nat>)
    requires Within(a, |rows|) && Within(b, |rows|)
    ensures Within(a + b, |rows|) && Pick(rows, a + b) == Pick(rows, a) + Pick(rows, b)
  {
  }

  /** One more attempt at the first `n` rows. */
  lemma AttemptOnce(t: Table, rows: seq<Row>, at: seq<nat>, n: nat)
    requires Within(at, |rows|) && n <= |rows|
    ensures Within(at + Upto(n), |rows|)
    ensures Replace(t, Pick(rows, at + Upto(n))) == Replace(Replace(t, Pick(rows, at)), rows[..n])
  {
    PickConcat(rows, at, Upto(n));
    ReplaceConcat(t, Pick(rows, at), Pick(rows, Upto(n)));
    assert Pick(rows, Upto(n)) == rows[..n];
  }

  lemma FailedSnoc(failed: seq<nat>, i: nat, n: nat)
    requires i < |failed|
    ensures FailedAttempts(failed[..i + 1], n) == FailedAttempts(failed[..i], n) + Upto(Min(failed[i], n))
  {
    assert failed[..i + 1][..i] == failed[..i];
  }

  // --- One chunk after the other ---

  /** The positions moved behind the first `k` rows. */
  function Shifted(at: seq<nat>, k: nat): (moved: seq<nat>)
    ensures |moved| == |at| && forall j :: 0 <= j < |at| ==> moved[j] == k + at[j]
  {
    seq(|at|, j requires 0 <= j < |at| => k + at[j])
  }

  /** The rows of chunk `i` are some of the rows of all chunks. */
  lemma ChunkRows(read: string -> seq<Row>, texts: seq<string>, i: nat)
    requires i < |texts|
    ensures var before, all := |ReadAll(read, texts[..i])|, ReadAll(read, texts);
            && |ReadAll(read, texts[..i + 1])| == before + |read(texts[i])| <= |all|
            && forall j :: 0 <= j < |read(texts[i])| ==> all[before + j] == read(texts[i])[j]
  {
    var before, rows := ReadAll(read, texts[..i]), read(texts[i]);
    ReadPrefix(read, texts, i + 1);
    assert Init(texts[..i + 1]) == texts[..i];
    assert ReadAll(read, texts[..i + 1]) == before + rows;
  }

  /** Rows of one part of a list, sent after some others. */
  lemma SendShifted(t: Table, all: seq<Row>, at: seq<nat>, rows: seq<Row>, k: nat, more: seq<nat>)
    requires Within(at, |all|) && Within(more, |rows|) && k + |rows| <= |all|
    requires forall j :: 0 <= j < |rows| ==> all[k + j] == rows[j]
    ensures Within(at + Shifted(more, k), |all|)
    ensures Replace(t, Pick(all, at + Shifted(more, k))) == Replace(Replace(t, Pick(all, at)), Pick(rows, more))
  {
    PickConcat(all, at, Shifted(more, k));
    assert Pick(all, Shifted(more, k)) == Pick(rows, more);
    ReplaceConcat(t, Pick(all, at), Pick(rows, more));
  }

  lemma HitsShifted(at: seq<nat>, k: nat, more: seq<nat>, n: nat)
    requires HitsAll(at, k) && HitsAll(more, n)
    ensures HitsAll(at + Shifted(more, k), k + n)
  {
    forall i: nat | i < k + n
      ensures i in at + Shifted(more, k)
    {
      if i >= k {
        var want: nat := i - k;
        assert want in more;
        var j :| 0 <= j < |more| && more[j] == want;
        assert Shifted(more, k)[j] == i;
      }
    }
  }

  /** One more chunk: the rows of its attempts behind those of the chunks before it. */
  lemma SendOneChunk(t: Table, read: string -> seq<Row>, texts: seq<string>, i: nat, at: seq<nat>, more: seq<nat>)
    requires i < |texts| && Within(at, |ReadAll(read, texts)|) && Within(more, |read(texts[i])|)
    ensures var all, before := ReadAll(read, texts), |ReadAll(read, texts[..i])|;
            var sent := at + Shifted(more, before);
            && Within(sent, |all|)
            && Replace(t, Pick(all, sent)) == Replace(Replace(t, Pick(all, at)), Pick(read(texts[i]), more))
            && (HitsAll(at, before) && HitsAll(more, |read(texts[i])|) ==>
                  HitsAll(sent, |ReadAll(read, texts[..i + 1])|))
  {
    var all, before := ReadAll(read, texts), |ReadAll(read, texts[..i])|;
    ChunkRows(read, texts, i);
    SendShifted(t, all, at, read(texts[i]), before, more);
    if HitsAll(at, before) && HitsAll(more, |read(texts[i])|) {
      HitsShifted(at, before, more, |read(texts[i])|);
    }
  }

  // --- Chunk files in another order ---

  lemma {:induction false} ReadRemove(read: string -> seq<Row>, texts: seq<string>, k: nat)
    requires k < |texts|
    ensures multiset(ReadAll(read, texts)) ==
            multiset(read(texts[k])) + multiset(ReadAll(read, texts[..k] + texts[k + 1..]))
    decreases |texts|
  {
    if k == |texts| - 1 {
      assert texts[..k] + texts[k + 1..] == Init(texts);
    } else {
      var front := Init(texts)[..k] + Init(texts)[k + 1..];
      ReadRemove(read, Init(texts), k);
      assert texts[..k] + texts[k + 1..] == front + [Last(texts)];
      ReadAllSnoc(read, front, Last(texts));
      MultisetAppend(ReadAll(read, Init(texts)), read(texts[k]), ReadAll(read, front), read(Last(texts)));
    }
  }

  lemma MultisetAppend(all: seq<Row>, some: seq<Row>, others: seq<Row>, more: seq<Row>)
    requires multiset(all) == multiset(some) + multiset(others)
    ensures multiset(all + more) == multiset(some) + multiset(others + more)
  {
  }

  lemma ReadAllSnoc(read: string -> seq<Row>, texts: seq<string>, text: string)
    ensures ReadAll(read, texts + [text]) == ReadAll(read, texts) + read(text)
  {
    assert Init(texts + [text]) == texts;
  }

  lemma RemoveFromMultiset(s: seq<string>, k: nat)
    requires k < |s|
    ensures multiset(s[..k] + s[k + 1..]) == multiset(s) - multiset{s[k]}
  {
    assert s == s[..k] + [s[k]] + s[k + 1..];
  }

  /** Sending the chunk files in another order sends the same rows. */
  lemma {:induction false} ReadPermuted(read: string -> seq<Row>, a: seq<string>, b: seq<string>)
    requires multiset(a) == multiset(b)
    ensures multiset(ReadAll(read, a)) == multiset(ReadAll(read, b))
    decreases |a|
  {
    if a == [] {
      assert |multiset(b)| == |b| == 0;
    } else {
      var x := Last(a);
      assert a == Init(a) + [x];
      assert x in multiset(b);
      var k :| 0 <= k < |b| && b[k] == x;
      RemoveFromMultiset(b, k);
      assert multiset(Init(a)) == multiset(a) - multiset{x};
      ReadPermuted(read, Init(a), b[..k] + b[k + 1..]);
      ReadRemove(read, b, k);
    }
  }

  lemma {:induction false} DistinctKeysOccurOnce(rows: seq<Row>)
    requires forall i, j :: 0 <= i < j < |rows| ==> rows[i].h != rows[j].h
    ensures forall r :: multiset(rows)[r] <= 1
    decreases |rows|
  {
    if rows != [] {
      var front, last := rows[..|rows| - 1], rows[|rows| - 1];
      assert rows == front + [last];
      DistinctKeysOccurOnce(front);
      assert last !in front;
    }
  }

  lemma TwiceInMultiset(rows: seq<Row>, i: nat, j: nat)
    requires i < j < |rows| && rows[i] == rows[j]
    ensures multiset(rows)[rows[i]] >= 2
  {
    assert rows == rows[..j] + [rows[j]] + rows[j + 1..];
    assert rows[i] in rows[..j];
  }

  lemma ListsPermuted(rows: seq<Row>, other: seq<Row>, t: Table)
    requires Lists(rows, t) && multiset(other) == multiset(rows)
    ensures Lists(other, t)
  {
    assert forall r :: r in other <==> r in multiset(other);
    assert forall r :: r in rows <==> r in multiset(rows);
    DistinctKeysOccurOnce(rows);
    forall i, j | 0 <= i < j < |other|
      ensures other[i].h != other[j].h
    {
      if other[i].h == other[j].h {
        assert other[i] in rows && other[j] in rows;
        TwiceInMultiset(other, i, j);
      }
    }
  }

  // --- Writing chunk files ---

  lemma TextsAfterStatement(chunks: seq<Chunk>, x: string)
    ensures var opens := chunks == [] || Size(Last(chunks)) + |x| > MAX_CHUNK_SIZE;
            var texts := if opens then ChunkTexts(chunks) + [""] else ChunkTexts(chunks);
            && texts != []
            && ChunkTexts(AddStatement(chunks, x)) == Init(texts) + [Last(texts) + x]
            && Size(Last(AddStatement(chunks, x))) == (if opens then 0 else Size(Last(chunks))) + |x|
  {
    var added := AddStatement(chunks, x);
    var empty: Chunk := [];
    assert empty + [x] == [x];
    SizeSnoc(empty, x);
    TextSnoc(empty, x);
    if chunks != [] {
      SizeSnoc(Last(chunks), x);
      TextSnoc(Last(chunks), x);
    }
    var opens := chunks == [] || Size(Last(chunks)) + |x| > MAX_CHUNK_SIZE;
    var texts := if opens then ChunkTexts(chunks) + [""] else ChunkTexts(chunks);
    assert ChunkTexts(added) == Init(texts) + [Last(texts) + x];
  }

  lemma TextSnoc(c: Chunk, x: string)
    ensures Text(c + [x]) == Text(c) + x
  {
    assert Init(c + [x]) == c;
  }

  lemma PackSnoc(rows: seq<Row>, r: Row)
    ensures Pack(Statements(rows + [r])) == AddStatement(Pack(Statements(rows)), Statement(r))
  {
    assert Init(Statements(rows + [r])) == Statements(rows);
  }

  /** The rows written so far and those still to come. */
  ghost predicate WritingDiff(rows: seq<Row>, todo: Table, all: Table) {
    && (forall i, j :: 0 <= i < j < |rows| ==> rows[i].h != rows[j].h)
    && (forall r :: r in rows ==> r.h in all && all[r.h] == r.pId && r.h !in todo)
    && (forall h :: h in todo ==> h in all && all[h] == todo[h])
    && (forall h :: h in all ==> h in todo || Row(h, all[h]) in rows)
  }

  /** The chunk files hold the packed statements of the rows, and the open one has the given size. */
  ghost predicate HoldsRows(texts: seq<string>, chunkSize: nat, rows: seq<Row>) {
    var chunks := Pack(Statements(rows));
    texts == ChunkTexts(chunks) && (chunks != [] ==> chunkSize == Size(Last(chunks)))
  }

  /** A statement goes to the open file, or to a new one. */
  lemma HoldsOneMore(texts: seq<string>, chunkSize: nat, rows: seq<Row>, row: Row)
    requires HoldsRows(texts, chunkSize, rows)
    ensures var x := Statement(row);
            var opens := texts == [] || chunkSize + |x| > MAX_CHUNK_SIZE;
            var files := if opens then texts + [""] else texts;
            HoldsRows(Init(files) + [Last(files) + x], (if opens then 0 else chunkSize) + |x|, rows + [row])
  {
    PackSnoc(rows, row);
    TextsAfterStatement(Pack(Statements(rows)), Statement(row));
  }

  lemma WrittenDiffLists(rows: seq<Row>, all: Table)
    requires WritingDiff(rows, map[], all)
    ensures Lists(rows, all)
  {
  }

  lemma RemoveOne(t: Table, h: Hash)
    requires h in t
    ensures |t - {h}| == |t| - 1
  {
    assert (t - {h}).Keys == t.Keys - {h};
  }

  lemma WritingOneMore(rows: seq<Row>, todo: Table, all: Table, h: Hash)
    requires WritingDiff(rows, todo, all) && h in todo
    ensures WritingDiff(rows + [Row(h, todo[h])], todo - {h}, all) && |todo - {h}| == |todo| - 1
  {
    RemoveOne(todo, h);
    var more := rows + [Row(h, todo[h])];
    forall i | 0 <= i < |rows|
      ensures more[i].h != h
    {
      assert rows[i] in rows;
    }
    assert forall r :: r in more <==> r in rows || r == Row(h, todo[h]);
  }

  class Service {
    var curr: Table
    var prev: Table
    var diff: seq<string>
    var d1: Table
    const config: Config

    ghost function Snapshot(): State
      reads this
    {
      State(curr, prev, d1, [], Idle)
    }

    constructor (remote: Table, config: Config)
      ensures Snapshot() == Initial(remote) && this.config == config
    {
      curr, prev, diff, d1 := map[], map[], [], remote;
      this.config := config;
    }

    /** A URL without a pattern is skipped, and an insert may be dropped. */
    method Insert(e: Emission) returns (ok: bool)
      requires e.feed < |config.bits|
      modifies this`curr
      ensures ok == Lands(e, Canonicalizer(config.lib))
      ensures curr == AfterOne(old(curr), e, config)
    {
      var pattern := CanonicalPattern(e.raw, config.lib);
      if pattern.None? {
        return false;
      }
      var h := config.hash(pattern.value);
      if e.lands {
        curr := Upsert(curr, h, config.bits[e.feed]);
      }
      return e.lands;
    }

    /** The statement of a row goes to the open chunk file, or to a new one when it would overflow. */
    method WriteStatement(row: Row, chunkSize: nat, ghost rows: seq<Row>) returns (newSize: nat)
      requires HoldsRows(diff, chunkSize, rows)
      modifies this`diff
      ensures HoldsRows(diff, newSize, rows + [row]) && diff != []
    {
      var statement := Statement(row);
      HoldsOneMore(diff, chunkSize, rows, row);
      newSize := chunkSize;
      if |diff| == 0 || newSize + |statement| > MAX_CHUNK_SIZE {
        diff := diff + [""];
        newSize := 0;
      }
      diff := diff[..|diff| - 1] + [diff[|diff| - 1] + statement];
      newSize := newSize + |statement|;
    }

    /** The rows come in whatever order the query yields them. */
    method WriteDiff() returns (count: nat, ghost rows: seq<Row>, ghost all: Table)
      modifies this`diff
      ensures all == Except(curr, prev) && Lists(rows, all) && count == |rows| == |all|
      ensures diff == ChunkTexts(Pack(Statements(rows)))
    {
      all := Except(curr, prev);
      var todo := Except(curr, prev);
      var chunkSize := 0;
      diff := [];
      count, rows := 0, [];
      while todo != map[]
        invariant WritingDiff(rows, todo, all) && count == |rows| && |rows| + |todo| == |all|
        invariant HoldsRows(diff, chunkSize, rows)
        decreases |todo|
      {
        var h :| h in todo;
        var row := Row(h, todo[h]);
        WritingOneMore(rows, todo, all, h);
        chunkSize := WriteStatement(row, chunkSize, rows);
        count := count + 1;
        rows := rows + [row];
        todo := todo - {h};
      }
      WrittenDiffLists(rows, all);
    }

    /** One attempt at a query, which takes effect up to some statement. */
    method Attempt(rows: seq<Row>, n: nat)
      requires n <= |rows|
      modifies this`d1
      ensures d1 == Replace(old(d1), rows[..n])
    {
      for i := 0 to n
        invariant d1 == Replace(old(d1), rows[..i])
      {
        assert rows[..i + 1][..i] == rows[..i];
        d1 := d1[rows[i].h := rows[i].pId];
      }
    }

    /** One query with its retries: some failed attempts, and all statements of the text if it goes through. */
    method Query(text: string, response: Response) returns (ok: bool, ghost at: seq<nat>)
      modifies this`d1
      ensures ok == response.accepted && at == Attempts(response, |config.read(text)|)
      ensures d1 == Replace(old(d1), Pick(config.read(text), at))
    {
      var rows := config.read(text);
      at := [];
      assert Pick(rows, at) == [];
      for i := 0 to |response.failed|
        invariant at == FailedAttempts(response.failed[..i], |rows|)
        invariant d1 == Replace(old(d1), Pick(rows, at))
      {
        var n := Min(response.failed[i], |rows|);
        AttemptOnce(old(d1), rows, at, n);
        FailedSnoc(response.failed, i, |rows|);
        Attempt(rows, n);
        at := at + Upto(n);
      }
      assert response.failed[..|response.failed|] == response.failed;
      if response.accepted {
        AttemptOnce(old(d1), rows, at, |rows|);
        Attempt(rows, |rows|);
        at := at + Upto(|rows|);
      }
      return response.accepted, at;
    }

    /** One chunk, after some rows of all chunks have been sent. */
    method SendChunk(sorted: seq<string>, i: nat, response: Response, ghost t: Table, ghost at: seq<nat>)
      returns (ok: bool, ghost sent: seq<nat>)
      requires i < |sorted| && HasSent(ReadAll(config.read, sorted), t, at, d1)
      requires HitsAll(at, |ReadAll(config.read, sorted[..i])|)
      modifies this`d1
      ensures ok == response.accepted && HasSent(ReadAll(config.read, sorted), t, sent, d1)
      ensures ok ==> HitsAll(sent, |ReadAll(config.read, sorted[..i + 1])|)
    {
      ghost var more;
      ok, more := Query(sorted[i], response);
      SendOneChunk(t, config.read, sorted, i, at, more);
      sent := at + Shifted(more, |ReadAll(config.read, sorted[..i])|);
    }

    /** The chunks one after the other, until the first error. */
    method SendChunks(sorted: seq<string>, env: Environment) returns (ok: bool, ghost at: seq<nat>)
      modifies this`d1
      ensures ok <==> AllFilled(sorted) && AllAccepted(env, |sorted|)
      ensures HasSent(ReadAll(config.read, sorted), old(d1), at, d1)
      ensures ok ==> HitsAll(at, |ReadAll(config.read, sorted)|)
    {
      at := [];
      NothingSent(ReadAll(config.read, sorted), d1);
      for i := 0 to |sorted|
        invariant forall k: nat :: k < i ==> sorted[k] != "" && env.responses(k).accepted
        invariant HasSent(ReadAll(config.read, sorted), old(d1), at, d1)
        invariant HitsAll(at, |ReadAll(config.read, sorted[..i])|)
      {
        if sorted[i] == "" {
          return false, at;
        }
        var accepted, sent := SendChunk(sorted, i, env.responses(i), old(d1), at);
        if !accepted {
          return false, sent;
        }
        at := sent;
      }
      assert sorted[..|sorted|] == sorted;
      return true, at;
    }

    /** Sends the chunk files, which hold the rows of `t`, in the order their names sort, then the status row. */
    method D1Sync(env: Environment, ghost rows: seq<Row>, ghost t: Table)
      returns (ok: bool, ghost sent: seq<Row>, ghost at: seq<nat>)
      requires Sound(config)
      requires Lists(rows, t) && diff == ChunkTexts(Pack(Statements(rows)))
      modifies this`d1
      ensures ok <==> AllAccepted(env, |diff|) && (diff == [] || env.statusWritten)
      ensures Lists(sent, t) && HasSent(sent, old(d1), at, d1) && (ok ==> HitsAll(at, |sent|))
    {
      var sorted := config.sortFiles(diff);
      sent := ReadAll(config.read, sorted);
      DiffIsSent(config, rows, diff, t);
      SortedAreFilled(config, diff, rows);
      ok, at := SendChunks(sorted, env);
      ok := ok && (|sorted| == 0 || env.statusWritten);
    }

    method Rotate(commits: bool) returns (ok: bool)
      modifies this`curr, this`prev, this`diff
      ensures ok == commits
      ensures if ok then curr == map[] && prev == old(curr) && diff == []
              else curr == old(curr) && prev == old(prev) && diff == old(diff)
    {
      if commits {
        prev := curr;
        curr := map[];
        diff := [];
      }
      return commits;
    }

    /** The feeds emit concurrently; their inserts reach the table in the given order. */
    method Fetch(emissions: seq<Emission>)
      requires FeedsKnown(emissions, |config.bits|)
      modifies this`curr
      ensures curr == Fetched(old(curr), emissions, config)
    {
      for i := 0 to |emissions|
        invariant FeedsKnown(emissions[..i], |config.bits|)
        invariant curr == Fetched(old(curr), emissions[..i], config)
      {
        FetchOne(old(curr), emissions, i, config);
        var ok := Insert(emissions[i]);
      }
      assert emissions[..|emissions|] == emissions;
    }

    /** What follows the fetching: the diff, the sync, and the rotation when both went through. */
    method SyncAndRotate(env: Environment) returns (rotated: bool, ghost sync: seq<Event>)
      requires Sound(config)
      modifies this
      ensures NothingFails(env) ==> rotated
      ensures Sync.Run(State(old(curr), old(prev), old(d1), [], Fetching), sync + [RunEnd(rotated)]) == Next(Snapshot())
      ensures OnlySends(sync)
    {
      ghost var fetched := State(curr, prev, d1, [], Fetching);
      var count, rows, all := WriteDiff();
      if !env.diffWritten {
        AbortedAtOnce(fetched);
        return false, [];
      }
      rotated, sync := SendAndRotate(env, rows, all);
    }

    /** The written diff is sent, and the rotation follows when that went through. */
    method SendAndRotate(env: Environment, ghost rows: seq<Row>, ghost all: Table)
      returns (rotated: bool, ghost sync: seq<Event>)
      requires Sound(config) && all == Except(curr, prev)
      requires Lists(rows, all) && diff == ChunkTexts(Pack(Statements(rows)))
      modifies this
      ensures NothingFails(env) ==> rotated
      ensures Sync.Run(State(old(curr), old(prev), old(d1), [], Fetching), sync + [RunEnd(rotated)]) == Next(Snapshot())
      ensures OnlySends(sync)
    {
      ghost var fetched := State(curr, prev, d1, [], Fetching);
      var synced, sent, at := D1Sync(env, rows, all);
      rotated := false;
      if synced {
        rotated := Rotate(env.commits);
      }
      sync := SyncEnds(fetched, all, sent, at, d1, rotated);
    }

    /** One run is a run of the transition system: it inserts what landed, in order, then possibly sends rows of the
        diff, some of them again, and rotates exactly when it succeeds; every one of its effects is the effect of
        these events. When nothing fails it succeeds. */
    method Run(emissions: seq<Emission>, env: Environment) returns (rotated: bool, ghost sync: seq<Event>)
      requires Sound(config) && FeedsKnown(emissions, |config.bits|)
      modifies this
      ensures NothingFails(env) ==> rotated
      ensures Sync.Run(old(Snapshot()), RunEvents(InsertsOf(emissions, config), sync, rotated)) == Next(Snapshot())
      ensures OnlySends(sync)
    {
      ghost var s0 := Snapshot();
      Fetch(emissions);
      ghost var fetched := State(curr, prev, d1, [], Fetching);
      FetchingCollects(s0.(phase := Fetching), LandedOf(emissions, config), config.bits);
      StartRuns(s0, InsertsOf(emissions, config), fetched);
      rotated, sync := SyncAndRotate(env);
      RunConcat(s0, [Start] + InsertsOf(emissions, config), sync + [RunEnd(rotated)]);
    }
  }

  // --- What the feeds leave ---

  /** Every emission comes from one of the feeds. */
  predicate FeedsKnown(emissions: seq<Emission>, feeds: nat) {
    forall i :: 0 <= i < |emissions| ==> emissions[i].feed < feeds
  }

  predicate Lands(e: Emission, canon: bytes -> Option<bytes>) {
    e.lands && canon(e.raw).Some?
  }

  function EmitOf(e: Emission, canon: bytes -> Option<bytes>, hash: bytes -> Hash): Emit
    requires Lands(e, canon)
  {
    Emit(hash(canon(e.raw).value), e.feed)
  }

  /** The emissions that reach the table, by their hash. */
  ghost function Landed(emissions: seq<Emission>, canon: bytes -> Option<bytes>, hash: bytes -> Hash, feeds: nat)
    : (emits: seq<Emit>)
    requires FeedsKnown(emissions, feeds)
    ensures forall e :: e in emits ==> e.feed < feeds
    decreases |emissions|
  {
    if emissions == [] then []
    else
      var front, e := emissions[..|emissions| - 1], emissions[|emissions| - 1];
      Landed(front, canon, hash, feeds) + if Lands(e, canon) then [EmitOf(e, canon, hash)] else []
  }

  ghost function LandedOf(emissions: seq<Emission>, config: Config): (emits: seq<Emit>)
    requires FeedsKnown(emissions, |config.bits|)
    ensures forall e :: e in emits ==> e.feed < |config.bits|
  {
    Landed(emissions, Canonicalizer(config.lib), config.hash, |config.bits|)
  }

  /** The insert events of a run. */
  ghost function InsertsOf(emissions: seq<Emission>, config: Config): seq<Event>
    requires FeedsKnown(emissions, |config.bits|)
  {
    Inserts(LandedOf(emissions, config), config.bits)
  }

  /** What the emissions make of the table. */
  ghost function Fetched(t: Table, emissions: seq<Emission>, config: Config): Table
    requires FeedsKnown(emissions, |config.bits|)
  {
    Collect(t, LandedOf(emissions, config), config.bits)
  }

  ghost function AfterOne(t: Table, e: Emission, config: Config): Table
    requires e.feed < |config.bits|
  {
    if Lands(e, Canonicalizer(config.lib)) then
      Upsert(t, EmitOf(e, Canonicalizer(config.lib), config.hash).h, config.bits[e.feed])
    else t
  }

  /** One more emission, whether it lands or not. */
  lemma FetchOne(t: Table, emissions: seq<Emission>, i: nat, config: Config)
    requires i < |emissions| && FeedsKnown(emissions, |config.bits|)
    ensures FeedsKnown(emissions[..i], |config.bits|) && FeedsKnown(emissions[..i + 1], |config.bits|)
    ensures Fetched(t, emissions[..i + 1], config) == AfterOne(Fetched(t, emissions[..i], config), emissions[i], config)
  {
    CollectOne(t, emissions, i, Canonicalizer(config.lib), config.hash, config.bits);
  }

  lemma CollectOne(t: Table, emissions: seq<Emission>, i: nat, canon: bytes -> Option<bytes>, hash: bytes -> Hash,
                   bits: seq<Mask>)
    requires i < |emissions| && FeedsKnown(emissions, |bits|)
    ensures var e := emissions[i];
            var before := Collect(t, Landed(emissions[..i], canon, hash, |bits|), bits);
            Collect(t, Landed(emissions[..i + 1], canon, hash, |bits|), bits) ==
            if Lands(e, canon) then Upsert(before, EmitOf(e, canon, hash).h, bits[e.feed]) else before
  {
    var e, before := emissions[i], Landed(emissions[..i], canon, hash, |bits|);
    assert emissions[..i + 1][..i] == emissions[..i];
    if Lands(e, canon) {
      assert (before + [EmitOf(e, canon, hash)])[..|before|] == before;
    } else {
      assert before + [] == before;
    }
  }

  /** Some landed emission of the feed has the pattern. */
  ghost predicate Emitted(emissions: seq<Emission>, canon: bytes -> Option<bytes>, pattern: bytes, feed: nat) {
    exists e :: e in emissions && e.lands && canon(e.raw) == Some(pattern) && e.feed == feed
  }

  /** Some pattern that landed has the hash of `x`. */
  ghost predicate EmittedHash(emissions: seq<Emission>, canon: bytes -> Option<bytes>, hash: bytes -> Hash, x: Emit) {
    exists pattern :: Emitted(emissions, canon, pattern, x.feed) && x.h == hash(pattern)
  }

  lemma EmittedSnoc(front: seq<Emission>, e: Emission, canon: bytes -> Option<bytes>, pattern: bytes, feed: nat)
    ensures Emitted(front + [e], canon, pattern, feed) <==>
            Emitted(front, canon, pattern, feed) || Emitted([e], canon, pattern, feed)
  {
    assert forall y :: y in front + [e] <==> y in front || y in [e];
  }

  lemma EmittedHashSnoc(front: seq<Emission>, e: Emission, canon: bytes -> Option<bytes>, hash: bytes -> Hash, x: Emit)
    ensures EmittedHash(front + [e], canon, hash, x) <==>
            EmittedHash(front, canon, hash, x) || (Lands(e, canon) && x == EmitOf(e, canon, hash))
  {
    forall pattern
      ensures Emitted(front + [e], canon, pattern, x.feed) <==>
              Emitted(front, canon, pattern, x.feed) || Emitted([e], canon, pattern, x.feed)
    {
      EmittedSnoc(front, e, canon, pattern, x.feed);
    }
    EmittedOnce(e, canon, hash, x);
  }

  lemma EmittedOnce(e: Emission, canon: bytes -> Option<bytes>, hash: bytes -> Hash, x: Emit)
    ensures Lands(e, canon) && x == EmitOf(e, canon, hash) <==> EmittedHash([e], canon, hash, x)
  {
    if Lands(e, canon) && x == EmitOf(e, canon, hash) {
      assert e in [e];
      assert Emitted([e], canon, canon(e.raw).value, x.feed);
    }
  }

  /** What reaches the table are exactly the hashes of the landed patterns, each with its feed. */
  lemma {:induction false} LandedMembers(emissions: seq<Emission>, canon: bytes -> Option<bytes>, hash: bytes -> Hash,
                                         feeds: nat, x: Emit)
    requires FeedsKnown(emissions, feeds)
    ensures x in Landed(emissions, canon, hash, feeds) <==> EmittedHash(emissions, canon, hash, x)
    decreases |emissions|
  {
    if emissions != [] {
      var front, e := emissions[..|emissions| - 1], emissions[|emissions| - 1];
      LandedMembers(front, canon, hash, feeds, x);
      EmittedHashSnoc(front, e, canon, hash, x);
      assert emissions == front + [e];
    }
  }

  /** Two ways for the feeds to interleave, repeat or spell their URLs leave the same `curr`, as
      long as each feed lands the same patterns. */
  lemma FetchesAlike(t: Table, emissions1: seq<Emission>, emissions2: seq<Emission>, config: Config)
    requires FeedsKnown(emissions1, |config.bits|) && FeedsKnown(emissions2, |config.bits|)
    requires SamePatterns(emissions1, emissions2, Canonicalizer(config.lib))
    ensures Fetched(t, emissions1, config) == Fetched(t, emissions2, config)
  {
    var canon := Canonicalizer(config.lib);
    forall x
      ensures x in LandedOf(emissions1, config) <==> x in LandedOf(emissions2, config)
    {
      LandedMembers(emissions1, canon, config.hash, |config.bits|, x);
      LandedMembers(emissions2, canon, config.hash, |config.bits|, x);
    }
    InterleavingDoesNotMatter(t, LandedOf(emissions1, config), LandedOf(emissions2, config), config.bits);
  }

  ghost predicate SamePatterns(emissions1: seq<Emission>, emissions2: seq<Emission>, canon: bytes -> Option<bytes>) {
    forall pattern, feed :: Emitted(emissions1, canon, pattern, feed) <==> Emitted(emissions2, canon, pattern, feed)
  }

  // --- A run as events ---

  /** The rows at some positions of the list have been sent. */
  ghost predicate HasSent(rows: seq<Row>, before: Table, at: seq<nat>, after: Table) {
    Within(at, |rows|) && after == Replace(before, Pick(rows, at))
  }

  lemma NothingSent(rows: seq<Row>, t: Table)
    ensures HasSent(rows, t, [], t)
  {
    assert Pick(rows, []) == [];
  }

  ghost predicate AllFilled(texts: seq<string>) {
    forall i: nat :: i < |texts| ==> texts[i] != ""
  }

  /** The first `n` queries of a run go through. */
  ghost predicate AllAccepted(env: Environment, n: nat) {
    forall i: nat :: i < n ==> env.responses(i).accepted
  }

  /** Nothing goes wrong after the feeds are read, apart from attempts that are repeated. */
  ghost predicate NothingFails(env: Environment) {
    env.diffWritten && (forall i: nat :: env.responses(i).accepted) && env.statusWritten && env.commits
  }

  lemma {:induction false} PackedAreFilled(rows: seq<Row>)
    ensures forall i :: 0 <= i < |Pack(Statements(rows))| ==> Text(Pack(Statements(rows))[i]) != ""
    decreases |rows|
  {
    if rows != [] {
      var front, last := rows[..|rows| - 1], rows[|rows| - 1];
      assert rows == front + [last];
      PackedAreFilled(front);
      PackSnoc(front, last);
      AddedIsFilled(Pack(Statements(front)), Statement(last));
    }
  }

  lemma AddedIsFilled(chunks: seq<Chunk>, x: string)
    requires x != "" && forall i :: 0 <= i < |chunks| ==> Text(chunks[i]) != ""
    ensures forall i :: 0 <= i < |AddStatement(chunks, x)| ==> Text(AddStatement(chunks, x)[i]) != ""
  {
    var empty: Chunk := [];
    assert empty + [x] == [x];
    TextSnoc(empty, x);
    if chunks != [] {
      TextSnoc(Last(chunks), x);
    }
  }

  /** Sorting the chunk files leaves as many of them, and none is empty. */
  lemma SortedAreFilled(config: Config, texts: seq<string>, rows: seq<Row>)
    requires Sound(config) && texts == ChunkTexts(Pack(Statements(rows)))
    ensures |config.sortFiles(texts)| == |texts| && AllFilled(config.sortFiles(texts))
  {
    var sorted := config.sortFiles(texts);
    PackedAreFilled(rows);
    assert |sorted| == |multiset(sorted)| == |multiset(texts)| == |texts|;
    forall i: nat | i < |sorted|
      ensures sorted[i] != ""
    {
      assert sorted[i] in multiset(sorted);
      assert sorted[i] in multiset(texts);
    }
  }

  ghost function RunEnd(rotated: bool): Event {
    if rotated then Event.Rotate else Event.Abort
  }

  /** The events of one run, from its start to its rotation or failure. */
  ghost function RunEvents(inserts: seq<Event>, sync: seq<Event>, rotated: bool): seq<Event> {
    [Start] + inserts + (sync + [RunEnd(rotated)])
  }

  lemma StartRuns(s: State, inserts: seq<Event>, fetched: State)
    requires s.phase.Idle? && Sync.Run(s.(phase := Fetching), inserts) == Next(fetched)
    ensures Sync.Run(s, [Start] + inserts) == Next(fetched)
  {
    assert [] + [Start] == [Start];
    RunSnoc(s, [], Start);
    RunConcat(s, [Start], inserts);
  }

  lemma AbortedAtOnce(fetched: State)
    requires fetched.phase.Fetching? && fetched.pending == []
    ensures Sync.Run(fetched, [] + [RunEnd(false)]) == Next(fetched.(phase := Idle))
  {
    RunSnoc(fetched, [], Abort);
  }

  /** Nothing but the diff and rows of it being sent. */
  ghost predicate OnlySends(sync: seq<Event>) {
    forall i :: 0 <= i < |sync| ==> sync[i].WriteDiff? || sync[i].Apply?
  }

  /** A diff of which some rows have been sent, and what the run's end makes of it. */
  lemma SyncEnds(fetched: State, all: Table, sent: seq<Row>, at: seq<nat>, d1: Table, rotated: bool)
    returns (sync: seq<Event>)
    requires fetched.phase.Fetching? && fetched.pending == []
    requires all == Except(fetched.curr, fetched.prev) && Lists(sent, all)
    requires HasSent(sent, fetched.d1, at, d1) && (rotated ==> HitsAll(at, |sent|))
    ensures OnlySends(sync)
    ensures Sync.Run(fetched, sync + [RunEnd(rotated)]) ==
            Next(if rotated then State(map[], fetched.curr, d1, [], Idle)
                 else State(fetched.curr, fetched.prev, d1, [], Idle))
  {
    sync := SendEvents(sent, at);
    PartialSync(fetched, sent, at);
    RunSnoc(fetched, sync, RunEnd(rotated));
  }

  /** What is read back from the sorted chunk files is the diff. */
  lemma DiffIsSent(config: Config, rows: seq<Row>, texts: seq<string>, t: Table)
    requires Sound(config) && Lists(rows, t) && texts == ChunkTexts(Pack(Statements(rows)))
    ensures Lists(ReadAll(config.read, config.sortFiles(texts)), t)
  {
    var chunks, sorted := Pack(Statements(rows)), config.sortFiles(texts);
    assert multiset(sorted) == multiset(texts);
    PackFlattens(Statements(rows));
    ChunksRoundTrip(config.read, chunks, rows);
    ReadPermuted(config.read, sorted, texts);
    ListsPermuted(rows, ReadAll(config.read, sorted), t);
  }
}
