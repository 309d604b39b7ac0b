/** Packing statements into size-bounded chunks, each statement into the open chunk if it still fits. */
module Chunking {
  import opened Bytes
  import opened SqlText
  import opened Tables

  const MAX_CHUNK_SIZE: nat := 90 * 1024

  /** The statements of one chunk file. */
  type Chunk = seq<string>

  function Size(c: Chunk): nat
    decreases |c|
  {
    if c == [] then 0 else Size(c[..|c| - 1]) + |c[|c| - 1]|
  }

  function Flatten<T>(groups: seq<seq<T>>): seq<T>
    decreases |groups|
  {
    if groups == [] then [] else Flatten(groups[..|groups| - 1]) + groups[|groups| - 1]
  }

  function Init<T>(s: seq<T>): seq<T>
    requires s != []
  {
    s[..|s| - 1]
  }

  function Last<T>(s: seq<T>): T
    requires s != []
  {
    s[|s| - 1]
  }

  /** One more statement: a new chunk when none is open or the open one would overflow. */
  function AddStatement(chunks: seq<Chunk>, x: string): seq<Chunk> {
    if chunks == [] || Size(Last(chunks)) + |x| > MAX_CHUNK_SIZE then chunks + [[x]]
    else Init(chunks) + [Last(chunks) + [x]]
  }

  function Pack(items: seq<string>): seq<Chunk>
    decreases |items|
  {
    if items == [] then [] else AddStatement(Pack(Init(items)), Last(items))
  }

  /** A split of statements into non-empty chunks within the bound. */
  ghost predicate Fits(chunks: seq<Chunk>) {
    forall c :: c in chunks ==> c != [] && Size(c) <= MAX_CHUNK_SIZE
  }

  ghost predicate IsSplit(chunks: seq<Chunk>, items: seq<string>) {
    Fits(chunks) && Flatten(chunks) == items
  }

  lemma SizeSnoc(c: Chunk, x: string)
    ensures Size(c + [x]) == Size(c) + |x|
  {
    assert Init(c + [x]) == c;
  }

  lemma {:induction false} SizeIsTextLength(c: Chunk)
    ensures |Text(c)| == Size(c)
    decreases |c|
  {
    if c != [] {
      SizeIsTextLength(Init(c));
    }
  }

  lemma FlattenSnoc<T>(groups: seq<seq<T>>, g: seq<T>)
    ensures Flatten(groups + [g]) == Flatten(groups) + g
  {
    assert Init(groups + [g]) == groups;
  }

  lemma {:induction false} FlattenConcat<T>(a: seq<seq<T>>, b: seq<seq<T>>)
    ensures Flatten(a + b) == Flatten(a) + Flatten(b)
    decreases |b|
  {
    if b == [] {
      assert a + b == a;
    } else {
      FlattenConcat(a, Init(b));
      assert Init(a + b) == a + Init(b);
      ConcatAssociates(Flatten(a), Flatten(Init(b)), Last(b));
    }
  }

  /** Adding a statement that fits in a chunk keeps every chunk within the bound. */
  lemma AddStatementFits(chunks: seq<Chunk>, x: string)
    requires |x| <= MAX_CHUNK_SIZE && Fits(chunks)
    ensures Fits(AddStatement(chunks, x))
  {
    SizeSnoc([], x);
    assert [] + [x] == [x];
    if chunks != [] {
      SizeSnoc(Last(chunks), x);
      assert forall c :: c in Init(chunks) ==> c in chunks;
    }
  }

  lemma InitMembers<T>(s: seq<T>)
    requires s != []
    ensures forall x :: x in Init(s) ==> x in s
    ensures Last(s) in s
  {
  }

  /** Whatever their sizes, no statement is lost, repeated or moved. */
  lemma {:induction false} PackFlattens(items: seq<string>)
    ensures Flatten(Pack(items)) == items
    decreases |items|
  {
    if items != [] {
      var before, x := Pack(Init(items)), Last(items);
      PackFlattens(Init(items));
      if before == [] || Size(Last(before)) + |x| > MAX_CHUNK_SIZE {
        FlattenSnoc(before, [x]);
      } else {
        FlattenSnoc(Init(before), Last(before) + [x]);
        ConcatAssociates(Flatten(Init(before)), Last(before), [x]);
      }
    }
  }

  lemma {:induction false} PackFits(items: seq<string>)
    requires forall x :: x in items ==> |x| <= MAX_CHUNK_SIZE
    ensures Fits(Pack(items))
    decreases |items|
  {
    if items != [] {
      InitMembers(items);
      PackFits(Init(items));
      AddStatementFits(Pack(Init(items)), Last(items));
    }
  }

  /** The chunks hold the statements in order, none is empty and none exceeds the bound. */
  lemma PackIsSplit(items: seq<string>)
    requires forall x :: x in items ==> |x| <= MAX_CHUNK_SIZE
    ensures IsSplit(Pack(items), items)
  {
    PackFits(items);
    PackFlattens(items);
  }

  /** The last statement of a split, and a split of the others: the chunk it leaves either
      disappears or becomes smaller. */
  lemma DropLastStatement(chunks: seq<Chunk>, items: seq<string>) returns (rest: seq<Chunk>)
    requires IsSplit(chunks, items) && items != []
    ensures chunks != [] && IsSplit(rest, Init(items))
    ensures DropsLast(chunks, Last(items), rest)
  {
    assert chunks != [];
    var last := Last(chunks);
    assert last in chunks && last != [];
    assert Flatten(chunks) == Flatten(Init(chunks)) + last;
    assert Last(last) == Last(items);
    assert forall c :: c in Init(chunks) ==> c in chunks;
    if last == [Last(items)] {
      rest := Init(chunks);
      assert Init(items) == Flatten(rest);
    } else {
      rest := Init(chunks) + [Init(last)];
      FlattenSnoc(Init(chunks), Init(last));
      assert Init(items) == Flatten(Init(chunks)) + Init(last);
      assert last == Init(last) + [Last(last)];
      assert Init(last) != [];
    }
  }

  /** Packing stays ahead of every other split: it never uses more chunks, and with
      as many chunks its open one is at least as empty. */
  lemma {:induction false} PackStaysAhead(items: seq<string>, other: seq<Chunk>)
    requires IsSplit(other, items)
    ensures |Pack(items)| <= |other|
    ensures items != [] && |Pack(items)| == |other| ==> Size(Last(Pack(items))) <= Size(Last(other))
    decreases |items|
  {
    if items != [] {
      var rest := DropLastStatement(other, items);
      PackStaysAhead(Init(items), rest);
      assert Last(other) in other;
      AddStaysAhead(Pack(Init(items)), Last(items), rest, other);
    }
  }

  /** `rest` is what is left of the chunks of `other` without their last statement. */
  ghost predicate DropsLast(other: seq<Chunk>, x: string, rest: seq<Chunk>)
    requires other != []
  {
    if Last(other) == [x] then rest == Init(other)
    else rest != [] && |rest| == |other| && Size(Last(other)) == Size(Last(rest)) + |x|
  }

  lemma AddStaysAhead(before: seq<Chunk>, x: string, rest: seq<Chunk>, other: seq<Chunk>)
    requires other != [] && DropsLast(other, x, rest) && Size(Last(other)) <= MAX_CHUNK_SIZE
    requires |before| <= |rest|
    requires before != [] && |before| == |rest| ==> Size(Last(before)) <= Size(Last(rest))
    ensures |AddStatement(before, x)| <= |other|
    ensures |AddStatement(before, x)| == |other| ==> Size(Last(AddStatement(before, x))) <= Size(Last(other))
  {
    SizeSnoc([], x);
    assert [] + [x] == [x];
    if before != [] {
      SizeSnoc(Last(before), x);
    }
  }

  /** No order-preserving split of the statements within the bound has fewer chunks. */
  lemma PackIsOptimal(items: seq<string>, other: seq<Chunk>)
    requires forall x :: x in items ==> |x| <= MAX_CHUNK_SIZE
    requires IsSplit(other, items)
    ensures IsSplit(Pack(items), items) && |Pack(items)| <= |other|
  {
    PackIsSplit(items);
    PackStaysAhead(items, other);
  }

  // --- Rows and chunk texts ---

  /** The chunk files written for some rows. */
  function ChunkTexts(chunks: seq<Chunk>): (texts: seq<string>)
    ensures |texts| == |chunks|
    ensures forall i :: 0 <= i < |chunks| ==> texts[i] == Text(chunks[i])
  {
    seq(|chunks|, i requires 0 <= i < |chunks| => Text(chunks[i]))
  }

  /** The rows of consecutive texts, for a given way of reading one. */
  function ReadAll(read: string -> seq<Row>, texts: seq<string>): seq<Row>
    decreases |texts|
  {
    if texts == [] then [] else ReadAll(read, Init(texts)) + read(Last(texts))
  }

  /** A way of reading SQL that finds in the text of some statements the rows they were made from. */
  ghost predicate ReadsStatements(read: string -> seq<Row>) {
    forall rows :: read(Text(Statements(rows))) == rows
  }

  /** Reading a text with the SQL reader, which reads every text of statements. */
  function RowsIn(text: string): seq<Row> {
    var rows := ReadRows(text);
    if rows.Some? then rows.value else []
  }

  lemma RowsInReadsStatements()
    ensures ReadsStatements(RowsIn)
  {
    forall rows
      ensures RowsIn(Text(Statements(rows))) == rows
    {
      RowsRoundTrip(rows);
    }
  }

  lemma StatementsCut(rows: seq<Row>, a: seq<string>, b: seq<string>)
    requires Statements(rows) == a + b
    ensures |a| <= |rows|
    ensures a == Statements(rows[..|a|]) && b == Statements(rows[|a|..])
  {
    var all := Statements(rows);
    assert a == all[..|a|] && b == all[|a|..];
  }

  lemma ReadSnoc(read: string -> seq<Row>, chunks: seq<Chunk>)
    requires chunks != []
    ensures ReadAll(read, ChunkTexts(chunks)) == ReadAll(read, ChunkTexts(Init(chunks))) + read(Text(Last(chunks)))
  {
    assert Init(ChunkTexts(chunks)) == ChunkTexts(Init(chunks));
  }

  lemma CutAtLastChunk(read: string -> seq<Row>, chunks: seq<Chunk>, rows: seq<Row>) returns (n: nat)
    requires ReadsStatements(read) && chunks != [] && Flatten(chunks) == Statements(rows)
    ensures n <= |rows| && rows == rows[..n] + rows[n..]
    ensures Flatten(Init(chunks)) == Statements(rows[..n]) && read(Text(Last(chunks))) == rows[n..]
  {
    n := CutRows(chunks, rows);
    ReadsBack(read, rows[n..]);
  }

  lemma CutRows(chunks: seq<Chunk>, rows: seq<Row>) returns (n: nat)
    requires chunks != [] && Flatten(chunks) == Statements(rows)
    ensures n <= |rows| && rows == rows[..n] + rows[n..]
    ensures Flatten(Init(chunks)) == Statements(rows[..n]) && Last(chunks) == Statements(rows[n..])
  {
    n := |Flatten(Init(chunks))|;
    StatementsCut(rows, Flatten(Init(chunks)), Last(chunks));
    assert rows == rows[..n] + rows[n..];
  }

  lemma ReadsBack(read: string -> seq<Row>, rows: seq<Row>)
    requires ReadsStatements(read)
    ensures read(Text(Statements(rows))) == rows
  {
  }

  /** Chunks that split the statements of some rows are read back as these rows. */
  lemma {:induction false} ChunksRoundTrip(read: string -> seq<Row>, chunks: seq<Chunk>, rows: seq<Row>)
    requires ReadsStatements(read) && Flatten(chunks) == Statements(rows)
    ensures ReadAll(read, ChunkTexts(chunks)) == rows
    decreases |chunks|
  {
    if chunks == [] {
      assert |Statements(rows)| == |rows| == 0;
    } else {
      var n := CutAtLastChunk(read, chunks, rows);
      ChunksRoundTrip(read, Init(chunks), rows[..n]);
      ReadSnoc(read, chunks);
    }
  }

  /** A split of the statements into non-empty chunks of at most `bound` characters. */
  ghost predicate SplitWithin(chunks: seq<Chunk>, items: seq<string>, bound: nat) {
    Flatten(chunks) == items && forall i :: 0 <= i < |chunks| ==> chunks[i] != [] && |Text(chunks[i])| <= bound
  }

  lemma SplitWithinFits(chunks: seq<Chunk>, items: seq<string>)
    requires SplitWithin(chunks, items, 90 * 1024)
    ensures IsSplit(chunks, items)
  {
    forall c | c in chunks
      ensures c != [] && Size(c) <= MAX_CHUNK_SIZE
    {
      var i :| 0 <= i < |chunks| && chunks[i] == c;
      SizeIsTextLength(c);
    }
  }

  /** The chunks of a diff of SHA-256 hashes: the statements in order, every file non-empty and within
      the bound, and no other way to cut them needs fewer files. */
  lemma DiffChunks(rows: seq<Row>, other: seq<Chunk>)
    requires forall r :: r in rows ==> |r.h| == 32
    ensures var chunks := Pack(Statements(rows));
            && IsSplit(chunks, Statements(rows))
            && (forall text :: text in ChunkTexts(chunks) ==> 0 < |text| <= 90 * 1024)
            && (SplitWithin(other, Statements(rows), 90 * 1024) ==> |chunks| <= |other|)
  {
    var items := Statements(rows);
    forall x | x in items
      ensures |x| <= MAX_CHUNK_SIZE
    {
      var i :| 0 <= i < |rows| && items[i] == x;
      assert rows[i] in rows;
      StatementLength(rows[i]);
    }
    PackIsSplit(items);
    if SplitWithin(other, items, 90 * 1024) {
      SplitWithinFits(other, items);
      PackIsOptimal(items, other);
    }
    DiffTexts(Pack(items), rows);
  }

  lemma DiffTexts(chunks: seq<Chunk>, rows: seq<Row>)
    requires IsSplit(chunks, Statements(rows))
    ensures forall text :: text in ChunkTexts(chunks) ==> 0 < |text| <= MAX_CHUNK_SIZE
  {
    forall text | text in ChunkTexts(chunks)
      ensures 0 < |text| <= MAX_CHUNK_SIZE
    {
      var i :| 0 <= i < |chunks| && ChunkTexts(chunks)[i] == text;
      assert chunks[i] in chunks;
      SizeIsTextLength(chunks[i]);
      FlattenMembers(chunks, i);
      var x := Last(chunks[i]);
      assert x in Flatten(chunks);
      var k :| 0 <= k < |rows| && Statements(rows)[k] == x;
      assert |x| > 0;
    }
  }

  lemma {:induction false} FlattenMembers<T>(groups: seq<seq<T>>, i: nat)
    requires i < |groups|
    ensures forall x :: x in groups[i] ==> x in Flatten(groups)
    decreases |groups|
  {
    if i < |groups| - 1 {
      FlattenMembers(Init(groups), i);
    }
  }
}
