/** What concurrent feeds leave in `curr`, and what the masks say about them. */
module FeedMasks {
  import opened Tables
  import opened Sync

  /** One emitted URL: its hash and the index of the feed. */
  datatype Emit = Emit(h: Hash, feed: nat)

  /** The inserts of some emissions, in the order they happened to reach the table. */
  function Collect(t: Table, emits: seq<Emit>, bits: seq<Mask>): Table
    requires forall e :: e in emits ==> e.feed < |bits|
    decreases |emits|
  {
    if emits == [] then t
    else
      var last := emits[|emits| - 1];
      assert last in emits;
      Upsert(Collect(t, emits[..|emits| - 1], bits), last.h, bits[last.feed])
  }

  /** The same inserts as events of a run. */
  function Inserts(emits: seq<Emit>, bits: seq<Mask>): seq<Event>
    requires forall e :: e in emits ==> e.feed < |bits|
    decreases |emits|
  {
    if emits == [] then []
    else
      var last := emits[|emits| - 1];
      assert last in emits;
      Inserts(emits[..|emits| - 1], bits) + [Insert(last.h, bits[last.feed])]
  }

  lemma {:induction false} InsertsAt(emits: seq<Emit>, bits: seq<Mask>)
    requires forall e :: e in emits ==> e.feed < |bits|
    ensures |Inserts(emits, bits)| == |emits|
    ensures forall k :: 0 <= k < |emits| ==> Inserts(emits, bits)[k].Insert? && Inserts(emits, bits)[k].h == emits[k].h
    decreases |emits|
  {
    if emits != [] {
      InsertsAt(emits[..|emits| - 1], bits);
    }
  }

  /** The fetching phase of a run collects the emissions. */
  lemma {:induction false} FetchingCollects(s: State, emits: seq<Emit>, bits: seq<Mask>)
    requires s.phase.Fetching? && forall e :: e in emits ==> e.feed < |bits|
    ensures Run(s, Inserts(emits, bits)) == Next(s.(curr := Collect(s.curr, emits, bits)))
    decreases |emits|
  {
    if emits != [] {
      var front, last := emits[..|emits| - 1], emits[|emits| - 1];
      assert last in emits;
      FetchingCollects(s, front, bits);
      RunSnoc(s, Inserts(front, bits), Insert(last.h, bits[last.feed]));
    }
  }

  ghost predicate EmittedBy(emits: seq<Emit>, h: Hash, feed: nat) {
    Emit(h, feed) in emits
  }

  ghost predicate Known(t: Table, emits: seq<Emit>, h: Hash) {
    h in t || exists e :: e in emits && e.h == h
  }

  /** `m` is the union of the mask already stored for `h` and the bits of the feeds that emitted it. */
  ghost predicate IsUnion(t: Table, emits: seq<Emit>, bits: seq<Mask>, h: Hash, m: Mask)
    requires forall e :: e in emits ==> e.feed < |bits|
  {
    && Covered(t, emits, bits, h, m)
    && forall u :: Covered(t, emits, bits, h, u) ==> SubMask(m, u)
  }

  ghost predicate Covered(t: Table, emits: seq<Emit>, bits: seq<Mask>, h: Hash, u: Mask)
    requires forall e :: e in emits ==> e.feed < |bits|
  {
    && (h in t ==> SubMask(t[h], u))
    && (forall e :: e in emits && e.h == h ==> SubMask(bits[e.feed], u))
  }

  lemma CoveredSnoc(t: Table, front: seq<Emit>, last: Emit, bits: seq<Mask>, h: Hash, u: Mask)
    requires last.feed < |bits| && forall e :: e in front ==> e.feed < |bits|
    ensures forall e :: e in front + [last] ==> e.feed < |bits|
    ensures Covered(t, front + [last], bits, h, u) <==>
            Covered(t, front, bits, h, u) && (last.h == h ==> SubMask(bits[last.feed], u))
  {
    assert forall e :: e in front + [last] <==> e in front || e == last;
  }

  lemma {:induction false} CollectKeys(t: Table, emits: seq<Emit>, bits: seq<Mask>, h: Hash)
    requires forall e :: e in emits ==> e.feed < |bits|
    ensures h in Collect(t, emits, bits) <==> Known(t, emits, h)
    decreases |emits|
  {
    if emits != [] {
      var front, last := emits[..|emits| - 1], emits[|emits| - 1];
      assert emits == front + [last];
      assert forall e :: e in emits <==> e in front || e == last;
      CollectKeys(t, front, bits, h);
    }
  }

  /** A hash is in the table exactly when it was there or was emitted, with the union of all the bits. */
  lemma {:induction false} CollectIsUnion(t: Table, emits: seq<Emit>, bits: seq<Mask>, h: Hash)
    requires forall e :: e in emits ==> e.feed < |bits|
    ensures h in Collect(t, emits, bits) <==> Known(t, emits, h)
    ensures h in Collect(t, emits, bits) ==> IsUnion(t, emits, bits, h, Collect(t, emits, bits)[h])
    decreases |emits|
  {
    CollectKeys(t, emits, bits, h);
    if emits == [] {
      NothingAdded(t, bits, h);
    } else {
      var front, last := emits[..|emits| - 1], emits[|emits| - 1];
      assert emits == front + [last] && last in emits;
      assert forall e :: e in front ==> e in emits;
      CollectIsUnion(t, front, bits, h);
      if h in Collect(t, emits, bits) {
        UnionSnoc(t, front, last, bits, h);
      }
    }
  }

  lemma NothingAdded(t: Table, bits: seq<Mask>, h: Hash)
    ensures h in t ==> IsUnion(t, [], bits, h, t[h])
  {
    assert h in t ==> SubMask(t[h], t[h]);
  }

  /** One more emission: the union of what was stored before and the bit of its feed. */
  lemma UnionSnoc(t: Table, front: seq<Emit>, last: Emit, bits: seq<Mask>, h: Hash)
    requires last.feed < |bits| && forall e :: e in front ==> e.feed < |bits|
    requires forall e :: e in front + [last] ==> e.feed < |bits|
    requires h in Collect(t, front, bits) ==> IsUnion(t, front, bits, h, Collect(t, front, bits)[h])
    requires h !in Collect(t, front, bits) ==> !Known(t, front, h)
    requires h in Upsert(Collect(t, front, bits), last.h, bits[last.feed])
    ensures IsUnion(t, front + [last], bits, h, Upsert(Collect(t, front, bits), last.h, bits[last.feed])[h])
  {
    forall u | Covered(t, front + [last], bits, h, u)
      ensures SubMask(Upsert(Collect(t, front, bits), last.h, bits[last.feed])[h], u)
    {
      UnionIsLeast(t, front, last, bits, h, u);
    }
    UnionCovers(t, front, last, bits, h);
  }

  lemma UnionIsLeast(t: Table, front: seq<Emit>, last: Emit, bits: seq<Mask>, h: Hash, u: Mask)
    requires last.feed < |bits| && forall e :: e in front + [last] ==> e.feed < |bits|
    requires forall e :: e in front ==> e.feed < |bits|
    requires h in Collect(t, front, bits) ==> IsUnion(t, front, bits, h, Collect(t, front, bits)[h])
    requires h in Upsert(Collect(t, front, bits), last.h, bits[last.feed])
    requires Covered(t, front + [last], bits, h, u)
    ensures SubMask(Upsert(Collect(t, front, bits), last.h, bits[last.feed])[h], u)
  {
    var before := Collect(t, front, bits);
    CoveredSnoc(t, front, last, bits, h, u);
    UpsertStaysBelow(before, last.h, bits[last.feed], h, u);
  }

  lemma UnionCovers(t: Table, front: seq<Emit>, last: Emit, bits: seq<Mask>, h: Hash)
    requires last.feed < |bits| && forall e :: e in front ==> e.feed < |bits|
    requires h in Collect(t, front, bits) ==> Covered(t, front, bits, h, Collect(t, front, bits)[h])
    requires h !in Collect(t, front, bits) ==> !Known(t, front, h)
    requires h in Upsert(Collect(t, front, bits), last.h, bits[last.feed])
    ensures forall e :: e in front + [last] ==> e.feed < |bits|
    ensures Covered(t, front + [last], bits, h, Upsert(Collect(t, front, bits), last.h, bits[last.feed])[h])
  {
    var before := Collect(t, front, bits);
    var m := Upsert(before, last.h, bits[last.feed])[h];
    if h in before {
      UpsertGrows(before, last.h, bits[last.feed], h);
      CoveredGrows(t, front, bits, h, before[h], m);
      OrIsUpperBound(before[h], bits[last.feed]);
    } else {
      assert SubMask(m, m);
    }
    CoveredSnoc(t, front, last, bits, h, m);
  }

  lemma CoveredGrows(t: Table, emits: seq<Emit>, bits: seq<Mask>, h: Hash, m: Mask, u: Mask)
    requires forall e :: e in emits ==> e.feed < |bits|
    requires Covered(t, emits, bits, h, m) && SubMask(m, u)
    ensures Covered(t, emits, bits, h, u)
  {
    if h in t {
      SubMaskTransitive(t[h], m, u);
    }
    forall e | e in emits && e.h == h
      ensures SubMask(bits[e.feed], u)
    {
      SubMaskTransitive(bits[e.feed], m, u);
    }
  }

  /** Every interleaving of the feeds, with any duplicates, builds the same table. */
  lemma InterleavingDoesNotMatter(t: Table, emits1: seq<Emit>, emits2: seq<Emit>, bits: seq<Mask>)
    requires forall e :: e in emits1 ==> e.feed < |bits|
    requires forall e :: e in emits1 <==> e in emits2
    ensures Collect(t, emits1, bits) == Collect(t, emits2, bits)
  {
    var t1, t2 := Collect(t, emits1, bits), Collect(t, emits2, bits);
    forall h
      ensures h in t1 <==> h in t2
      ensures h in t1 ==> t1[h] == t2[h]
    {
      CollectIsUnion(t, emits1, bits, h);
      CollectIsUnion(t, emits2, bits, h);
      assert Known(t, emits1, h) <==> Known(t, emits2, h);
      if h in t1 {
        assert forall u :: Covered(t, emits1, bits, h, u) <==> Covered(t, emits2, bits, h, u);
        SubMaskAntisymmetric(t1[h], t2[h]);
      }
    }
  }

  // --- Reading feeds back from masks ---

  predicate Apart(a: Mask, b: Mask) {
    a & b == 0
  }

  /** Every feed has a bit of its own. */
  ghost predicate Disjoint(bits: seq<Mask>) {
    && (forall i :: 0 <= i < |bits| ==> bits[i] != 0)
    && (forall i, j :: 0 <= i < |bits| && 0 <= j < |bits| && i != j ==> Apart(bits[i], bits[j]))
  }

  /** The per-feed test on the stored mask. */
  predicate Claims(t: Table, h: Hash, bit: Mask) {
    h in t && !Apart(t[h], bit)
  }

  /** The stored masks tell exactly which feed emitted which hash, for every sequence of emissions. */
  ghost predicate MasksIdentifyFeeds(bits: seq<Mask>) {
    forall emits: seq<Emit>, h: Hash, feed: nat ::
      (forall e :: e in emits ==> e.feed < |bits|) && feed < |bits| ==>
        (Claims(Collect(map[], emits, bits), h, bits[feed]) <==> EmittedBy(emits, h, feed))
  }

  lemma EmittedIsClaimed(bits: seq<Mask>, emits: seq<Emit>, h: Hash, feed: nat, m: Mask)
    requires feed < |bits| && bits[feed] != 0
    requires forall e :: e in emits ==> e.feed < |bits|
    requires Covered(map[], emits, bits, h, m) && EmittedBy(emits, h, feed)
    ensures !Apart(m, bits[feed])
  {
    assert Emit(h, feed).h == h;
    assert SubMask(bits[feed], m);
    SharedBit(bits[feed], m);
  }

  lemma OrKeepsApart(a: Mask, b: Mask, c: Mask)
    requires Apart(a, c) && Apart(b, c)
    ensures Apart(a | b, c)
  {
    assert (a | b) & c == (a & c) | (b & c);
  }

  lemma {:induction false} SilentIsNotClaimed(bits: seq<Mask>, emits: seq<Emit>, h: Hash, feed: nat)
    requires Disjoint(bits) && feed < |bits|
    requires forall e :: e in emits ==> e.feed < |bits|
    requires !EmittedBy(emits, h, feed) && h in Collect(map[], emits, bits)
    ensures Apart(Collect(map[], emits, bits)[h], bits[feed])
    decreases |emits|
  {
    var front, last := emits[..|emits| - 1], emits[|emits| - 1];
    assert last in emits && forall e :: e in front ==> e in emits;
    var before := Collect(map[], front, bits);
    if h in before {
      SilentIsNotClaimed(bits, front, h, feed);
    }
    if last.h == h {
      assert last == Emit(h, last.feed) && last.feed != feed;
      if h in before {
        OrKeepsApart(before[h], bits[last.feed], bits[feed]);
      }
    }
  }

  lemma DisjointBitsIdentify(bits: seq<Mask>, emits: seq<Emit>, h: Hash, feed: nat)
    requires Disjoint(bits) && feed < |bits|
    requires forall e :: e in emits ==> e.feed < |bits|
    ensures Claims(Collect(map[], emits, bits), h, bits[feed]) <==> EmittedBy(emits, h, feed)
  {
    var t := Collect(map[], emits, bits);
    CollectIsUnion(map[], emits, bits, h);
    assert EmittedBy(emits, h, feed) ==> Known(map[], emits, h) by {
      assert Emit(h, feed).h == h;
    }
    if EmittedBy(emits, h, feed) {
      EmittedIsClaimed(bits, emits, h, feed, t[h]);
    } else if h in t {
      SilentIsNotClaimed(bits, emits, h, feed);
    }
  }

  lemma SharedBit(a: Mask, m: Mask)
    requires SubMask(a, m) && a != 0
    ensures !Apart(m, a)
  {
    assert m & a == a & m;
  }

  /** The per-feed count over the stored masks is the number of different hashes the feed emitted. */
  lemma FeedCount(bits: seq<Mask>, emits: seq<Emit>, feed: nat)
    requires Disjoint(bits) && feed < |bits|
    requires forall e :: e in emits ==> e.feed < |bits|
    ensures var t := Collect(map[], emits, bits);
            |set h | h in t && Claims(t, h, bits[feed])| == |set e | e in emits && e.feed == feed :: e.h|
  {
    var t := Collect(map[], emits, bits);
    forall h
      ensures (h in t && Claims(t, h, bits[feed])) <==> EmittedBy(emits, h, feed)
    {
      DisjointBitsIdentify(bits, emits, h, feed);
    }
    assert (set h | h in t && Claims(t, h, bits[feed])) == (set e | e in emits && e.feed == feed :: e.h) by {
      assert forall e :: e in emits && e.feed == feed ==> EmittedBy(emits, e.h, feed);
    }
  }

  lemma OneEmit(bits: seq<Mask>, feed: nat)
    requires feed < |bits|
    ensures Collect(map[], [Emit([], feed)], bits) == map[[] := bits[feed]]
  {
    var emits := [Emit([], feed)];
    assert emits[..0] == [];
  }

  /** Reading the feeds back works exactly when every feed has a non-zero bit mask that overlaps no other. */
  lemma IdentifyExact(bits: seq<Mask>)
    ensures MasksIdentifyFeeds(bits) <==> Disjoint(bits)
  {
    if Disjoint(bits) {
      forall emits: seq<Emit>, h: Hash, feed: nat | (forall e :: e in emits ==> e.feed < |bits|) && feed < |bits|
        ensures Claims(Collect(map[], emits, bits), h, bits[feed]) <==> EmittedBy(emits, h, feed)
      {
        DisjointBitsIdentify(bits, emits, h, feed);
      }
    }
    if MasksIdentifyFeeds(bits) {
      forall i: nat, j: nat | i < |bits| && j < |bits|
        ensures !Apart(bits[i], bits[j]) <==> i == j
      {
        OneEmit(bits, i);
        var emits := [Emit([], i)];
        assert Claims(Collect(map[], emits, bits), [], bits[j]) <==> EmittedBy(emits, [], j);
      }
      forall i | 0 <= i < |bits|
        ensures bits[i] != 0
      {
        assert !Apart(bits[i], bits[i]);
      }
    }
  }

  /** The values the five feeds ship are numbers, not bits: a hash known to the third feed
      alone is also counted for the first and the second. */
  lemma ShippedBitsOverlap()
    ensures !MasksIdentifyFeeds([1, 2, 3, 4, 5])
    ensures var t := Collect(map[], [Emit([], 2)], [1, 2, 3, 4, 5]);
            Claims(t, [], 1) && Claims(t, [], 2)
  {
    var bits: seq<Mask> := [1, 2, 3, 4, 5];
    OneEmit(bits, 2);
    IdentifyExact(bits);
    assert !Apart(bits[0], bits[2]);
  }
}
