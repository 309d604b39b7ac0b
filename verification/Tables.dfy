/** Provider masks, and the tables that map a URL hash to the mask of the feeds that list it. */
module Tables {
  import opened Bytes

  /** The 32-bit set of providers, one bit each as the provider interface intends. */
  type Mask = bv32

  type Hash = bytes

  type Table = map<Hash, Mask>

  datatype Row = Row(h: Hash, pId: Mask)

  predicate SubMask(a: Mask, b: Mask) {
    a & b == a
  }

  /** `|` is the least upper bound of masks. */
  lemma OrIsUpperBound(a: Mask, b: Mask)
    ensures SubMask(a, a | b) && SubMask(b, a | b)
  {
  }

  lemma OrIsLeast(a: Mask, b: Mask, u: Mask)
    requires SubMask(a, u) && SubMask(b, u)
    ensures SubMask(a | b, u)
  {
    assert (a | b) & u == (a & u) | (b & u);
  }

  lemma SubMaskAntisymmetric(a: Mask, b: Mask)
    requires SubMask(a, b) && SubMask(b, a)
    ensures a == b
  {
  }

  lemma SubMaskTransitive(a: Mask, b: Mask, c: Mask)
    requires SubMask(a, b) && SubMask(b, c)
    ensures SubMask(a, c)
  {
    assert (a & b) & c == a & (b & c);
  }

  // --- The local tables ---

  /** A feed's hash arrives: insert it, or add the feed's bit to the stored mask. */
  function Upsert(t: Table, h: Hash, bit: Mask): Table {
    t[h := if h in t then t[h] | bit else bit]
  }

  lemma UpsertGrows(t: Table, h: Hash, bit: Mask, k: Hash)
    requires k in t
    ensures k in Upsert(t, h, bit) && SubMask(t[k], Upsert(t, h, bit)[k])
  {
    OrIsUpperBound(t[k], bit);
    assert SubMask(t[k], t[k]);
  }

  lemma UpsertOverStored(t: Table, h: Hash, bit: Mask, u: Mask)
    requires h in t && SubMask(t[h], u) && SubMask(bit, u)
    ensures SubMask(Upsert(t, h, bit)[h], u)
  {
    OrIsLeast(t[h], bit, u);
  }

  lemma UpsertElsewhere(t: Table, h: Hash, bit: Mask, k: Hash, u: Mask)
    requires k in t && k != h && SubMask(t[k], u)
    ensures SubMask(Upsert(t, h, bit)[k], u)
  {
  }

  lemma UpsertStaysBelow(t: Table, h: Hash, bit: Mask, k: Hash, u: Mask)
    requires k in t ==> SubMask(t[k], u)
    requires k == h ==> SubMask(bit, u)
    requires k in Upsert(t, h, bit)
    ensures SubMask(Upsert(t, h, bit)[k], u)
  {
    if k != h {
      UpsertElsewhere(t, h, bit, k, u);
    } else if k in t {
      UpsertOverStored(t, h, bit, u);
    }
  }

  /** The rows of `curr` that are not rows of `prev`. */
  function Except(curr: Table, prev: Table): Table {
    map h | h in curr && !(h in prev && prev[h] == curr[h]) :: curr[h]
  }

  // --- The remote table ---

  /** Insert-or-replace statements, one after the other. */
  function Replace(t: Table, rows: seq<Row>): Table
    decreases |rows|
  {
    if rows == [] then t else Replace(t, rows[..|rows| - 1])[rows[|rows| - 1].h := rows[|rows| - 1].pId]
  }

  /** `rows` lists the entries of `t`, each key once. */
  ghost predicate Lists(rows: seq<Row>, t: Table) {
    && (forall i, j :: 0 <= i < j < |rows| ==> rows[i].h != rows[j].h)
    && (forall r :: r in rows ==> r.h in t && t[r.h] == r.pId)
    && (forall h :: h in t ==> Row(h, t[h]) in rows)
  }

  lemma {:induction false} ReplaceConcat(t: Table, a: seq<Row>, b: seq<Row>)
    ensures Replace(t, a + b) == Replace(Replace(t, a), b)
    decreases |b|
  {
    if b == [] {
      assert a + b == a;
    } else {
      assert (a + b)[..|a + b| - 1] == a + b[..|b| - 1];
      ReplaceConcat(t, a, b[..|b| - 1]);
    }
  }

  /** The rows at some positions, in that order, repeats included. */
  function Pick(rows: seq<Row>, at: seq<nat>): (picked: seq<Row>)
    requires forall k :: 0 <= k < |at| ==> at[k] < |rows|
    ensures |picked| == |at| && forall k :: 0 <= k < |at| ==> picked[k] == rows[at[k]]
  {
    seq(|at|, k requires 0 <= k < |at| => rows[at[k]])
  }

  /** Positions in a list of `n` rows. */
  predicate Within(at: seq<nat>, n: nat) {
    forall k :: 0 <= k < |at| ==> at[k] < n
  }

  /** Every position occurs. */
  ghost predicate HitsAll(at: seq<nat>, n: nat) {
    forall i: nat :: i < n ==> i in at
  }

  ghost predicate Mentions(rows: seq<Row>, h: Hash) {
    exists r :: r in rows && r.h == h
  }

  lemma MentionsSnoc(front: seq<Row>, last: Row, h: Hash)
    ensures Mentions(front + [last], h) <==> Mentions(front, h) || h == last.h
  {
    assert forall r :: r in front + [last] <==> r in front || r == last;
  }

  /** Statements that all agree with a table `u` overwrite exactly the keys they mention. */
  lemma {:induction false} ReplaceWithin(t: Table, rows: seq<Row>, u: Table, h: Hash)
    requires forall r :: r in rows ==> r.h in u && u[r.h] == r.pId
    ensures h in Replace(t, rows) <==> h in t || Mentions(rows, h)
    ensures h in Replace(t, rows) ==>
              if Mentions(rows, h) then h in u && Replace(t, rows)[h] == u[h] else Replace(t, rows)[h] == t[h]
    decreases |rows|
  {
    if rows != [] {
      var front, last := rows[..|rows| - 1], rows[|rows| - 1];
      ReplaceWithin(t, front, u, h);
      MentionsSnoc(front, last, h);
      assert rows == front + [last] && last in rows;
    }
  }

  lemma ReplaceAll(t: Table, u: Table, rows: seq<Row>)
    requires forall r :: r in rows <==> r.h in u && u[r.h] == r.pId
    ensures Replace(t, rows) == t + u
  {
    var after := Replace(t, rows);
    forall h
      ensures h in after <==> h in t + u
      ensures h in after ==> after[h] == (t + u)[h]
    {
      ReplaceWithin(t, rows, u, h);
      assert h in u ==> Row(h, u[h]) in rows;
    }
  }

  lemma ListsEntries(rows: seq<Row>, t: Table)
    requires Lists(rows, t)
    ensures forall r :: r in rows <==> r.h in t && t[r.h] == r.pId
  {
    forall r: Row | r.h in t && t[r.h] == r.pId
      ensures r in rows
    {
      assert r == Row(r.h, t[r.h]);
    }
  }

  /** Sending the rows of a table in any order, with any repeats, as long as each is sent at least once. */
  lemma ReplacePicked(t: Table, u: Table, rows: seq<Row>, at: seq<nat>)
    requires Lists(rows, u) && Within(at, |rows|) && HitsAll(at, |rows|)
    ensures Replace(t, Pick(rows, at)) == t + u
  {
    var picked := Pick(rows, at);
    forall r | r in rows
      ensures r in picked
    {
      var i: nat :| i < |rows| && rows[i] == r;
      assert i in at;
      var k :| 0 <= k < |at| && at[k] == i;
      assert picked[k] == r;
    }
    forall r | r in picked
      ensures r in rows
    {
      var k :| 0 <= k < |picked| && picked[k] == r;
      assert rows[at[k]] == r;
    }
    ReplaceInAnyOrder(t, u, rows, picked);
  }

  /** Order and repetition do not matter: any statements drawn from the rows of a table, in which
      every row occurs at least once, leave the remote table as the rows applied once in order do. */
  lemma ReplaceInAnyOrder(t: Table, u: Table, rows: seq<Row>, other: seq<Row>)
    requires Lists(rows, u)
    requires forall r :: r in other <==> r in rows
    ensures Replace(t, other) == Replace(t, rows) == t + u
  {
    ListsEntries(rows, u);
    ReplaceAll(t, u, rows);
    ReplaceAll(t, u, other);
  }
}
