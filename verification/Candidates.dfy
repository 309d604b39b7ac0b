/** Patterns and the candidate patterns of a looked-up URL. */
module Candidates {
  import opened Bytes
  import opened PercentEncoding
  import opened PercentDecoding
  import opened CanonPath
  import opened HostSuffixes
  import opened LookupPaths

  datatype Parts = Parts(host: bytes, path: bytes, query: bytes)

  function Pattern(p: Parts): bytes {
    if p.query != [] then p.host + p.path + [QUESTION] + p.query else p.host + p.path
  }

  /** What the canonicalizer returns: a well-formed host, a canonical path and a canonical query. */
  predicate CanonicalParts(p: Parts) {
    IsHost(p.host) && IsCanonicalPath(p.path) && CanonQuery(p.query) == Some(p.query)
  }

  // --- Patterns ---

  lemma PatternCut(p: Parts)
    requires CanonicalParts(p)
    ensures Pattern(p) == p.host + WithQuery(p.path, p.query)
    ensures SLASH !in p.host && QUESTION !in p.path && WithQuery(p.path, p.query)[0] == SLASH
  {
    HostBytes(p.host);
    CanonicalPathBytes(p.path);
    if p.query != [] {
      assert Pattern(p) == p.host + (p.path + [QUESTION] + p.query);
    }
  }

  lemma WithQueryInjective(path1: bytes, query1: bytes, path2: bytes, query2: bytes)
    requires QUESTION !in path1 && QUESTION !in path2
    requires WithQuery(path1, query1) == WithQuery(path2, query2)
    ensures path1 == path2 && query1 == query2
  {
    var x: bytes := if query1 == [] then [] else [QUESTION] + query1;
    var y: bytes := if query2 == [] then [] else [QUESTION] + query2;
    assert WithQuery(path1, query1) == path1 + x && WithQuery(path2, query2) == path2 + y;
    CutIsUnique(path1, x, path2, y, QUESTION);
    assert query1 == if x == [] then [] else x[1..];
    assert query2 == if y == [] then [] else y[1..];
  }

  /** Different canonical URLs never share a pattern. */
  lemma PatternInjective(p: Parts, q: Parts)
    requires CanonicalParts(p) && CanonicalParts(q)
    requires Pattern(p) == Pattern(q)
    ensures p == q
  {
    PatternCut(p);
    PatternCut(q);
    CutIsUnique(p.host, WithQuery(p.path, p.query), q.host, WithQuery(q.path, q.query), SLASH);
    WithQueryInjective(p.path, p.query, q.path, q.query);
  }

  /** Nor do URLs whose cleaned, decoded paths or decoded queries differ. */
  lemma PatternSeparatesCleanUrls(host1: bytes, path1: bytes, query1: bytes, host2: bytes, path2: bytes, query2: bytes)
    requires IsHost(host1) && CanonicalPath(path1).Some? && CanonQuery(query1).Some?
    requires IsHost(host2) && CanonicalPath(path2).Some? && CanonQuery(query2).Some?
    ensures Pattern(Parts(host1, CanonicalPath(path1).value, CanonQuery(query1).value)) ==
            Pattern(Parts(host2, CanonicalPath(path2).value, CanonQuery(query2).value)) <==>
            && host1 == host2
            && CleanPath(Normal(path1)) == CleanPath(Normal(path2))
            && Normal(query1) == Normal(query2)
  {
    var p := Parts(host1, CanonicalPath(path1).value, CanonQuery(query1).value);
    var q := Parts(host2, CanonicalPath(path2).value, CanonQuery(query2).value);
    CanonicalPathIdempotent(path1);
    CanonicalPathIdempotent(path2);
    CanonQueryIdempotent(query1);
    CanonQueryIdempotent(query2);
    RecursiveUnescapeExact(path1);
    RecursiveUnescapeExact(path2);
    CanonQuerySeparates(query1, query2);
    if Pattern(p) == Pattern(q) {
      PatternInjective(p, q);
      EscapeInjective(CleanPath(Normal(path1)), CleanPath(Normal(path2)), PATH_EXTRA);
    }
  }

  // --- Candidates ---

  function Row(host: bytes, paths: seq<bytes>): (row: seq<bytes>)
    ensures |row| == |paths| && forall i :: 0 <= i < |paths| ==> row[i] == host + paths[i]
    decreases |paths|
  {
    if paths == [] then [] else [host + paths[0]] + Row(host, paths[1..])
  }

  function AllPairs(hosts: seq<bytes>, paths: seq<bytes>): seq<bytes>
    decreases |hosts|
  {
    if hosts == [] then [] else Row(hosts[0], paths) + AllPairs(hosts[1..], paths)
  }

  /** `out` followed by the elements of `s` not seen before. */
  function AppendNew(out: seq<bytes>, s: seq<bytes>): seq<bytes>
    decreases |s|
  {
    if s == [] then out else AppendNew(if s[0] in out then out else out + [s[0]], s[1..])
  }

  function CandidatesOf(p: Parts): seq<bytes> {
    AppendNew([], AllPairs(LookupHosts(p.host), PathsOf(p.path, p.query)))
  }

  lemma {:induction false} AppendNewConcat(out: seq<bytes>, a: seq<bytes>, b: seq<bytes>)
    ensures AppendNew(out, a + b) == AppendNew(AppendNew(out, a), b)
    decreases |a|
  {
    if a == [] {
      assert a + b == b;
    } else {
      assert (a + b)[1..] == a[1..] + b;
      AppendNewConcat(if a[0] in out then out else out + [a[0]], a[1..], b);
    }
  }

  lemma AppendPairsStep(out: seq<bytes>, hosts: seq<bytes>, paths: seq<bytes>, i: nat)
    requires i < |hosts|
    ensures AppendNew(out, AllPairs(hosts[i..], paths)) ==
            AppendNew(AppendNew(out, Row(hosts[i], paths)), AllPairs(hosts[i + 1..], paths))
  {
    assert hosts[i..][1..] == hosts[i + 1..];
    AppendNewConcat(out, Row(hosts[i], paths), AllPairs(hosts[i + 1..], paths));
  }

  lemma AppendRowStep(out: seq<bytes>, host: bytes, paths: seq<bytes>, j: nat)
    requires j < |paths|
    ensures var c := host + paths[j];
            AppendNew(out, Row(host, paths[j..])) ==
            AppendNew(if c in out then out else out + [c], Row(host, paths[j + 1..]))
  {
    assert paths[j..][1..] == paths[j + 1..];
    assert Row(host, paths[j..])[1..] == Row(host, paths[j + 1..]);
  }

  method GenerateCandidates(p: Parts) returns (out: seq<bytes>)
    ensures out == CandidatesOf(p)
  {
    var hosts := GenerateLookupHosts(p.host, false);
    var paths := GenerateLookupPaths(p.path, p.query);
    out := CombineAll(hosts, paths);
  }

  /** Every host with every path, each string once. */
  method CombineAll(hosts: seq<bytes>, paths: seq<bytes>) returns (out: seq<bytes>)
    ensures out == AppendNew([], AllPairs(hosts, paths))
  {
    out := [];
    var seen: set<bytes> := {};
    assert hosts[0..] == hosts;
    for i := 0 to |hosts|
      invariant AppendNew(out, AllPairs(hosts[i..], paths)) == AppendNew([], AllPairs(hosts, paths))
      invariant forall c :: c in seen <==> c in out
    {
      var h := hosts[i];
      AppendPairsStep(out, hosts, paths, i);
      assert paths[0..] == paths;
      ghost var after := AppendNew(out, Row(h, paths));
      for j := 0 to |paths|
        invariant AppendNew(out, Row(h, paths[j..])) == after
        invariant forall c :: c in seen <==> c in out
      {
        AppendRowStep(out, h, paths, j);
        var c := h + paths[j];
        if c in seen {
          continue;
        }
        seen := seen + {c};
        out := out + [c];
      }
      assert out == after;
    }
  }

  lemma {:induction false} AppendNewMembers(out: seq<bytes>, s: seq<bytes>, c: bytes)
    ensures c in AppendNew(out, s) <==> c in out || c in s
    decreases |s|
  {
    if s != [] {
      AppendNewMembers(if s[0] in out then out else out + [s[0]], s[1..], c);
    }
  }

  lemma RowMembers(host: bytes, paths: seq<bytes>, c: bytes)
    ensures c in Row(host, paths) <==> exists pa :: pa in paths && c == host + pa
  {
    var row := Row(host, paths);
    if c in row {
      var i :| 0 <= i < |row| && row[i] == c;
      assert paths[i] in paths;
    }
    forall pa | pa in paths
      ensures host + pa in row
    {
      var i :| 0 <= i < |paths| && paths[i] == pa;
      assert row[i] == host + pa;
    }
  }

  lemma {:induction false} AllPairsMembers(hosts: seq<bytes>, paths: seq<bytes>, c: bytes)
    ensures c in AllPairs(hosts, paths) <==> exists h, pa :: h in hosts && pa in paths && c == h + pa
    decreases |hosts|
  {
    if hosts != [] {
      AllPairsMembers(hosts[1..], paths, c);
      RowMembers(hosts[0], paths, c);
      assert forall h :: h in hosts <==> h == hosts[0] || h in hosts[1..];
    }
  }

  /** An entry `q` covers a looked-up URL `p`: the same host or a short enough parent of it, and
      without a query one of the covering directories, with a query exactly the same path and query. */
  ghost predicate Covers(q: Parts, p: Parts) {
    && HostCovers(q.host, p.host)
    && if q.query == [] then PathCovers(q.path, p.path) else q.path == p.path && q.query == p.query
  }

  /** The lookup of `p` asks for the pattern of `q` exactly when `q` covers `p`. */
  lemma CandidatesExact(p: Parts, q: Parts)
    requires CanonicalParts(p) && CanonicalParts(q)
    ensures Pattern(q) in CandidatesOf(p) <==> Covers(q, p)
  {
    var hosts, paths := LookupHosts(p.host), PathsOf(p.path, p.query);
    var c, qp := Pattern(q), WithQuery(q.path, q.query);
    AppendNewMembers([], AllPairs(hosts, paths), c);
    AllPairsMembers(hosts, paths, c);
    PatternCut(q);
    forall h, pa | h in hosts && pa in paths && c == h + pa
      ensures h == q.host && pa == qp
    {
      CandidateParts(p, h, pa);
      CutIsUnique(h, pa, q.host, qp, SLASH);
    }
    assert c in CandidatesOf(p) <==> q.host in hosts && qp in paths;
    LookupHostsExact(p.host, q.host);
    PathsExact(p.path, p.query, qp);
    PathQueryCovered(p, q);
  }

  /** The two halves of a candidate: a host without a slash and a path that starts with one. */
  lemma CandidateParts(p: Parts, h: bytes, pa: bytes)
    requires CanonicalParts(p) && h in LookupHosts(p.host) && pa in PathsOf(p.path, p.query)
    ensures IsHost(h) && SLASH !in h
    ensures pa != [] && pa[0] == SLASH
  {
    LookupHostsAreHosts(p.host, h);
    HostBytes(h);
    PathsAreCanonical(p.path, p.query, pa);
    CanonicalPathBytes(p.path);
    if IsCanonicalPath(pa) {
      CanonicalPathBytes(pa);
    }
  }

  lemma PathQueryCovered(p: Parts, q: Parts)
    requires CanonicalParts(p) && CanonicalParts(q)
    ensures var qp := WithQuery(q.path, q.query);
            PathCovers(qp, p.path) || (p.query != [] && qp == WithQuery(p.path, p.query)) <==>
            if q.query == [] then PathCovers(q.path, p.path) else q.path == p.path && q.query == p.query
  {
    CanonicalPathBytes(p.path);
    CanonicalPathBytes(q.path);
    var qp := WithQuery(q.path, q.query);
    if qp == WithQuery(p.path, p.query) {
      WithQueryInjective(q.path, q.query, p.path, p.query);
    }
    if q.query != [] {
      assert QUESTION in qp;
      assert !PathCovers(qp, p.path);
    }
  }

  /** A stored pattern is always among the candidates of its own URL. */
  lemma OwnPatternIsCandidate(p: Parts)
    requires CanonicalParts(p)
    ensures Pattern(p) in CandidatesOf(p)
  {
    CandidatesExact(p, p);
  }

  /** Every candidate is a pattern that some canonical URL could have stored. */
  lemma CandidatesAreClosed(p: Parts, c: bytes) returns (q: Parts)
    requires CanonicalParts(p) && c in CandidatesOf(p)
    ensures CanonicalParts(q) && Pattern(q) == c && Covers(q, p)
  {
    var hosts, paths := LookupHosts(p.host), PathsOf(p.path, p.query);
    AppendNewMembers([], AllPairs(hosts, paths), c);
    AllPairsMembers(hosts, paths, c);
    var h, pa :| h in hosts && pa in paths && c == h + pa;
    CandidateParts(p, h, pa);
    PathsAreCanonical(p.path, p.query, pa);
    q := if IsCanonicalPath(pa) then Parts(h, pa, []) else Parts(h, p.path, p.query);
    EmptyQueryIsCanonical();
    PatternCut(q);
    CandidatesExact(p, q);
  }

  lemma EmptyQueryIsCanonical()
    ensures CanonQuery([]) == Some([])
  {
    assert RecursiveUnescape([]) == Some([]);
  }

  // --- No duplicates ---

  ghost predicate Distinct(s: seq<bytes>) {
    forall i, j :: 0 <= i < j < |s| ==> s[i] != s[j]
  }

  lemma {:induction false} AppendNewDistinct(out: seq<bytes>, s: seq<bytes>)
    requires Distinct(out + s)
    ensures AppendNew(out, s) == out + s
    decreases |s|
  {
    if s == [] {
      assert out + s == out;
    } else {
      assert (out + s)[|out|] == s[0];
      assert forall i :: 0 <= i < |out| ==> (out + s)[i] == out[i];
      assert out + [s[0]] + s[1..] == out + s;
      AppendNewDistinct(out + [s[0]], s[1..]);
    }
  }

  lemma RowIsApart(hosts: seq<bytes>, paths: seq<bytes>, c: bytes)
    requires hosts != [] && Distinct(hosts) && c in Row(hosts[0], paths)
    requires forall h :: h in hosts ==> SLASH !in h
    requires forall pa :: pa in paths ==> pa != [] && pa[0] == SLASH
    ensures c !in AllPairs(hosts[1..], paths)
  {
    RowMembers(hosts[0], paths, c);
    AllPairsMembers(hosts[1..], paths, c);
    var pa0 :| pa0 in paths && c == hosts[0] + pa0;
    forall h, pa | h in hosts[1..] && pa in paths
      ensures c != h + pa
    {
      var k :| 0 <= k < |hosts[1..]| && hosts[1..][k] == h;
      assert hosts[0] != hosts[k + 1] == h;
      if c == h + pa {
        CutIsUnique(hosts[0], pa0, h, pa, SLASH);
      }
    }
  }

  lemma DistinctConcat(a: seq<bytes>, b: seq<bytes>)
    requires Distinct(a) && Distinct(b) && forall c :: c in a ==> c !in b
    ensures Distinct(a + b)
  {
    forall i, j | 0 <= i < j < |a + b|
      ensures (a + b)[i] != (a + b)[j]
    {
      assert i < |a| <= j ==> a[i] in a && b[j - |a|] in b;
    }
  }

  lemma {:induction false} AllPairsDistinct(hosts: seq<bytes>, paths: seq<bytes>)
    requires Distinct(hosts) && Distinct(paths)
    requires forall h :: h in hosts ==> SLASH !in h
    requires forall pa :: pa in paths ==> pa != [] && pa[0] == SLASH
    ensures Distinct(AllPairs(hosts, paths))
    decreases |hosts|
  {
    if hosts != [] {
      var row, rest := Row(hosts[0], paths), AllPairs(hosts[1..], paths);
      AllPairsDistinct(hosts[1..], paths);
      forall c | c in row
        ensures c !in rest
      {
        RowIsApart(hosts, paths, c);
      }
      RowDistinct(hosts[0], paths);
      DistinctConcat(row, rest);
    }
  }

  lemma {:induction false} AllPairsCount(hosts: seq<bytes>, paths: seq<bytes>)
    ensures |AllPairs(hosts, paths)| == |hosts| * |paths|
    decreases |hosts|
  {
    if hosts != [] {
      AllPairsCount(hosts[1..], paths);
      assert (|hosts| - 1) * |paths| == |hosts| * |paths| - |paths|;
    }
  }

  lemma RowDistinct(host: bytes, paths: seq<bytes>)
    requires Distinct(paths)
    ensures Distinct(Row(host, paths))
  {
    forall i, j | 0 <= i < j < |paths|
      ensures host + paths[i] != host + paths[j]
    {
      assert (host + paths[i])[|host|..] == paths[i] && (host + paths[j])[|host|..] == paths[j];
    }
  }

  /** The duplicate filter drops nothing: there are hosts times paths candidates, at most 42, all different. */
  lemma CandidatesDistinct(p: Parts)
    requires CanonicalParts(p)
    ensures Distinct(CandidatesOf(p))
    ensures |CandidatesOf(p)| == |LookupHosts(p.host)| * |PathsOf(p.path, p.query)| <= 7 * 6
  {
    var hosts, paths := LookupHosts(p.host), PathsOf(p.path, p.query);
    LookupHostsDistinct(p.host);
    PathsDistinct(p.path, p.query);
    forall h | h in hosts
      ensures SLASH !in h
    {
      CandidateParts(p, h, [SLASH]);
    }
    forall pa | pa in paths
      ensures pa != [] && pa[0] == SLASH
    {
      CandidateParts(p, p.host, pa);
    }
    AllPairsDistinct(hosts, paths);
    AllPairsCount(hosts, paths);
    assert [] + AllPairs(hosts, paths) == AllPairs(hosts, paths);
    AppendNewDistinct([], AllPairs(hosts, paths));
    AtMost(|hosts|, |paths|);
  }

  lemma AtMost(a: nat, b: nat)
    requires a <= 7 && b <= 6
    ensures a * b <= 42
  {
  }
}
