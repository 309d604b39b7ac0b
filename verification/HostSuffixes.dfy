/** The host language and the host suffixes a lookup tries. */
module HostSuffixes {
  import opened Bytes

  const MAX_HOST_COMPONENTS: int := 7

  function Labels(host: bytes): (labels: seq<bytes>)
    ensures |labels| >= 1
  {
    Split(host, DOT)
  }

  predicate IsLowerLetter(c: byte) {
    0x61 <= c <= 0x7a
  }

  /** [a-z0-9_-]{1,63} */
  predicate IsLabel(l: bytes) {
    1 <= |l| <= 63 && forall c :: c in l ==> IsLowerLetter(c) || IsDigit(c) || c == 0x5f || c == 0x2d
  }

  /** [a-z][a-z0-9-]{0,62} */
  predicate IsTopLabel(l: bytes) {
    1 <= |l| <= 63 && IsLowerLetter(l[0]) && forall c :: c in l ==> IsLowerLetter(c) || IsDigit(c) || c == 0x2d
  }

  /** The pattern every stored host matches: at least two labels, the last starting with a letter. */
  predicate IsHost(host: bytes) {
    var labels := Labels(host);
    && |labels| >= 2
    && IsTopLabel(labels[|labels| - 1])
    && forall i :: 0 <= i < |labels| - 1 ==> IsLabel(labels[i])
  }

  /** The first parent suffix that is tried, as an index into the labels. */
  function FirstSuffix(n: nat): nat {
    if n - MAX_HOST_COMPONENTS < 1 then 1 else n - MAX_HOST_COMPONENTS
  }

  function SuffixesFrom(labels: seq<bytes>, i: nat): seq<bytes>
    decreases |labels| - i
  {
    if i + 1 < |labels| then [Join(labels[i..], DOT)] + SuffixesFrom(labels, i + 1) else []
  }

  /** The host itself, then its parent suffixes of at most seven and at least two labels. */
  function LookupHosts(host: bytes): seq<bytes> {
    [host] + SuffixesFrom(Labels(host), FirstSuffix(|Labels(host)|))
  }

  method GenerateLookupHosts(host: bytes, isIP: bool) returns (hosts: seq<bytes>)
    ensures hosts == if isIP then [host] else LookupHosts(host)
  {
    if isIP {
      return [host];
    }
    var components := Split(host, DOT);
    var start := |components| - MAX_HOST_COMPONENTS;
    if start < 1 {
      start := 1;
    }
    hosts := [host];
    var i := start;
    while i < |components| - 1
      invariant 1 <= i
      invariant hosts + SuffixesFrom(components, i) == LookupHosts(host)
    {
      ConcatAssociates(hosts, [Join(components[i..], DOT)], SuffixesFrom(components, i + 1));
      hosts := hosts + [Join(components[i..], DOT)];
      i := i + 1;
    }
  }

  lemma {:induction false} SuffixesAt(labels: seq<bytes>, i: nat)
    ensures |SuffixesFrom(labels, i)| == if i + 1 < |labels| then |labels| - 1 - i else 0
    ensures forall k :: 0 <= k < |SuffixesFrom(labels, i)| ==> SuffixesFrom(labels, i)[k] == Join(labels[i + k..], DOT)
    decreases |labels| - i
  {
    if i + 1 < |labels| {
      SuffixesAt(labels, i + 1);
      var all, rest := SuffixesFrom(labels, i), SuffixesFrom(labels, i + 1);
      forall k | 0 <= k < |all|
        ensures all[k] == Join(labels[i + k..], DOT)
      {
        if k > 0 {
          assert all[k] == rest[k - 1] && rest[k - 1] == Join(labels[i + 1 + (k - 1)..], DOT);
        }
      }
    }
  }

  /** `c` is what follows some dot of `host`. */
  ghost predicate IsParent(c: bytes, host: bytes) {
    exists front: bytes :: host == front + [DOT] + c
  }

  /** The hosts whose entries cover `host`: itself and its parents of two to seven labels. */
  ghost predicate HostCovers(c: bytes, host: bytes) {
    c == host || (IsParent(c, host) && 2 <= |Labels(c)| <= 7)
  }

  /** Cutting the host's labels at a position is cutting its text at a dot. */
  lemma SuffixIsParent(host: bytes, i: nat)
    requires 1 <= i < |Labels(host)|
    ensures var c := Join(Labels(host)[i..], DOT);
            IsParent(c, host) && Labels(c) == Labels(host)[i..]
  {
    var labels := Labels(host);
    SplitPieces(host, DOT);
    assert labels == labels[..i] + labels[i..];
    JoinConcat(labels[..i], labels[i..], DOT);
    SplitJoin(labels[i..], DOT);
    assert host == Join(labels[..i], DOT) + [DOT] + Join(labels[i..], DOT);
  }

  lemma ParentIsSuffix(c: bytes, host: bytes) returns (i: nat)
    requires IsParent(c, host)
    ensures 1 <= i < |Labels(host)| && Labels(c) == Labels(host)[i..] && c == Join(Labels(host)[i..], DOT)
  {
    var front: bytes :| host == front + [DOT] + c;
    SplitConcat(front, c, DOT);
    SplitPieces(c, DOT);
    i := |Split(front, DOT)|;
  }

  lemma CoveringParentAt(c: bytes, host: bytes) returns (k: nat)
    requires IsParent(c, host) && 2 <= |Labels(c)| <= MAX_HOST_COMPONENTS
    ensures var i := FirstSuffix(|Labels(host)|) + k;
            i + 1 < |Labels(host)| && c == Join(Labels(host)[i..], DOT)
  {
    var i := ParentIsSuffix(c, host);
    k := i - FirstSuffix(|Labels(host)|);
  }

  /** The generated hosts are exactly the covering ones. */
  lemma LookupHostsExact(host: bytes, c: bytes)
    ensures c in LookupHosts(host) <==> HostCovers(c, host)
  {
    SuffixesExact(host, c);
    assert c in LookupHosts(host) <==> c == host || c in SuffixesFrom(Labels(host), FirstSuffix(|Labels(host)|));
  }

  lemma SuffixesExact(host: bytes, c: bytes)
    ensures c in SuffixesFrom(Labels(host), FirstSuffix(|Labels(host)|)) <==>
            IsParent(c, host) && 2 <= |Labels(c)| <= MAX_HOST_COMPONENTS
  {
    var suffixes := SuffixesFrom(Labels(host), FirstSuffix(|Labels(host)|));
    if c in suffixes {
      var k: nat :| k < |suffixes| && suffixes[k] == c;
      SuffixCovers(host, k);
    }
    if IsParent(c, host) && 2 <= |Labels(c)| <= MAX_HOST_COMPONENTS {
      var k := CoveringParentAt(c, host);
      SuffixesAt(Labels(host), FirstSuffix(|Labels(host)|));
      assert suffixes[k] == c;
    }
  }

  lemma SuffixCovers(host: bytes, k: nat)
    requires k < |SuffixesFrom(Labels(host), FirstSuffix(|Labels(host)|))|
    ensures var c := SuffixesFrom(Labels(host), FirstSuffix(|Labels(host)|))[k];
            IsParent(c, host) && 2 <= |Labels(c)| <= MAX_HOST_COMPONENTS
  {
    SuffixesAt(Labels(host), FirstSuffix(|Labels(host)|));
    SuffixIsParent(host, FirstSuffix(|Labels(host)|) + k);
  }

  lemma LookupHostAt(host: bytes, i: nat) returns (from: nat)
    requires i < |LookupHosts(host)|
    ensures from == (if i == 0 then 0 else FirstSuffix(|Labels(host)|) + i - 1) < |Labels(host)|
    ensures LookupHosts(host)[i] == Join(Labels(host)[from..], DOT)
  {
    var labels := Labels(host);
    SuffixesAt(labels, FirstSuffix(|labels|));
    if i == 0 {
      SplitPieces(host, DOT);
      assert labels[0..] == labels;
    }
    from := if i == 0 then 0 else FirstSuffix(|labels|) + i - 1;
  }

  /** The host and up to six parents, each shorter than the one before it. */
  lemma LookupHostsDistinct(host: bytes)
    ensures var n := |Labels(host)|; |LookupHosts(host)| == if n <= 2 then 1 else if n <= 8 then n - 1 else 7
    ensures forall i, j :: 0 <= i < j < |LookupHosts(host)| ==> |LookupHosts(host)[i]| > |LookupHosts(host)[j]|
  {
    SuffixesAt(Labels(host), FirstSuffix(|Labels(host)|));
    forall i, j | 0 <= i < j < |LookupHosts(host)|
      ensures |LookupHosts(host)[i]| > |LookupHosts(host)[j]|
    {
      var from := LookupHostAt(host, i);
      var to := LookupHostAt(host, j);
      ShorterSuffix(Labels(host), from, to);
    }
  }

  lemma ShorterSuffix(labels: seq<bytes>, i: nat, j: nat)
    requires i < j < |labels|
    ensures |Join(labels[i..], DOT)| > |Join(labels[j..], DOT)|
  {
    assert labels[i..] == labels[i..j] + labels[j..];
    JoinConcat(labels[i..j], labels[j..], DOT);
  }

  /** Parents of a well-formed host with at least two labels are well-formed hosts. */
  lemma LookupHostsAreHosts(host: bytes, c: bytes)
    requires IsHost(host) && c in LookupHosts(host)
    ensures IsHost(c)
  {
    LookupHostsExact(host, c);
    if c != host {
      ParentIsHost(c, host);
    }
  }

  lemma ParentIsHost(c: bytes, host: bytes)
    requires IsHost(host) && IsParent(c, host) && |Labels(c)| >= 2
    ensures IsHost(c)
  {
    var i := ParentIsSuffix(c, host);
    assert forall k :: 0 <= k < |Labels(c)| ==> Labels(c)[k] == Labels(host)[i + k];
  }

  /** A byte that no host can hold. */
  predicate NeverInHost(c: byte) {
    !IsLowerLetter(c) && !IsDigit(c) && c != 0x5f && c != 0x2d && c != DOT
  }

  lemma HostAvoids(host: bytes, c: byte)
    requires IsHost(host) && NeverInHost(c)
    ensures c !in host
  {
    LabelsAvoid(Labels(host), c);
    SplitPieces(host, DOT);
    JoinAvoids(Labels(host), DOT, c);
  }

  lemma LabelsAvoid(labels: seq<bytes>, c: byte)
    requires NeverInHost(c) && forall i :: 0 <= i < |labels| ==> IsLabel(labels[i]) || IsTopLabel(labels[i])
    ensures forall l :: l in labels ==> c !in l
  {
    forall l | l in labels
      ensures c !in l
    {
      var i :| 0 <= i < |labels| && labels[i] == l;
      LabelAvoids(l, c);
    }
  }

  lemma LabelAvoids(l: bytes, c: byte)
    requires (IsLabel(l) || IsTopLabel(l)) && NeverInHost(c)
    ensures c !in l
  {
  }

  /** A well-formed host holds neither '/' nor '?'. */
  lemma HostBytes(host: bytes)
    requires IsHost(host)
    ensures SLASH !in host && QUESTION !in host && host != []
  {
    HostAvoids(host, SLASH);
    HostAvoids(host, QUESTION);
  }
}
