/** Hosts in terms of their characters, and the three outcomes of canonicalizing one. */
module HostText {
  import opened Bytes
  import opened Authority
  import opened HostSuffixes
  import opened IpAddress
  import opened IpLiteral
  import opened IpNumerals
  import opened CanonHost

  // --- The host pattern ---

  /** [a-z0-9_-]{1,63} */
  predicate LabelText(l: bytes) {
    1 <= |l| <= 63 && forall c :: c in l ==> Char(c) in LOWER_LETTERS || Char(c) in "0123456789_-"
  }

  /** [a-z][a-z0-9-]{0,62} */
  predicate TopLabelText(l: bytes) {
    && 1 <= |l| <= 63 && Char(l[0]) in LOWER_LETTERS
    && forall c :: c in l ==> Char(c) in LOWER_LETTERS || Char(c) in "0123456789-"
  }

  lemma LowerLetterExact(c: byte)
    ensures IsLowerLetter(c) <==> Char(c) in LOWER_LETTERS
  {
  }

  lemma LabelByteExact(c: byte)
    ensures IsDigit(c) || c == 0x5f || c == 0x2d <==> Char(c) in "0123456789_-"
    ensures IsDigit(c) || c == 0x2d <==> Char(c) in "0123456789-"
  {
  }

  lemma LabelExact(l: bytes)
    ensures IsLabel(l) <==> LabelText(l)
    ensures IsTopLabel(l) <==> TopLabelText(l)
  {
    forall c: byte
      ensures IsLowerLetter(c) <==> Char(c) in LOWER_LETTERS
      ensures IsDigit(c) || c == 0x5f || c == 0x2d <==> Char(c) in "0123456789_-"
      ensures IsDigit(c) || c == 0x2d <==> Char(c) in "0123456789-"
    {
      LowerLetterExact(c);
      LabelByteExact(c);
    }
  }

  predicate HostLabels(labels: seq<bytes>) {
    && |labels| >= 2 && TopLabelText(labels[|labels| - 1])
    && forall i :: 0 <= i < |labels| - 1 ==> LabelText(labels[i])
  }

  lemma LabelsExact(labels: seq<bytes>)
    requires |labels| >= 2
    ensures HostLabels(labels) <==>
            IsTopLabel(labels[|labels| - 1]) && forall i :: 0 <= i < |labels| - 1 ==> IsLabel(labels[i])
  {
    LabelExact(labels[|labels| - 1]);
    forall i | 0 <= i < |labels| - 1
      ensures IsLabel(labels[i]) <==> LabelText(labels[i])
    {
      LabelExact(labels[i]);
    }
  }

  /** A host is two or more labels between dots, the last of them beginning with a letter and free of '_'. */
  lemma HostExact(host: bytes, labels: seq<bytes>)
    requires labels == Split(host, 0x2e)
    ensures IsHost(host) <==> HostLabels(labels)
  {
    if |labels| >= 2 {
      LabelsExact(labels);
    }
  }

  // --- The three outcomes ---

  /** A host without bytes above 0x80 is folded as it is, any other one after the mapping. */
  lemma MappedExact(h: bytes, toASCII: bytes -> Option<bytes>)
    ensures (forall c :: c in h ==> c <= 0x80) ==> Mapped(h, toASCII) == Some(h)
    ensures !(forall c :: c in h ==> c <= 0x80) ==> Mapped(h, toASCII) == toASCII(h)
  {
  }

  /** A host is refused as an IP address when its folded form is one, accepted with that form when it matches the host
      pattern, and invalid otherwise. */
  lemma OutcomeExact(h: bytes, toASCII: bytes -> Option<bytes>)
    requires Mapped(h, toASCII).Some?
    ensures var folded := FoldHost(Mapped(h, toASCII).value);
            && (CanonicalHost(h, toASCII) == Err(IpHost) <==> AddressShape(WithoutRubbish(folded)))
            && (forall host :: CanonicalHost(h, toASCII) == Ok(host) <==> host == folded && IsHost(host))
  {
    var folded := FoldHost(Mapped(h, toASCII).value);
    RecognizedExact(folded);
    if IsHost(folded) {
      HostIsNoIP(GoParseUint, folded);
    }
  }

  lemma UnmappedIsInvalid(h: bytes, toASCII: bytes -> Option<bytes>)
    requires Mapped(h, toASCII).None?
    ensures CanonicalHost(h, toASCII) == Err(Invalid)
  {
  }

  // --- Letter case ---

  lemma VariantLower(b: byte, c: byte)
    requires SameLetter(b, c) && LowerByte(c) == c && c <= 0x80
    ensures LowerByte(b) == c && b <= 0x80
  {
  }

  lemma HostBytesAreLower(host: bytes)
    requires IsHost(host)
    ensures forall i :: 0 <= i < |host| ==> LowerByte(host[i]) == host[i] && host[i] <= 0x80
  {
    HostIsLower(host);
    forall i | 0 <= i < |host|
      ensures host[i] <= 0x80
    {
      assert host[i] in host;
    }
    assert forall i :: 0 <= i < |host| ==> ToLower(host)[i] == LowerByte(host[i]);
  }

  lemma CollapseByDots(s: bytes, t: bytes)
    requires |s| == |t| && forall i :: 0 <= i < |s| ==> (s[i] == DOT <==> t[i] == DOT)
    requires CollapseDots(t) == t && TrimLeft(t) == t && TrimRight(t) == t
    ensures CollapseDots(s) == s && TrimLeft(s) == s && TrimRight(s) == s
  {
    CollapsedPieces(t);
    KeptBySingleDots(s);
  }

  lemma {:induction false} KeptBySingleDots(s: bytes)
    requires NoDoubleDot(s)
    ensures CollapseDots(s) == s
    decreases |s|
  {
    if s != [] {
      assert forall i :: 0 <= i < |s[1..]| ==> s[1..][i] == s[i + 1];
      KeptBySingleDots(s[1..]);
      assert s == [s[0]] + s[1..];
    }
  }

  /** A host in any letter case is the host in lower case. */
  lemma CaseDoesNotMatter(h: bytes, host: bytes, toASCII: bytes -> Option<bytes>)
    requires IsHost(host) && CaseVariant(h, host)
    ensures CanonicalHost(h, toASCII) == Ok(host)
  {
    HostBytesAreLower(host);
    forall i | 0 <= i < |h|
      ensures LowerByte(h[i]) == host[i] && h[i] <= 0x80 && (h[i] == DOT <==> host[i] == DOT)
    {
      VariantLower(h[i], host[i]);
      DotStays(h[i], host[i]);
    }
    HostIsCollapsed(host);
    HostEndsOnLabel(host);
    CollapseByDots(h, host);
    assert ToLower(h) == host;
    assert !IsUnicode(h);
    HostIsNoIP(GoParseUint, host);
  }

  lemma DotStays(b: byte, c: byte)
    requires SameLetter(b, c)
    ensures b == DOT <==> c == DOT
  {
  }
}
