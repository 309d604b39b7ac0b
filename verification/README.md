# phishbin: canonical URLs, candidate lookup and the D1 sync

phishbin turns the URLs of several feeds into canonical patterns `host/path[?query]`, hashes them, keeps the
hashes in two local tables and sends the difference between these tables to a remote table (D1). A lookup
service expands a URL into candidate patterns and asks D1 for their hashes. Matching is byte-exact, so one
differing byte, or one lost row, silently disables an entry.

This project models both halves in Dafny and proves them together, from the raw URLs of the feeds to the answer for a
raw URL that is looked up, over any number of runs. `History.HistoryIsExact` says exactly which URLs are listed, and
`History.ShippedInHistory` that a URL a feed has shipped is listed in every spelling; the URL parsers of the two sides
are parameters in them. Failed runs, crashes, statements sent again and losses of local state may occur in between.

## The model

- `Bytes`: bytes, hexadecimal digits, splitting and joining.
- `PercentDecoding`: single-escape decoding as a rewrite relation, one pass over the string as each side writes
  it, and the decoder with its bound of 1024 passes.
- `PercentEncoding`: the encoder with its two extra sets, and the canonical query.
- `PathSegments`, `CanonPath`: the segment stack, the rewrite rules it stands for, and the canonical path.
- `Preprocess`, `Authority`: lone percent signs, control bytes, the scheme, and decoding the authority.
- `UrlText`: the steps before parsing in terms of the characters of a URL.
- `IpAddress`, `IpLiteral`, `IpNumerals`: numbers in the legacy IP spellings, on the Go and on the TypeScript side.
- `DotSegments`, `DotPaths`, `DotExamples`: dot segments that the lookup side's URL parser resolves before the path is decoded.
- `HostSuffixes`, `LookupPaths`, `Candidates`, `CanonHost`: the host language, host suffixes, path prefixes,
  patterns, candidates, and the canonical parts of a URL.
- `HostText`: the host pattern and the outcomes for a host in terms of its characters.
- `Canonical`: from a raw URL to its canonical parts, on both sides, and where the two sides agree.
- `Resubmission`: what happens to a stored pattern that is canonicalized again.
- `Tables`, `SqlText`, `Chunking`: masks and tables, the SQL text of the diff, and packing it into chunk files.
- `Sync`: the protocol as a transition system with failures, crashes, statements sent again, and loss of the local state.
- `FeedMasks`: what the interleaved inserts of concurrent feeds leave in `curr`.
- `Service`: the service as a class, each method refining the transition system.
- `Lookup`: the remote query, and the theorems that join it with the transition system.
- `History`: runs of the service and losses of local state, one after the other, and what a lookup answers after them.

The loops of the source are methods with loops. Each is proved equal to a function, and the properties are
proved about that function. The Go and TypeScript sides share one function wherever they differ only in how a
loop is written; where they compute differently (the decoding pass, base-0 numbers, splitting a number into
octets, the steps before parsing) both forms are modelled. The hash function, the URL parsers, the IDNA mapping,
trimming of Unicode white space, the sorting of the chunk file names and the SQL reader of the remote database are
parameters. The proofs assume of the hash only that the patterns at hand do not collide, of the sorting only that it
permutes, and of the reader only that it finds in the text of some statements the rows they were made from
(`Chunking.RowsInReadsStatements` gives such a reader).

## Where the code and its documentation differ

The model follows the code.

- `README.md` says that a failed run recomputes the same diff on the next run. It does not have to: `curr`
  keeps accumulating, and a row that grows back to the one in `prev` drops out of the diff, while D1 keeps the
  mask of the failed run. `Sync.StaleMask` is such a history. `Sync.AgreementExact` says for every history and every
  rotated hash exactly when D1 holds its mask: unless the last run since the last loss of local state that sent a row
  for the hash ended without rotating. `Sync.AllAgreeExact` says when all masks agree, and `Sync.UntaintedRunsAgree`
  follows: they do as long as no run fails after its first statement. The keys are never at risk.
- `Bit()` is documented as a unique bit. The five feeds return 1, 2, 3, 4 and 5, which overlap.
  `FeedMasks.IdentifyExact` proves that the per-feed counts are right exactly for disjoint non-zero masks.
- Comments speak of up to four host suffixes. The code yields up to six parents besides the host.
- Canonicalizing a pattern again does not always give it back. It does exactly when the pattern holds no raw backslash:
  the encoder leaves that byte alone, and the preprocessing of the next round turns it into a slash
  (`Resubmission.ResubmissionExact`).
- The two sides are meant to store and to ask for the same pattern of a URL. The lookup side's parser resolves the visible
  dot segments first, and there ".." takes away an empty segment where the canonical path takes away the last ordinary
  one. `DotExamples.EntryMissesItself` is the result for "/a//../b": the feed side stores "/b", the lookup side asks for
  "/a/b". For paths whose segments hide no slash and no dot segment `DotPaths.DotsMayBeResolved` says exactly when the
  two agree: unless some segment is followed by a stretch in which ".." outnumber the non-empty segments, but at no
  point all segments.
- The client queries a table `bad_url`, the sync writes `abuse_feeds`. They are one table here.

## Model

| member | source | states |
|---|---|---|
| `Bytes.HexDigitsExact` | src/worker/normalize/sb_urls.go:42-65 | the hexadecimal digits are those of the two written-out tables, each with its position as its value |
| `Bytes.LowerByteExact` | src/worker/normalize/canonical.go:272 | the 26 capitals become their letters and no other byte changes |
| `PercentDecoding.UnescapeConsuming` | src/worker/normalize/sb_urls.go:98-111 | the loop that consumes its argument computes one decoding pass |
| `PercentDecoding.UnescapeIndexed` | client/src/sb_urls.ts:36-47 | the loop over an index computes the same pass |
| `PercentDecoding.DecodeUntilStable` | src/worker/normalize/sb_urls.go:116-126 | the bounded loop computes the decoder, the refusal after 1024 passes included |
| `PercentDecoding.StepsCommute` | src/worker/normalize/sb_urls.go:98-111 | escapes never overlap, and decoding two of them in either order gives the same string |
| `PercentDecoding.DecodingIsConfluent` | src/worker/normalize/sb_urls.go:98-126 | any two partial decodings of a string can be continued to the same string, and a fully decoded one is the unique normal form |
| `PercentDecoding.PassKeepsNormal` | src/worker/normalize/sb_urls.go:98-111 | one pass keeps the normal form |
| `PercentDecoding.PassFixesEscapeFree` | src/worker/normalize/sb_urls.go:119-122 | a pass leaves a string alone exactly when it holds no valid escape |
| `PercentDecoding.PassBound` | src/worker/normalize/sb_urls.go:116-126 | twice the number of changing passes is below the length |
| `PercentDecoding.RecursiveUnescapeExact` | src/worker/normalize/sb_urls.go:113-126 | the decoder returns the normal form exactly when fewer than 1024 passes change the string, always up to 2048 bytes, and its result holds no escape |
| `PercentDecoding.DepthBoundIsTight` | src/worker/normalize/sb_urls.go:116-126 | "%" followed by 1024 times "25", 2049 bytes, is refused |
| `PercentDecoding.SpellingDoesNotMatter` | src/worker/normalize/sb_urls.go:113-126 | spellings that differ by decoding steps decode alike whenever both decode, and always up to 2048 bytes |
| `PercentDecoding.EscapeStandsFor` | src/worker/normalize/sb_urls.go:98-111 | an escape in front of any string stands for the byte its two digits spell, in either case |
| `PercentDecoding.ByteStays` | src/worker/normalize/sb_urls.go:98-111 | any other byte in front stays, a '%' without two digits behind it included |
| `PercentEncoding.EscapeLoop` | src/worker/normalize/sb_urls.go:80-92 | the loop over the bytes computes the encoding |
| `PercentEncoding.UnescapeEscape` | src/worker/normalize/sb_urls.go:80-111 | one decoding pass undoes the encoding, for every extra set |
| `PercentEncoding.EscapeInjective` | src/worker/normalize/sb_urls.go:80-95 | different strings have different encodings |
| `PercentEncoding.EscapedBytes` | src/worker/normalize/sb_urls.go:84-88 | no byte that must be escaped survives except '%' in escapes, and slashes occur as often as before |
| `PercentEncoding.PrintableBytesAreKept` | src/worker/normalize/sb_urls.go:84-95 | a printable byte that is no hexadecimal digit occurs as often as before unless it is a space, '#' or '%', or '?' in a path |
| `PercentEncoding.EscapesAreLowercase` | src/worker/normalize/sb_urls.go:86 | every escape written is lowercase and stands for a byte that had to be escaped |
| `PercentEncoding.RecursiveUnescapeEscape` | src/worker/normalize/sb_urls.go:80-126 | decoding the encoding of a fully decoded string succeeds and returns that string |
| `PercentEncoding.CanonQueryIdempotent` | src/worker/normalize/canonical.go:136-141 | a canonical query is its own canonical form, without an error |
| `PercentEncoding.CanonQuerySeparates` | src/worker/normalize/canonical.go:136-141 | canonical queries agree exactly when the raw queries have the same normal form |
| `PercentEncoding.PathKeptExact` | src/worker/normalize/sb_urls.go:80-95 | a path is left alone exactly when every byte is in 0x21 to 0x7e and none is '#', '%' or '?' |
| `PercentEncoding.QueryKeptExact` | src/worker/normalize/sb_urls.go:80-95 | a query exactly when every byte is in that range and none is '#' or '%' |
| `PercentEncoding.EncodedByte` | src/worker/normalize/sb_urls.go:84-86 | every other byte becomes '%' and its two digits of the lower-case table |
| `PercentEncoding.EncodedIsPrintable` | src/worker/normalize/sb_urls.go:80-95 | an encoded string holds nothing but bytes from 0x21 to 0x7e without '#', and without '?' in a path |
| `PathSegments.ResolveLoop` | src/worker/normalize/canonical.go:295-307 | the loop that pushes and pops computes the segment stack |
| `PathSegments.CleanIsOrdinary` | src/worker/normalize/canonical.go:298-306 | no cleaning rule applies exactly when no segment is empty, "." or ".." |
| `PathSegments.RuleKeepsResolve` | src/worker/normalize/canonical.go:297-307 | applying any cleaning rule anywhere does not change the stack's result |
| `PathSegments.StackIsTheCleanForm` | src/worker/normalize/canonical.go:283-307 | however the rules are applied, the result is clean exactly when it is the stack's result, which stays reachable |
| `CanonPath.CanonPathLoop` | src/worker/normalize/canonical.go:286-314 | the whole path canonicalization, its error included, computes the specified path |
| `CanonPath.CleanPathShape` | src/worker/normalize/canonical.go:291-312 | cleaning yields plain segments, with a final slash exactly when something is left and the input ended on a directory |
| `CanonPath.CanonicalPathShape` | src/worker/normalize/canonical.go:283-314 | a path is canonical exactly when it is the encoding of a rendering of plain segments |
| `CanonPath.CanonicalPathIdempotent` | src/worker/normalize/canonical.go:283-314 | a canonical path is its own canonical form, without an error |
| `CanonPath.SpellingKeepsCanonical` | src/worker/normalize/canonical.go:131-141 | decoding some escapes beforehand, in any order, changes neither the canonical path nor the canonical query |
| `Preprocess.EscapeLonePercentLoop` | src/worker/normalize/canonical.go:247-258 | the loop computes the encoding of lone percent signs |
| `Preprocess.EscapeControlLoop` | src/worker/normalize/canonical.go:176-192 | the loop computes the encoding of control bytes |
| `Preprocess.LonePercentsGone` | src/worker/normalize/canonical.go:244-258 | afterwards every '%' starts a valid escape, and a string with that property is left alone |
| `Preprocess.PreprocessingKeepsMeaning` | src/worker/normalize/canonical.go:154-155 | both encodings together change nothing that decoding sees, its refusal included, and cost at most one more pass |
| `Authority.DecodeHostLoop` | src/worker/normalize/canonical.go:224-240 | the loop with its early exit computes the decoding of the host |
| `Authority.DecodeHostExact` | src/worker/normalize/canonical.go:194-240 | the host is accepted exactly when no escape in it stands for a forbidden byte, and is then decoded once |
| `Authority.DecodeAuthorityOf` | src/worker/normalize/canonical.go:204-242 | only what follows the last '@' of the authority is decoded; scheme and rest are kept |
| `Authority.DecodeAuthorityResult` | src/worker/normalize/canonical.go:198-242 | the decoded authority holds none of '@', '%', '/', '?', '#', the URL splits into the same scheme and rest, and decoding again is the identity |
| `Authority.FixSchemeResult` | src/worker/normalize/canonical.go:157-166 | the result has an explicit scheme other than ftps and sftp, and nothing behind the scheme changes |
| `Authority.PreprocessResult` | src/worker/normalize/canonical.go:147-169 | whatever the input, an accepted URL has an explicit scheme and a clean authority, and decoding it again is the identity |
| `UrlText.FragmentDoesNotMatter` | src/worker/normalize/canonical.go:148-150 | everything from the first '#' on makes no difference |
| `UrlText.LineBreaksDoNotMatter` | src/worker/normalize/canonical.go:152-153 | neither does a tab or line break anywhere, nor a backslash in place of a slash |
| `UrlText.ControlExact` | src/worker/normalize/canonical.go:176-192 | afterwards no byte is below 0x20 or 0x7f, and exactly the strings without such bytes are left alone |
| `UrlText.SchemeExact` | src/worker/normalize/canonical.go:34-36 | the scheme is what stands before "://" when that is a letter followed by letters, digits, '+', '.' and '-', and there is none otherwise |
| `UrlText.FixSchemeNamed` | src/worker/normalize/canonical.go:157-166 | "ftps" and "sftp" in any letter case become "https", and every other scheme stays |
| `UrlText.FixSchemeless` | src/worker/normalize/canonical.go:157-159 | a URL without a scheme gets "http" |
| `UrlText.UserinfoDoesNotMatter` | src/worker/normalize/canonical.go:214-222 | a URL with any userinfo decodes as the same URL without it, its host byte for byte when that holds no escape |
| `UrlText.HostEscape` | src/worker/normalize/canonical.go:194-240 | an escape in a host, in either case, is decoded unless it stands for one of the eighteen forbidden bytes |
| `IpAddress.RubbishExact` | src/worker/normalize/sb_urls.go:132-143 | a host of at most 15 bytes that starts with a dotted quad and a space is read as the quad, every other host as it stands |
| `IpAddress.ScanIsValue` | client/src/sb_urls.ts:104-111 | checking for overflow at every digit accepts the same numbers as checking at the end |
| `IpAddress.ParsersAgree` | client/src/sb_urls.ts:103-111 | the two base-0 parsers agree except on underscores and the prefixes 0b and 0o, which the lookup side never accepts |
| `IpAddress.MaskAndShift` | src/worker/normalize/sb_urls.go:184-187 | mask and shift are remainder and quotient |
| `IpAddress.OctetsAreBigEndian` | src/worker/normalize/sb_urls.go:166-188 | the n octets are the big-endian digits of the number modulo 256^n |
| `IpLiteral.CanonicalNumGo` | src/worker/normalize/sb_urls.go:175-189 | the loop that masks and shifts writes the specified octets |
| `IpLiteral.CanonicalNumTs` | client/src/sb_urls.ts:89-101 | the loop that divides writes the specified octets |
| `IpLiteral.ParseIPAddressGo` | src/worker/normalize/sb_urls.go:131-164 | the whole recognizer computes the specified address or "" |
| `IpLiteral.ParseIPResult` | src/worker/normalize/sb_urls.go:128-189 | a recognized host has one to four numeric parts and yields four octets: leading parts modulo 256, then the last part in big-endian octets |
| `IpLiteral.ParseIPIdempotent` | src/worker/normalize/sb_urls.go:128-164 | the canonical address is its own canonical form |
| `IpLiteral.SidesAgree` | client/src/sb_urls.ts:63-111 | both sides find the same address or none, for every host |
| `IpLiteral.FilterIsNeeded` | client/src/sb_urls.ts:60-73 | without the shape filter they would differ on "0b1" |
| `IpNumerals.NumeralExact` | client/src/sb_urls.ts:103-111 | the numbers accepted are the decimal, octal and hexadecimal numerals below 2^32, each with the number its digits stand for |
| `IpNumerals.RecognizedExact` | src/worker/normalize/sb_urls.go:131-164 | a host is recognized exactly when it is one to four such numerals between dots, apart from what follows a dotted quad and a space |
| `IpNumerals.QuadExact` | src/worker/normalize/canonical.go:32 | a dotted quad is four groups of one to three decimal digits |
| `IpLiteral.HostIsNoIP` | src/worker/normalize/canonical.go:274-279 | no host that matches the host pattern is an IP address |
| `DotPaths.DotsExact` | client/src/canonical.ts:149-153 | the dot segments the parser sees are those that one decoding pass turns into "." and "..", in every spelling |
| `DotPaths.DecodeJoin` | src/worker/normalize/canonical.go:287-295 | a path is decoded segment by segment, and accepted exactly when each segment is |
| `DotSegments.StackIsSurvivors` | src/worker/normalize/canonical.go:297-307 | a stack of segments holds those that count and behind which ".." never outnumber what counts |
| `DotSegments.ResolveAfterParser` | client/src/canonical.ts:149-153 | on decoded segments, resolving the dot segments first makes no difference exactly when no segment is lost to an empty one |
| `DotPaths.DotsMayBeResolved` | client/src/canonical.ts:149-153 | so it is for the canonical path of every path whose segments hide no slash and no dot segment, "%2e" included |
| `DotExamples.EntryMissesItself` | src/worker/normalize/canonical_test.go:70-94 | for "/a//../b" the pattern stored is no candidate of the URL looked up, whatever the host |
| `DotExamples.HiddenSlashMatters` | client/src/canonical.ts:149-153 | for "/a%2Fb/../b", where a segment hides a slash, the canonical paths of the two sides differ |
| `HostSuffixes.GenerateLookupHosts` | src/worker/normalize/sb_urls.go:200-218 | the loop appends the specified hosts |
| `HostSuffixes.LookupHostsExact` | src/worker/normalize/sb_urls.go:191-218 | the hosts tried are the host itself and what follows a dot in it and has two to seven labels, and no other |
| `HostSuffixes.LookupHostsDistinct` | src/worker/normalize/sb_urls.go:207-217 | their exact number, at most seven, each shorter than the one before |
| `HostSuffixes.LookupHostsAreHosts` | src/worker/normalize/canonical.go:43 | each of them matches the host pattern |
| `LookupPaths.GenerateLookupPaths` | src/worker/normalize/sb_urls.go:221-246 | the loops append the specified paths |
| `LookupPaths.PathsExact` | src/worker/normalize/sb_urls.go:220-246 | the paths tried are the root, the path, its proper directory prefixes of at most three components, and the path with its query, and no other |
| `LookupPaths.PathsDistinct` | src/worker/normalize/sb_urls.go:224-245 | at most six, each longer than the one before |
| `LookupPaths.PathsAreCanonical` | src/worker/normalize/sb_urls.go:236-241 | each of them without the query is a canonical path |
| `Candidates.GenerateCandidates` | src/worker/normalize/canonical.go:84-101 | the nested loops with the seen-map compute the specified candidates |
| `Candidates.PatternInjective` | src/worker/normalize/canonical.go:62-68 | different canonical parts have different patterns |
| `Candidates.PatternSeparatesCleanUrls` | src/worker/normalize/canonical.go:62-141 | two URLs share a pattern exactly when hosts, cleaned decoded paths and decoded queries agree |
| `Candidates.CandidatesExact` | src/worker/normalize/canonical.go:82-101 | a lookup asks for the pattern of an entry exactly when the entry covers the URL |
| `Candidates.OwnPatternIsCandidate` | src/worker/normalize/canonical_test.go:72-94 | a stored pattern is a candidate of its own URL, for all canonical URLs |
| `Candidates.CandidatesAreClosed` | src/worker/normalize/canonical.go:82-101 | every candidate is the pattern of canonical parts that cover the URL |
| `Candidates.CandidatesDistinct` | src/worker/normalize/canonical.go:88-98 | the duplicate filter drops nothing: hosts times paths candidates, at most 42, all different |
| `CanonHost.FoldHostMeaning` | src/worker/normalize/canonical.go:270-272 | collapsing and trimming dots drops exactly the empty labels |
| `CanonHost.FoldHostExact` | src/worker/normalize/canonical.go:270-272 | folding identifies exactly the hosts whose non-empty labels agree up to letter case |
| `CanonHost.HostSpellingDoesNotMatter` | src/worker/normalize/canonical.go:262-281 | hosts that differ in letter case and extra dots once IDNA has mapped them have the same outcome, and accepted hosts with the same outcome differ in nothing else |
| `CanonHost.CanonicalHostResult` | src/worker/normalize/canonical.go:262-281 | an accepted host matches the host pattern, is no IP address, and is its own canonical form |
| `HostText.HostExact` | src/worker/normalize/canonical.go:38-43 | the host pattern, in the characters and lengths it allows |
| `HostText.MappedExact` | src/worker/normalize/sb_urls.go:67-76 | exactly the hosts with a byte above 0x80 are mapped by IDNA |
| `HostText.OutcomeExact` | src/worker/normalize/canonical.go:262-281 | a host is refused as an IP address exactly when its folded form is one, and accepted exactly when that form matches the host pattern |
| `HostText.CaseDoesNotMatter` | src/worker/normalize/canonical.go:272 | a host with any of its letters in upper case is accepted with its lower-case form |
| `CanonHost.ParsePiecesResult` | src/worker/normalize/canonical.go:126-141 | canonical parts are exactly the results of canonicalization and exactly its fixed points |
| `CanonHost.RootIsCanonical` | src/worker/normalize/canonical.go:126-141 | the root page of every well-formed host is canonical |
| `CanonHost.PiecesMayBeDecoded` | src/worker/normalize/canonical.go:131-141 | decoding some escapes of path and query beforehand makes no difference to the outcome, at every length at which both spellings decode |
| `Canonical.ParsedIsCanonical` | src/worker/normalize/canonical.go:110-142 | whatever the parser does, a raw URL of a feed yields canonical parts or an error |
| `Canonical.SubmittedIsCanonical` | client/src/canonical.ts:48-65 | so does a looked-up URL |
| `Canonical.PreprocessingsAgree` | client/src/canonical.ts:94-114 | for every raw URL, the feed side's parser is handed what the lookup side's parser is handed, with control bytes encoded and the authority decoded |
| `Canonical.SidesComputeTheSame` | client/src/canonical.ts:48-65 | both sides find the same parts or the same error in the same pieces |
| `Canonical.SchemesAlike` | src/worker/normalize/canonical.go:105-124 | "http" and "https" are accepted alike on both sides, no other scheme is, and IPv6 literals are refused as IP addresses |
| `Canonical.PartsExact` | src/worker/normalize/canonical.go:119-141 | a web URL has the parts of its host, path and query, and none when one of them has none |
| `Canonical.WebUrlIsAccepted` | src/worker/normalize/canonical.go:119-141 | with a host that matches the pattern and a path and query that decode, it is accepted on both sides with the same parts |
| `Canonical.ParsedExact` | src/worker/normalize/canonical.go:110-121 | a raw URL has the parts of its pieces, or none when a step or the parser fails |
| `Canonical.SubmittedExact` | client/src/canonical.ts:48-58 | the same for a looked-up URL |
| `Canonical.SpellAlikeExact` | src/worker/normalize/sb_urls.go:113-126 | spellings with one normal form are those that decode alike, and encoding or decoding some bytes more, in either direction, keeps them alike |
| `Canonical.SidesFindTheSameParts` | client/src/canonical.ts:48-65 | so they do when the lookup side gets the host mapped, in any letter case and with extra dots, path and query with any bytes encoded or decoded, and dot segments resolved without losing a segment |
| `Resubmission.PreprocessedPattern` | src/worker/normalize/canonical.go:147-169 | a pattern submitted as a URL reaches the parser with nothing changed but backslashes into slashes |
| `Resubmission.CutAtQuestion` | src/worker/normalize/canonical.go:62-68 | cutting at the first '?' takes path and query of a pattern apart again |
| `Resubmission.ResubmissionExact` | src/worker/normalize/canonical.go:74-142 | canonicalizing a pattern again, from the raw string on and with "http" or "https", gives the same parts exactly when it holds no backslash |
| `Resubmission.BackslashIsUnstable` | src/worker/normalize/sb_urls.go:84-88 | a canonical path with a backslash that is not stable |
| `Tables.ReplaceInAnyOrder` | src/worker/service.go:170 | sending the rows of a diff in any order and with repeats has the same effect as sending each once in order |
| `Tables.ReplacePicked` | src/worker/d1.go:38 | rows sent by their positions, in any order and again after a retry, overwrite the table with exactly the diff once each position has occurred |
| `SqlText.StatementExact` | src/worker/service.go:170 | the text of a statement, character by character |
| `SqlText.HexTextExact` | src/worker/service.go:170 | the hash is written in lower-case hexadecimal digits |
| `SqlText.StatementRoundTrip` | src/worker/service.go:169-170 | reading a statement gives back its row and what follows it |
| `SqlText.RowsRoundTrip` | src/worker/service.go:169-189 | reading the text of some statements gives back exactly their rows |
| `SqlText.StatementLength` | src/worker/service.go:170 | the statement of a SHA-256 hash has at most 133 characters |
| `Chunking.PackFlattens` | src/worker/service.go:169-189 | no statement is lost, repeated or moved |
| `Chunking.PackStaysAhead` | src/worker/service.go:172-187 | packing never uses more chunks than another split, and with as many its open chunk is at least as empty |
| `Chunking.PackIsOptimal` | src/worker/service.go:172-187 | no order-preserving split within the bound has fewer chunks |
| `Chunking.DiffChunks` | src/worker/service.go:29-189 | the chunk files of a diff of SHA-256 hashes hold the statements in order, are non-empty and at most 90 KB long, and no other way to cut them into such files needs fewer |
| `Chunking.ChunksRoundTrip` | src/worker/d1.go:45-59 | reading the chunk files one after the other gives back the diff |
| `Chunking.RowsInReadsStatements` | src/worker/d1.go:54-59 | the SQL reader of the model finds the rows of every text of statements |
| `Sync.EveryRunIsSafe` | src/worker/service.go:54-100 | in every history, whatever fails and however often rows are sent again, every hash of `prev` is in D1, with a mask below the one in `prev` or in `curr` |
| `Sync.RemoteKeysGrow` | src/worker/service.go:170 | D1 never loses a key |
| `Sync.InsertedThenRotated` | src/worker/service.go:54-263 | an inserted hash is in D1 once a later run has rotated, whatever failed in between, unless local state was lost between the two |
| `Sync.RemoteKeysWereInserted` | src/worker/service.go:103-224 | D1 holds nothing but what it held at first and what feeds inserted |
| `Sync.CompleteSyncResult` | src/worker/service.go:86-99 | a run that gets through moves `curr` to `prev` and overwrites D1 with exactly the diff, in whatever order and however often its rows were sent |
| `Sync.AgreementExact` | README.md:27 | whenever nothing is being sent, D1 holds the mask of a rotated hash exactly when the last run since the last loss that sent a row for it did not end without rotating |
| `Sync.AllAgreeExact` | README.md:27 | D1 then holds all masks of `prev` exactly when no rotated hash was left behind in that way |
| `Sync.AgreementAfterSync` | src/worker/service.go:191-194 | after a run that gets through D1 agrees with `prev` on a hash exactly when this run sent it or no earlier one had left it behind |
| `Sync.LossIsRepaired` | README.md:27 | one complete run after a loss of local state restores equality, whatever D1 held |
| `Sync.UntaintedRunsAgree` | src/worker/service.go:86-99 | while no run since the last loss stopped between its first statement and its rotation, D1 agrees with `prev` whenever nothing is being sent |
| `Sync.StaleMask` | README.md:27 | a history in which a failed run leaves a stale mask that the next run does not send again |
| `FeedMasks.FetchingCollects` | src/worker/service.go:67-84 | the insert events of the fetching phase build the collected table |
| `FeedMasks.CollectIsUnion` | src/worker/service.go:112-118 | a hash is in `curr` exactly when it was there or was emitted, with the union of exactly those bits |
| `FeedMasks.InterleavingDoesNotMatter` | src/worker/service.go:67-84 | every interleaving of the feeds, with any duplicates, builds the same table |
| `FeedMasks.IdentifyExact` | src/provider/provider.go:16 | the stored masks tell which feed emitted which hash exactly when the feeds have disjoint non-zero masks |
| `FeedMasks.FeedCount` | src/worker/service.go:131 | with such masks the per-feed count is the number of different hashes the feed emitted |
| `FeedMasks.ShippedBitsOverlap` | src/provider/phishtank/service.go:33-35 | the shipped values are not such masks: a hash of the third feed is also counted for the first and the second |
| `Service.Service.Insert` | src/worker/service.go:103-125 | a URL without a pattern or an insert that is dropped changes nothing, any other one ORs the bit of its feed in at the hash of its pattern |
| `Service.Service.WriteStatement` | src/worker/service.go:169-189 | a row's statement goes to the open chunk file or to a new one: the files stay those of the packed rows, and the running size that of the open file |
| `Service.Service.WriteDiff` | src/worker/service.go:153-224 | the files hold the packed statements of the rows of `curr` that are not rows of `prev`, each once, and the count is their number |
| `Service.Service.Query` | src/worker/d1.go:54-62 | every failed attempt applies some first statements of the text, and a last one all of them if the query goes through |
| `Service.Service.SendChunks` | src/worker/d1.go:45-63 | only rows of the chunks are applied, all of them on success, which means that no chunk is empty and every query goes through |
| `Service.Service.D1Sync` | src/worker/d1.go:20-91 | the rows sent are the diff whatever order the file names sort in, all of them at least once on success, and it succeeds exactly when all queries go through and, if there was one, the status row |
| `Service.Service.Rotate` | src/worker/service.go:228-263 | `curr` becomes `prev` and is emptied, or nothing changes |
| `Service.Service.Fetch` | src/worker/service.go:67-84 | `curr` becomes the table collected from the URLs that land |
| `Service.FetchesAlike` | src/worker/service.go:67-84 | however the feeds interleave, repeat or spell their URLs, the same patterns landed by each feed leave the same `curr` |
| `Service.Service.SyncAndRotate` | src/worker/service.go:86-99 | what follows the fetching is a run of the transition system that rotates exactly on success, and succeeds when nothing fails |
| `Service.Service.Run` | src/worker/service.go:54-100 | one run of the service is one run of the transition system, whatever fails, and rotates when nothing does |
| `Service.LandedMembers` | src/worker/service.go:103-118 | what reaches the table are exactly the hashes of the patterns that landed, each with its feed |
| `Service.ReadPermuted` | src/worker/d1.go:35 | sending the chunk files in another order sends the same rows |
| `Lookup.QueryListed` | client/src/canonical.ts:83-90 | a raw URL is refused, or the query over all candidate hashes answers whether some candidate is in the table |
| `Lookup.HttpEntryBlocksHttps` | src/worker/normalize/canonical.go:105-109 | an entry shipped with "http" blocks the same URL looked up with "https" |
| `Lookup.SpellingKeepsAnswer` | client/src/canonical.ts:83-90 | a looked-up URL gets the same answer, an error included, when some of its escapes were decoded on the way |
| `Lookup.InsertedIsListed` | client/src/canonical.ts:71-90 | once a run after an insert has rotated, every URL the entry covers is listed from then on, for any hash |
| `Lookup.ListedIsInserted` | client/src/canonical.ts:83-90 | without collisions a URL that D1 did not list at first has a candidate that some feed inserted |
| `Lookup.LookupIsExact` | client/src/canonical.ts:83-90 | without collisions a URL is listed if and only if D1 listed it at first or an inserted and rotated entry covers it |
| `Lookup.ShippedIsListed` | src/worker/normalize/canonical_test.go:70-94 | a URL that a feed shipped, looked up in any such spelling, is answered yes once a later run has rotated, for any hash and any history without a loss in between |
| `History.HistoryGrows` | src/worker/service.go:54-100 | a run of the service continues the history it starts from |
| `History.HistoryIsExact` | src/worker/service.go:54-125 | after any runs, failures and losses in which every run that fetched something was followed by a rotation before a loss, and without collisions, a raw URL is listed if and only if D1 listed it at first or some raw URL that landed covers it |
| `History.ListedWasShipped` | src/worker/service.go:54-125 | after any history at all, and without collisions, what is listed was listed at first or is covered by a URL that landed |
| `History.ShippedInHistory` | src/worker/service.go:54-125 | for any hash, a URL that landed in a run with a rotation at or after it and no loss in between is listed in every spelling from then on |
| `History.LastRunSettles` | src/worker/service.go:86-99 | runs of which the last one rotates meet the condition, whatever failed before |
| `History.FirstRunIsExact` | src/worker/service.go:54-125 | the case of a single run from empty tables |

## Left out

- Parsing with `net/url` and `new URL()`: the libraries are not part of this model. A parser is a parameter that hands over
  scheme, hostname, path and query, and whether the host is an IPv6 literal; the authority and the scheme are modelled
  as far as the repository handles them itself.
- The IDNA mapping and trimming of Unicode white space: parameters without any assumption, except where a lemma says so.
- JavaScript strings with characters above 0xff: text is a sequence of bytes on both sides.
- SHA-256: a function parameter; where a property needs it, the patterns involved are assumed not to collide.
- Providers, the HTTP client and cache, the status API, logging, configuration and scheduling: no part in the protocol.
- Feed history and the status row: only whether writing the status succeeds is modelled.
- SQLite and D1 internals: an upsert and a rotation are atomic, an attempt at a query applies all or some first statements
  of its text, and there may be any number of failed attempts where the client stops after five retries. Attempts that
  take effect after the run has gone on, and pruning of D1 by others, are not modelled.
- Retries of busy inserts: an insert lands or is dropped.
- Service.Service.Insert: when the context is cancelled before the first attempt the source reports no error although nothing
  landed; here the result is whether the insert landed. It only feeds the error column of the feed history.
- DotPaths.DotsMayBeResolved: paths in which a segment hides a slash or a dot segment are not covered; there the two
  sides can differ in other ways, as `DotExamples.HiddenSlashMatters` shows.
- Leftover chunk files: removing the diff directory before writing the next diff is taken to succeed.
- The mode without sync: rotation then says nothing about D1.
- Goroutines: the inserts of concurrent feeds are atomic and reach the table in some order; `Service.Service.Fetch` takes that order.
- Service.Service.Run: covers the errors a run can return; a crash inside a run is the Abort event of `Sync` instead.
- Service.Service.SyncAndRotate: the second half of `Run`, separated here, as `SendAndRotate` and `SendChunk` are; the source
  has one function for each.
- IpAddress.GoParseUint: written after the documented behaviour of `strconv.ParseUint` with base 0 and 32 bits.
- IpAddress.TsParseUint: numbers are exact integers; the rounding of JavaScript numbers above 2^53 cannot matter below the 32-bit check.
