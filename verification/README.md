# Verified models of the redog proxy engine

A Dafny 4.11 model of the parts of redog that hold state, index, encode or
decode: the FakeIP pool and its LRU caches, the domain trie and the rule engine
it must agree with, the TLS server-name sniffer, the SOCKS5, host-and-port and
rule-text codecs, the two quoting layers of the macOS proxy switch, the latency
group and the traffic counters. `dafny verify dfyconfig.toml` checks everything.

Code that changes state is modelled by classes and loops (`LruCache`,
`FakeIpPool`, `DomainTrie`, `RoutingTunnel`, the sniffer methods, `Stream` and
the SOCKS5 methods, `Group`, `TrafficCounter`). Each method is proved against a
function of the old state, and the theorems about whole runs, languages and
round trips are lemmas about those functions. Concurrent use of the FakeIP pool
and of the traffic counters is modelled as a relation over atomic steps, with any
number of threads interleaving.

## What the proofs found

- **FakeIP, forward and reverse.** The two caches are not inverse. After a
  cached `lookup(h)` the reverse lookup of its answer gives `h` back exactly when
  at most one turn of the allocator has passed since `h`'s latest grant and the
  address is still in the reverse cache (`RoundTripExactly`);
  `TwoHostsShareAnAddress` is a run where two resident hosts share one address.
- **FakeIP, /31 and /32.** The comments promise that the broadcast address is
  skipped. It is, except for /31, where the one usable address is the broadcast
  address. For /32 the one address lies outside the block. Prefix lengths above
  32 act as if 32 lower, and /0 is a pool of one address that contains every
  IPv4 address (`RangeShape`, `AddressesAreUsable`, `ContainsIsInterval`).
- **Exact trie entries.** `insert_exact` promises an entry that matches its
  domain and no subdomain. `lookup` never sees it there; it acts as a suffix
  entry for `__exact__.` + domain instead, and `ExactChangesExactly` says which
  lookups that changes, and to what (`ExactIsNeverFound`, `LookupFindsBest`).
- **Trie in place of the scan.** The trie agrees with the first-match scan on
  every host exactly for the rule lists named `Unshadowed`.
- **Sniffer.** A server_name extension that claims more bytes than the handshake
  holds makes the slice at line 94 panic; `AbortIff` names exactly those inputs
  and `ShortRecordAborts` shows one.
- **Latency group.** The 16-bit sum of least delay and tolerance can wrap. Then
  the fastest proxy is selected without the gain the tolerance asks for:
  hysteresis holds exactly when the sum fits or the fastest proxy is selected
  already (`SelectionChangesOnlyForGainIff`). With every proxy down and a positive
  tolerance the first proxy is selected (`AllDownSelectsTheFirst`).
- **Traffic.** Overlapping snapshots can report bytes more than once
  (`OverlapCountsTwice`) and never lose one: the reports and the bytes since the
  last-seen value exceed the bytes added by exactly what swaps put that value
  back. So bytes are conserved if and only if no swap went backwards
  (`BytesConservedIff`), as none does without overlap (`EveryByteReportedOnce`).
- **Routing.** What `RuleMatch` answers is stated rule kind by rule kind without
  the matcher (`RouteIff`); a configured MATCH rule makes the fallback impossible
  (`CatchAllDecides`).
- **SOCKS5.** An encoded domain reads back exactly when it has at most 255 bytes.
  The bytes the server writes are read by a client as a granted request exactly
  when the handshake succeeds (`ClientAgrees`).
- **Host and port.** After a closing bracket anything that does not start with a
  colon is ignored (`AcceptedIff`).

## Files

| file | part of redog |
|---|---|
| `LruCache.dfy` | the bounded cache, and which keys a history of touches leaves in it |
| `FakeIpPool.dfy`, `FakeIpRuns.dfy`, `FakeIpThreads.dfy` | the pool, its sequential runs, its interleavings |
| `DomainLabels.dfy`, `DomainTrie.dfy`, `TrieLookups.dfy` | label paths and the suffix test, the trie, what its lookups return |
| `Rules.dfy`, `Metadata.dfy`, `Tunnel.dfy`, `Routing.dfy`, `SuffixIndex.dfy` | rules, connections, first-match routing, what each rule kind covers, the trie as an index of it |
| `Sniffer.dfy`, `ClientHello.dfy` | the sniffer, and the TLS messages of section 4.1.2 of RFC 8446 and section 3 of RFC 6066 |
| `Socks5.dfy` | the RFC 1928 server codec |
| `RuleParser.dfy`, `HostPort.dfy`, `ShellQuoting.dfy` | the text formats |
| `UrlTest.dfy`, `Traffic.dfy` | the latency group, the counters |
| `Text.dfy`, `Bytes.dfy`, `Bits.dfy`, `Options.dfy` | strings, big-endian fields and UTF-8, machine integers, results |

## Model

| member | source | states |
|---|---|---|
| Lru.LruCache.constructor | redog-common/src/cache.rs:21-29 | a new cache is empty; capacity 0 becomes 64 |
| Lru.LruCache.Get | redog-common/src/cache.rs:31-33 | a hit returns the value and makes the key the newest; a miss changes nothing |
| Lru.LruCache.Put | redog-common/src/cache.rs:35-37 | the key becomes the newest with the new value, and only the oldest key of a full cache is dropped |
| Lru.LruCache.Contains | redog-common/src/cache.rs:39-41 | membership, without touching the order |
| Lru.LruCache.Remove | redog-common/src/cache.rs:43-45 | returns the value and takes exactly that key out, order of the others kept |
| Lru.LruCache.Len | redog-common/src/cache.rs:47-49 | the number of entries, never above the capacity |
| Lru.EffectiveCapacity | redog-common/src/cache.rs:22-25 | the capacity in force is never zero: a given one is kept, zero becomes 64 |
| Lru.InsertedKnown | redog-common/src/cache.rs:35-37 | putting a known key drops nothing |
| Lru.InsertedWithRoom | redog-common/src/cache.rs:35-37 | putting a new key into a cache with room drops nothing |
| Lru.InsertedWhenFull | redog-common/src/cache.rs:35-37 | putting a new key into a full cache drops the oldest key and no other |
| Lru.PutTracks | redog-common/src/cache.rs:35-37 | a put keeps the order equal to the newest keys of the whole touch history |
| Lru.HitTracks | redog-common/src/cache.rs:31-33 | so does a hit |
| Lru.Residency | redog-common/src/cache.rs:31-37 | a key is resident exactly when it was touched and fewer than `capacity` distinct other keys were touched since |
| FakeIp.FakeIpPool.constructor | redog-component/src/fakeip.rs:37-52 | a new pool over the masked block: empty caches, offset 1 |
| FakeIp.FakeIpPool.New | redog-component/src/fakeip.rs:24-53 | a pool for every accepted block text, and the right error for every other |
| FakeIp.CidrAcceptedIff | redog-component/src/fakeip.rs:25-43 | exactly the texts of one slash between an accepted address and an unsigned 32-bit number make a pool |
| FakeIp.CidrErrors | redog-component/src/fakeip.rs:25-35 | which error each refused text gets: the cut first, then the address, then the number |
| FakeIp.FakeIpPool.LookupHost | redog-component/src/fakeip.rs:56-68 | the whole new state and the answer: a hit only refreshes the forward cache, a miss allocates and writes both caches |
| FakeIp.FakeIpPool.ReverseLookupIp | redog-component/src/fakeip.rs:71-73 | the cached host and the refreshed reverse cache; everything else unchanged |
| FakeIp.FakeIpPool.Contains | redog-component/src/fakeip.rs:76-83 | true exactly for the IPv4 addresses in the interval the mask spans; IPv6 is never contained |
| FakeIp.FakeIpPool.Allocate | redog-component/src/fakeip.rs:85-93 | the address at the current offset, and the offset one further around |
| FakeIp.RangeShape | redog-component/src/fakeip.rs:37-48 | for every prefix length: pool size, mask and network; all but the block of /0 start at a multiple of their size and end within 32 bits; lengths above 32 act as if 32 lower |
| FakeIp.ContainsIsInterval | redog-component/src/fakeip.rs:75-83 | the mask test is network <= ip < network + pool size, and everything for /0 |
| FakeIp.AddressesAreUsable | redog-component/src/fakeip.rs:85-93 | an allocated address is contained exactly when the prefix length is 0 or no multiple of 32; then, but for 0, it is never the network address, and the broadcast address only for /31 |
| FakeIp.AddressesDistinct | redog-component/src/fakeip.rs:85-93 | two offsets give one address exactly when they are whole turns apart |
| FakeIp.TurnLength | redog-component/src/fakeip.rs:87-88 | a turn is 2^(32 - prefix length) - 2 addresses, or one for lengths 31 and 32 |
| FakeIp.AddressInNumbers | redog-component/src/fakeip.rs:85-93 | the address at every offset of every block, in numbers alone |
| FakeIp.TurnIsComplete | redog-component/src/fakeip.rs:85-93 | up to /30, one turn hands out every address but the network and broadcast addresses, each once |
| Bits.BitAndHighMask | redog-component/src/fakeip.rs:38-48 | and-ing with the prefix mask rounds down to a multiple of the block size |
| FakeIpRuns.StepKeepsConsistent | redog-component/src/fakeip.rs:56-93 | every step keeps: both caches hold the newest touched keys, each with its latest grant; grants follow the allocator's turn |
| FakeIpRuns.LookupAnswer | redog-component/src/fakeip.rs:56-68 | the result of every lookup in every reachable state, from the history alone |
| FakeIpRuns.ReverseAnswer | redog-component/src/fakeip.rs:71-73 | the result of every reverse lookup in every reachable state: the host of the address's latest grant while it is resident, else nothing |
| FakeIpRuns.NthGrant | redog-component/src/fakeip.rs:85-93 | the n-th allocation in every run: network + (n + 1) mod (2^(32 - prefix length) - 2) + 1, or the one address of /31 and /32 |
| FakeIpRuns.GrantsRepeatByTurns | redog-component/src/fakeip.rs:85-93 | fewer than `usable` allocations apart the addresses differ, exactly `usable` apart they are equal, and what that number is for each prefix length |
| FakeIpRuns.OwnerForOneTurn | redog-component/src/fakeip.rs:62-66 | a host owns the address of its latest grant for one turn, and no longer |
| FakeIpRuns.RoundTripExactly | redog-component/src/fakeip.rs:56-73 | reverse lookup undoes lookup exactly when the grant is at most one turn old and the address is resident in the reverse cache |
| FakeIpRuns.FreshGrantRoundTrips | redog-component/src/fakeip.rs:62-66 | right after a miss the reverse lookup gives the host back |
| FakeIpRuns.LookupIsSticky | redog-component/src/fakeip.rs:58-60 | an answered host keeps its address through any run that looks up fewer than `capacity` distinct other hosts |
| FakeIpRuns.GrantStaysReversible | redog-component/src/fakeip.rs:62-73 | a fresh grant resolves back through any run with fewer than `usable` further grants that touches fewer than `capacity` other addresses |
| FakeIpRuns.TwoHostsShareAnAddress | redog-component/src/fakeip.rs:56-73 | a run after which two resident hosts share an address that resolves to the second |
| FakeIpThreads.NextKeepsSafe | redog-component/src/fakeip.rs:56-73 | every atomic step of every thread keeps the safety invariant |
| FakeIpThreads.VisibleOnlyAfterPublished | redog-component/src/fakeip.rs:62-66 | in every interleaving a forward entry, and every answer, was written to the reverse cache before |
| FakeIpThreads.ConcurrentReverseAnswer | redog-component/src/fakeip.rs:71-73 | in every interleaving a reverse lookup names the host last written for the address, or nothing |
| FakeIpThreads.ConcurrentForwardAnswer | redog-component/src/fakeip.rs:58-60 | in every interleaving a forward read gives the address last written for the host, or misses, exactly by how many other hosts were hit or written since |
| FakeIpThreads.AnswersResolve | redog-component/src/fakeip.rs:56-73 | with at most min(usable, capacity) allocations, every answer ever returned resolves back to its host |
| FakeIpThreads.UninterruptedIsLookup | redog-component/src/fakeip.rs:56-68 | the four steps without interruption are the sequential lookup |
| FakeIpThreads.ReverseIsReverseLookup | redog-component/src/fakeip.rs:71-73 | the reverse step is the sequential reverse lookup |
| FakeIpThreads.RaceAllocatesTwice | redog-component/src/fakeip.rs:56-68 | two racing lookups of one uncached host are granted two different addresses |
| Trie.DomainTrie.constructor | redog-component/src/trie.rs:19-21 | a new trie stores nothing |
| Trie.DomainTrie.InsertSuffix | redog-component/src/trie.rs:25-35 | stores the data at the domain's label path and changes nothing else |
| Trie.DomainTrie.InsertExact | redog-component/src/trie.rs:38-54 | stores the data one marker label below the domain and changes nothing else |
| Trie.DomainTrie.Lookup | redog-component/src/trie.rs:58-82 | the data at the longest prefix of the label path that has any |
| Trie.LongestMatchSkips | redog-component/src/trie.rs:69-78 | stopping at a missing child misses nothing: only prefixes with data matter |
| DomainLabels.SuffixIsLabelPrefix | redog-rules/src/domain.rs:45-56 | the string test of a suffix rule holds exactly when the suffix's label path starts the host's, for all strings |
| DomainLabels.SuffixIff | redog-rules/src/domain.rs:45-56 | a suffix matches exactly the hosts that end in it, up to ASCII case, at their start or after a dot |
| Text.LowerEqualsIff | redog-rules/src/domain.rs:16-22 | two texts fold alike exactly when they have equal characters up to the two cases of one ASCII letter |
| DomainLabels.CaseDoesNotMatter | redog-rules/src/domain.rs:45-56 | respelling the case of a domain changes neither its labels nor what it matches |
| TrieLookups.LookupFindsBest | redog-component/src/trie.rs:25-82 | after any inserts, suffix and exact, a lookup of any domain returns the matching insert with most labels, the latest of equals, and None exactly when none matches; an exact insert matches as a suffix insert of its marked spelling |
| TrieLookups.LookupIgnoresCase | redog-component/src/trie.rs:67-68 | every spelling of a domain is looked up, and inserted, alike |
| TrieLookups.InsertedSuffixIsFound | redog-component/src/trie.rs:23-35 | an inserted suffix is found for every host that ends in it, up to case, at its start or after a dot, unless something longer is stored |
| TrieLookups.Build | redog-component/src/trie.rs:19-54 | a trie built by any list of inserts holds the view these theorems speak of |
| TrieLookups.ExactIsNeverFound | redog-component/src/trie.rs:38-54 | an exact insert leaves the lookup of its own domain as it was |
| TrieLookups.ExactChangesExactly | redog-component/src/trie.rs:38-54 | which lookups an exact insert changes, to what, and that all others stay |
| TrieLookups.ExactMatchesOnlyMarked | redog-component/src/trie.rs:49-53 | exact inserts show only for domains with a marker label of their own |
| TrieLookups.ExactIsFoundUnderMarker | redog-component/src/trie.rs:50-53 | it is found under the spelling `__exact__.` + domain |
| Tunnel.RoutingTunnel.RuleMatch | redog-tunnel/src/tunnel.rs:179-206 | the first matching rule whose adapter exists decides; without one the result is the DIRECT fallback |
| Routing.MatchesIff | redog-rules/src/domain.rs:16-114 | a domain, suffix, keyword, regex, CIDR, port or MATCH rule matches exactly the connections described in plain texts, intervals and ports |
| Routing.KeywordIff | redog-rules/src/domain.rs:78-84 | a keyword matches exactly the hosts that are a + word + b with the word equal to it up to case |
| Routing.NetContainsIff | redog-rules/src/ipcidr.rs:41-49 | a CIDR rule holds exactly the addresses of its block of 2^(width - length) addresses |
| Routing.RouteIff | redog-tunnel/src/tunnel.rs:179-206 | the route is the adapter of the first rule that covers the connection and is configured, else the configured or built-in DIRECT |
| Routing.CatchAllDecides | redog-rules/src/final_match.rs:15-17 | a MATCH rule with a known adapter decides whatever no earlier rule decided; no fallback then |
| Routing.RouteIsUnique | redog-tunnel/src/tunnel.rs:179-206 | a connection has one route |
| Tunnel.RoutingTunnel.UpdateRules | redog-tunnel/src/tunnel.rs:214-216 | replaces the rules and nothing else |
| Tunnel.RoutingTunnel.UpdateProxies | redog-tunnel/src/tunnel.rs:209-211 | replaces the proxies and nothing else |
| SuffixIndex.IndexAnswersLongest | redog-tunnel/src/tunnel.rs:183-194 | a trie built from a rule list, last rule first, answers with its longest matching rule, the first of equals |
| SuffixIndex.ScanAgreesWithIndex | redog-tunnel/src/tunnel.rs:183-194 | scan and trie agree on every host exactly when no rule's own suffix is decided differently by an earlier shorter one |
| SuffixIndex.OrderedListsAreUnshadowed | redog-tunnel/src/tunnel.rs:183-194 | lists with non-increasing label counts satisfy that condition |
| SuffixIndex.RouteFollowsIndex | redog-tunnel/src/tunnel.rs:179-206 | then every connection with a domain gets the adapter the trie picks, and the fallback exactly when the trie finds nothing |
| Sniffer.SniffTlsSni | redog-component/src/sniffer.rs:2-25 | the record walk equals the consuming parser |
| Sniffer.ParseClientHello | redog-component/src/sniffer.rs:27-60 | the walk over header, version, random and session id equals the consuming parser on every input |
| Sniffer.ParseSuites | redog-component/src/sniffer.rs:62-84 | so does the walk over cipher suites, compression methods and the extension length |
| Sniffer.ParseExtensions | redog-component/src/sniffer.rs:86-100 | the extension loop equals the consuming parser, overrunning lengths included |
| Sniffer.ParseSniExtension | redog-component/src/sniffer.rs:103-130 | the name loop equals the consuming parser and stays in bounds |
| Bytes.ValidUtf8Iff | redog-component/src/sniffer.rs:122 | the bytes accepted as a name are exactly the UTF-8 encodings of sequences of Unicode scalar values |
| Bytes.FieldsAreBigEndian | redog-component/src/sniffer.rs:17 | two- and three-byte fields have the high byte first, written and read |
| ClientHello.HostFoundIff | redog-component/src/sniffer.rs:2-130 | a host name is found exactly when the input is a complete record whose first server_name extension carries it as its first readable host name entry |
| ClientHello.AbortIff | redog-component/src/sniffer.rs:92-95 | the slice runs out of bounds exactly when that extension claims more bytes than are left |
| ClientHello.ShortRecordAborts | redog-component/src/sniffer.rs:92-95 | a concrete record whose slice is out of bounds |
| ClientHello.ConformingHostIsFound | redog-component/src/sniffer.rs:2-130 | every conforming hello with a host name, ASCII or any text in UTF-8, is sniffed as that name, whatever surrounds it |
| ClientHello.NoServerNameNoHost | redog-component/src/sniffer.rs:86-100 | a conforming hello without the extension gives no host |
| ClientHello.DependsOnlyOnRecord | redog-component/src/sniffer.rs:19-24 | prefixes shorter than the record give no host, longer input changes nothing |
| Socks5.CommandOf | redog-transport/src/socks5.rs:18-28 | 1 is CONNECT, 2 BIND, 3 UDP ASSOCIATE, and no other byte is a command |
| Socks5.ReadU8 | redog-transport/src/socks5.rs:172-176 | reads one byte, or fails at the end of the input |
| Socks5.ReadU16 | redog-transport/src/socks5.rs:178-182 | reads two bytes big-endian, or fails at the end of the input |
| Socks5.ReadAddress | redog-transport/src/socks5.rs:130-170 | result, unread input and unchanged output for every type byte and input |
| Socks5.EncodeAddress | redog-transport/src/socks5.rs:107-128 | type byte, octets or cut length byte and name, and port, in that order |
| Socks5.ServerHandshake | redog-transport/src/socks5.rs:60-104 | result, unread input and written bytes for every input |
| Socks5.AddressRoundTrip | redog-transport/src/socks5.rs:107-170 | an encoded address reads back, leaving the trailing bytes, exactly when its length byte can hold it |
| Socks5.DecodedIsEncoded | redog-transport/src/socks5.rs:130-170 | whatever reads as an address is that address's encoding |
| Socks5.EncodingsArePrefixFree | redog-transport/src/socks5.rs:107-128 | encodings are injective and none begins another |
| Socks5.HandshakeSucceedsIff | redog-transport/src/socks5.rs:60-104 | success with a command and address exactly on a greeting, a request for them and a payload, which stays unread |
| Socks5.HandshakeWrites | redog-transport/src/socks5.rs:76-101 | the bytes written, exactly: none before a complete greeting, then 05 00, and 05 00 00 01 and six zero bytes exactly on success |
| Socks5.ClientAgrees | redog-transport/src/socks5.rs:76-101 | a client that offers to go without authentication reads its method accepted, and its request granted, bound to 0.0.0.0:0, exactly when the server succeeds |
| Socks5.WaitsOnlyWhileOpen | redog-transport/src/socks5.rs:60-104 | the handshake ends for lack of input exactly when more input can change its result; any other result is final |
| RuleParser.ParsedIsCanonical | redog-rules/src/parser.rs:9-73 | an accepted rule has trimmed fields, no comma in its payload, and payloads its libraries accept |
| RuleParser.AcceptedLinesRoundTrip | redog-rules/src/parser.rs:9-73 | every accepted line, reprinted from type, payload and adapter, parses to the same rule |
| RuleParser.RoundTripIff | redog-rules/src/parser.rs:9-73 | the rules that survive printing and parsing are exactly the canonical ones; a destination block prints the name of its address family |
| RuleParser.MalformedIff | redog-rules/src/parser.rs:20-23 | the format error is given exactly to lines that are no MATCH line and have fewer than two commas |
| RuleParser.ParsedIff | redog-rules/src/parser.rs:9-73 | a line parses to a rule exactly when it is a MATCH line for its target, DIRECT by default, or three trimmed fields that name the kind, payload and target |
| RuleParser.RefusedIff | redog-rules/src/parser.rs:25-72 | which error each refused line of three fields gets |
| Text.TrimIff | redog-rules/src/parser.rs:10 | trimming takes all whitespace off both ends and nothing else |
| Text.WhitespaceIff | redog-rules/src/parser.rs:10 | whitespace is the 25 code points with the White_Space property |
| Text.ParseUnsignedIff | redog-rules/src/parser.rs:59-70 | exactly an optional plus sign and a decimal numeral below the limit parse, to what the numeral stands for |
| Text.PrintIsNumeral | redog-rules/src/port.rs:13-20 | a printed number is its decimal numeral, without leading zeros |
| Text.ParsePrint | redog-rules/src/port.rs:13-20 | a printed port parses back to itself |
| HostPort.DestinationRoundTrip | redog-listener/src/http_parse.rs:5-48 | host, colon, port parses back exactly for nonempty hosts without a closing bracket |
| HostPort.ConnectionRoundTrip | redog-core/src/metadata.rs:94-117 | the destination prints the domain before the address, and parses back exactly for nonempty hosts without a closing bracket |
| HostPort.BracketedRoundTrips | redog-listener/src/http_parse.rs:11-28 | the bracketed form round-trips, with and without a port |
| HostPort.AcceptedIff | redog-listener/src/http_parse.rs:5-48 | the texts accepted as a host and port are exactly the plain and the bracketed form |
| HostPort.RefusedIff | redog-listener/src/http_parse.rs:6-36 | which texts have an empty host or a malformed bracket; the other refused ones have a bad port |
| HostPort.TargetIsAuthority | redog-listener/src/http_parse.rs:52-63 | an absolute target parses as its authority, whatever the path, or without one |
| HostPort.PlainTargetIsParsed | redog-listener/src/http_parse.rs:59-62 | a target without a scheme is parsed as it is |
| ShellQuoting.AppleRoundTrip | redog-gui/src-tauri/src/sysproxy.rs:181-184 | an escaped text, read as an AppleScript string, is the text |
| ShellQuoting.ScriptReads | redog-gui/src-tauri/src/sysproxy.rs:169-180 | a script, read as shell words, is the commands |
| ShellQuoting.CommandsSurviveQuoting | redog-gui/src-tauri/src/sysproxy.rs:169-184 | both layers undone give exactly the original commands, for all arguments, with administrator rights asked for |
| UrlTest.Group.constructor | redog-adapter/src/proxy_group/url_test.rs:25-43 | the first proxy is selected and every delay is unreachable |
| UrlTest.Group.Commit | redog-adapter/src/proxy_group/url_test.rs:76-100 | records every delay and selects as the hysteresis rule says; the group stays valid |
| UrlTest.Group.Current | redog-adapter/src/proxy_group/url_test.rs:116-122 | the selected proxy's name, or DIRECT for an empty group |
| UrlTest.MinByDelay | redog-adapter/src/proxy_group/url_test.rs:87 | the first of the least delays |
| UrlTest.RunsStayWithinTolerance | redog-adapter/src/proxy_group/url_test.rs:69-101 | over every run the selection is valid and, after each round, within the tolerance of the best |
| UrlTest.SelectionChangesOnlyForGainIff | redog-adapter/src/proxy_group/url_test.rs:88-90 | a change selects the fastest; it means a gain above the tolerance exactly when the 16-bit sum does not wrap or the fastest is selected already; without wrapping that gain is enough, and with it the fastest is always selected |
| UrlTest.RepeatedRoundsAreStable | redog-adapter/src/proxy_group/url_test.rs:69-101 | repeating the same measurements never changes the selection again |
| UrlTest.AllDownSelectsTheFirst | redog-adapter/src/proxy_group/url_test.rs:88-90 | with every proxy down and a positive tolerance the first one is selected |
| Traffic.TrafficCounter.AddUpload | redog-tunnel/src/statistics.rs:24-26 | adds modulo 2^64 |
| Traffic.TrafficCounter.AddDownload | redog-tunnel/src/statistics.rs:28-30 | adds modulo 2^64 |
| Traffic.TrafficCounter.Snapshot | redog-tunnel/src/statistics.rs:32-44 | totals, speeds since the last snapshot, and the new last-seen values |
| Traffic.ReportsCoverLast | redog-tunnel/src/statistics.rs:32-44 | in every interleaving the reported speeds add up to the last value swapped in plus everything swaps put back |
| Traffic.EveryByteReportedOnce | redog-tunnel/src/statistics.rs:24-44 | without overlap, reported speeds and bytes since the last snapshot are exactly the bytes added |
| Traffic.BytesConservedIff | redog-tunnel/src/statistics.rs:24-44 | in every interleaving the counted bytes are those added, and with totals below 2^64 no byte is lost and every byte is reported once exactly when no swap went backwards |
| Traffic.UninterruptedSnapshot | redog-tunnel/src/statistics.rs:32-44 | the four steps without interruption are the sequential snapshot |
| Traffic.OverlapCountsTwice | redog-tunnel/src/statistics.rs:32-44 | an interleaving that reports the same bytes twice |

## Left out

- Trie.DomainTrie.InsertSuffix: folds case in the ASCII range only; the source folds labels with the full Unicode mapping on insert and the ASCII one on lookup, so the two differ only for non-ASCII labels.
- Trie.DomainTrie.InsertExact: the same ASCII folding.
- DomainLabels.SuffixIsLabelPrefix: the same ASCII folding.
- TrieLookups.LookupFindsBest: the same ASCII folding.
- DomainLabels.SuffixIff: the same ASCII folding.
- Routing.MatchesIff: the same ASCII folding for suffix and keyword rules; the source folds DOMAIN rules in the ASCII range itself.
- UrlTest.Group.Commit: takes the measured delays as input; the sum wraps as in an optimised build, where a debug build panics instead.
- FakeIp.FakeIpPool.New: takes the IPv4 text parser as a parameter; the shift wraps as in an optimised build, where a debug build aborts for prefix lengths 0 and above 32.
- Socks5.ServerHandshake: a stream is a finite byte sequence; write errors and the flow and scope fields of IPv6 socket addresses are not modelled.
- Traffic.ReportsCoverLast: steps interleave in one order; reorderings that relaxed atomics allow between different variables are not modelled.
- Regex compilation and matching, CIDR text parsing and the printing of IP addresses are parameters.
- Sockets, tasks, timers, lock fairness, DNS resolution and running the macOS commands.
- Global and direct mode, the connection tracker, the selector group, the NAT table, configuration checks and the HTTP Host sniffer: they would add only easy members.
