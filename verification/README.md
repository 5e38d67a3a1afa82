# Verified models of cubic-go-playground

Dafny models of the stateful parts of a Go repository, with proofs of what those parts promise over
whole runs. `dafny verify dfyconfig.toml` checks the whole project.

**The expiration cache** (`cache/cache.go`). A bounded cache keeps one set of nodes in a map by key and
in a hand-written doubly linked list sorted by expiration. `ExpirationCache.dfy` models the object with its
heap nodes, one method per Go method, each proved against a function on the plain sorted sequence of
`ExpirationList.dfy`. On that view `CacheRuns.dfy` and `CacheTransparency.dfy` prove what holds of every
operation trace: the invariant, exactly which items a set keeps, when an item can be evicted, and exactly
when the bounded, pruning cache answers like a map that forgets nothing. `CacheEviction.dfy` says what an overfull
cache gives up, and `CacheEnds.dfy` when the choice of setter matters. `CacheClient.dfy` carries this back to the object, node by node, including what a client's entry pointer shows and when it goes stale.

**The event stream** (`ssgodatabyip/ssgodatabyip.go`). A reader drops what precedes the first brace of a
line, fills caller buffers of any size, and keeps a leftover that is a window onto bufio's own buffer.
`EventReader.dfy` models the objects with arrays, `EventStream.dfy` one `Read` and a schedule of Reads on
values, and `EventStreamRuns.dfy` compares every schedule with a byte-by-byte filter of the input.
`EventStreamLoss.dfy` bounds what a schedule may miss, and `EventStreamErrors.dfy` says which error ends it.
`UsageTable.dfy` is the one-pass join of events with session addresses, with 64-bit wrap-around.

**Routing messages** (`route/`). `RtaAlignment.dfy` has the 8-bit rounding of sockaddr lengths, `SockAddrs.dfy`
`ParseAddrs`, `RouteMessages.dfy` the message parser, `RouteMessageRuns.dfy` its framing over whole buffers,
`RouteFilter.dfy` what its filter amounts to, `RouteWire.dfy` how messages written field by field are read back, and
`FlagText.dfy` the flag printers.

Where the object is shared by goroutines, each operation is one atomic step. `time.Time` is a total order,
modelled by the integers. Pointers into a byte buffer are offsets. Some loops of the Go methods are methods of
their own here (`SearchFromHead`, `PlaceBefore`, `LinkFromHead`, `ReadEvent`, `ParseMsg` and the like), with the same branches.

## Where the code and its comments differ

The models follow the code. For each difference there is an input that shows it and the exact condition.

- `RtaAlign` (`route/bsdroute/bsdroute_bsd.go:153-162`) is documented to round `sa_len` up, with a minimum of
  `rtaAlignTo`. In 8-bit arithmetic it returns zero exactly for lengths above `256 - rtaAlignTo`
  (`RtaAlignment.RtaAlignMeaning`), and `ParseAddrs` then gives every later address the same pointer
  (`SockAddrs.OffsetsOrdered`). `SockAddrs.LongLengthRepeatsPointer` is such a buffer.
- `Read` (`ssgodatabyip/ssgodatabyip.go:89-91`) returns the kept error of an earlier line while bytes of that line
  are still undelivered. So an unterminated last event can end the stream early, depending on the buffer sizes:
  `EventStreamRuns.UnterminatedEventIsCut` does so with the input `{ab`. `EventStreamRuns.CompleteIffClean` gives
  the exact inputs on which every schedule receives everything, and `EventStreamLoss.WholeEventsArrive` what arrives
  on any input.
- The filter is meant to show only active interfaces (`route/cmd/route/main.go:18`). An address of an inactive interface
  gets through when its index equals that of the last active one, or is zero before there is one:
  `RouteFilter.StrayAddressIsShown` is such a dump, and `RouteFilter.FilteredDumpIsRestrictedDump` gives the exact
  condition. Dumps whose interface indices are distinct and nonzero meet it
  (`RouteFilter.DistinctIndicesNoStrays`), so only a malformed dump fails.

## Model

| member | source | states |
|---|---|---|
| ExpirationCache.ExpirationCache.constructor | cache/cache.go:39-47 | a new cache is empty and valid; a capacity that is not positive becomes 2^63 - 1 |
| ExpirationCache.ExpirationCache.Detach | cache/cache.go:302-314 | unlinks exactly one node in place, keeps the list chained both ways, and leaves the node's own links as they were |
| ExpirationCache.ExpirationCache.InsertBefore | cache/cache.go:272-281 | splices a node in front of the mark and keeps the list chained both ways |
| ExpirationCache.ExpirationCache.InsertAfter | cache/cache.go:284-293 | splices a node behind the mark and keeps the list chained both ways |
| ExpirationCache.ExpirationCache.RemoveNode | cache/cache.go:296-299 | takes one node out of map and list together; the removed node still leads to its former successor |
| ExpirationCache.ExpirationCache.PruneExpired | cache/cache.go:254-261 | although it stops at the first live node and walks through detached ones, it leaves exactly the unexpired items, in order |
| ExpirationCache.ExpirationCache.PruneOldest | cache/cache.go:264-269 | drops the head exactly when the cache is full |
| ExpirationCache.ExpirationCache.GetOrCreateNode | cache/cache.go:233-251 | leaves the kept items listed, and a node of the key off the list but indexed: the old node if its item was still live, a new one otherwise |
| ExpirationCache.ExpirationCache.ReuseNode | cache/cache.go:244-248 | takes the cached node of the key off the list and gives it its new value and expiration |
| ExpirationCache.ExpirationCache.SearchFromHead | cache/cache.go:119-137 | finds the first node that expires strictly after the given time |
| ExpirationCache.ExpirationCache.SearchFromTail | cache/cache.go:157-175 | finds the last node that expires strictly before the given time |
| ExpirationCache.ExpirationCache.PlaceBefore | cache/cache.go:119-135 | links the node in before the mark, at the end without a mark, and as the only node of an empty list |
| ExpirationCache.ExpirationCache.PlaceAfter | cache/cache.go:157-173 | links the node in after the mark, at the front without a mark, and as the only node of an empty list |
| ExpirationCache.ExpirationCache.LinkFromHead | cache/cache.go:119-137 | search and splice together give the list that inserts the node's item from the head, with exactly that node added |
| ExpirationCache.ExpirationCache.LinkFromTail | cache/cache.go:157-175 | the same from the tail |
| ExpirationCache.ExpirationCache.SetFromHead | cache/cache.go:114-138 | keeps the full invariant, refines the list function, brings in no foreign node, and reuses the key's node exactly when its item was live |
| ExpirationCache.ExpirationCache.SetFromTail | cache/cache.go:152-176 | the same for the search from the tail |
| ExpirationCache.ExpirationCache.Remove | cache/cache.go:179-189 | drops the key's item, reports whether there was one, and keeps the invariant |
| ExpirationCache.ExpirationCache.Clear | cache/cache.go:192-198 | leaves a valid empty cache |
| ExpirationCache.ExpirationCache.Get | cache/cache.go:81-89 | answers what the sorted list holds for the key, if it is unexpired |
| ExpirationCache.ExpirationCache.GetEntry | cache/cache.go:92-100 | returns the listed node of the key exactly when Get answers |
| ExpirationCache.ExpirationCache.Contains | cache/cache.go:63-68 | whether the list has the key, expired or not |
| ExpirationCache.ExpirationCache.Len | cache/cache.go:50-55 | the number of listed items, never above the capacity |
| ExpirationCache.ExpirationCache.All | cache/cache.go:204-214 | visits the items in list order, each once, up to the first refusal of the consumer, and changes nothing |
| ExpirationCache.ExpirationCache.Backward | cache/cache.go:220-230 | visits exactly the reverse, with the same stopping rule |
| ExpirationCache.VisitMeaning | cache/cache.go:204-230 | a visit is the shortest nonempty prefix that the consumer refuses, and everything if it refuses none |
| ExpirationCache.VisitUnique | cache/cache.go:204-230 | two visits of one list by one consumer are equal |
| ExpirationListLemmas.UnexpiredIsSuffix | cache/cache.go:253-261 | on a sorted list the unexpired items are what follows the first live one |
| ExpirationListLemmas.InsertFromHeadAt | cache/cache.go:126-137 | the head search inserts after everything that expires no later |
| ExpirationListLemmas.InsertFromTailAt | cache/cache.go:164-175 | the tail search inserts before everything that expires no earlier |
| ExpirationListLemmas.InsertKeepsOrder | cache/cache.go:114-176 | inserting a new key from either end keeps the list sorted with unique keys and adds exactly that item |
| CacheRuns.KeptFacts | cache/cache.go:233-269 | exactly which items survive a set: live, of another key, and not the evicted earliest one |
| CacheRuns.SetFacts | cache/cache.go:114-176 | after any set the list is well formed and holds exactly the new item and the survivors, all of which are unexpired |
| CacheRuns.RunKeepsWellFormed | cache/cache.go:114-198 | every trace of operations keeps the list sorted, its keys unique and its length within capacity |
| CacheRuns.HeadAndTailAgree | cache/cache.go:114-176 | the two setters cache the same items, and give the same list exactly when no other kept item shares the new expiration |
| CacheEnds.EndsAreAlike | cache/cache.go:114-176 | two traces that differ only in their setters give the same list and the same answers, if at each set no kept item shares the new expiration |
| CacheEnds.EndsAreAlikeIffNoTies | cache/cache.go:114-176 | the choice of setters never shows in the list at any moment of a run exactly when no set of the run meets such a tie |
| CacheRuns.Retention | cache/cache.go:233-269 | with fewer than capacity - 1 rivals over the whole run, an item that is not overwritten, removed, cleared or expired is never evicted |
| CacheRuns.RetentionBoundIsTight | cache/cache.go:263-269 | with capacity - 1 rivals the head of any full list is evicted by a new key |
| CacheEviction.EvictsEarliestFirst | cache/cache.go:233-269 | along a forward clock, with no key set twice and none removed, an unexpired item that the cache gave up expires no later than any cached one except the last one set, and the cache is full |
| CacheEviction.SetKeepsEarliestFirst | cache/cache.go:233-269 | setting a new key keeps that order between what is given up and what stays |
| CacheTransparency.TransparentIffFits | cache/cache.go:81-89 | along a forward clock, cache and forgetless map agree on every Get at every moment exactly when at each set the live keys and the key being set fit the capacity |
| CacheTransparency.EvictionShows | cache/cache.go:263-269 | an eviction is visible at once: some Get at the same moment misses what the map still has |
| CacheTransparency.TransparentAnswers | cache/cache.go:81-89 | agreement at every moment makes the answers of all Gets of the run equal |
| CacheTransparency.FewKeysAnswerAlike | cache/cache.go:233-269 | with at most capacity distinct keys and a forward clock, every Get answers as the forgetless map |
| CacheTransparency.HitsAreTrue | cache/cache.go:81-89 | for any clock and any number of keys, a hit returns what the key was last set to |
| CacheClient.Apply | cache/cache.go:114-198 | one operation on the object refines the list step, and a node stays exactly when its key does |
| CacheClient.Replay | cache/cache.go:92-314 | any run refines the list run; a listed node stays exactly while its key stays cached without a break, and ever after shows the item of the end of that stay; nodes outside are never written or linked back |
| CacheClient.HoldEntry | cache/cache.go:91-100 | a kept entry pointer shows the key's latest value and expiration as long as the key stays cached without a break; afterwards it is out of the cache and shows those of the end of that stay |
| CacheClient.ReplayTwice | cache/cache.go:114-198 | two runs on one cache, one after the other, answer as the list runs do in sequence |
| CacheClient.FreshRun | cache/cache.go:39-47 | a new cache of any requested capacity, driven by sets that fit, answers as the forgetless map |
| CacheClient.UnboundedRun | cache/cache.go:39-47 | a cache of capacity zero or less answers as the forgetless map along any forward clock, for up to 2^63 - 1 distinct keys |
| EventReader.BufioReader.ReadSlice | ssgodatabyip/ssgodatabyip.go:94-101 | the promise of bufio: a line in its buffer, or buffer full, or end of input; it may be called only when no window onto the buffer is still needed |
| EventReader.EventJSONReader.constructor | ssgodatabyip/ssgodatabyip.go:76-80 | a new reader has nothing left over and a buffer of 128 KiB |
| EventReader.EventJSONReader.TakeLeftover | ssgodatabyip/ssgodatabyip.go:83-87 | hands over as much of the leftover as fits and keeps the rest |
| EventReader.EventJSONReader.ReadLine | ssgodatabyip/ssgodatabyip.go:101-112 | copies what fits of a line, and keeps the rest with its error for later |
| EventReader.EventJSONReader.ReadEvent | ssgodatabyip/ssgodatabyip.go:93-113 | one turn of the loop refines one turn of the value-level fill, with bufio's buffer free at both calls |
| EventReader.EventJSONReader.Read | ssgodatabyip/ssgodatabyip.go:82-116 | on arrays, with a leftover aliasing bufio's buffer, Read delivers exactly what the value-level Read does and writes nothing behind it |
| EventReader.ReadAll | ssgodatabyip/ssgodatabyip.go:76-116 | a new reader delivers a prefix of the filtered input in any buffers, all of it on clean input, and ends with the error that the input determines |
| EventStreamRuns.ReadIsPrefix | ssgodatabyip/ssgodatabyip.go:82-116 | a Read with nil error fills its whole buffer; what it delivers begins what is still to come |
| EventStreamRuns.DeliveredIsPrefixOfFilter | ssgodatabyip/ssgodatabyip.go:68-116 | for every input and every schedule, the bytes up to the first error are a prefix of the filtered input |
| EventStreamRuns.CleanDeliver | ssgodatabyip/ssgodatabyip.go:82-116 | on clean input every non-empty Read makes progress, and the end is reported with everything delivered |
| EventStreamRuns.CompleteIffClean | ssgodatabyip/ssgodatabyip.go:82-116 | every long enough schedule of non-empty buffers receives everything and then the end of input exactly when the input is clean |
| EventStreamRuns.UnterminatedEventIsCut | ssgodatabyip/ssgodatabyip.go:89-91 | the unterminated input {ab read through one-byte buffers ends without its last byte |
| EventStreamRuns.OnesMiss | ssgodatabyip/ssgodatabyip.go:89-110 | one-byte buffers miss part of, or stop early on, every input that is not clean |
| EventStreamLoss.WholeEventsArrive | ssgodatabyip/ssgodatabyip.go:82-116 | whatever follows a list of whole events that fit the buffer, a schedule that ends with an error has delivered all of those events |
| EventStreamLoss.LongSchedulesEnd | ssgodatabyip/ssgodatabyip.go:82-116 | for every input, more non-empty buffers than bytes to deliver reach an error |
| EventStreamErrors.FilterMeaning | ssgodatabyip/ssgodatabyip.go:68-69 | in bytes: nothing before a brace is kept, and from a brace on everything through the newline is |
| EventStreamErrors.ReadSliceMeaning | ssgodatabyip/ssgodatabyip.go:94-101 | in bytes: a slice ends with the first delimiter within the buffer size, or fills the buffer, or is all that is left |
| EventStreamErrors.RunEndsWith | ssgodatabyip/ssgodatabyip.go:89-110 | whatever the buffers are, a run ends with "buffer full" exactly when whole events are followed by a gap or a line that overflows the bufio buffer, and with the end of the source otherwise |
| UsageTable.SessionAddrIsLatest | ssgodatabyip/ssgodatabyip.go:36-42 | a session's address is that of the latest earlier event of the session that has a valid one |
| UsageTable.OwnerMeaning | ssgodatabyip/ssgodatabyip.go:34-45 | an event is charged to its own address, or, without one and in a nonzero session, to the latest address of its session before it |
| UsageTable.Aggregate | ssgodatabyip/ssgodatabyip.go:17-47 | told from the events: the table has exactly the charged addresses, each with the sum of the three counters of its events modulo 2^64, and its total is that of all attributable events |
| RtaAlignment.RtaAlignMeaning | route/bsdroute/bsdroute_bsd.go:153-162 | the 8-bit masking computes the rounding in numbers, for every length byte and both alignments |
| RtaAlignment.RoundUpMeaning | route/bsdroute/bsdroute_bsd.go:153-156 | that rounding is aligned, adds less than one step to a nonempty length, and is zero exactly for lengths above 256 - rtaAlignTo |
| RtaAlignment.RoundUpIsLeast | route/bsdroute/bsdroute_bsd.go:153-162 | up to 256 - rtaAlignTo it is the least positive multiple of rtaAlignTo that is no smaller than the length, so rtaAlignTo for an empty sockaddr |
| SockAddrs.ParseAddrs | route/bsdroute/bsdroute_bsd.go:132-151 | writes exactly the recorded pointers and leaves every other slot as it was |
| SockAddrs.OffsetInBounds | route/bsdroute/bsdroute_bsd.go:132-151 | for arbitrary bytes, a recorded pointer belongs to a set bit, is aligned, and has the bytes of a sockaddr_in left |
| SockAddrs.OffsetsOrdered | route/bsdroute/bsdroute_bsd.go:132-162 | of two recorded sockaddrs the earlier lies wholly before the later one, unless its length wraps, and then both pointers are equal |
| SockAddrs.LongLengthRepeatsPointer | route/bsdroute/bsdroute_bsd.go:145-161 | a first length of 255 is not skipped, so two set bits give the same pointer |
| SockAddrs.ParsesLayout | route/bsdroute/bsdroute_bsd.go:131-162 | round trip: for laid-out sockaddrs each set slot points at its own sockaddr, the sum of the aligned lengths before it, exactly when enough buffer remains there |
| RouteMessages.ParseAndLogMsgs | route/cmd/route/main_bsd.go:76-227 | for every buffer the loop ends and logs the walk over the buffer's frames, then a complaint if what is left is no whole message |
| RouteMessages.RouteShownBits | route/cmd/route/main_bsd.go:112-116 | a route passes the filter exactly when, of the bits 0x7, it has 0x1 and 0x2 and not 0x4 |
| RouteMessages.IfaceShownBits | route/cmd/route/main_bsd.go:154-159 | an interface passes exactly when, of the bits 0x59, it has 0x1 and 0x40 and not 0x8 or 0x10 |
| RouteMessageRuns.FramesTile | route/cmd/route/main_bsd.go:79-90 | the frames, concatenated, are a prefix of the buffer |
| RouteMessageRuns.FramesUnique | route/cmd/route/main_bsd.go:79-90 | any tiling by whole messages that ends where none starts is the parser's own |
| RouteMessageRuns.ParseOfConcat | route/cmd/route/main_bsd.go:76-99 | a concatenation of whole messages is parsed as exactly those messages in order |
| RouteMessageRuns.ParseConcat | route/cmd/route/main_bsd.go:76-90 | parsing whole messages followed by anything is parsing the first part, then the rest from the carried interface index |
| RouteMessageRuns.ForeignMessagesAreSkipped | route/cmd/route/main_bsd.go:92-99 | a message of unsupported version or unknown type adds its one record and changes nothing else of the log |
| RouteFilter.FilteredIsKept | route/cmd/route/main_bsd.go:102-217 | for any whole messages, foreign ones anywhere and the others well formed for their kind, the filtered parse does not halt and its log is the unfiltered log of the kept ones with the route records restricted to showing a default destination and netmask; kept are routes that are up, have a gateway and are no host route, whatever their destination; shown interfaces; addresses of the interface shown last |
| RouteFilter.LastShownIsLatest | route/cmd/route/main_bsd.go:154-161 | the carried index is that of the latest interface that was shown |
| RouteFilter.NothingShownYet | route/cmd/route/main_bsd.go:77 | before any interface is shown the carried index is zero |
| RouteFilter.FilteredDumpIsRestrictedDump | route/cmd/route/main_bsd.go:142-217 | for interface messages that are each followed by the address messages of their index, the filtered log equals the unfiltered log of the passing interfaces alone exactly when no failing interface with addresses reuses the index of the last passing one |
| RouteFilter.DistinctIndicesNoStrays | route/cmd/route/main_bsd.go:142-217 | interfaces that appear once, with nonzero indices, meet that condition |
| RouteFilter.StrayAddressIsShown | route/cmd/route/main_bsd.go:154-197 | in Darwin's layout, a dump of one inactive interface with index zero and one address: the filter shows the address |
| RouteWire.LittleEndian | route/cmd/route/main_bsd.go:80-81 | fields are read with their lowest byte first |
| RouteWire.HandleCarried | route/cmd/route/main_bsd.go:101-217 | a message with given fields is dropped by its flag bits or its index alone, and otherwise logged with its own kind, address buffer and one pointer per sockaddr |
| RouteWire.ParseCarried | route/cmd/route/main_bsd.go:76-217 | round trip over whole buffers: the log is told from the fields of the messages in order |
| RouteWire.RefusedMessages | route/cmd/route/main_bsd.go:92-217 | a foreign message is noted and passed over; one too short for its type, or kept and with a header length beyond its end, is complained about and ends the parse |
| RouteWire.TruncatedTail | route/cmd/route/main_bsd.go:79-88 | bytes after the last whole message are complained about exactly when they could hold a header |
| RouteWire.LoopbackIsHidden | route/cmd/route/main_bsd.go:154-193 | a loopback interface and its address are both hidden by the filter, and both logged without it |
| RouteWire.Lo0IsHidden | route/cmd/route/main_bsd.go:154-193 | Darwin's lo0 with flags 0x8049 is such an interface |
| FlagText.AppendText | route/bsdroute/bsdroute_bsd.go:72-104 | keeps the given prefix and appends the names joined by the separator, despite the trimming; a name is among the appended words exactly when its mask meets the flags |
| FlagText.AppendLetters | route/bsdroute/bsdroute_bsd.go:57-64 | keeps the given prefix and appends letters; a letter is appended exactly when its mask meets the flags |
| FlagText.PrintedWords | route/bsdroute/bsdroute_bsd.go:72-104 | the words of the text are the names of exactly the set flags, each once, in table order |
| FlagText.JoinTwo | route/bsdroute/bsdroute_bsd.go:74-83 | one separator between two names, none after the last |
| FlagText.SplitJoin | route/bsdroute/bsdroute_bsd.go:72-104 | cutting the joined text at its separators gives the names back |
| FlagText.SameTextIffSameFlags | route/bsdroute/bsdroute_bsd.go:72-104 | with distinct, nonempty, separator-free names, two flag words print alike exactly when they agree on every mask of the table |
| FlagText.SameLettersIffSameFlags | route/bsdroute/bsdroute_bsd.go:57-64 | the same for the one-letter table of route flags |

## Left out

- The lock, `TryContains` under contention, and readers that look at a node after unlocking: operations are atomic.
- Writes through the pointer that `GetEntry` returns: the model's clients only read it, and a node's key never changes.
- Keys and values that are themselves heap references: the cache's type parameters exclude them.
- Keys that differ from themselves, such as a floating-point NaN: key equality is taken to be reflexive, as Go's `comparable` does not promise.
- RouteFilter.FilteredDumpIsRestrictedDump: speaks of interface dumps only; mixed messages, foreign messages and addresses of other indices are the subject of `RouteFilter.FilteredIsKept`.
- `bufio.Reader` beyond what one `ReadSlice` promises: how it fills its buffer, and an underlying reader whose error goes away or that returns its last bytes and its error in one call.
- `json.Decoder`, the parsing of addresses, and the sorting and printing of the usage table.
- The layouts of the message headers and the values of the type and version constants: the structures come from `golang.org/x/sys/unix`, which is not part of this model, so they are the fields of `Platform`, and bytes are taken as little-endian.
- The process id and sequence number of a route record, and the rendering of a sockaddr into log attributes (what a restriction to the default route leaves of it included): a record carries the message, the address buffer, the pointers and whether it is restricted.
- Sockets, sysctl, ioctl, the monitor loop around the parser, and zone names: calls into the system.
- The flag tables themselves: they are parameters, with the conditions stated where they matter.
- Logging, prefix sets, address comparison, resolver, probe and SSH programs, and the benchmarks: wrappers or foreign libraries, without state to reason about.
