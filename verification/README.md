# Verified models of libevent

Dafny models of the parts of libevent where most can go wrong, and proofs about them for all inputs, all runs and all
reachable states.

- Buffers (`Chain`, `Evbuffer`, `Search`): an evbuffer is a linked list of chains on the heap with cached fields and a
  link to the last chain with data. Every operation keeps one invariant over all of that and is proved against the
  bytes the buffer holds (`Contents`). Searching runs over the chains and is proved against the bytes.
- Multicast (`Multicast`): reference counts of chains and buffers that show each other's bytes.
- Hash table (`HashRack`, `HashGrow`, `HashOrder`, `HashTable`): nodes, links and an array of heads, proved against a
  map of keys and an order of visits. Both ways of growing are modelled.
- DNS names (`DnsName`, `DnsPacket`, `DnsEncode`, `DnsRoom`, `DnsParse`): compression of names in a packet, exactly when
  it succeeds, and the parser.
- Resolver (`GetAddrInfo`, `Resolver`, `RequestRing`, `SearchList`): the join of two lookups as a protocol over its
  steps, the request queues and the server ring, the circular lists they are kept in, and search lists. `Resolver`
  keeps its queues as sequences. The methods of `RequestRing.Queue` show that the linked lists behave as its updates
  do: one more at the end, one less at any place, one more in front.
- Tagged data (`Tagging`, `TagStream`, `Schema`): tags, integers and records, and the code that the generator emits
  for a schema.
- Rate limits (`TokenBucket`, `BufferEvent`, `RateGroup`): token buckets in 64-bit arithmetic, suspension of a single
  bufferevent, and groups.
- IPv6 text (`Inet6`, `Inet6Case`, `Inet6Form`): printing and reading addresses, and exactly which texts are read.

Conventions: pointers, lists and arrays that the C code updates in place are objects, links and arrays here. A size
is 64 bits wide. The outcome of an allocation, a timer or a lock attempt, the time, random choices and identifiers are
parameters. Where C converts to a narrower type, so does the model (`AsInt`, `Unsigned`, `Signed`, `% UINT32`).
`dafny verify dfyconfig.toml` verifies the whole.

## Model

| member | source | states |
|---|---|---|
| `Chains.AllocationSize` | libevent/buffer.c:156-192 | the size asked for is doubled up from the minimum, just far enough, unless it is huge; then it is what is needed |
| `Chains.NewChain` | libevent/buffer.c:156-192 | a new empty chain has the room asked for; none comes back exactly when memory or the size limit forbids it |
| `Chains.Chain.Align` | libevent/buffer.c:1903-1913 | moving the bytes to the start of the memory keeps them |
| `Evbuffer.Evbuffer.FreeTrailingEmptyChains` | libevent/buffer.c:290-302 | exactly the chains after the last one with data go, and the link that named them is the one returned |
| `Evbuffer.Evbuffer.ChainInsert` | libevent/buffer.c:308-326 | a chain goes behind the last one with data, in place of the empty ones; list, cached fields and bytes all agree |
| `Evbuffer.Evbuffer.AdvanceLastWithData` | libevent/buffer.c:703-716 | the cached link ends at the last chain with data |
| `Evbuffer.Evbuffer.Add` | libevent/buffer.c:1723-1817 | all of the bytes arrive at the end or none does; it succeeds exactly when the end is not frozen, the size fits, and the last chain has room, is worth realigning, or memory can be had; a new chain has twice the room of the last one, within limits, or as much as is added |
| `Evbuffer.Evbuffer.Prepend` | libevent/buffer.c:1820-1899 | the bytes arrive in front; it fails exactly as stated, and then the tail that fitted the misaligned space has been added |
| `Evbuffer.Evbuffer.Drain` | libevent/buffer.c:1096-1161 | exactly the first bytes go, for every way the chains split them, and a frozen front refuses |
| `Evbuffer.Evbuffer.CopyoutFrom` | libevent/buffer.c:1185-1249 | the bytes from a position on, cut off at the end of the buffer, with each error case |
| `Evbuffer.Evbuffer.Remove` | libevent/buffer.c:1165-1176 | what comes out and what stays make up the old contents; the count comes back as an int |
| `Evbuffer.Evbuffer.Pullup` | libevent/buffer.c:1345-1454 | the contents stay the same and the first bytes become contiguous in the first chain; failure only without memory |
| `Evbuffer.Evbuffer.ExpandSinglechain` | libevent/buffer.c:1928-2035 | room for more bytes in one chain, whichever branch makes it, with the contents unchanged |
| `Evbuffer.Evbuffer.AddBuffer` | libevent/buffer.c:961-1004 | all bytes of the source move behind these by relinking, the source is left empty, and no chain ends up in both |
| `Evbuffer.Evbuffer.PrependBuffer` | libevent/buffer.c:1050-1093 | all bytes of the source move in front; the chain order survives if and only if the source has no empty chain at its end or this buffer was empty |
| `Evbuffer.PrependExample` | libevent/buffer.c:943-958 | a prepend after which an empty chain stands between chains with data |
| `Evbuffer.Evbuffer.RemoveBuffer` | libevent/buffer.c:1255-1342 | exactly the first bytes leave the source; all of them arrive, or those up to a chain border, the latter if and only if the rest cannot be copied |
| `Evbuffer.LossExample` | libevent/buffer.c:1322-1333 | two bytes that leave the source, are reported as moved, and arrive nowhere |
| `EvbufferSearch.PtrSet` | libevent/buffer.c:2610-2659 | a position is set exactly when it is in the buffer or at its end, on the chain that holds it |
| `EvbufferSearch.PtrSubtract` | libevent/buffer.c:2590-2607 | going back gives the position on the chain that holds it, or fails exactly when that is before the start |
| `EvbufferSearch.PtrMemcmp` | libevent/buffer.c:2666-2699 | a comparison across chains says whether the contents match there |
| `EvbufferSearch.SearchRange` | libevent/buffer.c:2708-2769 | the least match between two positions, across chain borders, or none exactly when there is none |
| `EvbufferSearch.FindEolChar` | libevent/buffer.c:1489-1513 | two searches per chunk find the first CR or LF |
| `EvbufferSearch.Scan` | libevent/buffer.c:1467-1535 | the first stop byte from a position on, or none exactly when there is none |
| `EvbufferSearch.Span` | libevent/buffer.c:1538-1574 | how many line-end bytes follow, and that the next byte is another one |
| `EvbufferSearch.SearchEol` | libevent/buffer.c:1590-1677 | for every style, the first line end from a position on and its length, or none exactly when there is none |
| `EvbufferSearch.Readln` | libevent/buffer.c:1680-1716 | the old contents are the line, its end and what is left; no line exactly when there is no line end, the front is frozen or memory is out |
| `Multicasts.Memory.Run` | libevent/buffer.c:195-252 | in every run of what callers may do, no chain shows the bytes of a chain or buffer that was released |
| `Multicasts.NeverReleased` | libevent/buffer.c:903-940 | the invariant that every operation keeps implies it for one chain |
| `Multicasts.Memory.ChainFree` | libevent/buffer.c:195-252 | one release keeps every count equal to the references there are, and passes on what a multicast chain held; it ends |
| `Multicasts.Memory.Decref` | libevent/buffer.c:560-584 | a buffer goes with its chains exactly at its last reference, and all counts stay exact |
| `Multicasts.Memory.FreeAll` | libevent/buffer.c:255-263 | a list of chains is released one by one, each once |
| `Multicasts.Memory.NewBuffer` | libevent/buffer.c:361-374 | a new buffer has one reference and no chains |
| `Multicasts.Memory.NewChain` | libevent/buffer.c:308-326 | a chain with bytes of its own takes the place of those without bytes at the end of a list |
| `Multicasts.Memory.Drain` | libevent/buffer.c:1096-1161 | whole chains leave the front of one list; every other user buffer keeps its list |
| `Multicasts.Memory.Move` | libevent/buffer.c:961-1004 | chains change lists, those without bytes at the end of the target are released, and no other count changes |
| `Multicasts.Memory.Free` | libevent/buffer.c:587-591 | a buffer outlives its user exactly while chains elsewhere show its bytes; other user buffers keep their lists |
| `Multicasts.Memory.Trim` | libevent/buffer.c:290-302 | the chains without bytes at the end are released and the others stay |
| `Multicasts.Memory.AddReference` | libevent/buffer.c:1007-1047 | each chain with bytes gets one new chain, in order, that names it and its buffer; it is refused exactly for the same buffer or a source that shows other bytes; the result is valid if and only if it is refused, the source has no bytes, or the target has bytes or no chains |
| `Multicasts.DanglingHead` | libevent/buffer.c:1034-1040 | a new buffer, expanded before it is given a reference, whose list names a chain that is gone |
| `HashGrowth.Refill` | libevent/ht-internal.h:317-375 | the branch with a fresh table moves every node to the bucket its hash names, each once |
| `HashGrowth.Redistribute` | libevent/ht-internal.h:317-375 | the branch that stretches the old table in place does the same |
| `HashGrowth.RehashedAlike` | libevent/ht-internal.h:317-375 | both branches leave the same nodes in every bucket |
| `Modulus.ModIsRemainder` | libevent/ht-internal.h:121-123 | the recursive bucket number is the remainder |
| `HashTables.HashTable.FindP` | libevent/ht-internal.h:143-157 | the link to the match, or to the end of the one bucket it could be in |
| `HashTables.HashTable.Find` | libevent/ht-internal.h:159-168 | the element with that key, or none exactly when no element has it |
| `HashTables.HashTable.NextPrime` | libevent/ht-internal.h:317-330 | the first prime after the current one whose load limit is above the size |
| `HashTables.HashTable.Grow` | libevent/ht-internal.h:317-375 | growing keeps the elements by any branch, and reports failure exactly when it could not grow |
| `HashTables.HashTable.Insert` | libevent/ht-internal.h:170-183 | the map of keys gains one entry; the load limit holds exactly when it was not reached or the table could grow |
| `HashTables.HashTable.Replace` | libevent/ht-internal.h:185-204 | the map of keys is updated and the old element handed back with its link cleared; the load limit holds exactly when it was not reached, the table could grow, or it held and an element was replaced |
| `HashTables.HashTable.Remove` | libevent/ht-internal.h:206-222 | the map of keys loses the entry and the element is handed back, or nothing changes |
| `HashTables.HashTable.Clear` | libevent/ht-internal.h:379-384 | the table is empty |
| `HashTables.HashTable.ForeachFn` | libevent/ht-internal.h:224-248 | the callback sees every element once, in order, and exactly those it asked to remove are gone |
| `HashTables.HashTable.Start` | libevent/ht-internal.h:250-264 | the first place of the order |
| `HashTables.HashTable.Next` | libevent/ht-internal.h:266-279 | the next place of the order, over empty buckets |
| `HashTables.HashTable.NextRmv` | libevent/ht-internal.h:281-298 | the element goes out of the map and the order, and the walk goes on at the one that followed it |
| `HashTables.HashTable.VisitAll` | libevent/ht-internal.h:124-127 | a walk sees the order from start to end |
| `HashOrders.AllOnce` | libevent/ht-internal.h:124-127 | the order has every element once and nothing else |
| `HashTables.HashTable.RepIsBad` | libevent/ht-internal.h:388-421 | the self-check returns zero for the consistent tables and no others |
| `HashTables.HashTable.ValidConsistent` | libevent/ht-internal.h:388-421 | a table every operation kept valid passes the self-check if and only if its load limit is kept |
| `DnsNames.EncodeSound` | libevent/evdns.c:1600-1663 | with any table of earlier names, what is written for a well-formed name reads back as that name, and every position noted reads back as what it was noted for |
| `DnsNames.PlainRoundTrip` | libevent/evdns.c:1600-1663 | without compression a name comes back if and only if it is well formed |
| `DnsRooms.EncodeExact` | libevent/evdns.c:1624-1661 | in closed form, where the loop stops: it succeeds if and only if no label before the first tail that was written earlier has over 63 bytes and these labels and what ends them fit; otherwise -1 exactly when a label that is too long is reached first, and -2 |
| `DnsRooms.EncodeNameExact` | libevent/evdns.c:1600-1663 | the same with the bound of 255 bytes on the whole name, and how many bytes are written |
| `DnsRooms.Encodes` | libevent/evdns.c:1600-1663 | every well-formed name of at most 255 bytes with two bytes more than its length left is encoded, with or without a table |
| `DnsRooms.Remembered` | libevent/evdns.c:1624-1661 | the tails of a name that are spelled out are in the table afterwards, unless it is full |
| `DnsRooms.SecondTime` | libevent/evdns.c:1624-1661 | a name written once, with room in the table, takes two bytes the next time |
| `DnsEncoding.LabelTable.GetPos` | libevent/evdns.c:1560-1568 | the first position noted for a name, or -1 exactly when there is none |
| `DnsEncoding.LabelTable.Add` | libevent/evdns.c:1572-1586 | a position is noted unless the table is full |
| `DnsEncoding.NameToLabels` | libevent/evdns.c:1600-1663 | the loop over the byte array writes what the encoding says, nothing outside, with the same error codes and table |
| `DnsPackets.BuildOk` | libevent/evdns.c:1891-1987 | every name of a packet, however compressed against the others, reads back where it was put |
| `DnsPackets.BuildNames` | libevent/evdns.c:1891-1987 | no name is left out or put in the place of another |
| `DnsRooms.BuildExact` | libevent/evdns.c:1891-1987 | a packet can be built if and only if each item fits behind the ones before it |
| `DnsRooms.Builds` | libevent/evdns.c:1891-1987 | well-formed names of at most 255 bytes and other items can be put together if there is room for all |
| `DnsParsing.NameParse` | libevent/evdns.c:960-1013 | on any packet and any start it ends, and gives the text and the end index of the walk, or fails |
| `DnsParsing.JumpBound` | libevent/evdns.c:960-1013 | the bound on pointers turns away loops and nothing else: what any number of jumps can read, the bound reads |
| `DnsParsing.PacketRoundTrip` | libevent/evdns.c:960-1013 | parsing at the start of each name written gives the name, less a final dot, and the index behind it, if the text fits |
| `DnsEncoding.OnePast` | libevent/evdns.c:1659 | the closing zero goes one byte beyond the buffer if and only if the name shares no tail with an earlier one, does not end in a dot and fills the buffer exactly |
| `DnsEncoding.OnePastExample` | libevent/evdns.c:1659 | one letter in a buffer of two bytes |
| `GetAddrInfo.StepInv` | libevent/evdns.c:4319-4567 | every step of the A/AAAA join keeps its invariant, and the step that calls the user tells every address reported, A before AAAA, or an error |
| `GetAddrInfo.RunInv` | libevent/evdns.c:4319-4567 | every interleaving keeps it |
| `GetAddrInfo.ExactlyOnce` | libevent/evdns.c:4385-4567 | in every interleaving the user is called at most once, the record is freed exactly when both parts have reported, and the user has been called then |
| `GetAddrInfo.FreedIsQuiet` | libevent/evdns.c:4291-4302 | nothing changes the record after it is freed |
| `GetAddrInfo.Finishes` | libevent/evdns.c:4319-4567 | at most six settlements, deliveries and timeouts; one that can have no more is freed if and only if no part was lost |
| `GetAddrInfo.Answered` | libevent/evdns.c:4385-4567 | when no shutdown loses anything the user is called in the end |
| `GetAddrInfo.StepError` | libevent/evdns.c:4268-4277 | the step that calls the user gives the error for the result delivered (no such name, no data, failure), the one for a cancellation if the user gave up, or on a timeout the one for the earlier report; none exactly when there are addresses |
| `GetAddrInfo.ToldWhy` | libevent/evdns.c:4319-4567 | in every run the error the user gets is that one; failure if neither lookup could be started |
| `GetAddrInfo.CancelSaid` | libevent/evdns.c:4469-4494 | after the user gave up the call says so if and only if it is not a timeout that makes it |
| `GetAddrInfo.CancelMissed` | libevent/evdns.c:4319-4368 | a run in which a timeout between the two deliveries of a cancellation tells the user of a failure |
| `GetAddrInfo.AfterCancel` | libevent/evdns.c:4753-4767 | a user who cancels before being called gets no addresses any more, in every run |
| `GetAddrInfo.TimerArmed` | libevent/evdns.c:4440-4545 | the first report starts the timer exactly when it is no shutdown, the user has not been told, and it is not an answer after a cancellation |
| `GetAddrInfo.LastTold` | libevent/evdns.c:4469-4567 | the call made on the last report: every address reported, or an error when there is none |
| `Resolvers.SwapNs` | libevent/evdns.c:545-553 | a request changes servers and both counts stay exact |
| `Resolvers.OrderSpread` | libevent/evdns.c:2721-2734 | the queues together hold the requests in flight, each once, in the queue its identifier names |
| `Resolvers.Resolver.Pick` | libevent/evdns.c:1335-1367 | the first server of the ring that is up comes back and the ring turns just past it; with none up, it turns by one and the server in front comes back |
| `Resolvers.Resolver.PickRound` | libevent/evdns.c:1335-1367 | as many picks as there are servers, all up, give each of them once, in order, and leave the ring as it was |
| `Resolvers.Resolver.Pump` | libevent/evdns.c:743-770 | requests leave the waiting queue from the front until there is no room, none waits or no server is known |
| `Resolvers.Resolver.New` | libevent/evdns.c:2747-2820 | a new request gets a server exactly when there is room in flight and a server |
| `Resolvers.Resolver.Place` | libevent/evdns.c:2824-2843 | a request with a server goes into flight, any other to the end of the waiting queue, and no other is touched |
| `Resolvers.Resolver.Submit` | libevent/evdns.c:2747-2843 | both together: one more request is pending, in flight or last in line |
| `Resolvers.Resolver.FinishInflight` | libevent/evdns.c:649-710 | exactly that request is gone, every count stays exact, and the pump has run to its end |
| `Resolvers.Resolver.FinishWaiting` | libevent/evdns.c:649-710 | the same for one that still waits |
| `Resolvers.Resolver.SearchNext` | libevent/evdns.c:3290-3295 | a search replaces its failed request: server and identifier taken before the pump runs still hold after it |
| `Resolvers.Resolver.ShutDown` | libevent/evdns.c:4029-4050 | every request is reported once or left in flight; identifiers that leave one exist if and only if the state is lossy: a server is known and, with nothing in flight, two requests wait, or otherwise there are two queues and more wait than can go out while the first is emptied |
| `Resolvers.Resolver.AimsAimed` | libevent/evdns.c:4029-4050 | identifiers, all different, that leave a request behind in every lossy state |
| `Resolvers.Resolver.Failed` | libevent/evdns.c:558-612 | requests not sent yet do not stay with a server that failed while another is up; those sent or with another server stay |
| `Resolvers.Resolver.BringUp` | libevent/evdns.c:618-635 | the count of good servers stays exact and the failures are forgotten |
| `Resolvers.Resolver.AddServer` | libevent/evdns.c:2485-2555 | the ring gains one server after its head |
| `Resolvers.Resolver.SetMaxInflight` | libevent/evdns.c:3386-3415 | the queues are rebuilt and every request in flight is in the one its identifier names now |
| `Resolvers.Resolver.Suspend` | libevent/evdns.c:2396-2456 | all servers go; what was in flight waits in front, in reverse order, and no request is lost |
| `Resolvers.Resolver.Reissue` | libevent/evdns.c:715-735 | it succeeds exactly when another server takes the request |
| `Resolvers.Resolver.Retransmit` | libevent/evdns.c:2180-2186 | a request sent again goes to a server that is up, if any is |
| `RequestRings.Queue.Insert` | libevent/evdns.c:2721-2734 | the circular list gains an item at its end |
| `RequestRings.Queue.Remove` | libevent/evdns.c:2683-2718 | the item at any place is unlinked and the list stays closed |
| `RequestRings.Queue.PutFront` | libevent/evdns.c:2440-2445 | inserting and stepping back puts an item in front |
| `SearchLists.Handle.Start` | libevent/evdns.c:3206-3252 | the first candidate, or failure exactly when no request can be made for it |
| `SearchLists.Handle.TryNext` | libevent/evdns.c:3256-3297 | one more candidate, or the end exactly when all that can be asked for has been |
| `SearchLists.FailingSearch` | libevent/evdns.c:3206-3297 | a search that always fails asks for the candidates in order, up to the first that no request can be made for |
| `SearchLists.FullList` | libevent/evdns.c:3206-3297 | when requests can be made for all, the names are the raw one, first or last by its dots, and for each suffix in order the name joined to it |
| `SearchLists.TextParts` | libevent/evdns.c:3176-3197 | a candidate starts with the name and ends with the suffix, with one dot between unless the name ends in one |
| `SearchLists.TextLabels` | libevent/evdns.c:3176-3197 | the labels of a candidate are those of the name and then those of the suffix |
| `SearchLists.DotsJoin` | libevent/evdns.c:2737-2744 | dots are counted over both parts of a text |
| `SearchLists.AskableAll` | libevent/evdns.c:3256-3297 | all candidates are asked for if and only if a request can be made for each |
| `SearchLists.StoppedEarly` | libevent/evdns.c:3283-3286 | a suffix that makes a name too long ends a search whose raw name still fits |
| `SearchLists.CandidatesOnce` | libevent/evdns.c:3206-3297 | no candidate is asked for twice |
| `Tagging.TagRoundTrip` | libevent/event_tagging.c:166-242 | every 32-bit tag comes back, whatever follows |
| `Tagging.IntRoundTrip` | libevent/event_tagging.c:115-138 | every number of up to 64 bits comes back, whatever follows |
| `Tagging.TagReadable` | libevent/event_tagging.c:197-242 | any bytes are read as a tag of some length if and only if they end there, after at most five groups and 32 bits |
| `Tagging.TagRead` | libevent/event_tagging.c:197-242 | a tag that is read has 32 bits and ends at the first byte below 128 |
| `Tagging.NibblesRead` | libevent/event_tagging.c:315-350 | any nibbles, padded or not, are read as their number if and only if there are not too many |
| `Tagging.NibblesCut` | libevent/event_tagging.c:315-350 | nothing is read from less than all of them |
| `Tagging.NumberFits` | libevent/event_tagging.c:315-350 | a number that is read has no more bits than it may have |
| `TagStreams.EncodeTag` | libevent/event_tagging.c:174-191 | the loop writes the groups of a tag |
| `TagStreams.DecodeTag` | libevent/event_tagging.c:197-242 | the loop reads a tag, or fails exactly when the groups end or have too many bits |
| `TagStreams.EncodeInt` | libevent/event_tagging.c:115-138 | the nibble loop writes a number and touches nothing before it |
| `TagStreams.DecodeInt` | libevent/event_tagging.c:315-350 | the nibble loop reads a number, or fails exactly when it is too long or cut off |
| `Tagging.HeaderTaken` | libevent/event_tagging.c:438-451 | a header comes off; its length is right below 2^31 and negative from there on |
| `Tagging.RecordRoundTrip` | libevent/event_tagging.c:467-482 | a record is taken off exactly, with what follows untouched, if and only if it is shorter than 2^31 |
| `Tagging.ConsumeRoundTrip` | libevent/event_tagging.c:454-464 | exactly one record is consumed if and only if it is shorter than 2^31 or, but for the longest, the last |
| `Tagging.LongRecord` | libevent/event_tagging.c:438-482 | a record of 2^31 bytes that does not come back, and whose consumption takes the next along |
| `Tagging.TakeIntRoundTrip` | libevent/event_tagging.c:485-536 | every integer record comes back |
| `Tagging.TimevalRoundTrip` | libevent/event_tagging.c:580-605 | every timeval of 32-bit parts comes back |
| `Tagging.ItemRoundTrip` | libevent/event_tagging.c:467-605 | an item of any kind comes back through its own unmarshaller if and only if it is shorter than 2^31 |
| `Tagging.OtherTag` | libevent/event_tagging.c:485-605 | a record with another tag, or of another length than a fixed one, is refused by every unmarshaller |
| `Tagging.ItemTaken` | libevent/event_tagging.c:467-605 | whatever the bytes, an item that is taken is of the kind wanted, has its tag and fits its type |
| `Tagging.StreamRoundTrip` | libevent/event_tagging.c:257-605 | a stream of items of any kinds comes back item by item and is used up if and only if none has 2^31 bytes |
| `TagStreams.PeekLengthIs` | libevent/event_tagging.c:402-417 | the length peeked at is the size of the record if and only if that has 32 bits |
| `TagStreams.Buffer.Marshal` | libevent/event_tagging.c:257-263 | one record is appended |
| `TagStreams.Buffer.MarshalInt` | libevent/event_tagging.c:277-297 | one record with the number is appended |
| `TagStreams.Buffer.MarshalTimeval` | libevent/event_tagging.c:307-313 | one record with the low 32 bits of both parts is appended |
| `TagStreams.Buffer.PeekLength` | libevent/event_tagging.c:402-435 | the payload and record lengths of what is in front, as 32-bit sums |
| `TagStreams.Buffer.UnmarshalHeader` | libevent/event_tagging.c:438-451 | what it returns and what it drains, on any bytes |
| `TagStreams.Buffer.Consume` | libevent/event_tagging.c:454-464 | the same |
| `TagStreams.Buffer.Unmarshal` | libevent/event_tagging.c:467-482 | the payload goes to the end of the other buffer, or nothing does |
| `TagStreams.Buffer.UnmarshalInt` | libevent/event_tagging.c:485-536 | what it returns and what it drains, on any bytes |
| `TagStreams.Buffer.UnmarshalFixed` | libevent/event_tagging.c:539-555 | the same |
| `TagStreams.Buffer.UnmarshalString` | libevent/event_tagging.c:558-577 | the same |
| `TagStreams.Buffer.UnmarshalTimeval` | libevent/event_tagging.c:580-605 | the same |
| `Schemas.SchemaRoundTrip` | libevent/event_rpcgen.py:227-287 | for every schema, nested and repeated entries included, and every message, the emitted unmarshal code brings back what the emitted marshal code wrote if and only if no record has 2^31 bytes |
| `Schemas.ValueBack` | libevent/event_rpcgen.py:565-1028 | one value of any kind is read back, whatever follows it, if its record is shorter than 2^31, and not otherwise |
| `Schemas.ValueFront` | libevent/event_rpcgen.py:565-1028 | a value that is read as it was written had a record shorter than 2^31, and nothing but that was used up, for lengths of any size |
| `Schemas.NoPart` | libevent/event_rpcgen.py:248-287 | no proper part of the bytes of a message is read as the message |
| `Schemas.WholeComplete` | libevent/event_rpcgen.py:289-308 | a message that can be marshalled passes the emitted completeness check |
| `Schemas.CompleteExact` | libevent/event_rpcgen.py:289-308 | the emitted completeness check passes exactly the messages with every entry set that has to be, in nested ones too |
| `Schemas.UnmarshalWhole` | libevent/event_rpcgen.py:248-287 | whatever the bytes, what the emitted unmarshal code accepts is a whole message, nested ones too, and comes back when marshalled again unless a record is too long |
| `Schemas.KnownTag` | libevent/event_rpcgen.py:255-280 | the first record accepted has a tag of the struct, and of an entry that may still be set |
| `Schemas.UnmarshalMessage` | libevent/event_rpcgen.py:248-287 | the emitted loop computes the recursive reading, on any bytes |
| `Schemas.StructDef.AddEntry` | libevent/event_rpcgen.py:59-67 | an entry is refused exactly when another has its tag |
| `TokenBuckets.RefilledExact` | libevent/bufferevent_ratelim.c:74-111 | the refill that avoids overflow is the obvious one if and only if the bucket is not above its maximum or the wrapped difference is overtaken |
| `TokenBuckets.RefilledPositive` | libevent/bufferevent_ratelim.c:74-111 | a refill keeps a bucket with tokens positive if and only if the sum does not wrap around |
| `TokenBuckets.AboveMaximum` | libevent/bufferevent_ratelim.c:74-111 | a bucket above its maximum that a refill raises further |
| `TokenBuckets.UpdateBound` | libevent/bufferevent_ratelim.c:74-111 | an update adds at most the rate for every tick that passed |
| `TokenBuckets.BandwidthBound` | libevent/bufferevent_ratelim.c:198-258 | over any run of transfers within the grant, the bytes are at most the tokens at the start and the rate for each tick |
| `TokenBuckets.RateSustained` | libevent/bufferevent_ratelim.c:198-258 | the bound is reached: a bucket without tokens grants its rate in every tick, for any number of ticks |
| `TokenBuckets.AllowedExact` | libevent/bufferevent_ratelim.c:198-258 | what is granted is what there is, and nothing when the bucket is in debt |
| `BufferEvents.UpdateStopped` | libevent/bufferevent_ratelim.c:114-124 | an update leaves no direction awake without tokens if and only if its sum does not wrap around |
| `BufferEvents.LostWakeUp` | libevent/bufferevent_ratelim.c:114-124 | a direction an update leaves without tokens, awake and with no timer |
| `BufferEvents.RaisedLimit` | libevent/bufferevent_ratelim.c:972-1025 | a user can raise a limit that far |
| `BufferEvents.BufferEvent.GetMax` | libevent/bufferevent_ratelim.c:198-258 | never more than the tokens there are; nothing is left asleep if and only if the update does not wrap around |
| `BufferEvents.BufferEvent.DecrementBuckets` | libevent/bufferevent_ratelim.c:273-346 | afterwards a direction sleeps for bandwidth exactly when it has no tokens, the timer runs exactly while one sleeps, and the other direction and reasons are untouched |
| `BufferEvents.BufferEvent.DecrementLimit` | libevent/bufferevent_ratelim.c:972-1025 | the same when the limit crosses zero, and no change otherwise |
| `BufferEvents.BufferEvent.RefillCallback` | libevent/bufferevent_ratelim.c:394-439 | a direction with tokens again is woken, and a timer is left exactly while one sleeps; nothing is left asleep if and only if the update does not wrap around |
| `BufferEvents.BufferEvent.SetRateLimit` | libevent/bufferevent_ratelim.c:560-636 | after any change of limits a direction sleeps for bandwidth exactly when it has no tokens, and the timer runs exactly while one sleeps |
| `BufferEvents.BufferEvent.Enable` | libevent/bufferevent.c:460-480 | the backend starts only if nothing suspends the direction |
| `BufferEvents.BufferEvent.Disable` | libevent/bufferevent.c:551-563 | the backend stops and the reasons stay |
| `RateGroups.StepOk` | libevent/bufferevent_ratelim.c:198-346 | every step of a group keeps its bounds, and nothing is granted while it is suspended |
| `RateGroups.RunOk` | libevent/bufferevent_ratelim.c:198-346 | every run does |
| `RateGroups.ShareFair` | libevent/bufferevent_ratelim.c:229-252 | every member is granted at least the smallest share; all shares leave less than a byte for each member, and exceed the bucket only at the smallest share |
| `RateGroups.GroupRecovers` | libevent/bufferevent_ratelim.c:488-549 | in every run a suspended group is released once a refill comes two ticks after the last one |
| `RateGroups.TwoTicks` | libevent/bufferevent_ratelim.c:529-549 | two ticks bring the smallest share, however deep the debt |
| `RateGroups.TicksExact` | libevent/bufferevent_ratelim.c:74-90 | the wrapped tick counter tells the ticks that passed if and only if there are at most INT_MAX |
| `RateGroups.LateRefill` | libevent/bufferevent_ratelim.c:529-549 | a refill a whole turn of the counter late that brings nothing |
| `RateGroups.Group.GetMax` | libevent/bufferevent_ratelim.c:198-258 | the share of a member, nothing while the group is suspended |
| `RateGroups.Group.SuspendAll` | libevent/bufferevent_ratelim.c:350-391 | the group is suspended and so are the members that can be locked |
| `RateGroups.Group.UnsuspendAll` | libevent/bufferevent_ratelim.c:488-526 | every member is tried once from any start, and what is left over is pending |
| `RateGroups.Group.Charge` | libevent/bufferevent_ratelim.c:273-346 | one step of the run: the bucket goes down and the group sleeps or wakes |
| `RateGroups.Group.DoRefill` | libevent/bufferevent_ratelim.c:529-549 | one step of the run: tokens for the ticks that passed, and release with enough; a member is still held after a release only if it could not be locked, and then the next refill tries again |
| `RateGroups.Group.AddMember` | libevent/bufferevent_ratelim.c:736-780 | a new member waits with the others |
| `RateGroups.Group.RemoveMember` | libevent/bufferevent_ratelim.c:783-815 | a member that leaves is released |
| `Inet6.TextRoundTrip` | libevent/evutil.c:1882-2062 | for every 16-byte address, reading the text it is printed as gives the address back |
| `Inet6.HexRoundTrip` | libevent/evutil.c:1910-1949 | words in hex come back whichever run of zeros was left out |
| `Inet6.EmbeddedRoundTrip` | libevent/evutil.c:1892-1908 | both forms with an IPv4 part come back |
| `Inet6.QuadShown` | libevent/evutil.c:1892-1908 | the text has a dotted part if and only if the first ten bytes are zero and the next two are 255, or zero with something in both of the last two pairs |
| `Inet6Forms.FormRead` | libevent/evutil.c:1977-2062 | eight groups of one to four digits, or up to seven around a gap, are read as the words they stand for, also with a prefix like 0x in a group or one more colon at the end |
| `Inet6Forms.ReadForm` | libevent/evutil.c:1977-2062 | no other text without a dot is read |
| `Inet6Forms.ExtraColon` | libevent/evutil.c:2011-2040 | behind a group one more colon at the end changes nothing |
| `Inet6.PtonProper` | libevent/evutil.c:1977-2062 | a text that is read holds nothing but hex digits, colons, dots and the letter of a prefix |
| `Inet6Cases.CaseBlind` | libevent/evutil.c:1977-2062 | texts that differ only in the case of letters are read alike |
| `Inet6Cases.AnyCaseRoundTrip` | libevent/evutil.c:1882-2062 | an address comes back from its text in any case of letters |
| `Inet6.FindGap` | libevent/evutil.c:1910-1927 | the first of the longest runs of two zeros or more |
| `Inet6.PrintWords` | libevent/evutil.c:1929-1946 | the printing loop writes the words with that run left out |
| `Inet6.Ntop` | libevent/evutil.c:1882-1950 | the text of an address and exactly what the length check makes of it |
| `Inet6.RoomTooShort` | libevent/evutil.c:1947-1949 | room of exactly the length of the text loses its last character, and the rest does not read back |
| `Inet6.ReadWords` | libevent/evutil.c:2011-2040 | the reading loop on any text |
| `Inet6.FillArray` | libevent/evutil.c:2042-2056 | filling the gap in place gives the eight words |
| `Inet6.PtonArray` | libevent/evutil.c:1977-2062 | on any text, success exactly when it reads as an address, and that address |

## Findings

Properties one would expect that the code does not have, with an input or the exact condition, and places where the
code and its documentation differ.

- `evbuffer_prepend_buffer` can leave an empty chain between chains with data, which the rest of the code takes to be
  impossible: `PrependExample`. It happens if and only if the source ends in an empty chain and the target holds bytes
  (`Evbuffer.PrependBuffer`).
- `evbuffer_prepend` that runs out of memory has already added the tail of its input (`Evbuffer.Prepend`), while
  `evbuffer_add` adds all or nothing.
- `evbuffer_remove_buffer` drops the part of a chain that it could not copy from the source and reports success:
  `LossExample`. `Evbuffer.RemoveBuffer` says exactly when. Its result and that of `evbuffer_remove` are cut to an int
  (`AsInt`).
- `evbuffer_add_buffer_reference` to a buffer with chains but without bytes frees the chains and leaves the head naming
  them (libevent/buffer.c:1034-1038); the first insertion reads them: `DanglingHead`. `Memory.AddReference` says that
  the state is valid in all other cases and in no such one.
- `dnsname_to_labels` also takes names with empty labels, which do not come back: `PlainRoundTrip` holds if and only if
  the name is well formed.
- `dnsname_to_labels` does not count the closing zero when it looks for room, and its callers pass the whole length of
  their buffers: `OnePastExample`, with the condition in `OnePast`.
- A hash table fails its own self-check once a growth failed: `ValidConsistent`, `Insert`.
- Records of 2^31 bytes and more do not come back, and consuming one takes the rest of the buffer along: `LongRecord`,
  `RecordRoundTrip`, `ConsumeRoundTrip`, `StreamRoundTrip`, `SchemaRoundTrip`.
- The comment at libevent/event_tagging.c:90-93 says that nibbles are in big-endian order. The code writes the low end
  first, and so does the model.
- A refill raises a bucket that is above its maximum: `AboveMaximum`, with the condition in `RefilledExact`.
- A user can raise a limit so far that the next refill wraps around. It leaves a direction without tokens, awake, and
  with nothing to wake it: `RaisedLimit`, `LostWakeUp`, with the condition in `UpdateStopped`.
- A refill that comes more than INT_MAX ticks late is taken for one in the past: `LateRefill`, with the condition in
  `TicksExact`.
- `evutil_inet_ntop` lets a text of exactly the given length through and then drops its last character: `RoomTooShort`,
  with the condition in `Ntop`.
- `evutil_inet_pton` takes texts that section 2.2 of RFC 4291 does not allow: a colon behind the last group and groups
  with a prefix like 0x. `FormRead` and `ReadForm` say exactly what it takes; `ExtraColon`.
- A user who cancelled a lookup can be told of a failure instead, when the timeout comes between the two deliveries of
  the cancellation: `CancelMissed`, with the condition in `CancelSaid`. The error for "try again" with which the timeout
  starts is never told (`RightError` in `ToldWhy`).
- A search list ends at the first candidate that no request can be made for, even if the raw name was still to come:
  `StoppedEarly`, with the condition in `AskableAll`.
- `evdns_base_clear_nameservers_and_suspend` puts what was in flight back in reverse order (`Resolver.Suspend`).
- `evdns_base_free` runs the pump between its reports, so a waiting request can land in a queue that has been emptied
  before and is never reported. `Resolver.ShutDown` and `AimsAimed` say for which states some identifiers lose a request
  and for which none do. A lookup that waits for such a request is never freed (`Finishes`).

## Left out

- Evbuffer: pinned, immutable, reference and file chains, callbacks, locks, `evbuffer_reserve_space`,
  `evbuffer_expand_fast_`, and reading from and writing to sockets.
- Evbuffer.Evbuffer.ExpandSinglechain: does not say which of the copying and inserting branches is taken, only that
  there is room and that the contents stay.
- EvbufferSearch.PtrMemcmp: says whether the bytes match, which is all that its callers ask, and not which side is
  larger.
- EvbufferSearch.Span: counts without bound; the code counts in an int, which overflows after 2^31 line-end bytes.
- Multicasts.Memory.AddReference: has no freeze flags and does not run out of memory between two chains; after the freed
  head has been read it says nothing more.
- HashTables.HashTable.Insert: the first table must be allocated, because the code uses it without looking; the same
  for `Replace`. The load limit of the last prime must be above the number of entries while the table can still grow,
  because the loop at libevent/ht-internal.h:327-331 runs past the list of primes otherwise.
- HashTables.HashTable.Grow: takes sizes below the load limit of the last prime, for the same reason; so does
  `NextPrime`.
- HashTables.HashTable.RepIsBad: does not say which of its codes an inconsistent table gets.
- HashTable: the string hash functions and `HT_FIND_OR_INSERT_`.
- DnsEncoding.NameToLabels: needs the byte behind the buffer in the cases that `OnePast` describes.
- DnsEncoding.LabelTable.Add: does not run out of memory for the copy of the name.
- DNS: headers, record data other than names, and the sections of a reply.
- GetAddrInfo: numeric hosts, the hosts file, canonical names, a failed allocation while answers are joined, and use of
  the resolver after it was freed, by a timeout (libevent/evdns.c:4330-4331), a cancellation, or the delivery of a
  result other than the shutdown (libevent/evdns.c:4413-4424), where the pointer to it may also be null by then.
- Resolvers.Resolver.SearchNext: lets one more request into flight than the limit, as the code does.
- Resolver: sockets, timers, probes of servers that are down, uniqueness of identifiers, and truncated replies.
- SearchLists.FailingSearch: which names a request can be made for is a parameter; the code asks for fewer than 256
  bytes and labels that can be encoded.
- Tagging: payloads of 2^32 bytes and more, whose length the wire format cannot hold; `SchemaRoundTrip` covers them.
- Schemas.SchemaRoundTrip: comments, parsing of the schema text and the accessors that the generator emits are not
  modelled, and allocation never fails.
- BufferEvents.BufferEvent.DecrementBuckets: is for a bufferevent outside of a group; the part about a group is
  `RateGroups.Group.Charge`, for transfers within the share.
- RateGroups.Group.Charge: takes transfers within the share, as the code that calls it does; a user may also charge a
  group by hand, with more or with a negative amount (libevent/bufferevent_ratelim.c:1028-1065).
- RateGroups: one direction at a time, and the totals are left out.
- Inet6Forms.ReadForm: is for texts without a dot; those with one are covered by `TextRoundTrip` and `PtonProper`.
- Inet6.PtonArray: the blanks and signs that `sscanf` would take before the numbers of an IPv4 part are not accepted,
  nor are numbers of more than 32 bits, which it may cut to a small one.
- The event loop, HTTP, OpenSSL and IOCP backends, and the chat program beside the library.
