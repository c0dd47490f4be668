# What the library computes, proved

A Dafny model of the algorithmic parts of the repository: the container library and a part of
libjingle's `talk/base`, with the parsers and string algorithms around them. What the code
changes in place is a class here, with the same fields; what it computes in a loop is a loop
proved against a function of its inputs; what it promises over whole runs is proved for every
sequence of calls.

| component | modules |
|---|---|
| HTTP message engine | `HttpText`, `HttpStartLine`, `HttpMachine`, `HttpReceiver`, `HttpSender`, `HttpRoundTrip`, `HttpSpelling`, `HttpRejects` |
| NAT simulator | `NatAddress`, `NatServer` |
| Container library | `LinkedList`, `HashBuckets`, `Hashtable`, `TreeLayout`, `Tree` |
| Disk cache | `DiskEntries`, `DiskTies`, `DiskCache`, `DiskFiles` |
| MD5 | `Md5Spec`, `Md5`, `Md5Sines`, `Md5Example` |
| TCP packet framing | `TcpFraming` |
| Reference-linked pointers | `LinkedPtr`, `OwnerRuns` |
| Configuration file | `ConfigText`, `ConfigRoundTrip`, `ConfigQuotes`, `ConfigLines`, `ConfigFile` |
| Base 64, HTTP attributes, byte buffer, C strings | `Base64`, `HttpAttributes`, `ByteBuffer`, `CString` |
| Shared | `Wrappers`, `Bytes`, `Blanks` |

`dafny verify dfyconfig.toml` checks everything.

Sockets, files, clocks and the results of binding, writing or removing are parameters of the
methods, so that a theorem about a run covers every behaviour of the surroundings.

## Where the code departs from what it seems to promise

The model does what the code does. Where that is not what a reader would expect, the exact
condition under which it is, is proved:

- A Content-Length header without a value is filled in from whatever the buffer holds behind
  the line (`HttpMachine.HeaderIsLineBoundedIff`).
- The start line is read by a scan that does not know where the line ends: a line that is cut
  short where blanks are skipped is completed from the line behind it, if that has arrived
  (`HttpStartLine.LeaderIsLineBoundedIff`, `HttpStartLine.TwoLinesPassForOne`). What a receiver
  holds is independent of how the message was cut unless one of these two lines is met
  (`HttpReceiver.SameBytesSameMessage`, `HttpReceiver.LooseIff`).
- A start line that leaves no room for a line end in the send buffer spoils the message head
  (`HttpSender.HeadIsWellFormedIff`).
- Erasing the last node of a bucket list counts the bucket out even if others are left
  (`HashBuckets.UsedCountIsExactIff`); clearing a hash table leaves its counters as they were
  (`Hashtable.Table.Clear`). The map behaviour depends on neither
  (`Hashtable.Replay`).
- A tree node inserted in front of existing children is not part of the tree
  (`Tree.Tree.InsertFirst`, `Tree.Tree.LostFirstChild`).
- The cache's search for the oldest entry starts one entry late and looks at locks too late
  (`DiskEntries.RoundFailsIff`); making room may evict the entry that is being locked
  (`DiskCache.EvictedIff`, `DiskCache.LockEvictsItself`); purging does not ask for locks, whose
  holders then follow a null pointer (`DiskCache.LockPurgeUnlock`), and keeps the total, and a
  cache whose purged total is above its limit grants no lock again (`DiskCache.Run`). A stream
  with two writers is counted twice (`DiskFiles.TwoWriters`).
- A packet of 65536 bytes passes the size check and arrives as an empty one
  (`TcpFraming.RoundTripIff`, `TcpFraming.LargestArrivesEmpty`).
- Quotes in configuration keys and values (`ConfigQuotes.EntrySurvivesIff`).
- A base 64 text that does not end in a letter may make the decoder read past its end, as a
  line end behind whole groups does, or a fill character where a group begins
  (`Base64.OverrunIff`, `Base64.TailOverrunIff`).
- The digest's context is not wiped, but for its first word (`Md5.Md5Context.Final`).

## Model

| member | source | states |
|---|---|---|
| HttpText.ScanStaysOnLine | Work/libjingle/base/httpbase.cc:154 | a `%d` scan of a value that is not blank never reads past the blank behind it |
| HttpText.ScanIsLineBoundedIff | Work/libjingle/base/httpbase.cc:154 | the scan is independent of what follows the line if and only if the value has a non-blank character |
| HttpText.EqualNoCaseIff | Work/libjingle/base/httpbase.cc:50-54 | names are matched if and only if their lengths agree and at every position the characters are equal or the two cases of one letter |
| HttpText.NumberReadsBack | Work/libjingle/base/httpcommon.cc:538 | a status printed with `%lu` is read back by `%lu`, behind a blank and up to what is no digit |
| HttpText.ChunkSizeReadsBack | Work/libjingle/base/httpbase.cc:175-187 | every size below 2^32 printed in eight hexadecimal digits is read as that size |
| HttpText.SizeReadsBack | Work/libjingle/base/httpbase.cc:175-187 | and so is a size in any number of digits that hold it, capital ones or not |
| HttpText.PrintedNumbers | Work/libjingle/base/httpbase.cc:431-432 | a decimal and a hexadecimal number as they are printed |
| HttpText.SpacesAre | Work/libjingle/base/httpbase.cc:97 | the blanks of the C locale |
| HttpStartLine.LeaderStaysOnLine | Work/libjingle/base/httpcommon.cc:470-492 | a start line whose scan does not run on into the next line is decided alone, and its length never wraps around |
| HttpStartLine.LeaderIsLineBoundedIff | Work/libjingle/base/httpcommon.cc:546-564 | the verdict on a start line, and what is read out of it, are independent of the memory behind it if and only if its scan does not run on: the line must not end, right so far, where the format skips blanks |
| HttpStartLine.TwoLinesPassForOne | Work/libjingle/base/httpcommon.cc:470-475 | a request line without a version is accepted with the version of the line behind it, and rejected if that has not arrived |
| HttpStartLine.VerbSpelledIff | Work/libjingle/base/httpcommon.cc:487-489 | a verb is known in any mix of cases, and in no other spelling |
| HttpStartLine.LeaderReadsBack | Work/libjingle/base/httpcommon.cc:462-467 | a printed start line is one line, decided alone, and read as the start line it was printed from, if and only if its path is one word, or its message one line without blanks around it |
| HttpMachine.FeedConcat | Work/libjingle/base/httpbase.cc:74-130 | the byte-at-a-time parser on a concatenation continues from where the first part left it |
| HttpMachine.FeedAfterEnd | Work/libjingle/base/httpbase.cc:80-83 | nothing after the end of a message changes it; the bytes are left over |
| HttpMachine.FeedPending | Work/libjingle/base/httpbase.cc:86-93 | a line without its newline changes nothing but the pending text |
| HttpMachine.FeedLine | Work/libjingle/base/httpbase.cc:86-102 | a finished line is trimmed and decided as a whole |
| HttpMachine.FeedData | Work/libjingle/base/httpbase.cc:109-126 | a stretch of body bytes within the announced size is taken at once as byte by byte |
| HttpMachine.HeaderIsLineBoundedIff | Work/libjingle/base/httpbase.cc:140-168 | what a header line does is independent of the memory behind it if and only if it is not a Content-Length without a value |
| HttpMachine.LineIgnoresMemory | Work/libjingle/base/httpbase.cc:132-209 | unless it is a start line whose scan runs on or such a header, no line depends on the memory behind it |
| HttpMachine.FeedFrame | Work/libjingle/base/httpbase.cc:85-129 | between calls there is never an exhausted body section or a finished line left to handle |
| HttpReceiver.HttpBase.ProcessLine | Work/libjingle/base/httpbase.cc:132-209 | one line, read with all that memory holds behind it, moves state, chunking, size and message as the reference parser says, with the same error |
| HttpReceiver.HttpBase.ReceiveData | Work/libjingle/base/httpbase.cc:110-125 | a body write takes at least one of the offered bytes or fails when the document is full |
| HttpReceiver.HttpBase.Process | Work/libjingle/base/httpbase.cc:74-130 | on any fragment the loop ends, and with the unconsumed bytes pending its state is that of the byte-at-a-time parser, if that met no line that depends on the memory behind it; its measure decreases also on steps that consume nothing |
| HttpReceiver.HttpBase.ReadAndParse | Work/libjingle/base/httpbase.cc:511-537 | one read of any size and the parse behind it keep the invariant: the state is the reference parser's on all bytes seen, unconsumed bytes at the front of the buffer, and more has been seen than before |
| HttpReceiver.HttpBase.OnReadable | Work/libjingle/base/httpbase.cc:499-539 | a whole read event of at most 21 reads, by what the stream answers: reads that bring something are parsed, the first other answer decides; a failed read closes the receiver with that cause and never well, blocking or ending leaves it open, and a full buffer is an overflow |
| HttpReceiver.HttpBase.OnClose | Work/libjingle/base/httpbase.cc:541-565 | a closing stream ends the message well if and only if it closes cleanly in a body of unknown size; each other cause has its own error |
| HttpReceiver.Listen | Work/libjingle/base/httpbase.cc:499-565 | over every sequence of events: the receiver ends as closed only if its last event closed the stream, by itself or in a read that failed, for that very cause |
| HttpReceiver.LineDecided | Work/libjingle/base/httpbase.cc:94-102 | a line read in the buffer moves the parser as the line alone would, unless it is a start line that runs on or a blank Content-Length |
| HttpReceiver.PresentAgain | Work/libjingle/base/httpbase.cc:526-528 | presenting unconsumed bytes again in front of new ones loses and doubles nothing |
| HttpReceiver.SameBytesSameMessage | Work/libjingle/base/httpbase.cc:506-537 | two receivers of the same bytes, however cut and read, hold the same message and result and the same bytes left over, unless one of those lines was met |
| HttpReceiver.LooseIff | Work/libjingle/base/httpbase.cc:94-102 | that exception is exact: the bytes seen hold such a line if and only if, at one of their line ends, two contents of the memory behind it have different outcomes |
| HttpSender.HeadIsWellFormedIff | Work/libjingle/base/httpbase.cc:317-320 | the queued head is start line, kept headers in order and a blank line if and only if the start line leaves room for the line end |
| HttpSender.HttpBase.constructor | Work/libjingle/base/httpbase.cc:296-323 | the text to send is head and body, chunked if the first such header says so; it is split between buffer and what is not yet queued |
| HttpSender.HttpBase.QueueHeaders | Work/libjingle/base/httpbase.cc:454-474 | headers enter the buffer whole and in order, over-long ones are the only ones discarded, and on an empty buffer at least one goes |
| HttpSender.HttpBase.WriteBuffer | Work/libjingle/base/httpbase.cc:357-378 | under every pattern of partial, blocked and failing writes the wire stays a prefix of the text and the rest stays queued |
| HttpSender.HttpBase.QueueDocument | Work/libjingle/base/httpbase.cc:386-448 | a block of the document, a chunk, or the last chunk enters the empty buffer; the end is reached only with the whole text on the wire |
| HttpSender.HttpBase.QueueChunk | Work/libjingle/base/httpbase.cc:431-436 | length, line end, data and line end laid out around offset 10 are one chunk of the text |
| HttpSender.HttpBase.FlushData | Work/libjingle/base/httpbase.cc:354-452 | after any write event wire, queued and unqueued text still make up the whole text; a stream that takes something makes the wire grow, and one that keeps taking gets all of it, with success unless the document broke off |
| HttpRoundTrip.HeaderReadsBack | Work/libjingle/base/httpbase.cc:457-460 | a printed header is read as the name and value it was printed from |
| HttpRoundTrip.HeadersReadBack | Work/libjingle/base/httpbase.cc:454-474 | so is the list of the kept headers, in order |
| HttpRoundTrip.ChunkReadsBack | Work/libjingle/base/httpbase.cc:431-436 | a chunk is read as its data |
| HttpRoundTrip.TrailersAreSkipped | Work/libjingle/base/httpbase.cc:199-204 | lines behind the last chunk, up to a blank one, end the message and leave no trace in it |
| HttpRoundTrip.ChunksReadBack | Work/libjingle/base/httpbase.cc:386-448 | a chunked body is read as its blocks joined, whatever trailers it has, with no byte left over |
| HttpRoundTrip.HeadReadsBack | Work/libjingle/base/httpbase.cc:317-322 | a head is read as its start line, headers and the framing they announce |
| HttpRoundTrip.MessageReadsBack | Work/libjingle/base/httpbase.cc:354-474 | what is sent of a message, with or without a document, is parsed as that message; a body that is announced ends there, one that is not goes on |
| HttpRoundTrip.EmptyChunkEndsMessage | Work/libjingle/base/httpbase.cc:431-436 | a chunk of no bytes would end the message: reads of the document must return some |
| HttpRoundTrip.PrefixIsRead | Work/libjingle/base/httpbase.cc:506-539 | who has seen the first part of a text holds a first part of its message, and has finished only if the whole has |
| HttpRoundTrip.EndToEnd | Work/libjingle/base/httpbase.cc:296-565 | whatever a sender has been able to write and a receiver to read, in any pieces: the receiver holds the first parts of start line, headers and document, finishes only with all of them, and does so once it has seen the whole text, or, for a body that is not announced, once the stream is closed as well, and then only by a clean close |
| HttpSpelling.AnySpelling | Work/libjingle/base/httpbase.cc:147-166 | two messages that differ in the case of header names and transfer codings, and in how the start line is spelled, are read with the same start line, framing, body and result |
| HttpSpelling.VerbAnyCase | Work/libjingle/base/httpcommon.cc:470-491 | a request line with its verb in any mix of cases says the same |
| HttpSpelling.LengthAnyCase | Work/libjingle/base/httpbase.cc:153-157 | under "Content-Length" in any mix of cases a printed length makes so many bytes the body, and the message ends with them |
| HttpSpelling.ChunkedAnyCase | Work/libjingle/base/httpbase.cc:158-160 | under "Transfer-Encoding" and "chunked" in any mix of cases the chunks are the body |
| HttpRejects.HeaderWithoutColon | Work/libjingle/base/httpbase.cc:142-146 | a header line without a colon ends the message with a protocol error, and what follows is left over |
| HttpRejects.UnknownCoding | Work/libjingle/base/httpbase.cc:158-166 | so does any transfer coding other than chunked and identity |
| HttpRejects.IdentityEndsChunks | Work/libjingle/base/httpbase.cc:161-162 | identity, in any case, switches chunks off again |
| HttpRejects.LengthIsNoNumber | Work/libjingle/base/httpbase.cc:153-157 | a length that begins with neither a digit nor a sign is a protocol error |
| HttpRejects.ChunkWithoutSize | Work/libjingle/base/httpbase.cc:174-186 | a blank line in place of a chunk size is a protocol error |
| HttpRejects.ChunkTooLong | Work/libjingle/base/httpbase.cc:188-194 | and so is anything between the data of a chunk and its line end |
| HttpRejects.VersionsKnown | Work/libjingle/base/httpcommon.cc:476-486 | versions 1.0 and 1.1 are known, and no others |
| NatAddress.RouteKeysAreClasses | Work/libjingle/base/natserver.cc:51-62 | the route order takes routes for the same exactly by source in a cone NAT and by source and destination in a symmetric one |
| NatAddress.FilterKeysAgree | Work/libjingle/base/natserver.cc:77-88 | the filter order takes addresses for the same exactly if they agree in the filtered fields |
| NatAddress.RouteLessIsStrictWeak | Work/libjingle/base/natserver.cc:51-62 | the route order is a strict weak order, as its map demands |
| NatAddress.FilterLessIsStrictWeak | Work/libjingle/base/natserver.cc:77-88 | so is the filter order |
| NatAddress.AddrReadsBack | Work/libjingle/base/socketaddress.cc:207-223 | an address written in front of a payload is read back, and the payload is what follows it |
| NatAddress.LowByteFirst | Work/libjingle/base/socketaddress.cc:211-217 | an address is written low byte first, its port behind it |
| NatServer.ChoosePortIsFirst | Work/libjingle/base/natserver.cc:175-189 | the port loop settles on the first port, counted cyclically from the source port, that is neither translated nor in use |
| NatServer.EveryPortOnce | Work/libjingle/base/natserver.cc:175-176 | its 65536 rounds try every port exactly once |
| NatServer.NoFreePortIff | Work/libjingle/base/natserver.cc:175-193 | it gives up if and only if no port of the external address is usable |
| NatServer.PlacementIff | Work/libjingle/base/natserver.cc:175-193 | the outcome, without the rounds of the loop: an address is chosen if and only if its bind succeeds and every port from the source's own one up to it, going round behind the last, is taken; and so for a bind that fails and for no port at all |
| NatServer.OwnPortFirst | Work/libjingle/base/natserver.cc:175-180 | a source whose own port is free keeps it |
| NatServer.RecordsAreOneToOne | Work/libjingle/base/natserver.cc:183-185 | translations and route classes are in one-to-one correspondence |
| NatServer.FilterFollowsHistory | Work/libjingle/base/natserver.cc:196-198 | an address passes the whitelist if and only if something was sent through that external address to one that agrees with it |
| NatServer.NATServer.Translate | Work/libjingle/base/natserver.cc:171-194 | a new route enters both maps under the first address that is not taken, counted from the source's own port, or nothing changes |
| NatServer.NATServer.OnInternalPacket | Work/libjingle/base/natserver.cc:116-139 | the destination is read off the packet, found or translated, allowed back, and gets the payload; a known route never needs a new address |
| NatServer.NATServer.OnExternalPacket | Work/libjingle/base/natserver.cc:141-169 | a packet is forwarded, payload intact and its origin in front, if and only if it was invited, and to the host that sent through that address |
| NatServer.Run | Work/libjingle/base/natserver.cc:116-198 | in every run external packets reach an internal host if and only if it sent before through the same address to a destination that agrees in the filtered fields, external addresses stand for route classes one to one, and each new class gets the first port that is not taken from its source's own one on |
| LinkedList.List.AddHead | Tools/JTrackMem/MyContainer.cpp:230-251 | the list gains the node at its head; all links stay consistent in both directions |
| LinkedList.List.AddTail | Tools/JTrackMem/MyContainer.cpp:265-287 | the same at its tail |
| LinkedList.List.Erase | Tools/JTrackMem/MyContainer.cpp:346-372 | exactly that node goes and its successor is returned |
| HashBuckets.BucketDecides | Tools/JTrackMem/MyContainer.cpp:632-653 | searching the bucket of a key's hash is searching the whole map |
| HashBuckets.MatchIsUnique | Tools/JTrackMem/MyContainer.cpp:515-536 | at most one stored key compares equal |
| HashBuckets.OnlyMatchGoes | Tools/JTrackMem/MyContainer.cpp:827-866 | erasing the stored key removes exactly the entry of all keys that compare equal |
| HashBuckets.InsertAddsEntry | Tools/JTrackMem/MyContainer.cpp:600-630 | a node appended to its bucket adds its entry to the map and one position to the enumeration |
| HashBuckets.EraseDropsEntry | Tools/JTrackMem/MyContainer.cpp:950-975 | a node taken out of its bucket takes out exactly its entry |
| HashBuckets.FlatErase | Tools/JTrackMem/MyContainer.cpp:950-975 | and exactly its position in the enumeration |
| HashBuckets.DoublingSplitsBucket | Tools/JTrackMem/MyContainer.cpp:509-513 | when n buckets are doubled a node of bucket i goes to bucket i or i + n |
| HashBuckets.DoublingOccupies | Tools/JTrackMem/MyContainer.cpp:779-792 | so doubling at most doubles the number of occupied buckets |
| HashBuckets.UsedCountIsExactIff | Tools/JTrackMem/MyContainer.cpp:966-972 | counting a bucket out when its last node is erased is right if and only if that node was its only one or was not the last |
| Hashtable.Table.AddNode | Tools/JTrackMem/MyContainer.cpp:600-630 | the entry is added at the tail of its bucket, with the counters and the back link |
| Hashtable.Table.GetFirst | Tools/JTrackMem/MyContainer.cpp:655-678 | the first node in bucket order |
| Hashtable.Table.GetNext | Tools/JTrackMem/MyContainer.cpp:680-708 | the node behind a stored one in bucket order, or none at the end |
| Hashtable.Table.EraseNode | Tools/JTrackMem/MyContainer.cpp:950-975 | exactly that node leaves enumeration and map, and the returned node follows it in bucket order |
| Hashtable.Table.Clear | Tools/JTrackMem/MyContainer.cpp:538-556 | nothing is stored any more, and both counters stay as they were |
| Hashtable.Hashtable.Rehash | Tools/JTrackMem/MyContainer.cpp:777-797 | every key and its data are in the table of twice the size, which counts its occupied buckets rightly |
| Hashtable.Hashtable.Add | Tools/JTrackMem/MyContainer.cpp:750-802 | a duplicate fails and changes nothing; otherwise the map gains the entry; a table of twice the size takes over exactly if the limit of used buckets is met and one more is needed |
| Hashtable.Hashtable.GetValue | Tools/JTrackMem/MyContainer.cpp:868-906 | the value stored under an equal key, or none if there is none |
| Hashtable.Hashtable.EraseByKey | Tools/JTrackMem/MyContainer.cpp:827-866 | the entry under an equal key goes, and the code says whether there was one |
| Hashtable.Hashtable.Clear | Tools/JTrackMem/MyContainer.cpp:977-994 | nothing is stored any more behind the handle, and the counters of its table stay as they were |
| Hashtable.Hashtable.EraseWhere | Tools/JTrackMem/MyContainer.cpp:655-708 | a walk that erases as it goes visits every node exactly once in bucket order and leaves the others in order |
| Hashtable.Replay | Tools/JTrackMem/MyContainer.cpp:750-994 | over every history of adds, erasures, lookups and clearings the table answers as a finite map does |
| TreeLayout.IntervalIsPreorder | Tools/JTrackMem/MyContainer.cpp:1241-1277 | the stretch of the order that a node owns is its subtree in preorder |
| TreeLayout.WholePreorder | Tools/JTrackMem/MyContainer.cpp:1241-1277 | the order of a whole tree is the preorder of its root |
| TreeLayout.InsertKeepsLinked | Tools/JTrackMem/MyContainer.cpp:1119-1178 | putting a child behind its sibling keeps all parent, sibling and child links and all counts consistent |
| TreeLayout.EraseKeepsLinked | Tools/JTrackMem/MyContainer.cpp:1303-1325 | so does taking out a whole subtree |
| Tree.GetNextNode | Tools/JTrackMem/MyContainer.cpp:1241-1277 | the node that follows in preorder, found without a stack, or none |
| Tree.FreeTreeNode | Tools/JTrackMem/MyContainer.cpp:1036-1050 | exactly the nodes of the subtree are freed, each once, the node itself last |
| Tree.Tree.Traverse | Tools/JTrackMem/MyContainer.cpp:1241-1277 | stepping from the root on visits every node exactly once, in preorder, and ends; the data come in that order |
| Tree.Tree.InsertRoot | Tools/JTrackMem/MyContainer.cpp:1061-1081 | only an empty tree takes a root |
| Tree.Tree.InsertBehind | Tools/JTrackMem/MyContainer.cpp:1119-1178 | the child stands behind the last one or the given one, its data enter the sequence of data in that place and all others stay; it fails, changing nothing, if and only if the given node is no child of the parent |
| Tree.Tree.InsertFirst | Tools/JTrackMem/MyContainer.cpp:1101-1118 | in front of no children the child is inserted with its data; in front of others the tree as walked does not change |
| Tree.Tree.LostFirstChild | Tools/JTrackMem/MyContainer.cpp:1101-1118 | after the latter the links describe no tree at all |
| Tree.Tree.Erase | Tools/JTrackMem/MyContainer.cpp:1280-1345 | exactly the subtree goes and is freed, its stretch leaves the sequence of data and the rest stays, links and counts stay consistent, and the preorder successor of the subtree is returned |
| DiskEntries.ChoiceIsOldest | Work/libjingle/base/diskcache.cc:242-258 | what a round evicts is no younger than anything else that may be evicted; it finds nothing if and only if nothing may be |
| DiskEntries.RoundFailsIff | Work/libjingle/base/diskcache.cc:243-262 | exactly when a round evicts, runs past the end of the map, or ends at an entry in use |
| DiskEntries.TrimVerdict | Work/libjingle/base/diskcache.cc:230-265 | success means that the total is within the limit, every failure that it is not, and why |
| DiskEntries.TrimRemoves | Work/libjingle/base/diskcache.cc:230-265 | only entries that are neither locked nor open go, the others stay in order, and the sizes that go leave the total |
| DiskEntries.TrimIsOldestFirst | Work/libjingle/base/diskcache.cc:230-265 | no evictable entry that stays is older than one that went |
| DiskEntries.TrimIsMinimal | Work/libjingle/base/diskcache.cc:242-263 | before the last entry went the total was above the limit |
| DiskEntries.YoungestStays | Work/libjingle/base/diskcache.cc:242-263 | an entry younger than every other is never evicted |
| DiskEntries.ChoiceByMembers | Work/libjingle/base/diskcache.cc:243-262 | for distinct ages: a round evicts the oldest evictable entry unless something in use is older and stands behind something evictable, or that entry is the last of all |
| DiskEntries.TrimSucceedsIff | Work/libjingle/base/diskcache.cc:230-265 | for distinct ages, told before the check: it succeeds if and only if some entry clears the cache, and an entry goes in a run that succeeds if and only if it is no younger than that |
| DiskTies.RankedAgrees | Work/libjingle/base/diskcache.cc:243-262 | entries of one age get their turns by position, save that the first that may be evicted lets the unbroken run behind it go first: ages that are all different |
| DiskTies.SameTrim | Work/libjingle/base/diskcache.cc:230-265 | with such ages in place of those there are, every round makes the same choice, and the limit check ends alike |
| DiskTies.SucceedsIff | Work/libjingle/base/diskcache.cc:230-265 | so for any ages, told before the check: it succeeds if and only if some entry clears the cache, and an entry goes in a check that succeeds if and only if its turn is no later |
| DiskCache.DiskCache.Initialize | Work/libjingle/base/diskcache.cc:85-97 | what was found in the folder is trimmed to the limit at once |
| DiskCache.EvictedIff | Work/libjingle/base/diskcache.cc:115-126 | for any ages: an entry is evicted when room is made exactly if the total is above the limit and one that clears the cache has its turn no earlier, and only if another one is no younger |
| DiskCache.DiskCache.CheckLimit | Work/libjingle/base/diskcache.cc:230-265 | the loop ends because the map shrinks, and leaves what the rounds of eviction leave |
| DiskCache.DiskCache.OneRound | Work/libjingle/base/diskcache.cc:243-258 | the two scans make the choice of a round |
| DiskCache.DiskCache.GetOrCreateEntry | Work/libjingle/base/diskcache.cc:312-327 | an entry is found, or made in its place among the ids |
| DiskCache.DiskCache.DeleteResource | Work/libjingle/base/diskcache.cc:204-228 | an entry that is neither locked nor open goes, with its size; success tells whether all its files went |
| DiskCache.DiskCache.LockResource | Work/libjingle/base/diskcache.cc:115-127 | a locked or read resource is refused; otherwise room is made if needed and the entry is locked, unless it was evicted itself, which happens exactly if `LockGoesWrong` holds before the call, and only if another entry is no younger |
| DiskCache.DiskCache.WriteResource | Work/libjingle/base/diskcache.cc:129-155 | a stream of a locked resource opens, and the old file's size, no more than the entry's, is no longer counted; an id that is not in the map is a null pointer |
| DiskCache.DiskCache.ReadResource | Work/libjingle/base/diskcache.cc:172-187 | a stream opens for reading if and only if the resource is unlocked, has it, and the file opens; an id that is not in the map is a null pointer |
| DiskCache.DiskCache.UnlockResource | Work/libjingle/base/diskcache.cc:157-170 | with streams open the lock is given up later, otherwise at once and the limit is checked; an id that is not in the map is a null pointer |
| DiskCache.DiskCache.ReleaseResource | Work/libjingle/base/diskcache.cc:329-358 | the entry of an open stream is there; its size grows if and only if it was written to; the last writer unlocks |
| DiskCache.DiskCache.Purge | Work/libjingle/base/diskcache.cc:99-113 | with nothing open all entries go and the total stays |
| DiskCache.DiskCache.ReadersOrWriters | Work/libjingle/base/diskcache.cc:115-187 | in every reachable state no resource has readers and writers |
| DiskCache.Run | Work/libjingle/base/diskcache.cc:99-358 | over every sequence of calls: the total is the sum of the sizes and of what purging forgot, the accessors are the open streams, who was granted a lock finds the entry until the lock is given up or the cache purged, and a cache over its limit by purging grants no lock |
| DiskCache.LockPurgeUnlock | Work/libjingle/base/diskcache.cc:99-170 | a purge takes the entry of a granted lock away: writing to it or giving it up then follows a null pointer |
| DiskCache.LockEvictsItself | Work/libjingle/base/diskcache.cc:85-126 | from an empty folder, by calls alone: locking a resource again evicts it |
| DiskFiles.OnDiskWrite | Work/libjingle/base/diskcache.cc:134-149 | a stream opened for writing: the size of its old file is no more than the entry's, as the code asserts, and the accounts stay those of the files when it is taken off |
| DiskFiles.OnDiskClose | Work/libjingle/base/diskcache.cc:345-349 | and when a closed stream's file is added |
| DiskFiles.RunOnFiles | Work/libjingle/base/diskcache.cc:99-358 | over every run, from a state in which it holds, while files can be removed and no stream has two writers at a time: every entry takes up what the file system says of its closed files, and there are no other files |
| DiskFiles.TwoWriters | Work/libjingle/base/diskcache.cc:129-155 | with two writers of one stream the file is counted twice |
| Md5Spec.BlocksOfPrefix | Work/libjingle/base/md5c.cc:95-101 | the state after n blocks depends on those blocks only |
| Md5Spec.PaddingIsFaithful | Work/libjingle/base/md5c.cc:112-146 | messages below 2^61 bytes with the same padding are the same |
| Md5Spec.Rotation | Work/libjingle/base/md5c.cc:164-166 | rotating left by s: the lower 32 - s bits go up, the upper ones come down, and the two do not overlap |
| Md5.OrRotates | Work/libjingle/base/md5c.cc:166 | the two shifts joined by or, as written, are that rotation |
| Md5Sines.SineIsTable | Work/libjingle/base/md5c.cc:183-249 | each constant is the integer part of 2^32 times the absolute sine of its number, for any functions with the power series of sine and cosine at 1 and the addition theorem |
| Md5.OptimisedIsAuxiliary | Work/libjingle/base/md5c.cc:156-162 | the round functions as written are F, G, H and I of RFC 1321 |
| Md5.SteppedIsMixed | Work/libjingle/base/md5c.cc:164-166 | a step as written is the step of RFC 1321, section 3.4 |
| Md5.FourLines | Work/libjingle/base/md5c.cc:183-249 | any four lines of the block function in a row are four steps of it, with their words, constants and rotations |
| Md5.Round1 | Work/libjingle/base/md5c.cc:183-198 | the lines of the first round are steps 1 to 16 |
| Md5.Round2 | Work/libjingle/base/md5c.cc:200-215 | the lines of the second round are steps 17 to 32 |
| Md5.Round3 | Work/libjingle/base/md5c.cc:217-232 | the lines of the third round are steps 33 to 48 |
| Md5.Round4 | Work/libjingle/base/md5c.cc:234-249 | the lines of the fourth round are steps 49 to 64 |
| Md5.Transform | Work/libjingle/base/md5c.cc:173-255 | the block function adds the result of the 64 steps to the state |
| Md5.BitsAdd | Work/libjingle/base/md5c.cc:67-72 | the two words with their carry count modulo 2^64 |
| Md5.BitsTellTheRest | Work/libjingle/base/md5c.cc:74 | the bit count tells how many bytes wait for a whole block |
| Md5.Md5Context.Update | Work/libjingle/base/md5c.cc:62-106 | whatever is added in whatever pieces, the context hashes the whole blocks of the message so far, holds the rest, and counts eight times the length modulo 2^64 |
| Md5.Md5Context.Final | Work/libjingle/base/md5c.cc:112-152 | the digest is that of the padded message; three words of the state stay behind and are the end of the digest |
| Md5.DigestOf | Work/libjingle/base/md5c.cc:46-152 | for every message and every split of it the digest is the fold of the block function over the padded message |
| Md5Example.DigestOfAbc | Work/libjingle/base/md5c.cc:46-255 | the digest of the test message "abc" is the one that section A.5 of RFC 1321 lists, byte by byte |
| TcpFraming.DeframeFrames | Work/libjingle/base/asynctcpsocket.cc:123-144 | the frames of packets and a part of another are decoded as those packets and that part |
| TcpFraming.HighByteFirst | Work/libjingle/base/asynctcpsocket.cc:86-87 | the first two bytes of a frame, the higher one first, are the length |
| TcpFraming.RoundTripIff | Work/libjingle/base/asynctcpsocket.cc:77-89 | packets survive framing if and only if each has at most 65535 bytes |
| TcpFraming.LargestArrivesEmpty | Work/libjingle/base/asynctcpsocket.cc:77-89 | a packet of 65536 bytes arrives as an empty one, and its payload as frames |
| TcpFraming.ArrivedIsPrefix | Work/libjingle/base/asynctcpsocket.cc:123-144 | what is decoded of a part of the stream is the first of what was sent |
| TcpFraming.AsyncTCPSocket.Flush | Work/libjingle/base/asynctcpsocket.cc:146-161 | what the stream takes leaves the front of the buffer, the rest moves up |
| TcpFraming.AsyncTCPSocket.Send | Work/libjingle/base/asynctcpsocket.cc:76-100 | a packet is accepted whole if nothing waits and some of it is taken, and dropped whole otherwise |
| TcpFraming.AsyncTCPSocket.OnWriteEvent | Work/libjingle/base/asynctcpsocket.cc:192-198 | the wire grows by what waited |
| TcpFraming.AsyncTCPSocket.ProcessInput | Work/libjingle/base/asynctcpsocket.cc:123-144 | every whole packet is handed on in order, and the rest moves to the front |
| TcpFraming.AsyncTCPSocket.OnReadEvent | Work/libjingle/base/asynctcpsocket.cc:167-190 | after any read the input is part of one frame, at most 65536 bytes, and the overflow branch is never taken |
| TcpFraming.EndToEnd | Work/libjingle/base/asynctcpsocket.cc:76-198 | for any partial sends and any fragments received the delivered packets are the first of the accepted ones, in order and unaltered, and all of them once everything has arrived |
| LinkedPtr.LinkedPtr.Acquire | Work/libjingle/base/linked_ptr.h:72-83 | the four links that joining a ring sets |
| LinkedPtr.LinkedPtr.Release | Work/libjingle/base/linked_ptr.h:100-109 | the two links that leaving it sets, and the target the last one deletes |
| LinkedPtr.JoinKeepsRings | Work/libjingle/base/linked_ptr.h:72-83 | joining keeps every pointer in one circle with exactly those that share its target |
| LinkedPtr.LeaveKeepsRings | Work/libjingle/base/linked_ptr.h:100-109 | so does leaving |
| LinkedPtr.AloneIff | Work/libjingle/base/linked_ptr.h:65 | `unique` holds exactly for a ring of one, that is, if nobody else holds the target |
| LinkedPtr.Owners.Make | Work/libjingle/base/linked_ptr.h:33-34 | a pointer to a new target is a ring of its own |
| LinkedPtr.Owners.Copy | Work/libjingle/base/linked_ptr.h:37-38 | a copy joins the ring behind the original |
| LinkedPtr.Owners.Assign | Work/libjingle/base/linked_ptr.h:39-46 | self-assignment changes nothing; otherwise the old ring is left, its target deleted if this was its last holder, and the new ring joined |
| LinkedPtr.Owners.Destroy | Work/libjingle/base/linked_ptr.h:35-36 | the target is deleted if and only if nobody else holds it |
| LinkedPtr.Owners.AllDeletedOnce | Work/libjingle/base/linked_ptr.h:100-109 | when no pointer is left every target has been deleted exactly once |
| OwnerRuns.DeletedIff | Work/libjingle/base/linked_ptr.h:100-109 | in every reachable layout a target has been deleted once if no slot holds it, and not at all otherwise |
| OwnerRuns.Run | Work/libjingle/base/linked_ptr.h:33-109 | over every program of makes, copies, assignments and destructions each slot holds what plain assignment says, and a target has been deleted, exactly once, if and only if no slot holds it; when all slots are dead, all have been |
| Blanks.TrimIs | Common/FileShare/MyConfigFile.cpp:253-260 | trimming takes the blanks around a text and nothing else |
| ConfigText.KeyColumn | Common/FileShare/MyConfigFile.cpp:564-590 | in a written entry the delimiter stands behind the key and its column, with nothing but blanks in between |
| ConfigText.CommentColumn | Common/FileShare/MyConfigFile.cpp:590-612 | and the comment mark behind the column of the entry |
| ConfigRoundTrip.ReadWritten | Common/FileShare/MyConfigFile.cpp:94-193 | any key or value is read from the way it is written, wherever it stands on a line, as what replacing its quotes left of it, less a quote of every row if it has no mark |
| ConfigRoundTrip.StorableIsRead | Common/FileShare/MyConfigFile.cpp:511-547 | one without quotes, or with quotes at its ends and a mark, is read as it is |
| ConfigRoundTrip.EntryReadsAs | Common/FileShare/MyConfigFile.cpp:564-612 | what any saved entry says when it is read, for any column widths and with or without a comment |
| ConfigRoundTrip.EntryReadsBack | Common/FileShare/MyConfigFile.cpp:564-612 | an entry line says key, value and comment again if key and value are storable |
| ConfigQuotes.ScanCounts | Common/FileShare/MyConfigFile.cpp:94-193 | a scan yields no more characters than the line has, and outside quotes fewer than half its quotes |
| ConfigQuotes.ReplacedCounts | Common/FileShare/MyConfigFile.cpp:511-526 | replacing quotes at most doubles them, and loses something unless each stands at an end |
| ConfigQuotes.SurvivesIff | Common/FileShare/MyConfigFile.cpp:511-547 | a key or value survives being written and read if and only if it has no quote, or has quotes at its ends only and contains a mark |
| ConfigQuotes.EntrySurvivesIff | Common/FileShare/MyConfigFile.cpp:549-614 | an entry survives being saved and loaded, with or without a comment, if and only if both its key and its value do |
| ConfigQuotes.QuoteInTheMiddle | Common/FileShare/MyConfigFile.cpp:519 | a quote at position 2 takes two characters with it |
| ConfigLines.SavedReadsBack | Common/FileShare/MyConfigFile.cpp:628-635 | the saved lines are loaded one by one as the items they were written from |
| ConfigLines.RoundTrip | Common/FileShare/MyConfigFile.cpp:50-217 | loading the saved text restores the same entries and the same order of blank, comment and data lines, removed entries aside |
| ConfigLines.LoadedIsClean | Common/FileShare/MyConfigFile.cpp:65-216 | whatever is loaded has trimmed keys and values of one line and a line for every entry |
| ConfigLines.LoadSaveLoad | Common/FileShare/MyConfigFile.cpp:50-217 | so loading any text, saving and loading again changes nothing if its quotes survive |
| ConfigLines.LastLineCounts | Common/FileShare/MyConfigFile.cpp:195-213 | if a key stands in several lines the last one counts |
| ConfigFile.MyConfigFile.GetLine | Common/FileShare/MyConfigFile.cpp:219-250 | the text up to the next line end, or to the end |
| ConfigFile.MyConfigFile.ScanLine | Common/FileShare/MyConfigFile.cpp:85-193 | the cursor loop computes the fields that the round trip is about |
| ConfigFile.MyConfigFile.LoadData | Common/FileShare/MyConfigFile.cpp:50-217 | all lines are taken in order, starting from nothing; with an empty comment mark every line that is not blank is a comment |
| ConfigFile.MyConfigFile.Set | Common/FileShare/MyConfigFile.cpp:384-412 | the value of the trimmed key is set, its comment kept, and a new key gets a line at the end |
| ConfigFile.MyConfigFile.SetDataComment | Common/FileShare/MyConfigFile.cpp:481-509 | the same for its comment |
| ConfigFile.MyConfigFile.Remove | Common/FileShare/MyConfigFile.cpp:336-346 | the entry goes, its line stays listed |
| ConfigFile.MyConfigFile.ReplaceQuotes | Common/FileShare/MyConfigFile.cpp:511-526 | the replacing loop with its length as it is |
| ConfigFile.MyConfigFile.GetFileFormatStr | Common/FileShare/MyConfigFile.cpp:529-547 | the written form of a key or value |
| ConfigFile.MyConfigFile.WriteItem | Common/FileShare/MyConfigFile.cpp:549-614 | the written form of an item |
| ConfigFile.MyConfigFile.SaveFile | Common/FileShare/MyConfigFile.cpp:616-670 | the listed items, or the given ones, in order |
| Base64.TablesAgree | Work/libjingle/base/base64.cc:26-63 | the two tables are inverse to each other |
| Base64.LettersAre | Work/libjingle/base/base64.cc:26-28 | the letters are those of table 1 of RFC 4648, in its order |
| Base64.QuadIsDigits | Work/libjingle/base/base64.cc:103-141 | four letters are the base 64 digits of three bytes taken as one number, the highest first |
| Base64.EncodedShape | Work/libjingle/base/base64.cc:103-141 | four letters for every three bytes begun, and fill characters only at the end, as many as bytes are missing |
| Base64.Encode | Work/libjingle/base/base64.cc:103-141 | the stepping loop computes the encoding |
| Base64.Decode | Work/libjingle/base/base64.cc:143-194 | the stepping loop computes the decoding group by group, or reads behind its input |
| Base64.RoundTrip | Work/libjingle/base/base64.cc:103-194 | decoding an encoding gives back every byte string |
| Base64.OverrunIff | Work/libjingle/base/base64.cc:143-194 | the decoder reads past the end of a text if and only if it begins a group with no letter left |
| Base64.EndsInLetterIsSafe | Work/libjingle/base/base64.cc:143-194 | a text that ends in a letter is decoded without that |
| Base64.TailOverrunIff | Work/libjingle/base/base64.cc:150-191 | what follows the letters, line ends and fill characters alike, causes it exactly behind whole groups, or behind the one character that completes a group and is not the fill character |
| Base64.BreaksDoNotMatter | Work/libjingle/base/base64.cc:150-163 | breaks between groups make no difference to what is decoded, as long as something follows |
| Base64.LinesReadBack | Work/libjingle/base/base64.cc:103-194 | an encoding broken into lines between groups decodes to what was encoded |
| Base64.LinesOverrunIff | Work/libjingle/base/base64.cc:143-194 | a text of several lines makes the decoder read past its end exactly if what follows its last line does |
| HttpAttributes.HttpParseAttributes | Work/libjingle/base/httpcommon.cc:239-287 | the scanner ends on every input, with the attributes in order |
| HttpAttributes.Quote | Work/libjingle/base/httpcommon.cc:601-611 | a text between quotes with its quotes and backslashes escaped |
| HttpAttributes.QuotedReadsBack | Work/libjingle/base/httpcommon.cc:265-274 | any text so quoted is read back |
| HttpAttributes.ListReadsBack | Work/libjingle/base/httpcommon.cc:239-287 | a printed list of names with quoted values or tokens is read back |
| HttpAttributes.ParametersTell | Work/libjingle/base/httpcommon.cc:732-747 | each credential is found under its own name, and what was not given is not found |
| HttpAttributes.DigestResponse | Work/libjingle/base/httpcommon.cc:732-747 | the printed Digest response is read back as its scheme and exactly the printed names and values, for arbitrary strings passed through quote, each credential under its own name |
| ByteBuffer.NumberReadsBack | Work/libjingle/base/bytebuffer.cc:72-128 | a number that fits is read from its big-endian bytes |
| ByteBuffer.BytesReadBack | Work/libjingle/base/bytebuffer.cc:72-128 | and all bytes of that width are those of one number |
| ByteBuffer.NumberIsPlaceValue | Work/libjingle/base/bytebuffer.cc:72-104 | the bytes of a number count by their places, the first one most |
| ByteBuffer.ByteBuffer.ReadBytes | Work/libjingle/base/bytebuffer.cc:106-114 | as many bytes leave the front, or none |
| ByteBuffer.ByteBuffer.WriteBytes | Work/libjingle/base/bytebuffer.cc:134-140 | the bytes are appended, whatever had to be resized |
| ByteBuffer.ByteBuffer.Resize | Work/libjingle/base/bytebuffer.cc:142-155 | the contents stay as far as they fit; the capacity grows by half at least |
| ByteBuffer.ByteBuffer.Shift | Work/libjingle/base/bytebuffer.cc:157-164 | bytes are dropped from the front, or none |
| ByteBuffer.FirstInFirstOut | Work/libjingle/base/bytebuffer.cc:72-140 | under any mix of reads and writes what is given out and still held is what was written, in order |
| ByteBuffer.Replay | Work/libjingle/base/bytebuffer.cc:72-164 | any mix of reads, writes, shifts and resizes does what a queue of bytes does |
| CString.Streplace | Windows/MFC/MergeFolder/ICommon.cpp:53-115 | the first `nSize - 1` characters of the unbounded replacement are written, and the terminator, and nothing behind; for an empty pattern those of endless copies of the new text |
| CString.CopiesFill | Windows/MFC/MergeFolder/ICommon.cpp:66-96 | with an empty pattern the destination is filled with the new text over and over |
| CString.ReplacedLength | Windows/MFC/MergeFolder/ICommon.cpp:66-96 | every occurrence from left to right gives its room for that of the new text |
| CString.ReplacedByItself | Windows/MFC/MergeFolder/ICommon.cpp:66-96 | replacing the pattern by itself gives the old text |
| CString.Strtrim | Windows/MFC/MergeFolder/ICommon.cpp:10-51 | the string in the buffer becomes its trimmed self, in place |

## Left out

- User interface, OLE and dialog code, generated wrappers, floating-point geometry, `readDouble` and `setDouble`: nothing to prove about runs or data.
- Threads, locks, logging, real sockets and files, and the throttling sleep in `HttpBase::flush_data`: parameters or left away.
- malloc failure, memory release as such (what is freed is tracked where it matters), null handles passed to the container functions, and handles kept across a rehash.
- The container array and one-level tree traversal: simple bounds only.
- Hash table: `nNodeCnt` is not cut to 32 bits; `nUsedListCnt` is.
- HTTP: combined headers, redirects and proxies are not part of this model; a `%d` or `%lu` conversion out of range is taken modulo 2^32.
- HttpStartLine: the verdict `Undefined` stands for a message whose length wraps around.
- NAT: addresses are resolved IPv4 addresses, written as they lie in a little-endian memory; a bind that fails for another reason than a port in use stops the run, where the code asserts.
- Disk cache: loading entries from disk is a parameter of the constructor, file names and their encoding are not part of this model, and after a scan past the end of the map or a write through a stale pointer a run stops.
- Disk cache: only a stream that is open is released; a cache is initialized once.
- DiskFiles.RunOnFiles: for streams with one writer at a time, which is necessary (`DiskFiles.TwoWriters`) and not enforced by the cache, and files that can be removed; a purge that fails half-way is not followed on disk.
- MD5: words are 32 bits wide and stored low byte first, the branch without byte reversal.
- Md5Sines.SineIsTable: that the sine and the cosine have the power series and the addition theorem is taken from analysis.
- TCP framing: `SendRaw`, which bypasses framing, and connection events.
- LinkedPtr.Owners.Make: a raw pointer is handed over once; two rings made from the same raw pointer would both delete it, and the class cannot know.
- ConfigLines.RoundTrip: for entries whose keys and values are trimmed, of one line and survive their quotes (which is necessary, `ConfigQuotes.EntrySurvivesIff`), and comments without blanks at their end.
- HttpRoundTrip.EndToEnd: for start lines and headers that are one line each without blanks at their ends, documents that do not break off, receivers without a limit of their own, and headers that announce the framing the sender uses, or none, as a message that is to be read back must.
- TcpFraming.EndToEnd: for packets of at most 65535 bytes, which is necessary (`TcpFraming.RoundTripIff`).
- ConfigFile.MyConfigFile.LoadData: an empty delimiter needs an empty comment mark, as the cursor would not move otherwise; the round trip is stated for marks of one character, neither blank nor a quote, since comments are cut one character behind the mark.
- Configuration: integer conversion and template access are not part of this model.
- Base64.Decode: characters have no sign here; the encoder's twin `encodeFromArray` is the same loop.
- HTTP attributes: the hash of a Digest response is a parameter; Basic, Negotiate and NTLM are not part of this model.
- CString.Streplace: the pattern and the new text must not both be empty, with which the loop does not end, and the size not zero, with which the bound wraps around.
