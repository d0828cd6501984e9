# PtitChat: the dissemination engine, modelled in Dafny

PtitChat is a peer-to-peer chat. Every node keeps TCP connections to a few
peers and speaks a line protocol over them. Each packet is one line of
`#`-separated fields headed by a type tag:
- `RUMOR`: a broadcast message;
- `UPDATE`: asks for every stored rumor;
- `PM`: a private message;
- `FT`: a file chunk header, followed on the socket by the chunk's raw bytes;
- `DISC`: ends the connection.

A node forwards each new rumor to its live peers, with a bounce count that
limits how far the rumor travels. It keeps, per user, the messages that user
broadcast, keyed by message ID. It reassembles files that arrive chunk by
chunk.

| module | file | models |
|---|---|---|
| `Fields` | fields.dfy | `String.Split(char)` and the joining of descriptions with '\n' |
| `Wire` | wire.dfy | the packet formats, `Int32.Parse`/`Int64.Parse`, and decoding a line into a packet (Console/PtitChat/Peer.cs) |
| `PeerLink` | peer.dfy | one peer: its disposable client, the frames written to it, file chunking, and the `ListenAsync` read loop as a step function (Console/PtitChat/Peer.cs) |
| `Gossip` | gossip.dfy | the client: its list of peers, the three broadcasts with their dead-peer pruning, `ConnectToPeer`, and `ToString` (Console/PtitChat/Client.cs) |
| `OriginRecord` | origin_record.dfy | a user record whose frontier is recomputed by a loop, the `NbMessages` counter, and the private-message inbox (Console/Interface/User.cs) |
| `ChatUser` | chat_user.dfy | a user record whose frontier moves by one step, and the static `User.All` directory (Console/PtitChat/User.cs) |
| `AllUsersRegistry` | all_users.dfy | the user directory: `NewMessage`, `AddPotentialNewUser`, the `GetRumorList` dump, and `AllToString` (Project/Interface/AllUsers.cs) |
| `FileAssembly` | file_assembly.dfy | one file being reassembled from its chunks (Console/PtitChat/File.cs) |
| `AllFilesRegistry` | all_files.dfy | the file registry keyed by file name (Console/Interface/AllFiles.cs) |

Objects the source updates in place are classes with `modifies` clauses:
- `Peer`, `Client`, and both `User` classes;
- the `All` dictionaries (`Directory`, `AllUsers`, `FileRegistry`);
- the `File` class (`FileAssembler`).

Each method is specified against a function of the inputs and the old state:
- `Decode`, `Step` and `Run` for the read loop;
- `Arrive` and `Replay` for the single-step frontier;
- `Without` for pruning;
- `Offer`, `Reconstruct` and `Admit` for reassembly;
- `Lines(AllStored(...))` for the dump;
- `JoinLines` for the descriptions.

Lemmas about those functions state what the source promises.

Dictionary enumeration order is modelled explicitly. Each map sits beside a
sequence of its keys in insertion order, which is the order .NET's
`Dictionary` enumerates them when nothing is removed. A send appends a frame
to the peer's `outbox`: a `TextLine` for a packet followed by '\n', or
`RawBytes` for a chunk. An event raised by the read loop is a `Note`
returned by the step function.

## Model

| member | source | states |
|---|---|---|
| Fields.Split | Console/PtitChat/Peer.cs:312 | splitting always gives at least one field, and no field contains the separator |
| Fields.SplitJoin | Console/PtitChat/Peer.cs:312 | joining separator-free fields with the separator and splitting again gives exactly those fields back |
| Fields.JoinSplit | Console/PtitChat/Peer.cs:312 | joining the fields of a split with the separator gives the original text |
| Fields.SplitLength | Console/PtitChat/Peer.cs:312 | a split has one more field than the text has separators |
| Fields.SplitNoSeparator | Console/PtitChat/Peer.cs:312 | text without the separator is a single field, itself |
| Fields.AfterLastIsSuffix | Console/PtitChat/Peer.cs:202-203 | the file name taken from a path has no '/', and is the suffix of the path after its last '/' (or the whole path) |
| Fields.JoinedLines | Console/PtitChat/Client.cs:64-76 | the loop appending each entry and '\n', then dropping the last character when there are entries, yields the entries joined by '\n', with no trailing newline, and "" for none |
| Fields.LinesRoundTrip | Console/PtitChat/Client.cs:62-77 | a description of entries without '\n' splits back on '\n' into one line per entry |
| Wire.ParseInt32 | Console/PtitChat/Peer.cs:326-328 | a successful `Int32.Parse` gives a value in the Int32 range |
| Wire.ParseInt64 | Console/PtitChat/Peer.cs:415-416 | a successful `Int64.Parse` gives a value in the Int64 range |
| Wire.ParseFormatInt | Console/PtitChat/Peer.cs:326-328 | an integer written in decimal parses back to itself at any width that holds it |
| Wire.NoDigitsIsNotANumber | Console/PtitChat/Peer.cs:332-336 | text without a digit does not parse as an integer |
| Wire.ParseDate | Console/PtitChat/Peer.cs:329 | a date that parses is the stamp that was read |
| Wire.FormattedIntHasNoSeparator | Console/PtitChat/Peer.cs:284 | a formatted integer contains neither '#' nor '\n', so it cannot shift the fields |
| Wire.FieldsOf | Console/PtitChat/Peer.cs:251-284 | each packet type writes its own fixed number of fields, the first one its tag |
| Wire.SplitEncode | Console/PtitChat/Peer.cs:312 | the line of a well-formed packet splits into exactly the fields the encoder wrote |
| Wire.Decode | Console/PtitChat/Peer.cs:312-456 | a line decodes to a packet only if its split has exactly that type's field count and tag, and the packet is then well formed; "could not parse" happens only after a RUMOR, PM or FT count and tag matched |
| Wire.DecodeEncode | Console/PtitChat/Peer.cs:312-444 | every well-formed packet (texts without '#', numbers within their width, dates that parse) is decoded back to itself |
| Wire.DecodeEncodeRumor | Console/PtitChat/Peer.cs:282-286 | a RUMOR with Int32 bounce and msgID, and with user, date and msg free of '#', gives back the same six values |
| Wire.DecodeEncodeFileHeader | Console/PtitChat/Peer.cs:248-255 | an FT header with '#'-free names, an Int32 buffer size and Int64 chunk ID and count gives back the same values |
| Wire.ReencodeDecoded | Console/PtitChat/Peer.cs:312-444 | a decoded packet, written again, decodes to the same packet |
| Wire.RumorSplitShape | Console/PtitChat/Peer.cs:284 | a RUMOR line still starts with its tag, and every '#' inside user, date or msg adds one field to the six |
| Wire.RumorSeparatorCount | Console/PtitChat/Peer.cs:284 | a RUMOR line has five separators plus those inside its user, date and msg |
| Wire.RumorWithSeparatorIsUnrecognised | Console/PtitChat/Peer.cs:315 | a rumor whose user, date or msg contains '#' is read back as no packet at all and falls to the "could not process" branch |
| Wire.DisconnectIsExactLine | Console/PtitChat/Peer.cs:447 | a line is a disconnect request exactly when it is "DISC" |
| Wire.UpdateIsExactLine | Console/PtitChat/Peer.cs:354 | a line is an update request exactly when it is "UPDATE" |
| Wire.UnparsedFieldIsMalformed | Console/PtitChat/Peer.cs:324-422 | a RUMOR, PM or FT line with the right count and tag but a bad bounce, msgID, date, bufferSize, chunkID or nbChunks is "could not parse" |
| Wire.Decrement32 | Console/PtitChat/Client.cs:234 | `bounce--` on an Int32 subtracts one and wraps the minimum to the maximum |
| PeerLink.Chunks | Console/PtitChat/Peer.cs:211-232 | the file is read as ceil(len / 8192) chunks, each of 1 to 8192 bytes, all but the last exactly 8192 |
| PeerLink.ConcatChunks | Console/PtitChat/Peer.cs:213-233 | the chunks laid end to end are the file: the sizes sum to its length and nothing is reordered |
| PeerLink.ChunkAt | Console/PtitChat/Peer.cs:217-222 | chunk k is the bytes from k * 8192 up to the next multiple of 8192 or the end of the file |
| PeerLink.TwentyThousandBytes | Console/PtitChat/Peer.cs:211-217 | a 20000-byte file goes out as chunks of 8192, 8192 and 3616 bytes |
| PeerLink.FileFramesAt | Console/PtitChat/Peer.cs:225-232 | frame 2k is the header of chunk k, with the chunk's size as buffer size and ID k; frame 2k + 1 is its bytes |
| PeerLink.ChunkBuffer | Console/PtitChat/Peer.cs:425-426 | the receive buffer has the announced size, the bytes read in front and zeros after them |
| PeerLink.Peer.constructor | Console/PtitChat/Peer.cs:89-101 | a new peer is connected and has sent nothing |
| PeerLink.Peer.Describe | Console/PtitChat/Peer.cs:124-131 | the description is "Peer address <" + text + ">", where the text is the end point while connected and "null" once disposed; it is the sentinel exactly when the peer is disposed (for an end point other than "null") |
| PeerLink.Peer.Dispose | Console/PtitChat/Peer.cs:107-117 | afterwards the client is gone and the description is the sentinel; the client is closed once, and a second call changes nothing |
| PeerLink.Peer.SendPacket | Console/PtitChat/Peer.cs:151-156 | exactly the packet and a newline are written |
| PeerLink.Peer.SendPacketWithChunk | Console/PtitChat/Peer.cs:165-179 | the header line is written, then the chunk's bytes |
| PeerLink.Peer.RequestUpdate | Console/PtitChat/Peer.cs:186-189 | exactly the line "UPDATE" is written |
| PeerLink.Peer.SendRumor | Console/PtitChat/Peer.cs:282-286 | exactly the encoded RUMOR line is written |
| PeerLink.Peer.SendPrivateMessage | Console/PtitChat/Peer.cs:266-270 | exactly the encoded PM line is written |
| PeerLink.Peer.SendFileChunk | Console/PtitChat/Peer.cs:248-255 | the encoded FT header line is written, then the chunk's bytes |
| PeerLink.Peer.SendFile | Console/PtitChat/Peer.cs:199-234 | the stream gets the header and bytes of every chunk of the file in order, with IDs 0, 1, ..., the total count, and the name after the last '/' of the path |
| PeerLink.SentChunkIsReceived | Console/PtitChat/Peer.cs:403-426 | for names free of '#', '\n' and '\r', so that the header is read as one line, the header a sender writes for chunk k is parsed by the receiver as chunk k of the file, with its size and count; given that the raw read returns the chunk's bytes, the buffer holds exactly those bytes |
| PeerLink.Peer.Listen | Console/PtitChat/Peer.cs:293-463 | the handled read loop, with the end of the stream and a negative buffer size handled as in `Step` (the corrected member of the third Findings row, not `ListenAsync` as written): it raises exactly the notes `Run` gives for its input; when the loop is left the peer is disposed, and otherwise it is untouched |
| PeerLink.StopsOnlyOnDisconnect | Console/PtitChat/Peer.cs:302-450 | the loop is left exactly on a read failure or a "DISC" line, and with end of stream handled, also at the end of the stream |
| PeerLink.SkippedLineContinues | Console/PtitChat/Peer.cs:332-456 | a line that does not parse, or that matches no packet type, raises no note and the loop goes on |
| PeerLink.EveryExitDisposes | Console/PtitChat/Peer.cs:297-462 | with the two modelled escaping exceptions handled, a run never crashes, and it is closed (disposed) exactly when some iteration leaves the loop |
| PeerLink.StepDiffersOnlyThere | Console/PtitChat/Peer.cs:304-426 | of the exceptions modelled, the loop as written and the handled loop differ exactly at the end of the stream and at a negative buffer size |
| PeerLink.EndOfStreamCrashesAsWritten | Console/PtitChat/Peer.cs:304-312 | as written, a stream that ends crashes the loop before `Dispose`; handled, the peer is closed |
| PeerLink.NegativeBufferCrashesAsWritten | Console/PtitChat/Peer.cs:414-425 | as written, an FT header with buffer size -1 crashes the loop; handled, the line is skipped and the following "DISC" closes the peer |
| Gossip.RemoveAt | Console/PtitChat/Client.cs:261 | `List.RemoveAt(i)` removes element i and moves the later elements down by one |
| Gossip.ConnectTarget | Console/PtitChat/Client.cs:90-110 | a target is found only when the address has a ':' and its first part is an IP address; the port is an Int32 |
| Gossip.ConnectsNeedsPort | Console/PtitChat/Client.cs:92-94 | a connection is attempted only for an "ip:port" text whose port is an Int32 in 0..65535 |
| Gossip.Client.constructor | Console/PtitChat/Client.cs:20-37 | a new client has no peers, and its own user is added, empty, to the user directory |
| Gossip.Client.ToString | Console/PtitChat/Client.cs:62-77 | one peer description per line, '\n' between them, no trailing newline, and "" for no peers |
| Gossip.Client.ConnectToPeer | Console/PtitChat/Client.cs:84-136 | on success exactly one fresh, connected peer is appended; on any parse or connection failure the peer list is unchanged |
| Gossip.Client.SendToLive | Console/PtitChat/Client.cs:242-258 | the line goes to every live peer except the excluded one, and to no other; the indices collected are those of the dead peers, in ascending order |
| Gossip.Client.RemoveEach | Console/PtitChat/Client.cs:259-262 | the `RemoveAt` loop as written: each index is removed from the list the previous removal left; it reports the throw when an index is out of range, and the list is then what the earlier removals left |
| Gossip.RemoveUntilFault | Console/PtitChat/Client.cs:259-262 | the list the removal loop leaves; when no removal throws it is the loop's result, and it is shorter by one per index exactly when none throws |
| Gossip.AscendingBelowElements | Console/PtitChat/Client.cs:242-250 | the collected indices are exactly the dead ones below the count |
| Gossip.AscendingElementsCount | Console/PtitChat/Client.cs:242-250 | an ascending index list holds as many distinct indices as it is long, so the number of collected indices is the number of dead peers |
| Gossip.RemoveAtDistinct | Console/PtitChat/Client.cs:261 | `RemoveAt` keeps a list of distinct peers distinct |
| Gossip.Client.PruneDead | Console/PtitChat/Client.cs:259-262 | the corrected removal (not what the broadcasts run): removing the collected indices from the last one down leaves exactly the elements at the other indices, in their order |
| Gossip.Client.Fanout | Console/PtitChat/Client.cs:242-263 | every live peer but the excluded one gets the line once; the dead indices are then removed in ascending order as written, and the result states whether a removal threw; with at most one dead peer the list is exactly the live peers in their old order, and with two or more it never is |
| Gossip.Client.BroadcastRumor | Console/PtitChat/Client.cs:230-266 | the bounce is decremented; if negative nothing is sent; otherwise the rumor with the new bounce goes to every live peer except the one it came from, which never receives it, and the dead indices are removed in ascending order as in `Fanout`: correct with at most one dead peer, wrong or throwing with two or more |
| Gossip.Client.RecordMyRumor | Console/PtitChat/Client.cs:277-286 | the new message's ID is the own user's `NextExpectedMessageID` read before the message is stored through `NewMessage` with no peer |
| Gossip.Client.BroadcastMyRumor | Console/PtitChat/Client.cs:273-315 | the message is stored under that ID, then sent with bounce 20 to every live peer; the dead indices are removed in ascending order as in `Fanout`: correct with at most one dead peer, wrong or throwing with two or more |
| Gossip.Client.BroadcastStatus | Console/PtitChat/Client.cs:173-204 | the same packet goes to every live peer; the dead indices are removed in ascending order as in `Fanout`: correct with at most one dead peer, wrong or throwing with two or more |
| Gossip.WithoutMembers | Console/PtitChat/Client.cs:241 | an element is kept exactly when it sits at an index that is not removed |
| Gossip.WithoutDistinct | Console/PtitChat/Client.cs:55 | pruning a list of distinct peers keeps them distinct |
| Gossip.PrunedAreLive | Console/PtitChat/Client.cs:241-262 | after the corrected pruning, which the comment at line 241 promises, a peer is in the list exactly when it was there and is live |
| Gossip.ReverseRemovalIsWithout | Console/PtitChat/Client.cs:259-262 | removing ascending indices last first removes exactly the elements at those indices and keeps the others in order |
| Gossip.AscendingRemovalWithOneDead | Console/PtitChat/Client.cs:259-262 | the ascending loop as written removes exactly the dead peers, in order, when at most one is dead |
| Gossip.AscendingRemovalWithTwoDead | Console/PtitChat/Client.cs:259-262 | with two or more dead peers the ascending loop as written never gives the live peers: either an index is out of range, or the second dead peer survives |
| Gossip.AdjacentDeadExample | Console/PtitChat/Client.cs:197-200 | with peers at 0 and 1 dead out of three, the loop as written removes a live peer and keeps a dead one |
| Gossip.OutOfRangeExample | Console/PtitChat/Client.cs:308-311 | with peers at 0 and 2 dead out of three, the second removal is out of range |
| Gossip.BounceRule | Console/PtitChat/Client.cs:234-238 | a rumor stops exactly when its bounce was in INT32_MIN + 1 .. 0; the smallest Int32 bounce wraps to the largest |
| OriginRecord.MessageCounter.constructor | Project/Interface/AllUsers.cs:36 | `NbMessages` starts at 0 |
| OriginRecord.User.constructor | Console/Interface/User.cs:18-26 | a new user has no messages and frontier 0; it has an inbox exactly when `initPMs` is set |
| OriginRecord.User.AddMessage | Console/Interface/User.cs:114-136 | true exactly for an unseen ID, which is stored and bumps `NbMessages` by one; a seen ID changes nothing; stored messages are never overwritten; the frontier never decreases, stays the first missing ID, and becomes the first ID at or after the old frontier that is still missing |
| OriginRecord.User.AddPrivateMessage | Console/Interface/User.cs:145-162 | the entry is appended to the list for the sender, which is created if absent; other senders keep their lists; without an inbox nothing changes |
| OriginRecord.User.LatestPeerText | Console/Interface/User.cs:86-98 | the end point of the latest peer while it is connected; "null" when there is no latest peer, and "null" when it has been disposed |
| OriginRecord.User.ToString | Console/Interface/User.cs:33-43 | the header, one line per message in dictionary order, and the closing line |
| OriginRecord.FrontierUnique | Console/Interface/User.cs:68-72 | a set of received IDs has exactly one frontier |
| OriginRecord.FrontierExample | Console/Interface/User.cs:70 | with messages 0, 1, 2, 3, 6, 7 and 10 the frontier is 4 and nothing else |
| OriginRecord.FrontierAtMostCount | Console/Interface/User.cs:122-132 | the frontier never exceeds the number of stored messages |
| ChatUser.Arrive | Console/PtitChat/User.cs:133-146 | an arrival records the ID; the frontier moves by one exactly when the ID is unseen and equal to it, and otherwise stays the same |
| ChatUser.User.constructor | Console/PtitChat/User.cs:74-78 | a new user has no messages and frontier 0 |
| ChatUser.User.AddMessage | Console/PtitChat/User.cs:133-146 | true exactly for an unseen ID, which is stored; a seen ID leaves messages and frontier alone; the frontier follows `Arrive` |
| ChatUser.User.ToString | Console/PtitChat/User.cs:85-95 | the header, one line per message in dictionary order, and the closing line |
| ChatUser.Directory.constructor | Console/PtitChat/User.cs:16 | the directory starts empty |
| ChatUser.Directory.Add | Console/PtitChat/Client.cs:28-31 | the client's own user is added, fresh and empty |
| ChatUser.Directory.Register | Console/PtitChat/User.cs:33-36 | an unknown user name gets a fresh, empty record; a known one keeps its record |
| ChatUser.Directory.Store | Console/PtitChat/User.cs:39-42 | the message is added to the record, which then follows `Arrive`; the peer becomes `LatestPeer` only when the message was new and the peer is non-null |
| ChatUser.Directory.NewMessage | Console/PtitChat/User.cs:27-45 | an unknown user is created before the message is added; other users are untouched; the messages, frontier and `LatestPeer` change as `Store` says |
| ChatUser.Directory.AllToString | Console/PtitChat/User.cs:52-67 | one description per user, '\n' between them, no trailing newline, and "" for no users |
| ChatUser.ArriveKeepsBelowSeen | Console/PtitChat/User.cs:133-146 | an arrival keeps every ID below the frontier received |
| ChatUser.ReplayBelowSeen | Console/PtitChat/User.cs:113-116 | whatever the arrival order, every ID below the frontier has been received |
| ChatUser.FrontierAtMostPrefix | Console/PtitChat/User.cs:113-116 | so the frontier never exceeds the length of the contiguous prefix of received IDs |
| ChatUser.OutOfOrderLags | Console/PtitChat/User.cs:139-142 | the doc comment's claim fails out of order: after 1 then 0, both are received but the frontier is 1, not 2 |
| ChatUser.InOrderIsExact | Console/PtitChat/User.cs:139-142 | after 0, 1, ..., n-1 in order the frontier is exactly n |
| ChatUser.RepeatIsIgnored | Console/PtitChat/User.cs:135-145 | an ID that has already arrived changes nothing |
| ChatUser.ReplaySeen | Console/PtitChat/User.cs:133-146 | the received IDs are exactly the arrived ones |
| AllUsersRegistry.Lines | Project/Interface/AllUsers.cs:126 | one RUMOR line per stored message, with the owner's `Distance` as its bounce |
| AllUsersRegistry.AllUsers.constructor | Project/Interface/AllUsers.cs:12-36 | the directory starts empty and `NbMessages` at 0 |
| AllUsersRegistry.AllUsers.Register | Project/Interface/AllUsers.cs:55-58 | an unknown user name gets a fresh, empty record; a known one keeps its record |
| AllUsersRegistry.AllUsers.Store | Project/Interface/AllUsers.cs:61-66 | the message is added if its ID is unseen; true exactly when it was unseen and came from a peer, and exactly then `LatestPeer` and `Distance` become the peer and the bounce |
| AllUsersRegistry.AllUsers.NewMessage | Project/Interface/AllUsers.cs:49-71 | an unknown user is created first; other users are untouched; true exactly for a new message from a peer, which then sets `LatestPeer` and `Distance`; a duplicate changes neither |
| AllUsersRegistry.AllUsers.AddPotentialNewUser | Project/Interface/AllUsers.cs:79-89 | an unknown name gets an empty record whose `LatestPeer` is the peer; a known user is left untouched |
| AllUsersRegistry.AllUsers.GetRumorList | Project/Interface/AllUsers.cs:119-130 | the dump is one RUMOR line per stored message, user after user in dictionary order |
| AllUsersRegistry.DumpLines | Project/Interface/AllUsers.cs:121-129 | the nested loops give the same lines as the dump's definition |
| AllUsersRegistry.RumorListLength | Project/Interface/AllUsers.cs:119-130 | the dump has exactly as many lines as there are stored messages |
| AllUsersRegistry.UserStoredHas | Project/Interface/AllUsers.cs:124-127 | a user's part of the dump holds exactly that user's messages, each with its ID, date, text and the user's distance |
| AllUsersRegistry.AllStoredHas | Project/Interface/AllUsers.cs:122-128 | a message is in the dump exactly when some user stores it |
| AllUsersRegistry.AllUsers.AllToString | Project/Interface/AllUsers.cs:96-111 | one description per user, '\n' between them, no trailing newline, and "" for no users |
| FileAssembly.FileAssembler.constructor | Console/PtitChat/File.cs:19-25 | a new file has its name, origin and chunk count, and no chunks, and is not reconstructed |
| FileAssembly.FileAssembler.NewChunk | Console/PtitChat/File.cs:65-78 | a chunk whose ID is held already is dropped and false is returned; a new one is stored and reconstruction is attempted |
| FileAssembly.FileAssembler.ReconstructFile | Console/PtitChat/File.cs:86-138 | with a chunk missing, false and nothing changes; otherwise the bytes written are chunks 0 .. nbChunks-1 in index order; a failed write leaves everything as it was; a successful one clears the chunks and sets `reconstructed` |
| FileAssembly.FewerChunksIncomplete | Console/PtitChat/File.cs:89-96 | fewer chunks held than announced is never complete |
| FileAssembly.NoChunksExpected | Console/PtitChat/File.cs:86-138 | a file announced with no chunks is written, empty, as soon as any chunk arrives for it |
| FileAssembly.EmptyFileSendsNothing | Console/PtitChat/Peer.cs:211-214 | an empty file is split into no chunk, so no frame is sent for it |
| FileAssembly.CollectExactly | Console/PtitChat/File.cs:68-71 | with no two different chunks under one ID, the held chunks are exactly the ones that arrived |
| FileAssembly.ArrivalOrderIrrelevant | Console/PtitChat/File.cs:65-78 | the held chunks do not depend on the order or the repetition of the arrivals |
| FileAssembly.AssembleSentChunks | Console/PtitChat/File.cs:117-123 | once complete, chunks that all come from a file's own chunks assemble to exactly that file |
| AllFilesRegistry.Receive | Console/Interface/AllFiles.cs:27-49 | only the entry for the chunk's name can change; a new name takes the chunk's origin and count, an existing one keeps its own; a reconstructed file makes the call a no-op returning false |
| AllFilesRegistry.FileRegistry.constructor | Console/Interface/AllFiles.cs:15 | the registry starts empty |
| AllFilesRegistry.FileRegistry.NewChunk | Console/Interface/AllFiles.cs:27-49 | an entry is created for an unseen name; only that entry changes, and it changes as `Admit` says: nothing once reconstructed, otherwise the file's own `NewChunk` |
| AllFilesRegistry.FeedBeforeComplete | Console/Interface/AllFiles.cs:38-41 | while a chunk is missing, a new file's entry holds exactly the chunks that arrived and nothing is written |
| AllFilesRegistry.FeedAfterComplete | Console/Interface/AllFiles.cs:38-45 | from the arrival that completes the file on, the file has been written exactly once and later chunks are ignored |
| AllFilesRegistry.FeedOthersUnchanged | Console/Interface/AllFiles.cs:32-41 | entries for other names are never touched |
| AllFilesRegistry.FewArrivalsNeverWritten | Console/Interface/AllFiles.cs:38-41 | fewer arrivals than the announced chunk count never get the file written |
| AllFilesRegistry.FileWrittenOnce | Console/Interface/AllFiles.cs:27-49 | whatever the order and repetition of a non-empty file's chunks, the registry writes exactly the file's content, once; the other files are untouched |

## Left out

- Sockets, streams, `TcpListener`/`TcpClient`, `Thread.Sleep` and `ListenForConnections`. A send appends a frame to the peer's `outbox`, and the read loop's input is a sequence of `Incoming` values.
- Concurrency: `Task.Run`, `Task.WhenAll` and the `lock` regions. Each operation is treated as atomic.
- Events and delegates (`RumorReceivedEvent`, `PMReceivedEvent`, `FileChunkReceivedEvent`, `AllChanged`). The read loop returns each event as a `Note`.
- PeerLink.StepAsWritten: every event is assumed to have a subscriber, and the local user an `AllUsers` record. The exceptions at Console/PtitChat/Peer.cs:394 (`AllUsers.All[Client.Username]` with no such key), Console/PtitChat/Peer.cs:398 (`PMReceivedEvent` with no subscriber) and Console/PtitChat/Peer.cs:442 (`FileChunkReceivedEvent` with no subscriber) are therefore not modelled; the loop as written is modelled with only the two escaping exceptions at Console/PtitChat/Peer.cs:312 and Console/PtitChat/Peer.cs:425.
- PeerLink.Peer.Listen: it does not carry out the notes it returns. Storing a rumor in the directory, replaying the dump for UPDATE, and storing a private message or a file chunk are modelled by the registries' own methods but not composed into one node.
- `DateTime`: a date is an opaque stamp. It parses when it is non-empty and holds none of '#', '\n' and '\r', and it is written back as the same text.
- `IPAddress.Parse` and the connection attempt are parameters of `ConnectToPeer`. The socket's end point is also a parameter.
- Gossip.Client.ConnectToPeer: its `object` argument is typed as a string. The `InvalidCastException` path is therefore not modelled.
- `GetState`, which builds the status packet, is not part of this model. `BroadcastStatus` takes the packet as a parameter.
- `ProcessStatusAsync` has an empty body and no behaviour to model.
- The local user name, read by the read loop from the client, is a parameter of `Step`, `Run` and `Listen`.
- Console/PtitChat/Messages.cs, Program.cs and the UI files: they are display and console I/O only.
- `Console/Interface/File.cs` is not part of this model. The file registry uses the `File` class of Console/PtitChat/File.cs.
- Disk I/O in `ReconstructFile`: the destination folder, directory creation and file deletion are left out. The bytes written are returned, and whether the write succeeds is the `writeOk` parameter.
- AllFilesRegistry.Feed: every write is assumed to succeed.
- PeerLink.NbChunks: the exact integer ceiling replaces `Math.Ceiling` on `float`, which can differ for files larger than 2^24 bytes, and replaces the `(int)` cast.
- PeerLink.Peer.SendFile: chunk IDs and the chunk count are unbounded integers; their Int64 range is not checked.
- ChatUser.User.AddMessage: `NextExpectedMessageID++` is unbounded, so its Int32 wrap-around is not modelled.
- OriginRecord.User.AddMessage: the frontier and the `NbMessages` counter are unbounded integers, so their Int32 wrap-around is not modelled.
- The `Peer` constructor's exception path, when the client has no stream, is left out; a new peer is connected.
- PeerLink.SentChunkIsReceived: the raw `GetStream().Read` after an FT header is assumed to return exactly the bytes the sender wrote after the header line. Read-ahead by the `StreamReader` over the same stream, a short read whose count is ignored, and an `IOException` from that read are not modelled. The `raw` part of an `Incoming` value is what that read delivers.
- Gossip.Client.Fanout: when a `RemoveAt` throws, the exception is reported as `ok == false`; its escape from the lock and the faulted `Task` are not modelled. Sends already started before the throw stay in the outboxes.
- `Int32.Parse` is modelled for ASCII digits, surrounding white space and an optional sign. Culture-specific forms, such as other digits or thousands separators, are left out.

## Findings

| source | as written | input that shows it | evidently intended | confidence | as-written member | corrected member |
|---|---|---|---|---|---|---|
| Console/PtitChat/Client.cs:259-262 | the collected dead-peer indices are removed in ascending order, so each removal after the first hits an index already shifted down by one | peers [p0, p1, p2] with p0 and p1 dead: p0 and the live p2 are removed and the dead p1 stays; with p0 and p2 dead the second `RemoveAt(2)` is out of range | remove exactly the dead peers and keep the live ones in order, for example by removing from the last index down | not executed | Gossip.AscendingRemovalWithTwoDead | Gossip.Client.PruneDead |
| Console/PtitChat/Peer.cs:304-312 | at the end of the stream `ReadLineAsync` returns null, and the split outside the `try` throws; the exception leaves the loop and `Dispose` is never called | the remote end closes the connection: input [EndOfStream] | leave the loop and dispose the peer, as on a read failure | not executed | PeerLink.EndOfStreamCrashesAsWritten | PeerLink.EveryExitDisposes |
| Console/PtitChat/Peer.cs:414-425 | a negative buffer size parses as an Int32, then allocating the buffer throws outside any `try`; the loop ends without `Dispose` | the line "FT#a#b#f#-1#0#1" followed by "DISC" | skip the header like one that does not parse and go on reading | not executed | PeerLink.NegativeBufferCrashesAsWritten | PeerLink.Peer.Listen |

The three broadcasts run the removal loop of the first row as written (`Gossip.Client.Fanout`, through `Gossip.Client.RemoveEach`), so their contracts state the fault and the wrong result with two or more dead peers. `Gossip.Client.PruneDead` is the corrected removal; it is proved on its own and the broadcasts do not call it.
