# Verification of the seabolt connector

seabolt is the C connector for the Bolt protocol. This project models three
parts of it and proves what each promises over all inputs and all runs.

**The wire stack.** A request is a tree of values. `Loading` encodes it with
PackStream into a staging buffer, `Framing` cuts the staged bytes into chunks in
the transmit buffer, and `Communication` sends them in whatever pieces the
transport accepts. Coming back, `Connections` receives fragments, puts chunks
together, unloads the message into a recycled value (`Unloading`) and matches it
to a request by counting summaries. Each layer is an imperative method proved
against a function (`PackStream.Emit`, `PackStream.Decode`, `Framing.Frame`,
`Framing.Dechunk`, `Sessions.Fetch`), the round trips are lemmas about those
functions, `WireFormat` gives the format itself as a relation on bytes that both
sides are checked against, and `EndToEnd.Exchange` composes them: what a peer
reads is exactly what loaded, in order and under the right request ids, however
both transports cut the bytes. `Replies` and `Counting` say what fetching a summary returns, on
well-formed answers and on any stream, `FailureHistory` when a failure is
remembered, and `Metadata` what a summary leaves in the session.

**Value storage.** `Storage` models the inline and external representation of a
value with its recycling and resizing; `LiveValues` shows that over any run of
calls the allocation counter accounts for the live trees to the byte.

**The pools.** `DirectPools` models the pool of one server, `RoutingTables` and
`AddressSets` the routing table, and `RoutingPools` the pool of pools that is
refreshed and cleaned up while connections are out. `RoutingRuns.Serve` is the
safety theorem over all runs.

Floats are eight opaque bytes. A dictionary value is a flat sequence of keys and
values, as it is stored. Time, name resolution, router answers and the results
of opening, initialising and resetting a pooled connection are parameters (where
the outcome of a reset comes from is shown by `Resets`); the transport moves any
positive number of bytes or fails, unless it is one that `sends` or `receives`.

Some things the code does differ from what its comments or names suggest, and
the model follows the code:

- the structure size is cast to `int8_t` before its range check, so some
  oversized structures load without an error (`OversizedStructureIsTruncated`;
  the exact condition is `ComesBackExactlyWhen`);
- structure decoding ignores the status of the fields, so some structures have a
  shorter form (`StructuresHaveShorterForms`; `LoadIsShortestExactlyWhen`), and
  some are read from bytes that do not spell them (`SpellingsAreAllExactlyWhen`);
- `BOLT_STATUS_SET` is positive, so the pool's reset does not notice a failed
  send before it fetches, and succeeds whenever the bytes coming in answer it
  (`FailedSendGoesUnnoticed`; `SendIsNotLookedAt`);
- an error code of `unload` is positive, so `fetch_summary` adds it up as
  records and goes on, and a summary that does not unload is never counted, so
  that requests and answers get out of step (`MalformedRepliesMiscount`;
  `CodeIsRecordCountExactlyWhen`);
- releasing a connection the pool does not have lowers its count
  (`StrayReleaseBreaksTheCount`; `ReleaseKeepsCountExactlyWhen`);
- a failed receive leaves the extent of the receive buffer advanced, so that
  bytes seem to be there that never came (`FailedReceiveSeemsToAdd`;
  `ReceiveEach`).

## Model

| member | source | states |
|---|---|---|
| `Bytes.BigEndianRoundTrip` | src/seabolt/src/bolt/mem.c:25-33 | A byte-reversing copy of a host integer, read back through another one, is the integer, for every width and value |
| `Bytes.SignedBERoundTrip` | src/seabolt/src/bolt/buffering.c:81-115 | Signed big-endian integers of every width are read back as written, over the whole two's complement range |
| `Bytes.ReversedHostIsBigEndian` | src/seabolt/src/bolt/mem.c:25-33 | Reversing the host layout of an integer gives its most significant byte first |
| `Mem.ReverseCopy` | src/seabolt/src/bolt/mem.c:25-33 | The copy loop writes exactly the reversed source and nothing outside its target range |
| `Buffering.BoltBuffer.Compact` | src/seabolt/src/bolt/buffering.c:44-54 | Compaction moves the unread bytes to the front and leaves the queue contents as they were |
| `Buffering.BoltBuffer.LoadPointer` | src/seabolt/src/bolt/buffering.c:62-73 | Reserving space, with or without growing the block, leaves every queued byte in place |
| `Buffering.BoltBuffer.Load` | src/seabolt/src/bolt/buffering.c:75-79 | A load appends exactly the given bytes to the queue |
| `Buffering.BoltBuffer.LoadSigned` | src/seabolt/src/bolt/buffering.c:99-115 | A big-endian load appends the signed encoding of the integer |
| `Buffering.BoltBuffer.UnloadPointer` | src/seabolt/src/bolt/buffering.c:128-139 | Takes the first n bytes, or nothing when fewer are queued, and says where they lie |
| `Buffering.BoltBuffer.Unload` | src/seabolt/src/bolt/buffering.c:141-151 | Removes and returns exactly the first n bytes, or none |
| `Buffering.BoltBuffer.UnloadSigned` | src/seabolt/src/bolt/buffering.c:176-210 | Removes the bytes of a big-endian integer and returns the integer they denote |
| `Buffering.BoltBuffer.PeekU8` | src/seabolt/src/bolt/buffering.c:153-158 | Returns the next byte without changing the queue |
| `Queues.RunQueue` | src/seabolt/src/bolt/buffering.c:44-220 | Any interleaving of loads, big-endian loads, unloads, pointer unloads, peeks and compactions returns the same bytes and leaves the same contents as a plain byte sequence |
| `Queues.WhatWentInComesOut` | src/seabolt/src/bolt/buffering.c:44-220 | Over every such run, the bytes put in are the bytes taken out followed by those still queued |
| `Mem.BoltMem.Adjust` | src/seabolt/src/bolt/mem.c:72-104 | The current count moves by the difference of the sizes and the peak keeps the maximum, in all four cases |
| `Storage.Recycle` | src/seabolt/src/bolt/values.c:39-59 | Recycling nulls every nested cell in place and lowers the count by all they owned |
| `Storage.Resize` | src/seabolt/src/bolt/values.c:61-90 | Growing pads with nulls, shrinking gives back what the cut cells owned, and the remaining sub-values are kept |
| `Storage.Format` | src/seabolt/src/bolt/values.c:92-110 | Reformatting changes the count by exactly the difference of what the cell owned and owns |
| `Storage.FormatAsString` | src/seabolt/src/bolt/values.c:354-378 | Inline, reused and fresh string storage all mean the given text and balance the count |
| `Storage.FormatAsDictionary` | src/seabolt/src/bolt/values.c:403-417 | A dictionary target is resized in place, any other target becomes one of nulls |
| `Storage.FormatAsList` | src/seabolt/src/bolt/values.c:485-504 | A list target is resized in place, any other target becomes one of nulls |
| `Storage.FormatAsStructure` | src/seabolt/src/bolt/values.c:112-120 | The target becomes a structure of null fields, whatever it held |
| `Storage.SetKey` | src/seabolt/src/bolt/values.c:457-467 | Sets one key and leaves every other entry alone |
| `Storage.Copy` | src/seabolt/src/bolt/values.c:222-277 | A deep copy over any recycled target means the same value as its source |
| `Storage.OwnedConcat` | src/seabolt/src/bolt/values.c:39-59 | What a block of cells owns is the sum over any split of it |
| `Storage.OwnedUpdate` | src/seabolt/src/bolt/values.c:61-90 | Replacing one cell changes what the block owns by the difference of the two cells |
| `LiveValues.OwnedWithout` | src/seabolt/src/bolt/values.c:201-209 | Destroying one tree of a collection lowers the total by exactly what it owned |
| `LiveValues.Program.Run` | src/seabolt/src/bolt/values.c:189-277 | Over any run of create, format, resize, set-key, copy and destroy calls at any depth, the allocation counter differs from its start by exactly the bytes owned by the live trees |
| `LiveValues.Program.RunAndDestroyAll` | src/seabolt/src/bolt/values.c:201-209 | After any such run, destroying the live values returns the counter to its start |
| `PackStream.SizeHeaderRoundTrip` | src/seabolt/src/bolt/packstream.c:70-168 | Every size header written for strings, bytes, lists and maps is read back as the size it was written for |
| `Loading.Load` | src/seabolt/src/bolt/packstream.c:180-227 | The encoder, run on a buffer, appends exactly the specified bytes and reports the specified status, also when a nested value fails |
| `Loading.LoadInteger` | src/seabolt/src/bolt/packstream.c:39-61 | The branches on the range of an integer choose the specified marker and width |
| `Unloading.Unload` | src/seabolt/src/bolt/packstream.c:505-533 | The decoder, run on a buffer into a recycled cell, does what the specification says of its value and of the bytes left, and balances the allocation count |
| `Unloading.UnloadMany` | src/seabolt/src/bolt/packstream.c:408-503 | The element loops stop at the first failure, or, for structures, go on past it |
| `Unloading.UnloadText` | src/seabolt/src/bolt/packstream.c:343-406 | Strings and bytes are filled with exactly the announced number of bytes |
| `RoundTrip.LoadThenUnload` | src/seabolt/src/bolt/packstream.c:180-533 | Unloading what was loaded gives an equal value, consumes exactly its bytes before any tail, and does not depend on the recycled target |
| `RoundTrip.LoadsExactlyWhen` | src/seabolt/src/bolt/packstream.c:170-221 | Loading succeeds if and only if every nested structure has an accepted code and a size whose low byte is under 16 |
| `RoundTrip.ComesBackExactlyWhen` | src/seabolt/src/bolt/packstream.c:170-221 | A loaded value comes back if and only if each nested structure has fewer than 16 fields and a readable code; otherwise no target and no tail makes unload succeed with it |
| `RoundTrip.NotRecovered` | src/seabolt/src/bolt/packstream.c:483-503 | The failing direction, through every nesting, including structure fields whose status is ignored |
| `RoundTrip.EncodingsAreSelfDelimiting` | src/seabolt/src/bolt/packstream.c:180-533 | No loaded value is a prefix of another, whatever follows either |
| `RoundTrip.OversizedStructureIsTruncated` | src/seabolt/src/bolt/packstream.c:213-221 | A structure of 256 fields loads without error and is read back as one of no fields |
| `WireFormat.LoadedIsSpelled` | src/seabolt/src/bolt/packstream.c:27-227 | What load writes is a spelling of the value by the rules of the format, given as a relation on raw bytes: marker bytes, big-endian sizes and two's complement integers |
| `WireFormat.SpelledIsUnloaded` | src/seabolt/src/bolt/packstream.c:263-533 | Every spelling, also one with a wider size or integer than needed, is unloaded as the value, whatever the target held, taking exactly its bytes |
| `Spellings.UnloadedWasSpelled` | src/seabolt/src/bolt/packstream.c:263-533 | Conversely, a value without structure fields that a failing unload could leave is only ever unloaded from one of its spellings |
| `Spellings.OtherForm` | src/seabolt/src/bolt/packstream.c:483-503 | Any other value is also unloaded, in every target and before any tail, from bytes that do not spell it |
| `Spellings.SpellingsAreAllExactlyWhen` | src/seabolt/src/bolt/packstream.c:483-503 | The spellings are all the inputs accepted as a value if and only if no structure inside has a null, or a list or dictionary ending in one, among its fields |
| `ShorterForms.LoadIsShortestExactlyWhen` | src/seabolt/src/bolt/packstream.c:39-227 | What load writes is the shortest accepted form of a value, among all complete byte strings and among all inputs, if and only if the value is tight (or can never be accepted); tightness asks of each structure field inside that a failing unload cannot leave it in fewer bytes |
| `Shortest.LoadIsShortest` | src/seabolt/src/bolt/packstream.c:39-168 | No input that unload accepts as a tight value is shorter than what load writes, in any target and through any nesting |
| `Shortest.LeftIsNotShorter` | src/seabolt/src/bolt/packstream.c:483-503 | Nor is any input whose failure leaves such a value in a structure field |
| `ShorterForms.ShorterForm` | src/seabolt/src/bolt/packstream.c:483-503 | Conversely, a value that is not tight has a shorter form that unloads to it in every target |
| `ShorterForms.LeavingForm` | src/seabolt/src/bolt/packstream.c:408-503 | A null, and any list or dictionary that ends in one, has a form no longer than what load writes whose unload fails and leaves it, and a shorter one where the condition says so |
| `Shortest.LeftIsLeavable` | src/seabolt/src/bolt/packstream.c:408-503 | A failing unload leaves nothing else in a null target: a null, or a list or dictionary that ends in one |
| `ShorterForms.AcceptedIsRecoverable` | src/seabolt/src/bolt/packstream.c:483-533 | Whatever unload accepts has only small structures with readable codes inside |
| `Shortest.StructureFreeIsTight` | src/seabolt/src/bolt/packstream.c:39-168 | Values without structures are tight |
| `Shortest.PlainFieldsAreTight` | src/seabolt/src/bolt/packstream.c:213-221 | So are values whose structures have no null, list or dictionary among their fields, such as points, dates, times and durations |
| `ShorterForms.StructuresHaveShorterForms` | src/seabolt/src/bolt/packstream.c:496-498 | A concrete value that is not tight: a shorter input denotes the same structure because the failure of its field is ignored |
| `Signatures.AcceptedCodesFitOneByte` | src/seabolt/src/bolt/packstream.c:170-178 | Every code a signature check accepts survives the cast to one signed byte |
| `Signatures.RequestsAreNotReplies` | src/seabolt/src/bolt/v3.c:144-195 | No writable message code is a record or summary code |
| `Signatures.WritableIsReadable` | src/seabolt/src/bolt/v3.c:144-195 | Of the codes a client can write it can read back just the points, dates, times and durations, from version 2 on |
| `Signatures.GraphTypesAreReadOnly` | src/seabolt/src/bolt/v1.c:80-110 | Nodes, relationships and paths are readable and never writable |
| `Framing.PushToTransmission` | src/seabolt/src/bolt/protocol.c:67-86 | Drains the staging buffer into the transmit buffer as exactly one framed message |
| `Framing.ChunkHeader` | src/seabolt/src/bolt/protocol.c:67-86 | The header of a chunk is its size with the high byte first |
| `Framing.FrameRoundTrip` | src/seabolt/src/bolt/v1.c:690-709 | The header loop recovers a framed message and leaves any following bytes untouched |
| `Framing.DechunkFramed` | src/seabolt/src/bolt/v3.c:1012-1032 | The same for a message cut into chunks of any sizes |
| `Framing.DechunkedWasFramed` | src/seabolt/src/bolt/v3.c:1012-1032 | Conversely, every message the header loop recovers was framed as some sequence of chunks |
| `Framing.FrameLength` | src/seabolt/src/bolt/protocol.c:67-86 | A message of n bytes takes n + 2 * (ceil(n / 65535) + 1) bytes |
| `Framing.FrameIsShortest` | src/seabolt/src/bolt/protocol.c:67-86 | No other way to cut the message takes fewer bytes |
| `Communication.SendAll` | src/seabolt/src/bolt/communication.c:127-167 | The send loop hands over all bytes in order however the transport cuts them, and a prefix of them when it fails |
| `Communication.ReceiveBetween` | src/seabolt/src/bolt/communication.c:169-217 | The receive loop stores between min and max bytes and loses none, for every fragmentation |
| `Connections.Connection.Receive` | src/seabolt/src/bolt/connection.c:306-334 | Delivers exactly the next size bytes and conserves buffered plus undelivered bytes when it succeeds; when it fails, more bytes seem to be left than there were, because the extent stays advanced |
| `Connections.Connection.Refill` | src/seabolt/src/bolt/connection.c:306-334 | The delta loop makes enough bytes available and leaves what is still to be read as it was, or fails and seems to add to it |
| `Deliveries.ReceiveEach` | src/seabolt/src/bolt/connection.c:306-334 | Over any sequence of receives, the delivered pieces followed by what is left are the incoming bytes if and only if no receive has failed; the pieces have the sizes asked |
| `Deliveries.FailedReceiveSeemsToAdd` | src/seabolt/src/bolt/connection.c:320-326 | A concrete failing receive after which more bytes seem to be left than ever came |
| `Connections.Connection.Send` | src/seabolt/src/bolt/connection.c:293-304 | Empties the transmit buffer into the transport, or makes the connection defunct when only a prefix was accepted |
| `Connections.Connection.LoadMessage` | src/seabolt/src/bolt/v3.c:343-365 | All or nothing: one frame and one request id more, or neither, and an empty staging buffer in both cases |
| `Connections.Stage` | src/seabolt/src/bolt/protocol.c:54-65 | When encoding fails at any depth the staging buffer is put back as it was |
| `Connections.Connection.LoadReset` | src/seabolt/src/bolt/v3.c:698-704 | A reset always loads, as one frame of the bytes B0 0F, and forgets the remembered failure |
| `Connections.Connection.LoadWithDiscard` | src/seabolt/src/bolt/v1.c:341-363 | Begin, commit and rollback of version 1 load two messages, the second the bytes B0 2F, and take two request ids, or none |
| `Connections.ProtocolState.UnloadReply` | src/seabolt/src/bolt/v3.c:803-844 | Unloading a received message into the recycled data value agrees with the session function, also for an empty buffer and for each error |
| `Connections.ProtocolState.CountSummary` | src/seabolt/src/bolt/v3.c:846-1005 | A summary raises the response counter by one and its metadata replaces the old |
| `Metadata.FailureHasLastTexts` | src/seabolt/src/bolt/v3.c:946-983 | After a FAILURE the remembered code and message are the last texts its metadata gives under "code" and "message"; one that is not given stays what it was, or null |
| `Metadata.FieldNamesAreLastList` | src/seabolt/src/bolt/v3.c:868-893 | The field names are the last list given under "fields", with null for what is not a text; without one they stay |
| `Metadata.MetadataIsReplaced` | src/seabolt/src/bolt/v3.c:984-999 | The metadata becomes exactly the entries whose keys are not taken out, in their order, whatever it was before |
| `Connections.Connection.ReceiveMessage` | src/seabolt/src/bolt/v3.c:1012-1032 | The chunk loop over a fragmenting transport recovers one message, or fails only as the stream ends |
| `Connections.Connection.FetchReply` | src/seabolt/src/bolt/v3.c:1007-1051 | The fetch loop discards replies to earlier requests and ends with the one asked for |
| `Connections.Connection.FetchNext` | src/seabolt/src/bolt/connection.c:336-365 | A summary decides the state of the connection: Ready after SUCCESS (0x70), Failed after FAILURE (0x7F), after IGNORED (0x7E) Failed while a failure is remembered and else as it was, and Defunct with an error after anything else |
| `Replies.SummaryDecidesState` | src/seabolt/src/bolt/connection.c:339-363 | The same of the fetch on values, for every stream, session and request |
| `Connections.Connection.FetchWholeSummary` | src/seabolt/src/bolt/connection.c:367-380 | Adds up records until the summary, a negative code or a broken stream |
| `Counting.CodeIsRecordCountExactlyWhen` | src/seabolt/src/bolt/connection.c:367-380 | On any stream, the number returned is that of the records of the request if and only if every message taken in unloads, and otherwise exceeds it by at least 0x500; the response counter rises by the number of summaries if and only if each of them unloads |
| `Counting.SmallResultsAreCounts` | src/seabolt/src/bolt/connection.c:367-380 | A result below 0x500 is a true count, and every summary passed has been counted |
| `Counting.MalformedRepliesMiscount` | src/seabolt/src/bolt/v3.c:1032-1048 | Concrete streams: a malformed record adds its error code, and a malformed summary is never counted, so that its request swallows the summary of the next |
| `Counting.CountsSummary` | src/seabolt/src/bolt/v3.c:1032-1042 | One message raises the response counter exactly when it is a summary that unloads |
| `Replies.SummaryCountsRecords` | src/seabolt/src/bolt/connection.c:367-380 | From a server whose replies unload, for any request not yet answered: fetching the summary returns the number of its unread records, passes over all that earlier requests are owed, leaves the counter just past it, and leaves the connection Ready, Failed or as it was according to the summary |
| `Replies.SkipAnswer` | src/seabolt/src/bolt/v3.c:1007-1051 | A fetch passes over a whole answer to an earlier request, keeping only its effect on the session |
| `Replies.LoadedMessageDenotes` | src/seabolt/src/bolt/protocol.c:54-65 | The bytes written for a message denote its code and fields to any peer, whatever targets it recycles |
| `EndToEnd.PeerRecoversExactlyWhen` | src/seabolt/src/bolt/v3.c:1007-1051 | A peer that fetches request after request recovers the messages sent, in order and before whatever follows them, if and only if each has fewer than 16 fields and only small readable structures inside |
| `EndToEnd.DeliveredExactlyWhen` | src/seabolt/src/bolt/v3.c:1007-1051 | With nothing behind them, they are all it gets, under the same condition |
| `EndToEnd.RunPeer` | src/seabolt/src/bolt/v3.c:1007-1051 | The fetching loop, over a transport that cuts the bytes in any way, gets what the specification says |
| `EndToEnd.RunClient` | src/seabolt/src/bolt/v3.c:343-365 | Over any run of loads and sends, sent plus waiting bytes are the frames of the messages that loaded, and message k has request id k |
| `EndToEnd.Exchange` | src/seabolt/src/bolt/v3.c:343-365 | The whole way over two fragmenting transports: the peer reads exactly the messages that loaded, in order, if and only if all are deliverable, and message k has request id k |
| `FailureHistory.RemembersOutstandingFailure` | src/seabolt/src/bolt/v3.c:946-983 | In every run, a failure is remembered if and only if one was reported since the last reset that loaded (an empty message reports the one before it again) |
| `FailureHistory.ConsumeRemembers` | src/seabolt/src/bolt/v3.c:846-1005 | One message makes a failure remembered exactly when it is a FAILURE with a string code or message, or one was remembered before |
| `FailureHistory.FetchIsRun` | src/seabolt/src/bolt/v3.c:1007-1051 | A fetch is a run of some first messages of the stream, taken in one by one |
| `FailureHistory.IgnoredRevealsFailure` | src/seabolt/src/bolt/connection.c:339-363 | A fetch ending at IGNORED puts the connection in state Failed exactly when a failure is outstanding, even one passed over earlier |
| `DirectPools.AcquireHandsOutReady` | src/seabolt/src/bolt/direct-pool.c:225-317 | An acquired connection is Ready and was idle; full is reported if and only if every entry is held; a failed attempt holds nothing |
| `DirectPools.AttemptSucceedsExactlyWhen` | src/seabolt/src/bolt/direct-pool.c:225-317 | With an idle entry, an attempt succeeds if and only if that entry is Ready and not too old, or the address resolves, the socket opens and INIT is answered by SUCCESS; otherwise the reason and the state the entry is left in are stated |
| `DirectPools.PreparedByState` | src/seabolt/src/bolt/direct-pool.c:242-272 | The same for each state an idle connection may have, Connected and Failed among them |
| `DirectPools.RunsAreSound` | src/seabolt/src/bolt/direct-pool.c:225-338 | Over all calls in any order, even stray releases, the count never exceeds the held entries and no idle connection is Connected or Failed |
| `DirectPools.DisciplinedRunsAreExact` | src/seabolt/src/bolt/direct-pool.c:225-338 | If callers release only what they hold, the count is the number of held connections and held entries are exactly the held connections |
| `DirectPools.CallKeepsExact` | src/seabolt/src/bolt/direct-pool.c:310-338 | No call hands out a connection that somebody holds |
| `DirectPools.ReleaseKeepsCountExactlyWhen` | src/seabolt/src/bolt/direct-pool.c:319-338 | A release keeps the count right if and only if the connection is held |
| `DirectPools.StrayReleaseBreaksTheCount` | src/seabolt/src/bolt/direct-pool.c:324-335 | A concrete run in which an unknown release leaves the count at none while a connection is held |
| `Resets.ResetConnection` | src/seabolt/src/bolt/direct-pool.c:107-130 | The reset of a pool, run on a connection over any transport: it loads B0 0F, sends and fetches; it succeeds only if the bytes coming in hold a success (0x70) for it, and then the connection is Ready |
| `Resets.SendIsNotLookedAt` | src/seabolt/src/bolt/direct-pool.c:113-115 | Whether a reset succeeds does not depend on whether it was sent: only the bytes coming in decide |
| `Resets.FailedSendGoesUnnoticed` | src/seabolt/src/bolt/direct-pool.c:113-115 | A concrete reset that was not sent and succeeds |
| `DirectPools.SuccessfulResetIsReady` | src/seabolt/src/bolt/direct-pool.c:117-125 | A fetched summary that is a success leaves the connection Ready, whatever its state was |
| `DirectPools.DirectPool.Acquire` | src/seabolt/src/bolt/direct-pool.c:225-317 | One attempt to acquire does what the pool model says, succeeds exactly when the first idle entry is Ready and young or can be opened and initialised, and keeps the holders disjoint |
| `DirectPools.DirectPool.Release` | src/seabolt/src/bolt/direct-pool.c:319-338 | A held connection is found, reset or closed, and given up |
| `DirectPools.DirectPool.TakeBack` | src/seabolt/src/bolt/direct-pool.c:319-338 | Any release at all, also of a connection the pool does not have: the entries and the count afterwards |
| `DirectPools.DirectPool.FindUnused` | src/seabolt/src/bolt/direct-pool.c:53-83 | The first idle entry, closed if it is too old, or none when the count says the pool is full |
| `DirectPools.DirectPool.Prepare` | src/seabolt/src/bolt/direct-pool.c:242-272 | Success for each state: Ready always, Connected if INIT is answered by SUCCESS, Failed if the reset succeeds or it can be opened anew, any other if it can be opened |
| `AddressSets.FirstSeenKeepsOrder` | src/seabolt/src/bolt/address-set.c:60-71 | Adding a list to an empty set keeps exactly its members, each once, in the order of first occurrence |
| `AddressSets.AddedAllIsUnion` | src/seabolt/src/bolt/address-set.c:111-116 | Adding all of another set gives the union without duplicates and keeps the old members in front |
| `AddressSets.AddedInOrder` | src/seabolt/src/bolt/address-set.c:111-116 | The new members follow the old ones in the order of the list they come from |
| `AddressSets.RemovedIsDifference` | src/seabolt/src/bolt/address-set.c:73-95 | Removing takes exactly that address out and leaves a set |
| `AddressSets.IndexInConcat` | src/seabolt/src/bolt/address-set.c:47-58 | The search finds the first position, in the first part if it is there |
| `AddressSets.AddressSet.Remove` | src/seabolt/src/bolt/address-set.c:73-95 | The shifting loop removes the address and reports where it was |
| `AddressSets.AddressSet.AddAll` | src/seabolt/src/bolt/address-set.c:111-116 | The loop adds each element of the other set in turn |
| `RoutingTables.ParsesWhatItIsWrittenAs` | src/seabolt/src/bolt/address.c:71-90 | host:port is read back as host and port, also for hosts with colons of their own |
| `RoutingTables.ParsesHostAlone` | src/seabolt/src/bolt/address.c:71-90 | Text without a colon is a host with port 7687 |
| `RoutingTables.LookupFindsFirstEntry` | src/seabolt/src/bolt/values.c:475-483 | The lookup in a dictionary gives the value of the first entry with that key, or nothing when there is none |
| `RoutingTables.ListedExactlyWhen` | src/seabolt/src/bolt/routing-table.c:88-131 | An address is listed for a role if and only if some entry of that role names it |
| `RoutingTables.RoleHoldsMentioned` | src/seabolt/src/bolt/routing-table.c:88-131 | Each role holds exactly the addresses mentioned for it, each once, in the order of their first mention |
| `RoutingTables.TableIsAsMentioned` | src/seabolt/src/bolt/routing-table.c:60-151 | The table of a response, stated on the bytes of its keys and role names |
| `RoutingTables.RefusedServer` | src/seabolt/src/bolt/routing-table.c:88-131 | Exactly which entries of the servers list are refused |
| `RoutingTables.RoutingTable.Update` | src/seabolt/src/bolt/routing-table.c:60-151 | A well-formed response replaces the whole table: readers, writers and routers are the addresses of the entries of role READ, WRITE and ROUTE, each once, in order of first mention, and it expires 1000 * ttl after the update; a response with any refused entry leaves the whole table unchanged; keys may be strings or bytes |
| `RoutingTables.RoutingTable.ForgetServer` | src/seabolt/src/bolt/routing-table.c:160-165 | Removes the address from all three roles |
| `RoutingTables.RoutingTable.ForgetWriter` | src/seabolt/src/bolt/routing-table.c:167-170 | Removes the address from the writers only |
| `RoutingPools.ChoiceIsFirstLeast` | src/seabolt/src/bolt/routing-pool.c:294-335 | The chosen server has the fewest connections in use, and of those the first met going round from the offset |
| `RoutingPools.EqualLoadsRoundRobin` | src/seabolt/src/bolt/routing-pool.c:294-335 | With equal loads, n consecutive offsets over n servers choose every server exactly once |
| `RoutingPools.MetOnce` | src/seabolt/src/bolt/routing-pool.c:301-331 | Going once round visits every server, and none twice |
| `RoutingPools.LeastInTurn` | src/seabolt/src/bolt/routing-pool.c:294-335 | The position chosen holds the least of all loads, and counting on from the offset every position before it holds more |
| `RoutingPools.RoutingPool.ChosenHasFewestInUse` | src/seabolt/src/bolt/routing-pool.c:294-335 | The chosen server has a pool with no more connections in use than that of any candidate, none if some candidate has no pool, and fewer than those met before it from the offset; there is none only if every candidate has INT_MAX or more in use |
| `RoutingPools.RoutingPool.SelectLeastConnected` | src/seabolt/src/bolt/routing-pool.c:294-335 | The loop returns the candidate with the fewest connections in use in its pool, the first such met going round from the offset |
| `RoutingPools.RoutingPool.EnsureServer` | src/seabolt/src/bolt/routing-pool.c:33-66 | Finds a server, or adds it at the end with an empty pool of its own; servers stay distinct and paired with their pools |
| `RoutingPools.RoutingPool.Cleanup` | src/seabolt/src/bolt/routing-pool.c:194-249 | Removes exactly the servers that are among neither routers, writers nor readers of the table and have no connection in use, and closes the connections of their pools; the other pools are the same objects, in the same order, untouched |
| `RoutingPools.KeptExactlyWhen` | src/seabolt/src/bolt/routing-pool.c:208-236 | What is kept is exactly what is marked |
| `RoutingPools.KeptStayPaired` | src/seabolt/src/bolt/routing-pool.c:220-236 | Filtering both lists by the same marks keeps each server with its pool |
| `RoutingPools.RoutingPool.UpdateTable` | src/seabolt/src/bolt/routing-pool.c:154-192 | The routers of the table and then the initial ones are asked in turn, and the first usable answer becomes the table |
| `RoutingPools.TableRoutersAreAskedFirst` | src/seabolt/src/bolt/routing-pool.c:154-178 | The routers asked are those of the table in their order, and then the initial ones that are not among them, or the own address when there are none |
| `RoutingPools.AnsweredByFirst` | src/seabolt/src/bolt/routing-pool.c:176-192 | The new table is as the first router with a usable answer describes it; there is none exactly when no router asked has one |
| `RoutingPools.RefreshedExactlyWhen` | src/seabolt/src/bolt/routing-pool.c:251-292 | A table that is not past its time and has a router and a server for the mode stays; any other is replaced by one taken from an answer if some router gives one at the first pass, and else stays and the refresh fails |
| `RoutingPools.RoutingPool.EnsureRoutingTable` | src/seabolt/src/bolt/routing-pool.c:251-292 | Ends fresh only with a table not past its time that has a router and a server for the mode; a table that is so at the start stays, with all pools; any other is replaced and no idle server outside the new table keeps its pool, or no router answers and nothing changes; pools are only dropped, never changed |
| `RoutingPools.RoutingPool.Acquire` | src/seabolt/src/bolt/routing-pool.c:494-552 | Hands out a Ready connection that nobody held, to the server of the refreshed table for the mode with the fewest connections in use before the call, going round from the offset of the mode; the table then is not past its time, and is the old one exactly under the condition of the refresh; every connection held before is undisturbed and keeps its pool |
| `RoutingPools.KeptIsFound` | src/seabolt/src/bolt/routing-pool.c:220-236 | A server is found after a cleanup exactly when it was kept, and with the pool it had |
| `RoutingPools.RoutingPool.NextServer` | src/seabolt/src/bolt/routing-pool.c:337-347 | Each mode has its own list and its own offset, raised before it is used, and gets the server with the fewest connections in use |
| `RoutingPools.RoutingPool.Release` | src/seabolt/src/bolt/routing-pool.c:554-574 | A held connection goes back to the pool and entry it came from, and other holders are undisturbed |
| `RoutingRuns.Serve` | src/seabolt/src/bolt/routing-pool.c:494-574 | Over every sequence of acquires (with refreshes and cleanups), releases, uses and forgets: held connections keep their pools, every release finds the entry its connection came from, and no connection has two holders |
| `RoutingRuns.TrackedNext` | src/seabolt/src/bolt/routing-pool.c:494-574 | One step keeps held connections and outstanding acquisitions in one-to-one correspondence |

## Left out

- `PackStream.Decode`: truncated input makes the implementation go on from variables it never filled; the model stops there (`Undefined`, `Lost`) and claims nothing further about such input.
- `LiveValues.Program.Run`: counts what the value functions own; the blocks of connections, pools and messages that share the counter are not part of it.
- `Storage.Resize`: a value struct lies inside its parent's block and moves with it, so cells are modelled by value; what outside pointers to nested values see after a block moves is not captured.
- `Replies.SummaryCountsRecords`: for replies that unload; `Counting.CodeIsRecordCountExactlyWhen` covers any stream.
- `Replies.SkipAnswer`: for replies that unload; a fetch ends at one that does not.
- `DirectPools.DirectPool.Acquire`: one attempt is one atomic step; a caller waiting for a full pool is a later attempt, and the wait itself and its time-out are not modelled.
- `DirectPools.DirectPool.Release`: the contract is for callers that hold the connection; `TakeBack` gives the effect of any other release.
- `RoutingPools.RoutingPool.Acquire`: each call is one atomic step; the locks are taken and given up inside it, and what other threads do in the gaps is not modelled.
- `RoutingPools.RoutingPool.EnsureRoutingTable`: nothing is claimed about how many passes the refresh loop takes; a run may end `StillStale`.
- `RoutingPools.RoutingPool.Release`: for connections that are held; a connection whose pool has been destroyed has been freed with it.
- `RoutingTables.RoutingTable.Update`: requires an integer ttl and a servers entry, which the implementation dereferences unchecked; overflow of ttl * 1000 is not modelled, and a list, dictionary or structure used as a key, which the implementation compares by its address when its size fits, matches no key here.
- `EndToEnd.Exchange`: both transports are ones that do not fail; failing ones are covered by the contracts of `SendAll`, `Send` and `Receive` alone.
- Sockets, TLS, name resolution and signal handling: foreign calls, replaced by the transport and by parameters.
- The handshake bytes, HELLO and INIT contents, transaction metadata and the CLI: plumbing around the modelled operations.
- Versions 1 and 2 run the same state machine as version 3; they differ in signatures and metadata keys, which the `Version` parameter selects, and in the two-message transactions of `LoadWithDiscard`.
- The bookmark, server and connection id text buffers: fixed-size copies.
- Which error codes make the routing pool forget a server or a writer: any sequence of forgets is covered by `RoutingRuns.Serve`.
- The security context, which the pool's constructor assigns to its first connection only.
- Malloc failure, overflow of buffer sizes and counters, and hosts that are not little-endian.
- Logging, string rendering of values and the error table: output only.
