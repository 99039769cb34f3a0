# XRPC: a verified model

This project models the parts of the XRPC framework in which a call can go wrong without anybody
noticing, and proves what each part promises over all inputs and all runs:

- the wire format (`Unicode`, `Wire`, `Header`, `Codec`): UTF-8, varints, the `RpcHeader` message,
  frames, compression;
- the server's dispatch (`Server`) and the two byte queues between client and server (`Transport`);
- the channel (`Channel`, `AsyncCall`, `Pipeline`, `Joint`): one synchronous call under every way the
  network may cut the stream, one asynchronous call under every order of completion and
  cancellation, many requests under way at once, and many calls on one connection;
- the controller (`Controller`) and its once-only cancel callbacks;
- the registry client: the object (`Registry`), its three threads as a transition system whose steps
  are the server calls and the locked blocks (`RegistryRuns`), the invariants of every interleaving
  (`RegistryProofs`), and the agreement of the two forms (`RegistryAlone`);
- the text that ties the parts together (`Naming`) and the configuration file (`Config`).

Objects of the source are classes here, with the source's loops and branches, and each method is
proved against a function of its inputs and the old state; the lemmas are about those functions.
What the outside world answers (the ZooKeeper server, read sizes, connection errors, random ids) is
a parameter or a label of a step. A C++ `std::string` is a sequence of bytes on the wire and a
Dafny `string` where it holds text. Three libraries enter as parameters: zlib as a pair of functions
with `unzip(zip(x)) == x`, a message class as `Schema` whose messages come back unchanged if they
come back at all, and the iteration order of a map field as any function that lists the keys once
each. A run-length coder shows that the assumption on zlib can be met. Strings of a header are
checked as proto3 parsers do, by section 4 of RFC 3629, when they are read and not when they are
written.

Run `dafny verify dfyconfig.toml` in this directory.

## Main results

- `Channel.FirstCall`: whatever the sizes of the reads and whatever fails, an unfailed first call
  means that the server read exactly the request, the method ran on exactly the argument without
  failing, and the response is the one it produced. `XrpcChannel.CallMethod` carries the same promise
  as a postcondition, and `Channel.CallsKeepApart` extends it to every call up to the first failure.
- `RegistryProofs.CachedDataWasHeld`, `PathsCachedOnce`, `NoNoticeAfterDelete`,
  `SweepLeavesLivePaths`: the four invariants of the registry under every interleaving.
- `Codec.FrameRoundTrip`, `Codec.PrefixRefused`, `Codec.UniqueSplit`, `Header.HeaderRoundTrip`.
- What can happen does: `Channel.CompleteCall`, `Pipeline.CallsGoThrough` and `Joint.CallGoesThrough`
  show that calls get through, and with which reads.
- `Channel.EarlyErrors`, `AsyncCall.StartMeaning`, `AsyncCall.SuccessMeansReply`: how a call fails
  before it is sent, and that an asynchronous call succeeds only by a good reply.
- `Server.ReplyMeaning`: every read of at most 8192 bytes is answered by one frame, which decodes
  exactly when the strings it copies are UTF-8. A request that was itself refused can break this
  (`Server.BadNameIsEchoed`).
- `Pipeline.RepliesInOrder`: with many calls outstanding, callbacks get their own replies exactly
  when each is given a whole frame and each read of the server is answered as the request in its
  place would be. One frame per read is enough (`OneFramePerReadIsEnough`); `FirstInexactRead` and
  `MergedReads` say which other reads do no harm, `AsyncCall.MergedReadMisleads` what the rest do.
- `Joint.EachLivesAlone`, `Joint.EachEndsAlone`: many calls on one connection, each with its own
  cancels and resets: every `done` runs once, and each call ends as if alone unless a cancel stands.
- `Channel.CallGoesToPeer`, `Transport.FirstDialDecides`: which server a call reaches.
- `AsyncCall.DoneRunsOnce`, `AsyncCall.CancelDooms`, `AsyncCall.CancelStandsExactly`,
  `Controller.CallbackOnce`.
- `Naming.FoundExactlyWhen`, `Naming.EndpointRoundTrip`, `Config.ParseLineMeaning`.

## Where code and documentation differ

The model follows the code.

- docs/api.md says `DiscoverService` finds all instances of a service. A bucket that `Register` or
  `Discover` started counts as the whole answer (`RegistryAlone.PartialBucketIsAHit`). A call on a
  service that is not cached lists every instance exactly when each of them could be read, which a
  node with null data never can (`RegistryAlone.MissListsAll`).
- docs/api.md says `FindInstancesByMethod` finds instances that support the method. The substring
  test also accepts instances with a longer method name (`Naming.LongerNameIsAccepted`), and it sees
  only 512 bytes of the list, so it can miss an instance (`Naming.LateNameIsMissed`,
  `Channel.LateMethodIsNotFound`). `Naming.MatchesExactName` says exactly when it is right.
- docs/design.md says payloads over 100 bytes are compressed when the flag is set. The code also
  wants the compressed form to be shorter (`Codec.LongPayloadSentPlain`).
- tests/registry_test.cc expects an empty list for a service that does not exist; the code throws
  (`RegistryAlone.AbsentServiceThrows`).
- README.md of the repository speaks of cancelling a request. A `Reset` of the controller while the
  call is pending makes it forget the cancel (`AsyncCall.ResetForgetsCancel`);
  `AsyncCall.CancelStandsExactly` says exactly when a cancel counts.
- docs/api.md says a call finds its address in the registry and is sent with `AsioTransport`. An open
  socket is kept wherever it leads, so after the first call the address found decides nothing
  (`Channel.CallGoesToPeer`, `Channel.SecondServerIsNotReached`).
- docs/design.md says the request id supports asynchronous calls; nobody compares it
  (`AsyncCall.MergedReadMisleads`).

## Model

| member | source | states |
|---|---|---|
| Wire.VarintRoundTrip | src/core/codec/xrpc_codec.cc:46 | A written varint is read back with its value and nothing of what follows is consumed |
| Unicode.Utf8Meaning | protos/xrpc.proto:5-6 | A string passes the check of proto3 exactly when it is the encoding of some Unicode scalar values, one after another |
| Wire.VarintExample | src/core/codec/xrpc_codec.cc:46 | The bytes of two varints, written and read, and a varint with needless bytes read |
| Wire.VarintPrefixRejected | src/core/codec/xrpc_codec.cc:59-63 | A varint cut anywhere is an error, never a smaller number |
| Wire.ReadBlobField | protos/xrpc.proto:5-6 | A length-delimited field below two gigabytes is read back whole, whatever follows |
| Wire.ReadNumField | protos/xrpc.proto:7-8 | A varint field of up to 64 bits is read back, whatever follows |
| Wire.FixedIsSkipped | src/core/codec/xrpc_codec.cc:71-74 | An unknown fixed-width field is skipped, eight or four bytes, and a cut one is an error |
| Wire.GroupIsSkipped | src/core/codec/xrpc_codec.cc:71-74 | An unknown group is skipped with all groups in it exactly as long as they are not nested deeper than allowed |
| Wire.BadTags | src/core/codec/xrpc_codec.cc:71-74 | Field number 0, a stray end of a group and unused wire types are errors |
| Header.SignExtendRoundTrip | protos/xrpc.proto:9 | A negative int32 takes ten bytes and survives, and only zero is omitted |
| Header.SchemaBytes | protos/xrpc.proto:4-19 | The header byte by byte: which tag each field has, and that zero, false and empty fields are left out |
| Header.EntrySchema | protos/xrpc.proto:10 | A map entry byte by byte, with both its parts |
| Header.DefaultIsEmpty | protos/xrpc.proto:4-14 | A header is written as nothing exactly when it is the default one |
| Header.ErrorRoundTrip | protos/xrpc.proto:16-19 | The nested error message comes back with both fields, defaults included, and is refused exactly when its text is not UTF-8 |
| Header.ParseMetadata | protos/xrpc.proto:10 | Map entries written in any order merge into the map behind any fields already read; one that is not UTF-8 makes the parse fail |
| Header.HeaderRoundTrip | protos/xrpc.proto:4-14 | A serialized header is accepted exactly when all its strings are UTF-8, and then comes back unchanged for every order of the map entries, with the presence of an empty error kept |
| Header.ParsedReadable | protos/xrpc.proto:1-19 | Whatever bytes are parsed, an accepted header has only UTF-8 strings, and even a refused one has only UTF-8 map entries |
| Header.UnknownIsSkipped | src/core/codec/xrpc_codec.cc:71-74 | A field of the wrong wire type or of an unknown number changes nothing |
| Header.LaterFieldCounts | src/core/codec/xrpc_codec.cc:71-74 | Of two fields with one number the later one counts |
| Header.ErrorsMerge | src/core/codec/xrpc_codec.cc:71-74 | A second error is merged into the first: what it does not carry stays |
| Header.NestingLimit | src/core/codec/xrpc_codec.cc:71-74 | A header may hold unknown groups nested a hundred deep, and no deeper |
| Codec.FrameRoundTrip | src/core/codec/xrpc_codec.cc:10-95 | Decoding an encoded frame with anything behind it gives the exact payload and the header with only args_size and compressed rewritten, in all three outcomes of compression; it is refused exactly when a header string is not UTF-8 |
| Codec.FrameExample | src/core/codec/xrpc_codec.cc:43-48 | A frame byte by byte: length of the header, header, body |
| Codec.PrefixRefused | src/core/codec/xrpc_codec.cc:55-80 | Every strict prefix of a frame is refused; the header is known if only the body was cut, and nothing of it otherwise |
| Codec.FrameAccepted | src/core/codec/xrpc_codec.cc:55-95 | What the encoder writes is nonempty and accepted exactly when its header can be read back, else refused whatever follows; none of its strict prefixes is accepted |
| Codec.FramesPrefixFree | src/core/codec/xrpc_codec.cc:43-48 | A frame is neither a proper prefix nor a proper extension of anything the encoder writes |
| Codec.UniqueSplit | src/core/codec/xrpc_codec.cc:43-48 | A concatenation of frames can be cut into frames in one way only |
| Codec.FrontSplit | src/core/codec/xrpc_codec.cc:43-48 | Frames found at the front of a stream of written frames are the first ones of that stream |
| Codec.XrpcCodec.Encode | src/core/codec/xrpc_codec.cc:10-53 | The step-by-step encoder (the response encoder has the same body) produces the frame the theorems speak of |
| Codec.XrpcCodec.Decode | src/core/codec/xrpc_codec.cc:55-95 | The cursor-moving decoder accepts and refuses what the theorems say, and leaves the partial header behind on refusal |
| Codec.XrpcCodec.DecodeResponse | src/core/codec/xrpc_codec.cc:139-184 | The response object is untouched unless the frame was accepted |
| Codec.Drain | src/core/codec/xrpc_codec.cc:197-208 | The chunk loop ends, collects the whole output, and takes one round more than there are full chunks |
| Codec.XrpcCodec.Compress | src/core/codec/xrpc_codec.cc:186-213 | The loop delivers the whole compressed form |
| Codec.XrpcCodec.Decompress | src/core/codec/xrpc_codec.cc:215-242 | The loop delivers the whole decompressed form |
| Codec.CompressThenDecompress | src/core/codec/xrpc_codec.cc:186-242 | Through both loops no byte is lost, for any lossless compressor and any length |
| Codec.LongPayloadSentPlain | src/core/codec/xrpc_codec.cc:21-36 | A payload over 100 bytes for which compression was asked is sent plain with the flag taken back |
| Codec.PacksMeaning | src/core/codec/xrpc_codec.cc:21-36 | Compression is used exactly when asked for, from 101 bytes on, and if it makes the payload shorter |
| Server.ReplyMeaning | src/core/server/xrpc_server.cc:49-140 | Every read of at most 8192 bytes is answered by one nonempty frame, which decodes, with anything behind it, exactly when the two names and the failure text it copies are UTF-8; no strict front part of it decodes |
| Server.ReplyStatus | src/core/server/xrpc_server.cc:53-123 | Status 0 exactly when served, otherwise 1 with the error present; refusals carry their code and text; every other field is that of the request, as far as it was parsed, and the payload is the response as filled so far |
| Server.ReplyReadable | src/core/server/xrpc_server.cc:55-117 | A request that decodes always has good names, so its reply can fail to decode only by the failure text |
| Server.BadNameIsEchoed | src/core/server/xrpc_server.cc:53-61 | A concrete garbage request whose service name is not UTF-8 gets a reply that does not decode |
| Server.ServedExactlyWhen | src/core/server/xrpc_server.cc:53-123 | A request is served exactly when it decodes, is not cancelled, names a registered service, its first method of that name parses the arguments, and that method neither fails nor throws |
| Server.RefusedExactlyWhen | src/core/server/xrpc_server.cc:53-115 | Each of the five refusal codes stands for exactly one reason |
| Server.RefusalTexts | src/core/server/xrpc_server.cc:53-115 | Each refusal has its own text |
| Server.ReplySendable | src/core/server/xrpc_server.cc:49-140 | A reply to a read of at most 8192 bytes never outgrows the library's limits, though a half-parsed header is copied into it |
| Server.FirstNamedIndex | src/core/server/xrpc_server.cc:86-92 | The method found is the first of its name, and none is found only if none has the name |
| Server.CString | src/core/server/xrpc_server.cc:128 | An error text passes through what() unchanged when it holds no NUL, otherwise as a front part |
| Server.CStringKeepsUtf8 | src/core/server/xrpc_server.cc:128 | A failure text that is UTF-8 is still UTF-8 when what() has cut it at a NUL |
| Server.XrpcServer.OnMessage | src/core/server/xrpc_server.cc:49-140 | The branching handler produces the reply the theorems speak of |
| Server.XrpcServer.CallServiceMethod | src/core/server/xrpc_server.cc:142-164 | An unknown service and a cancelled request throw their own texts with the response untouched; a failed controller and a throwing method come out as the same thrown text, with the response as filled so far |
| Server.XrpcServer.RegisterService | src/core/server/xrpc_server.cc:29-42 | The service becomes callable, and the registry gets the path and method list that Naming's theorems start from |
| Server.FindMethod | src/core/server/xrpc_server.cc:86-92 | The search loop stops at the first method of the name |
| Transport.AdvanceKeepsFlow | src/transport/asio_transport.cc:214-243 | Each read, and each failed read or reply write, keeps the balance: pieces read and bytes queued are what was sent; the client has or will read the replies to those pieces, in order, all of them as long as the server goes on |
| Transport.DriveKeepsFlow | src/transport/asio_transport.cc:50-78 | The balance holds over every run of reads of any size and errors at any moment |
| Transport.FirstPiece | src/transport/asio_transport.cc:67-77 | On a connection with nothing under way, what the client reads starts with, or is a front part of, the reply to the server's first read; if that read was the whole request, nothing but the rest of that reply is left under way |
| Transport.ReadsOfAnySize | src/transport/asio_transport.cc:136-160 | Reads may take anything from one byte to all that is queued, up to 8192: for every choice the server reads that much of the request and the client that much of the reply |
| Transport.ReadsAreBounded | src/transport/asio_transport.cc:214-222 | No read takes nothing, more than is queued, or more than 8192 bytes |
| Transport.WholeReadsDeliver | src/transport/asio_transport.cc:50-78 | A request and a reply of at most 8192 bytes can pass whole, and then nothing is left under way |
| Transport.FailedReadNeverEnds | src/transport/asio_transport.cc:67-70 | After a failed read no run ever ends the wait |
| Transport.DroppedSocketIsSilent | src/transport/asio_transport.cc:239-242 | A server that met an error reads no more of the connection |
| Transport.ErrorsStop | src/transport/asio_transport.cc:224-243 | What a failed read or write of either side leaves behind |
| Transport.AsioTransport.Connect | src/transport/asio_transport.cc:24-38 | An open socket is kept, wherever it leads, and raises nothing; a closed one comes to lead to the address dialled, stays closed on a bad address, and is open without a server after a failed attempt |
| Transport.LeadsWhereAsked | src/transport/asio_transport.cc:26-29 | Without an exception the socket leads to the endpoint asked for exactly when it was closed or led there already |
| Transport.FirstDialDecides | src/transport/asio_transport.cc:26-36 | Over any sequence of calls the first one whose address can be read decides for all where the socket leads, even if it could not connect |
| Transport.PortIsKept | src/transport/asio_transport.cc:28 | A port below 65536 is dialled as it is |
| Transport.AsioTransport.HandleClientRead | src/transport/asio_transport.cc:156-164 | The response is exactly the bytes of this read, taken off the front of the queue; after an error nothing has changed |
| Transport.AsioTransport.HandleServerRead | src/transport/asio_transport.cc:224-243 | Each read consumes its bytes and queues exactly one reply to them; a failed read drops the socket, a failed write breaks the reply off, and no further read is posted |
| Transport.AsioTransport.Send | src/transport/asio_transport.cc:50-78 | When the wait ends, the connection has gone through a run of the transition system and the response is the piece the client read in it |
| Transport.SendWhole | src/transport/asio_transport.cc:50-78 | The wait for a request and reply that fit a buffer can end with the exact reply |
| Channel.FirstCall | src/core/channel/xrpc_channel.cc:151-175 | For every cutting of request and replies into reads, and errors at any moment: unfailed means exact request, exact argument, exact response and nothing left under way; every cut ends in failure; whole frames end as `WholeCall` says |
| Channel.WholeCallMeaning | src/core/channel/xrpc_channel.cc:159-175 | A whole call is without failure exactly when the direct call is and everything it exchanges can be read back; where that holds the two are the same |
| Channel.CallsKeepApart | src/core/channel/xrpc_channel.cc:48-56 | Over any sequence of synchronous calls on one connection, each call that ends without failure, with no failed call before it, has exactly the result of a direct call |
| Channel.FairCanBeMet | src/core/channel/xrpc_channel.cc:151-175 | There are a compressor, an order, a service and a call for which every assumption of these theorems holds |
| Channel.WholeExchange | src/core/channel/xrpc_channel.cc:151-175 | A call whose request and reply fit a buffer can end as `WholeCall` says, with nothing left under way |
| Channel.LongRequestFails | src/core/channel/xrpc_channel.cc:151-163 | A request longer than one read never succeeds |
| Channel.RequestMeaning | src/core/channel/xrpc_channel.cc:125-143 | What goes out decodes to the names, the id and the argument of the caller, with nothing compressed, cancelled, failed or attached |
| Channel.ConcludeMeaning | src/core/channel/xrpc_channel.cc:159-175 | A readable reply fails the call exactly when it has a status other than 0 and an error |
| Channel.WholeRequestJudged | src/core/server/xrpc_server.cc:53-117 | A whole request reaches the method the caller named with the caller's argument, or is refused for an unknown service, an unknown method or an argument that does not parse |
| Channel.CutRequestJudged | src/core/server/xrpc_server.cc:53-61 | A cut request is answered with the decode error, under its own id if only its body was cut and under none otherwise |
| Channel.ReplyConcluded | src/core/channel/xrpc_channel.cc:159-175 | From a whole reply the caller learns the failure text and response that the service produced, or fails to decode it, exactly when a copied string or the response cannot be read back |
| Channel.CutReplyConcluded | src/core/channel/xrpc_channel.cc:159-164 | A cut reply ends in the decode failure |
| Channel.WholeCallConcluded | src/core/channel/xrpc_channel.cc:159-175 | With both frames whole, and whatever else is in the read, the call ends as `WholeCall` says, under both decode error texts |
| Channel.CutRequestConcluded | src/core/channel/xrpc_channel.cc:159-175 | Whatever the caller reads of the reply to a cut request, the call ends in failure |
| Channel.WholeRequestConcluded | src/core/channel/xrpc_channel.cc:159-175 | A cut reply to a whole request ends in failure, an uncut one as `WholeCall` says |
| Channel.BothAreFrames | src/core/codec/xrpc_codec.cc:97-137 | The request is a frame, and its reply is one exactly when the failure text is UTF-8 |
| Channel.RegisteredServerIsNamed | src/core/channel/xrpc_channel.cc:26-46 | The endpoint named for a call is that of the first instance of the bucket that the test accepts: a server that registered itself is accepted exactly when the method, or one that extends it, ends within 512 bytes of its list; if no instance is accepted there is no endpoint; a closed socket then leads to that server |
| Channel.CallGoesToPeer | src/core/channel/xrpc_channel.cc:116-123 | A call without failure has the result of the server at the other end of the socket, which is the one the registry named exactly when the socket was closed or led there already |
| Channel.SecondServerIsNotReached | src/transport/asio_transport.cc:26 | With two servers: after a call to the first, a call for a service that only the second offers finds its endpoint and fails all the same |
| Channel.LateMethodIsNotFound | src/core/channel/xrpc_channel.cc:28-32 | A concrete method that its only server registered is not found |
| Channel.EarlyErrors | src/core/channel/xrpc_channel.cc:110-140 | Which of the early errors wins, with its text, for every answer of the registry, obstacle and cancel; without any the endpoint named is the answer |
| Channel.CancelComesLast | src/core/channel/xrpc_channel.cc:133-140 | A controller cancelled before sending fails the call with its own text exactly when it would have been sent, and changes no other error |
| Channel.XrpcChannel.Prepare | src/core/channel/xrpc_channel.cc:110-140 | All errors before sending, in their order; otherwise the endpoint named, and an open socket that leads where `SocketAfter` says |
| Channel.XrpcChannel.GetServiceAddress | src/core/channel/xrpc_channel.cc:26-46 | An address is returned exactly when the registry offers an instance and the first one has a colon, and then it is that one; each other case has its own error |
| Channel.XrpcChannel.CallMethod | src/core/channel/xrpc_channel.cc:105-180 | A call on a cancelled controller fails untouched without using the connection; any other sets the controller and response as the reply of the server at the other end of the socket demands; with nothing under way, finishing without failure implies the effect of a direct call to that server and leaves nothing under way |
| Channel.CompleteCall | src/core/channel/xrpc_channel.cc:105-180 | A call that passes the early checks and fits the buffers can be made: it finishes as `WholeCall` says |
| Channel.XrpcChannel.Settle | src/core/channel/xrpc_channel.cc:159-175 | Controller and response are set as the received bytes demand |
| Channel.XrpcChannel.Exchange | src/core/channel/xrpc_channel.cc:151-175 | The request is sent to the server at the other end, and controller and response are set as the reply demands |
| AsyncCall.DoneRunsOnce | src/core/channel/xrpc_channel.cc:58-103 | In every run done has run at most once, exactly once when the call is over, and delivering the pending completion ends the call |
| AsyncCall.StartMeaning | src/core/channel/xrpc_channel.cc:48-57 | An asynchronous call that passes the early checks is pending and its done has not run; an early error ends it at once; a controller of another class runs done without sending |
| AsyncCall.PendingMeaning | src/core/channel/xrpc_channel.cc:58-103 | How writes, reads, a cancel and undecodable replies end a pending call, each with its own text and the response untouched |
| AsyncCall.GoodCallSucceeds | src/core/channel/xrpc_channel.cc:58-103 | A call that passes the early checks, is written and gets a good reply succeeds with that response |
| AsyncCall.SuccessMeansReply | src/core/channel/xrpc_channel.cc:58-103 | Conversely, a call that is over and not failed, without a reset, was delivered a good reply and has its response |
| AsyncCall.CancelDooms | src/core/channel/xrpc_channel.cc:78-83 | A cancel before the end, with no reset after it, makes the call end in failure with the response untouched |
| AsyncCall.CancelStandsExactly | src/core/channel/xrpc_channel.cc:78-83 | Over any run that leads to a good reply: the call ends failed with the response untouched exactly when the last cancel or reset was a cancel, or there was neither and the controller came cancelled |
| AsyncCall.ResetForgetsCancel | src/core/controller/xrpc_controller.cc:16-22 | In any pending state, a reset between cancel and completion lets the cancelled call succeed |
| AsyncCall.OverStays | src/core/channel/xrpc_channel.cc:70-102 | After the end neither response nor done are touched again |
| AsyncCall.PipelinedCalls | src/core/channel/xrpc_channel.cc:58-103 | With many calls outstanding and one frame per read, the k-th completion belongs to the k-th call and ends it as if it had been alone |
| AsyncCall.MergedReadMisleads | src/core/channel/xrpc_channel.cc:85-102 | When the server takes the requests of two calls in one read, the second call ends with the result of the third, because no id is compared |
| AsyncCall.PendingCall.Start | src/core/channel/xrpc_channel.cc:105-149 | The early errors each run done once; otherwise one write is pending, done has not run and nothing is set |
| AsyncCall.PendingCall.OnWrite | src/transport/asio_transport.cc:90-102 | A failed write ends the call, a good one posts the read |
| AsyncCall.PendingCall.OnRead | src/transport/asio_transport.cc:176-188 | A read with or without error delivers the completion |
| AsyncCall.PendingCall.Completion | src/core/channel/xrpc_channel.cc:70-102 | The five ways a completion ends, each running done once |
| Pipeline.DoKeepsLine | src/transport/asio_transport.cc:80-103 | Each step, with reads of any size, keeps callbacks numbered through and both byte streams balanced: requests sent are read or queued, replies to what was read are delivered or queued |
| Pipeline.CallbacksInOrder | src/transport/asio_transport.cc:166-188 | In every run, however the reads cut the streams, the k-th callback to be run is that of the k-th call |
| Pipeline.OneCallGoesThrough | src/transport/asio_transport.cc:80-103 | On an idle connection a request and a reply that fit a buffer can pass whole |
| Pipeline.CallsGoThrough | src/transport/asio_transport.cc:80-103 | Any number of them can pass, each callback with the reply to its own request |
| Pipeline.RepliesInOrder | src/transport/asio_transport.cc:166-188 | In every run of well-formed calls, each callback is given the reply to its own request exactly when each is given one whole frame and the k-th read of the server was answered as the k-th request would have been |
| Pipeline.OneFramePerReadIsEnough | src/transport/asio_transport.cc:214-243 | It is enough that every read of either side takes one frame; then the server has read the requests one by one |
| Pipeline.LastReadMayTakeMore | src/transport/asio_transport.cc:224-243 | It is not needed: a run in which the only read takes two requests and the only callback run has its own reply |
| Pipeline.FirstInexactRead | src/core/server/xrpc_server.cc:53-61 | The first read of the server that does not take exactly one request is answered as the request it starts with exactly when it takes all of that |
| Pipeline.MergedReads | src/core/codec/xrpc_codec.cc:76-80 | When no read cuts a request and replies differ: callbacks given whole replies have their own exactly when the server took one request per read up to the read that answered the last of them |
| Pipeline.ReplyEchoesId | src/core/server/xrpc_server.cc:120-122 | A callback given its own reply can decode it and finds the id of its request in it |
| Pipeline.IdsTellApart | src/core/server/xrpc_server.cc:120-122 | Requests with different ids have different replies |
| Pipeline.MergedReadShifts | src/transport/asio_transport.cc:224-243 | A run in which the server takes two requests in one read and the second callback is given the reply to the third request |
| Pipeline.AnswerOverlooks | src/core/codec/xrpc_codec.cc:76-80 | The server answers a frame and overlooks whatever came with it in the same read |
| Pipeline.RefusalDiffers | src/core/server/xrpc_server.cc:53-61 | A read that decodes and one that does not are never answered alike |
| Joint.DoKeepsOrder | src/core/channel/xrpc_channel.cc:58-103 | Each step of many calls on one connection keeps every call in the state its own events lead to, at the stage the connection says, and ended by the bytes delivered to it |
| Joint.EachLivesAlone | src/core/channel/xrpc_channel.cc:58-103 | In every run of many calls, with cancels and resets of each and reads of any size, every call is in the state its own events lead to, and its done has run exactly once if its completion was delivered, else not at all |
| Joint.EachEndsAlone | src/core/channel/xrpc_channel.cc:70-102 | When the callbacks are given their own replies, every delivered call ends with the cancel error and its response untouched if a cancel stands, else as if it had been alone |
| Joint.AllEndAlone | src/core/channel/xrpc_channel.cc:70-102 | So it is for every delivered call when every read takes one frame |
| Joint.CallGoesThrough | src/core/channel/xrpc_channel.cc:58-103 | On an idle connection a call that passes the early checks and fits the buffers can be sent and completed: its done runs and it ends as if alone |
| Controller.CallbackOnce | src/core/controller/xrpc_controller.cc:9-66 | Over every sequence of operations an installed callback runs at most once, and after destruction it was run or dropped, exactly one of the two |
| Controller.CallbackFate | src/core/controller/xrpc_controller.cc:41-66 | Which of the two it is depends on which of cancel, destruction, reset and replacement comes first |
| Controller.PlayBalanced | src/core/controller/xrpc_controller.cc:16-66 | What was installed is what was run, dropped or is stored, and a cancelled controller stores nothing |
| Controller.ApplyConserves | src/core/controller/xrpc_controller.cc:16-66 | No single operation makes or loses a callback |
| Controller.XrpcController.StartCancel | src/core/controller/xrpc_controller.cc:41-52 | Only the first cancel runs the stored callback, and clears it |
| Controller.XrpcController.NotifyOnCancel | src/core/controller/xrpc_controller.cc:59-66 | A callback installed late runs at once and is not stored |
| Controller.XrpcController.Reset | src/core/controller/xrpc_controller.cc:16-22 | All four fields are as new and nothing runs |
| Controller.XrpcController.SetFailed | src/core/controller/xrpc_controller.cc:34-39 | The failure and its text are set, cancellation and callback kept |
| Controller.XrpcController.Destroy | src/core/controller/xrpc_controller.cc:9-14 | Destruction runs a callback still stored |
| Naming.ChildPathBucket | src/registry/zookeeper_client.cc:108 | An instance path is keyed by its service exactly when the service name has no slash |
| Naming.ServiceOfMeaning | src/registry/zookeeper_client.cc:108 | The bucket of any path goes from its second character to the next slash, or to the end |
| Naming.ChildPathSuffix | src/registry/zookeeper_client.cc:199 | What follows the last slash is the instance name |
| Naming.SuffixMeaning | src/registry/zookeeper_client.cc:199 | A path without a slash is its own last component, any other ends with it |
| Naming.BuildData | src/core/server/xrpc_server.cc:35-39 | The loop writes the names separated by commas |
| Naming.MatchesCutExactly | src/registry/zookeeper_client.cc:195-201 | On the first n characters of what a server published, the three substring tests accept it exactly when the name asked for is a prefix of a registered one and ends before the cut |
| Naming.FoundExactlyWhen | src/registry/zookeeper_client.cc:412-421 | The same for data read from the server, which is cut at 512 bytes |
| Naming.MatchesExactly | src/registry/zookeeper_client.cc:195-201 | On data that was not cut, such as what this client registered itself, they accept it exactly when the name asked for is a prefix of a registered one |
| Naming.MatchesExactName | src/registry/zookeeper_client.cc:195-201 | The test is right, on cut or uncut data, exactly when a registered name, or one that extends it, ends before the cut, or an unregistered one is not shown by a longer name |
| Naming.LongerNameIsAccepted | src/registry/zookeeper_client.cc:196-198 | A concrete instance is accepted for a method it does not have |
| Naming.LateNameIsMissed | src/registry/zookeeper_client.cc:412-421 | A concrete list in which a registered name behind a long one is missed |
| Naming.CutDataStaysSound | src/registry/zookeeper_client.cc:412-421 | On any data, cutting never makes a match |
| Naming.CutMeaning | src/registry/zookeeper_client.cc:412-421 | At most 512 characters are kept, from the front |
| Naming.CollectMatching | src/registry/zookeeper_client.cc:192-203 | The loop returns the addresses of exactly the matching instances, each at its place, in bucket order |
| Naming.MatchingMeaning | src/registry/zookeeper_client.cc:192-203 | Every matching instance is chosen, none twice, in bucket order |
| Naming.BothServersFound | src/registry/zookeeper_client.cc:192-203 | Two servers that offer the method are both found |
| Naming.StoiRoundTrip | src/core/channel/xrpc_channel.cc:119 | Every int printed and parsed again is itself, and its text has neither slash nor colon |
| Naming.StoiMeaning | src/core/channel/xrpc_channel.cc:119 | A text is read as a number exactly when it is blanks, a sign, digits and anything else, and the number fits an int |
| Naming.IntTextDigits | src/core/server/xrpc_server.cc:34 | The digits of a printed number |
| Naming.EndpointRoundTrip | src/core/server/xrpc_server.cc:34 | The registered path gives back its service as cache key and its ip and port as endpoint |
| Naming.FirstColonSplits | src/core/channel/xrpc_channel.cc:117-119 | The first colon of an address splits it, however many there are |
| Naming.PublishedTexts | src/core/server/xrpc_server.cc:34-39 | The path and the data that one server publishes, letter by letter |
| Config.ParseLineMeaning | src/core/common/xrpc_config.cc:16-46 | A line sets a key to a value exactly when it is a layout of that entry: blanks around both ignored, first equals sign separating, no hash in the first column |
| Config.EntryIsNotNoise | src/core/common/xrpc_config.cc:16-33 | Blank lines, comments and lines without an equals sign set nothing |
| Config.LinesOfRender | src/core/common/xrpc_config.cc:15 | The line loop sees the lines as written |
| Config.LinesOfOpen | src/core/common/xrpc_config.cc:15 | A last line that does not end in a newline is a line like any other |
| Config.ApplyRendered | src/core/common/xrpc_config.cc:44-46 | Loading a rendering sets each key to the value of its last entry and keeps all other keys |
| Config.XrpcConfig.Load | src/core/common/xrpc_config.cc:8-49 | The line loop applies every line to the map in order, and a file that does not open changes nothing |
| Config.LoadRendered | src/core/common/xrpc_config.cc:8-54 | After loading any rendering, with or without a newline at the end, lookup answers the last value of a key, or the default |
| Registry.UpsertMeaning | src/registry/zookeeper_client.cc:109-116 | Storing a pair overwrites in place or appends, moves no other entry, and makes no duplicate |
| Registry.KeepMeaning | src/registry/zookeeper_client.cc:301-305 | A filter keeps exactly the listed paths, with their data, in their order |
| Registry.WithoutIsKeep | src/registry/zookeeper_client.cc:231-233 | Erasing one path is keeping all others |
| Registry.CacheLookups | src/registry/zookeeper_client.cc:106-117 | Seen through lookups, storing sets one path, erasing clears one path, sweeping clears the unlisted paths of one service |
| Registry.StoreMeaning | src/registry/zookeeper_client.cc:106-117 | Storing makes a bucket for the service and touches no other |
| Registry.EraseMeaning | src/registry/zookeeper_client.cc:225-239 | A service is still cached after an erase exactly when another path of it is left; no empty bucket stays, and no other bucket is touched |
| Registry.SweepMeaning | src/registry/zookeeper_client.cc:297-309 | A service is still cached after a sweep exactly when one of its paths is listed; no other bucket is touched |
| Registry.FetchedMeaning | src/registry/zookeeper_client.cc:173-181 | The bucket fetched holds exactly the readable children, each once, in the order of the listing |
| Registry.ZookeeperClient.StoreInstance | src/registry/zookeeper_client.cc:106-117 | The locked find-and-update block stores the pair in the bucket of its path |
| Registry.ZookeeperClient.EraseInstance | src/registry/zookeeper_client.cc:225-239 | The locked block clears pair and watch, and drops a bucket left empty |
| Registry.ZookeeperClient.FilterBucket | src/registry/zookeeper_client.cc:297-309 | The locked block of a sweep filters one bucket and drops it when empty |
| Registry.ZookeeperClient.Register | src/registry/zookeeper_client.cc:68-120 | The pair is cached exactly when connected and every server call of the branch taken succeeded |
| Registry.ZookeeperClient.Discover | src/registry/zookeeper_client.cc:122-152 | A cached pair answers without the server; otherwise the first 512 bytes read are cached and returned, or nothing changes |
| Registry.ZookeeperClient.DiscoverService | src/registry/zookeeper_client.cc:154-190 | A cached bucket is the answer; otherwise the readable children become answer and bucket |
| Registry.ZookeeperClient.FindInstancesByMethod | src/registry/zookeeper_client.cc:192-203 | Exactly the addresses of the instances that match, of the bucket that is cached afterwards, in its order |
| Registry.ZookeeperClient.Delete | src/registry/zookeeper_client.cc:205-240 | Pair and watch go only when the node was there and was removed; an absent node is no error |
| Registry.DeleteThenDiscover | src/registry/zookeeper_client.cc:154-240 | After the last cached instance of a service was deleted DiscoverService asks the server; before that the others are the answer |
| Registry.ZookeeperClient.Watch | src/registry/zookeeper_client.cc:242-254 | The callback is stored whenever connected, even if arming fails |
| Registry.ZookeeperClient.Heartbeat | src/registry/zookeeper_client.cc:272-310 | One round filters every listed bucket and nothing else, whatever the order of the services |
| Registry.ZookeeperClient.NodeEvent | src/registry/zookeeper_client.cc:339-403 | What each event kind does to cache, watches and callback, and that an unwatched path is ignored |
| Registry.ZookeeperClient.SessionEvent | src/registry/zookeeper_client.cc:324-338 | Only expiry clears the cache; connection state follows the event |
| RegistryRuns.FlightStaysWithin | src/registry/zookeeper_client.cc:138-150 | Data in flight after a step was in flight before or came from the server in this step |
| RegistryRuns.CacheStaysWithin | src/registry/zookeeper_client.cc:106-117 | Data cached after a step was cached before or in flight |
| RegistryProofs.CachedDataWasHeld | src/registry/zookeeper_client.cc:68-190 | In every interleaving each pair cached, in flight or shown to a callback was held by the server: whole if written by Register, else its first 512 bytes |
| RegistryProofs.PathsCachedOnce | src/registry/zookeeper_client.cc:173-188 | In every interleaving no path is cached twice in one bucket, and each sits in the bucket of its first component or directly below a bucket name with a slash; among slash-free names no path is cached twice at all |
| RegistryAlone.SlashedNameCachesTwice | src/registry/zookeeper_client.cc:154-190 | A concrete run after which a path sits in two buckets because a service name has a slash |
| RegistryProofs.NoNoticeAfterDelete | src/registry/zookeeper_client.cc:339-394 | After a delete notice every later notice for the path goes to a callback stored after that event's erase |
| RegistryProofs.SweepLeavesLivePaths | src/registry/zookeeper_client.cc:272-315 | Over a quiet tree one full sweep leaves only live paths, with reads and events running beside it, and later reads, events and sweeps keep it so |
| RegistryProofs.DoClean | src/registry/zookeeper_client.cc:297-309 | On a quiet tree no step adds a dead path to a swept bucket, and filtering a bucket removes its dead paths |
| RegistryAlone.RegisterAlone | src/registry/zookeeper_client.cc:68-120 | Its steps run without interruption write the node and its parent and do to the cache what the object's method does |
| RegistryAlone.ParentOfChild | src/registry/zookeeper_client.cc:75-85 | The parent of an instance path is the node of its service |
| RegistryAlone.DiscoverAlone | src/registry/zookeeper_client.cc:122-152 | Likewise for Discover, on a hit and on a miss |
| RegistryAlone.DiscoverServiceAlone | src/registry/zookeeper_client.cc:154-190 | Likewise for DiscoverService on a miss |
| RegistryAlone.DeleteAlone | src/registry/zookeeper_client.cc:205-240 | Likewise for Delete |
| RegistryAlone.DeleteEventAlone | src/registry/zookeeper_client.cc:376-394 | Likewise for a delete event |
| RegistryAlone.DataEventAlone | src/registry/zookeeper_client.cc:355-372 | Likewise for a created or changed event |
| RegistryAlone.WatchAlone | src/registry/zookeeper_client.cc:242-254 | Watch alone stores the callback under the next number |
| RegistryAlone.ChildEventAlone | src/registry/zookeeper_client.cc:395-402 | A child event alone drops the bucket of the first component of its path |
| RegistryAlone.UnwatchedEventAlone | src/registry/zookeeper_client.cc:350-353 | An event for a path that is not watched does nothing |
| RegistryAlone.SessionAlone | src/registry/zookeeper_client.cc:324-338 | Session events set the connection state, and only an expired session clears the cache |
| RegistryAlone.StepsPossible | src/registry/zookeeper_client.cc:68-310 | Which steps can always be taken, and that the server may refuse whatever it is asked |
| RegistryAlone.RefusalsChangeNothing | src/registry/zookeeper_client.cc:68-310 | A refused call ends its operation or event and changes nothing else |
| RegistryAlone.HeartbeatAlone | src/registry/zookeeper_client.cc:272-310 | Likewise for a whole sweep, for every order of the services and every set of failed listings |
| RegistryAlone.SweepAloneLeavesLive | src/registry/zookeeper_client.cc:272-310 | One sweep that lists every service leaves only live paths in the cache |
| RegistryAlone.FetchedFind | src/registry/zookeeper_client.cc:173-181 | A child is in the fetched bucket, with the first 512 bytes of its data, exactly when its own read succeeded |
| RegistryAlone.MissListsAll | src/registry/zookeeper_client.cc:165-189 | After a miss, exactly the children whose read succeeded are cached and nothing else; all nodes below the service are listed exactly when every read succeeded |
| RegistryAlone.AbsentServiceThrows | src/registry/zookeeper_client.cc:165-171 | A service that is not cached can be listed exactly when its node exists; otherwise, and on a failed call, the operation throws and the cache is as it was |
| RegistryAlone.PartialBucketIsAHit | src/registry/zookeeper_client.cc:158-162 | A concrete run after which a live instance is missing from the answer |

## Left out

- Sockets, threads and Boost.Asio: only byte queues, partial reads and completions; code between two lock boundaries is one step.
- Liveness of `Send`: its wait loop does not see a read error, so the model says only what holds when it returns.
- Calls on a connection after one that failed: leftover bytes are then read as the next message.
- Bytes of a request whose write fails half-way.
- State that a service keeps between calls: a method is a function of its argument.
- Interleaved writes of frames on one socket and the lifetime of the buffer handed to `async_write`: writes are taken to complete whole and in order.
- Failing writes and reads while several asynchronous calls are outstanding: `AsyncCall` has them for one call.
- Unknown fields of a header, which the library keeps and a reply would echo: the model drops them.
- What a refused header keeps of a field whose bytes are cut short: the model keeps the fields merged before it.
- Payloads, messages or headers of two gigabytes and more, and `SerializeToString` failing: excluded by `Sendable` and `Bounded`.
- Exceptions that are not `std::exception`, and allocation failure inside zlib.
- The ZooKeeper server: an abstract tree that others change at will, whose calls may fail at any time; node versions, parent rules, ephemeral lifetimes and access control are not modelled.
- One-shot server-side watches: events for any path may arrive at any time, which covers every arming and re-arming.
- Start, Stop and destructors of client, server and transport, the retry loop of `Start`, and timing.
- A stored watch callback that is an empty function: the source treats it as no callback.
- The service with the empty name, whose listing is that of the root node: the code then reads its children under paths no server has, and the steps leave them out.
- Freshness of cached data and absence of empty buckets, which the code does not provide.
- Uniqueness of request ids, which are random: callbacks are numbered instead.
- `AsyncCall.PendingCall` with a controller of a foreign class: its branch is in the transition function `AsyncCall.React` only.
- Logger, example programs, user database and generated protobuf reflection.
