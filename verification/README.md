# Verified models of the network stack

Dafny models of five parts of an embedded TCP/IP stack, and proofs about them. `dafny verify dfyconfig.toml`
checks the whole project.

* **The CoAP message editor** (section 3 of RFC 7252). A message is a flat buffer of header, token, delta-encoded
  options and payload. `CoapMessage.dfy` edits it in place, as the program does; `OptionCodec`, `OptionList`,
  `OptionEditing`, `OptionMeaning`, `MessageView` and `WellFormedness` say what each edit means, from bytes to
  list to values, and `RepeatableOptions` splits and joins paths and queries.
* **Block-wise transfer** (RFC 7959). `BlockTransfer.dfy` uploads and downloads bodies over any number of
  exchanges with a server that may answer in any way; `BlockUpload` and `BlockDownload` keep the accounts, `BlockRoom` and
  `MessageRoom` those of the room in the message, and `BlockExchange` says which answers carry a transfer on.
* **The CoAP request machine** (sections 4 and 5 of RFC 7252, and RFC 7641). `RequestMachine.dfy` is the machine
  on values with a history, `CoapClient.dfy` the object that updates its fields and edits the request and reads the
  response in their buffers through `CoapMessage.dfy`, proved equal to the machine on their bytes step by step.
  `RequestProperties` keeps an invariant over every run, `RequestOutcomes`, `RequestCalls` and `Observation` say
  what follows.
* **Multi-part buffers and their memory pool.** `NetBuffers.dfy` moves data between buffers made of chunks,
  `NetMemory.dfy` allocates, resizes and frees them; `ChunkView` and `BlockOwnership` hold the flat string and the
  ownership of pool blocks.
* **Arithmetic kernels.** The Internet checksum (`OnesComplement`, `IpChecksum`, used by `Ping`), CRC-32 (`Crc32`,
  used by `EthernetFrames`) and the generator on packed bytes (`Trivium`, `RandomGenerator`).

The pattern is the same throughout: code that changes things is a method or a class of the same shape, proved
equal to a function on values, and lemmas say what the source and the standards promise of that function.

Where the code does not do what its documentation says, the model follows the code, and the exact condition is
proved:

* A set that fails for want of room has already removed the occurrence it was to replace
  (`SetFailureKeepsMessage`, `SetFailureExample`).
* Deleting an option corrupts a message whose option numbers wrap 16 bits (`DeleteRefinesView`, `DeleteExample`);
  on well-formed messages it cannot.
* A zero is stored behind every payload and every response. Behind a message that fills the buffer of 1152 bytes it
  falls on the low byte of the length, which is the next field (`coap/coap_message.h:55-60`), so that data is lost
  with success unless that byte is zero already (`SetPayloadRefinesView`, `WritePayloadRefinesView`,
  `TerminatedView`, `SetPayloadExample`). An upload loses data exactly when such a write occurs (`UploadInParts`,
  `FullBufferExample`); a response of 1152 bytes or more comes to 1024 (`BufferedExactly`), and a download that ends
  with one is incomplete although its end is reported (`DownloadedIsBody`, `CutDownloadExample`).
* An empty Reset never ends a confirmable request (`ResetOfConfirmable`, `EmptyReset`).
* A blocking registration that is answered without an Observe option reports a wrong state
  (`RegistrationOutcome`, `RegistrationExample`).
* An observation is renewed early whenever Max-Age and the random delay exceed 2^31 milliseconds, which is less
  than 25 days (`RenewalExactly`, `RenewalExample`).
* A request with a timeout above 2^31 milliseconds times out at once (`TimeoutExactly`, `TimeoutExample`).
* Reading a body hands out the bytes of a misplaced block before it notices (`ContiguousExactly`,
  `MisplacedExample`).
* Deleting a request, or fetching the message of an observation, ends it without its callback being told
  (`SilentExactly`).
* Appending 65536 bytes or more to a multi-part buffer appends their number modulo 65536 (`AppendExactly`,
  `AppendExample`).
* A pseudo header of odd length breaks the upper-layer checksum unless the data is symmetric
  (`UpperLayerExactly`, `UpperLayerExample`).
* `netGenerateRandRange` divides by zero for the full range of 32 bits and for no other (`RangeSizeExactly`).

The world appears as parameters. The network of a block-wise transfer is a function from the requests sent so far
to the next answer, which stands for every server, adaptive ones included. The request machine takes as input,
turn by turn, how long it waits, which datagram arrives, if any, how long sending takes, which status the socket
returns and which numbers are drawn. A callback is a script of what it does each time it is called, reentrant
calls included. The clock is an unbounded number read modulo 2^32. Memory is an array of bytes whose indices are
addresses, on a little-endian host with 32-bit addresses.

## Model

| member | source | states |
|---|---|---|
| OptionCodec.DecodeEncode | coap/coap_option.c:133-375 | For every number at or above the one before it (or any, modulo 2^16) and every value of at most 65804 bytes, parsing what was formatted gives back number, length and value, consumes exactly the bytes written whatever follows, and no nibble is 15 |
| OptionCodec.EncodeDecode | coap/coap_option.c:133-375 | Formatting an option that was parsed reproduces its bytes exactly when its delta field is below 2^16: the other direction of the bijection, with its exact condition |
| OptionCodec.DecodePrefix | coap/coap_option.c:133-250 | Parsing depends on nothing behind the bytes it consumes |
| OptionCodec.ExtensionSubadditive | coap/coap_option.c:262-375 | Announcing a sum of two deltas takes at most one byte more than announcing both: the bound that makes deleting an option safe |
| OptionCodec.SizeOfOption | coap/coap_option.c:133-250 | A parsed option occupies at least its one header byte and the extensions of its delta and length |
| OptionCodec.FieldFormat | coap/coap_option.c:262-375 | The three forms of a delta or length, with the numbers of section 3.1 of RFC 7252: which nibble and which extension bytes stand for which value, and no others |
| OptionCodec.HeaderExample | coap/coap_option.c:262-375 | A Proxy-Uri of 300 bytes behind a Uri-Path, byte by byte |
| OptionList.LocateSpells | coap/coap_option.c:405-460 | The slot that an edit finds splits the options into those passed, spelled by the bytes before it, and the occurrence found, if any |
| OptionList.LocateStops | coap/coap_option.c:405-460 | A search that finds nothing stops at the end or before a readable option with a larger number |
| OptionList.RenumberKeepsOptions | coap/coap_option.c:496-531 | Re-encoding the follower after another predecessor changes no option, although its delta field changes |
| OptionList.ReplaceTail | coap/coap_message.c:252-313 | Another tail behind the same option bytes leaves all options as they are |
| OptionList.DecodeErrors | coap/coap_option.c:81-120 | An unreadable option area is so for one of two reasons: an underflow or a reserved nibble |
| OptionEditing.LocatePosition | coap/coap_option.c:405-460 | The byte offset found by an edit is the list position: the addressed occurrence, or behind the last option numbered at most as high |
| OptionEditing.SetRefines | coap/coap_option.c:388-531 | Editing the bytes of the option area is editing the list: replace the addressed occurrence or insert, and keep all else |
| OptionEditing.DeleteRefines | coap/coap_option.c:688-810 | Deleting in the bytes is deleting in the list exactly when the follower does not come to need fewer bytes |
| OptionMeaning.PositionMeaning | coap/coap_option.c:405-460 | The list position of an edit is determined by order and occurrence: everything before it is numbered at most as high, and as many occurrences precede it as the index says |
| OptionMeaning.PositionUnique | coap/coap_option.c:405-460 | Every occurrence, present or not, has exactly one place in a sorted list, and it is the one found |
| OptionMeaning.SetMeaning | coap/coap_option.c:388-531 | Setting changes the values of the addressed option at the addressed index only, or adds one value, and no other option |
| OptionMeaning.DeleteMeaning | coap/coap_option.c:688-810 | Deleting takes exactly one value out and no other |
| OptionMeaning.EditsKeepOrder | coap/coap_option.c:388-531 | Both edits keep the options in ascending order |
| OptionMeaning.DeleteUndoesSet | coap/coap_option.c:688-810 | Deleting an option just inserted restores the list |
| OptionMeaning.FindMeaning | coap/coap_option.c:571-639 | Getting an option finds exactly the value the list holds at that index, and fails exactly when there is none |
| UintOption.DecodeEncodeUint | coap/coap_option.c:543-677 | Every 32-bit value survives being written and read: section 3.2 of RFC 7252 |
| UintOption.EncodeUintShortest | coap/coap_option.c:543-558 | The bytes written are the fewest that read back as the value and never start with zero |
| UintOption.UintExample | coap/coap_option.c:543-558 | The high byte comes first, and zero takes no byte |
| MessageView.FindRefinesView | coap/coap_option.c:571-639 | On a readable message, getting an option yields exactly what the view holds |
| MessageView.SetRefinesView | coap/coap_option.c:388-531 | For every readable message: a successful set changes the view by the list edit alone, keeps header, token, payload and all other options and the size limit; it fails for want of room only |
| MessageView.SetFailureKeepsMessage | coap/coap_option.c:463-491 | A failed set leaves the message as it was exactly when the addressed occurrence was absent: a present one is taken out before the room is checked |
| MessageView.SetFailureExample | coap/coap_option.c:463-491 | An input on which a failed set does change the message |
| MessageView.DeleteRefinesView | coap/coap_option.c:688-810 | Deleting never fails on a readable message and never lengthens it; it removes the addressed occurrence and nothing else exactly when the follower keeps its size |
| MessageView.DeleteExample | coap/coap_option.c:757-803 | An input with a number wrapping 16 bits on which deleting leaves an unreadable message |
| MessageView.SetPayloadRefinesView | coap/coap_message.c:252-313 | Setting the payload succeeds exactly when header, options, marker and payload fit into 1152 bytes; it then replaces the payload and keeps header, token and options, exactly when there is room for the zero stored behind it; when it fails the old payload is gone |
| MessageView.WritePayloadRefinesView | coap/coap_message.c:386-456 | Writing succeeds exactly when message, marker, if there is none yet, and data fit into 1152 bytes; it then appends to the payload and keeps everything else, exactly when there is room for the zero stored behind the data; when it fails it changes nothing |
| MessageView.TerminatedView | coap/coap_message.c:300-308 | A message with a zero stored behind it reads as before exactly when it is shorter than the buffer, or the low byte of the length recorded at that moment, which the zero hits otherwise, is zero already; if not, it has lost payload or cannot be read |
| MessageView.SetPayloadExample | coap/coap_message.c:252-313 | A payload of 1147 bytes, set with success, of which 1143 are left |
| MessageView.BufferedExactly | coap/coap_client_misc.c:95-115 | A readable datagram shorter than the buffer is received as it is; of any other the buffer holds the first 1024 bytes |
| WellFormedness.WellFormedMeaning | coap/coap_option.c:133-250 | An option area without 16-bit wrap-around is exactly the canonical encoding of its list, which is in ascending order: the converse of EncodeAllDecodes |
| WellFormedness.EncodeAllDecodes | coap/coap_option.c:81-375 | Encoding a whole ascending list and reading it gives it back |
| WellFormedness.SetKeepsWellFormed | coap/coap_option.c:388-531 | A successful set keeps a well-formed message well-formed |
| WellFormedness.DeleteKeepsWellFormed | coap/coap_option.c:688-810 | On a well-formed message deleting is always exactly the removal of the occurrence, and the result is well-formed |
| WellFormedness.SetSucceedsExactly | coap/coap_option.c:463-491 | On a well-formed message a set succeeds exactly when what is left without the occurrence replaced, and the option in its form between its neighbours, fit into 1152 bytes |
| WellFormedness.SetGrowth | coap/coap_option.c:388-531 | A message grows by no more than the option set, although its follower is encoded anew |
| CoapMessages.ParseFields | coap/coap_option.c:140-231 | The header read from the buffer is the decoded one, with the same error for each malformation |
| CoapMessages.ParseOption | coap/coap_option.c:133-250 | The option read at an offset of the buffer is the decoded one |
| CoapMessages.FormatOption | coap/coap_option.c:262-375 | Writes the encoded option in place, or only measures it, whether or not the value lies in the same buffer |
| CoapMessages.ParseOptions | coap/coap_option.c:81-120 | The offset reported is where the decoded options end |
| CoapMessages.Search | coap/coap_option.c:405-460 | The walk stops at the slot of the specification, with the number and size that belong to it |
| CoapMessages.CoapMessage.SetOption | coap/coap_option.c:388-531 | In place, by moving the tail and re-encoding the follower: the bytes and the status are those specified, whose meaning is SetRefinesView |
| CoapMessages.CoapMessage.DeleteOption | coap/coap_option.c:688-810 | In place: the bytes and the status are those specified, whose meaning is DeleteRefinesView |
| CoapMessages.CoapMessage.GetOption | coap/coap_option.c:571-639 | Offset and length of the specified value |
| CoapMessages.CoapMessage.SetUintOption | coap/coap_option.c:543-558 | Sets the shortest encoding of the integer |
| CoapMessages.CoapMessage.GetUintOption | coap/coap_option.c:651-677 | Reads the value of the option as an integer of 32 bits |
| CoapMessages.CoapMessage.Parse | coap/coap_message.c:51-101 | Accepts exactly the readable messages without a marker in front of nothing, and says what is wrong with the others |
| CoapMessages.CoapMessage.ParseMessageHeader | coap/coap_message.c:112-141 | Version, token length and message length are checked in this order |
| CoapMessages.CoapMessage.SetPayload | coap/coap_message.c:252-313 | In place, and with the zero behind it, which falls on the low byte of the length when the buffer is full: the bytes and the status are those specified, whose meaning is SetPayloadRefinesView |
| CoapMessages.CoapMessage.GetPayload | coap/coap_message.c:324-375 | Offset and length of the payload of the view |
| CoapMessages.CoapMessage.WritePayload | coap/coap_message.c:386-456 | In place, and with the zero behind it: the bytes and the status are those specified, whose meaning, success included, is WritePayloadRefinesView |
| CoapMessages.CoapMessage.ReadPayload | coap/coap_message.c:468-537 | Hands out the next bytes of the payload and moves on by as many, so that successive calls stream it once |
| RepeatableOptions.Split | coap/coap_option.c:822-864 | Sets one occurrence per non-empty segment, in order |
| RepeatableOptions.SetAllMeaning | coap/coap_option.c:822-864 | After a successful split the option holds the segments from that index on and the other options are untouched |
| RepeatableOptions.SetAllFits | coap/coap_option.c:822-864 | A split succeeds whenever five bytes and the segment fit for every segment |
| RepeatableOptions.Join | coap/coap_option.c:877-941 | Joins the values held, or reports that there is no room and leaves a beginning of them |
| RepeatableOptions.JoinMeaning | coap/coap_option.c:877-941 | For any values, empty ones included: joining succeeds exactly when everything up to the last non-empty value fits, and yields the joined string, less the separators behind that do not fit; a query has no separator behind the empty values that it starts with |
| RepeatableOptions.JoinExamples | coap/coap_option.c:877-941 | The path /a/b and the query a&b, byte by byte |
| RepeatableOptions.SegmentsOfJoined | coap/coap_option.c:822-941 | Joined segments split into the same segments |
| RepeatableOptions.SplitThenJoin | coap/coap_option.c:822-941 | Splitting and joining normalises a string: each non-empty segment behind its slash, or joined by ampersands; canonical strings come back unchanged (sections 6.4 and 6.5 of RFC 7252) |
| BlockOption.FieldsWritten | coap/coap_option.h:62-78 | Number, more flag and size written over any value read back, the number as a position in bytes |
| BlockOption.BlockFormat | coap/coap_option.h:62-78 | The layout of section 2.2 of RFC 7959 for every number, flag and size: what is read from the value, and the eight block sizes |
| BlockOption.NextAligned | coap/coap_client_block.c:175-392 | After a block, the next position is a multiple of every smaller block size, so it has a block number |
| BlockUpload.IntermediatesCount | coap/coap_client_block.c:175-392 | Every block sent that announces more carries 16 bytes or more, so the size of the body bounds the number of requests |
| BlockUpload.AfterBlock | coap/coap_client_block.c:175-392 | An acknowledged block keeps the account of the upload, for every size the server may ask for |
| BlockUpload.AfterLast | coap/coap_client_block.c:175-392 | After the final block the account is closed: all that was written has been sent |
| BlockDownload.AfterFullBlock | coap/coap_client_block.c:404-596 | Reading a full block to its end and asking for the next keeps the account of the download |
| BlockDownload.AfterEnd | coap/coap_client_block.c:404-596 | A response read to its end that announces no more closes the account |
| BlockTransfer.CoapClientRequest.WriteBody | coap/coap_client_block.c:175-392 | Whatever the server answers. Success means that every request was answered with a code of success and, when it carried one of several blocks, acknowledged at its position; that each block has the size of the one before or the smaller one that the acknowledgment of that names; and that the data is in the logged payloads and the one under construction, or, at the end, the log carries the whole body, block by block, exactly when every payload write had room for its zero. With room to spare, which also rules out lost data, the call fails only when the last request sent was not accepted, with the status that this has. The last request asks for the response by the preferred size, from its start |
| BlockTransfer.CoapClientRequest.UploadInParts | coap/coap_client_block.c:175-392 | The same over a whole upload cut into calls in any way: a success is an upload all of whose requests were accepted, whose block sizes are those negotiated from the preferred one on, and whose payloads concatenate to the data exactly when every payload write had room for its zero; from a request with room to spare it fails exactly when the server does not accept a request |
| BlockExchange.ContinueExample | coap/coap_client_block.c:321-356 | The response 2.31 with 1:0/1/64, byte by byte, acknowledges the block at 0 and asks for 64 bytes |
| BlockRoom.AccountWrite | coap/coap_client_block.c:175-392 | One payload write keeps the account of an upload exactly when there is room for the zero; otherwise data has been lost that no later block makes up for |
| BlockRoom.SpoiledLast | coap/coap_client_block.c:175-392 | An upload that has lost data never ends with the whole body sent |
| MessageRoom.LeanSize | coap/coap_option.c:262-375 | A message takes at most six bytes more than without its Block1 option, wherever that stands among the options |
| MessageRoom.UintFits | coap/coap_option.c:463-491 | An integer option always fits into a message with six bytes to spare |
| BlockRoom.RoomyWrites | coap/coap_client_block.c:175-392 | A request that leaves room for the largest block, its marker and the largest Block1 option never fills the buffer |
| BlockRoom.FullBufferExample | coap/coap_client_block.c:175-392 | A request of 127 bytes, ready for an upload, of whose first block of 1024 bytes 896 are kept, with success |
| MessageUse.CutUse | coap/coap_message.c:386-456 | What a write without room for its zero leaves: an unreadable message, or a well-formed beginning of it with less payload than that and the data together, and with other options only if no payload is left |
| BlockTransfer.CoapClientRequest.ReadBody | coap/coap_client_block.c:404-596 | Whatever the server answers, the call ends; the responses read since are the replies to the requests sent, all with a code of success; each request asks for the block behind those read, in the smaller of the size asked for before and that of the block; the bytes delivered are those of the blocks consumed, each full and where the request asked for it, and then those of the response being read, which are handed out unchecked; an end is reported only behind a block in its place that announces no more; and a call with room for a Block2 option in its request fails only when that was not answered with success, or a response read to its end is not what was asked for |
| BlockDownload.ContiguousExactly | coap/coap_client_block.c:425-500 | What has been delivered is without gap or overlap exactly when nothing of the response being read has been, or that response gives the position asked for: the number of a block is looked at only after its payload has been read |
| BlockDownload.MisplacedExample | coap/coap_client_block.c:425-500 | A response on which the bytes delivered are not those of the position asked for |
| BlockDownload.DeliveredIsPrefix | coap/coap_client_block.c:404-596 | What has been delivered of the datagrams of a server that describes its blocks truly, however long they are, is the beginning of the body, unless the response being read is misplaced |
| BlockDownload.DownloadedIsBody | coap/coap_client_block.c:404-596 | A download from such a server that has come to its end has delivered the whole body exactly when neither payload nor Block2 option of the last datagram has been cut off; it has if that datagram is shorter than 1152 bytes |
| BlockDownload.BufferedBlock | coap/coap_client_misc.c:95-115 | Of a datagram the buffer holds a beginning of the payload, described as in the datagram; all of a payload exactly when the datagram is shorter than 1152 bytes |
| BlockDownload.CutDownloadExample | coap/coap_client_block.c:404-596 | A body of 1200 bytes answered in one datagram: the end is reported after 1019 |
| BlockTransfer.CoapClientRequest.DownloadInParts | coap/coap_client_block.c:404-596 | The same over a whole download cut into calls in any way, for a server that answers every sequence of requests truly: all replies are of success, a beginning of the body while it goes on, and the body at its end exactly under that condition; it fails for the same reasons only |
| BlockTransfer.CoapClientRequest.SetTxBlockSize | coap/coap_client_block.c:52-102 | The size asked for is the size used if RFC 7959 has it, else 1024 bytes |
| BlockTransfer.CoapClientRequest.SetRxBlockSize | coap/coap_client_block.c:112-162 | The same for the blocks received |
| BlockTransfer.CoapClientRequest.SendRequest | coap/coap_client_request.c:157-266 | An exchange: the next message ID, one request logged, and the datagram answered copied as far as the buffer goes, parsed and terminated in place; one that cannot be read is no response |
| RequestMachine.SetKeepsHeader | coap/coap_client_request.c:275-341 | Changing the Observe option, successfully or not, keeps header and token |
| RequestProperties.ChangeKeeps | coap/coap_client_misc.c:342-422 | Entering any state keeps the invariant, whatever the callback does to the request meanwhile |
| RequestProperties.CancelKeeps | coap/coap_client_request.c:275-341 | Cancelling keeps it, in the three outcomes |
| RequestProperties.MatchedDelivery | coap/coap_client_misc.c:432-560 | A response that matches carries the token, and the message ID when it is an acknowledgment |
| RequestProperties.ResponseKeeps | coap/coap_client_misc.c:570-648 | Processing a matched response keeps the invariant |
| RequestProperties.NotificationKeeps | coap/coap_client_observe.c:53-120 | So does processing a notification |
| RequestProperties.RoundExtended | coap/coap_client_misc.c:217-254 | One more transmission keeps a round good: same bytes, at most four, spaced by the back-off |
| RequestProperties.RetransmitKeeps | coap/coap_client_misc.c:255-294 | A retransmission begins only when the back-off has really passed, however often the 32-bit clock has wrapped |
| RequestProperties.ElapsedExactly | coap/coap_client_misc.c:255-294 | The wrapping comparison of clock readings is exact for half the range of the clock |
| RequestProperties.RequestEventsKeep | coap/coap_client_misc.c:198-332 | A turn of the timers keeps the invariant |
| RequestProperties.SendKeeps | coap/coap_client_request.c:157-266 | Sending, and waiting for the outcome, keeps it |
| RequestProperties.RunKeeps | coap/coap_client_misc.c:56-189 | Every run keeps it: any sequence of calls, datagrams, losses and delays |
| RequestOutcomes.Transmissions | coap/coap_client_misc.c:198-332 | Over every run: all that is sent under one message ID is one message, at most four times when confirmable and once otherwise, at intervals that double from a timeout of 2 to 3 seconds (section 4.2 of RFC 7252) |
| RequestOutcomes.MessageIdsDiffer | coap/coap_client_misc.c:768-777 | Over every run: rounds fewer than 2^16 apart have different message IDs, so their datagrams differ (section 4.4 of RFC 7252) |
| RequestOutcomes.Responses | coap/coap_client_misc.c:432-648 | Over every run: a response accepted carries the token of its request, and its message ID when piggybacked (section 5.3.2 of RFC 7252) |
| RequestOutcomes.Timers | coap/coap_client_misc.c:198-332 | Over every run: what state, counter and timeout say about each other |
| RequestOutcomes.GivesUp | coap/coap_client_misc.c:255-294 | For every timeout: exactly when a waiting request, with a callback or without, times out, and exactly when it is retransmitted, until the clock is half around |
| RequestOutcomes.SeparateGivesUp | coap/coap_client_misc.c:286-294 | While a separate response is awaited: it times out exactly when its timeout is overdue, whatever the timeout, and nothing else happens |
| RequestProperties.ElapsedForAny | coap/coap_client_misc.c:255-294 | The comparison for every duration of 32 bits: one above half the range of the clock has elapsed from the start and until the excess has passed |
| RequestOutcomes.TimeoutExactly | coap/coap_client_request.c:130-146 | A request is never seen to time out early exactly when its timeout does not exceed 2^31 milliseconds |
| RequestOutcomes.TimeoutExample | coap/coap_client_misc.c:255-302 | A timeout of 2^31 + 1 milliseconds that has elapsed as soon as the request has been sent |
| RequestOutcomes.LeavesInTime | coap/coap_client_misc.c:198-332 | Over the turns of the event loop, whatever datagrams arrive: a request without a callback is answered, rejected or timed out before its timeout and the time of two turns have passed |
| RequestOutcomes.AcceptedExactly | coap/coap_client_misc.c:432-560 | A message is accepted exactly when the request waits and it is a response of its own with the token, an acknowledgment with the message ID, or a Reset that names the request, of a confirmable one only with code 3 |
| RequestOutcomes.ResponseOutcome | coap/coap_client_misc.c:570-648 | What each accepted response means by its type, its Observe option and that of the request: it is delivered with that meaning, of which the callback, whatever it does, is told before anything else, and a request without a callback ends up in the state meant |
| RequestOutcomes.ResetOfConfirmable | coap/coap_client_misc.c:490-500 | A Reset ends a confirmable request exactly when it names it and its code is 3: the code is compared where the type is meant |
| RequestOutcomes.EmptyReset | coap/coap_client_misc.c:490-545 | So the Reset of RFC 7252, which is empty, ends a non-confirmable request that it names and never a confirmable one |
| RequestOutcomes.EmptyResetIgnored | coap/coap_client_misc.c:56-189 | Received by the event loop, such a Reset changes nothing |
| RequestOutcomes.Replies | coap/coap_client_misc.c:658-759 | Exactly one answer to every readable confirmable message, an acknowledgment if it is accepted and a Reset if not, and none to any other |
| RequestOutcomes.CancelDeregisters | coap/coap_client_request.c:275-341 | Cancelling an observation sends the request again with an Observe option of 1, the same token, payload and other options and a new message ID (section 3.6 of RFC 7641), or releases it when the option no longer fits |
| RequestOutcomes.RenewalAsksAgain | coap/coap_client_misc.c:304-323 | A renewal asks for the same thing with the same token under a new message ID |
| RequestOutcomes.BlockingSuccess | coap/coap_client_request.c:157-266 | A blocking call that reports success has a response with the request's token, and that response is in the buffer, which can be accessed |
| RequestMachine.ProcessEvents | coap/coap_client_misc.c:56-189 | Whatever the state of the request, and whatever its callback does, one turn of the event loop replaces the response in the buffer by what that holds of the datagram, cut and terminated |
| RequestOutcomes.RegistrationOutcome | coap/coap_client_observe.c:108-116 | A blocking registration succeeds exactly when the response has an Observe option; without one it reports a wrong state although it was answered |
| RequestOutcomes.RegistrationExample | coap/coap_client_observe.c:108-116 | A registration on which a blocking call does report a wrong state |
| RequestOutcomes.OutcomeReportedOnce | coap/coap_client_misc.c:342-422 | Over any run of network events, timers and application calls, but for those that end a request silently or address a released one: a callback that only listens learns of the end exactly once, when the request is released, besides one call for each notification |
| RequestOutcomes.SilentExactly | coap/coap_client_request.c:349-405 | A request ends without its callback being told exactly when the application deletes it, or fetches the message of an observation |
| RequestOutcomes.CanceledTwice | coap/coap_client_request.c:328-334 | Cancelling a request that has been released reports its end once more |
| RequestCalls.CallbackTold | coap/coap_client_misc.c:342-422 | Which status a callback is called with in which state, and that it is released in all of them but an observation |
| RequestCalls.CallbackStatus | coap/coap_client_misc.c:342-422 | Whatever a callback does, the status it returns is that of the state change |
| RequestCalls.SentAgain | coap/coap_client_misc.c:342-422 | A callback that sends its request again when told of a timeout: it is transmitted anew under a new message ID and not released |
| RequestCalls.MessageGranted | coap/coap_client_request.c:370-405 | The message is handed out in exactly six states, and only the state changes |
| RequestCalls.ActionsExactly | coap/coap_client_request.c:157-405 | What editing, sending, fetching and deleting do in every state |
| RequestCalls.PlainCancel | coap/coap_client_request.c:328-334 | Cancelling a request that is no observation ends it at once |
| RequestCalls.FailedReception | coap/coap_client_misc.c:95-189 | A reception that fails ends the turn with its status and leaves the timers alone, unless nothing has arrived |
| RequestCalls.FailedReply | coap/coap_client_misc.c:150-189 | So does a Reset that cannot be sent |
| RequestCalls.FailedTransmission | coap/coap_client_misc.c:217-254 | A transmission that fails counts as one that is lost |
| RequestCalls.NoTimers | coap/coap_client_misc.c:198-332 | Requests that neither wait nor observe have no timers |
| RequestCalls.BlockingStatus | coap/coap_client_request.c:157-266 | Over any inputs in which nothing fails: the status of a blocking call says exactly what has become of the request |
| RequestCalls.BlockingFails | coap/coap_client_request.c:157-266 | The first turn that fails ends the call with its status |
| RequestCalls.SendWithCallback | coap/coap_client_request.c:157-266 | With a callback the call only starts the exchange |
| RequestCalls.HeaderExactly | coap/coap_message.c:112-141 | For every value of the fields of the header: which are accepted, what the others are rejected for, and what is read from them |
| RequestCalls.EmptyMessages | coap/coap_client_misc.c:658-759 | Acknowledgment, Reset and the message of a request just created, byte by byte |
| RequestOutcomes.EndIsReported | coap/coap_client_misc.c:342-422 | Whatever a callback does to its request while it is called, the event loop never ends the request without having called it |
| Observation.AcceptsExactly | coap/coap_client_observe.c:132-182 | Within 128 seconds and 2^23 numbers the 24 bits decide as the server's own numbers would |
| Observation.AcceptsStale | coap/coap_client_observe.c:132-182 | Later than that any number is accepted, until the clock is half around |
| Observation.AcceptedExactlyNewest | coap/coap_client_observe.c:132-182 | Over any arrivals in any order: a notification is accepted exactly when its number is higher than all that arrived before (section 3.4 of RFC 7641) |
| Observation.AcceptedIncrease | coap/coap_client_observe.c:132-182 | So the numbers of accepted notifications strictly increase |
| Observation.ObservationRun | coap/coap_client_observe.c:53-120 | Over any turns of the event loop in which an observation is neither renewed nor ended, whatever else arrives: exactly the accepted notifications are delivered, in order, and a callback that listens is called once for each |
| Observation.RenewalForgets | coap/coap_client_misc.c:304-323 | Once an observation has been renewed, the next notification is accepted whatever its number |
| Observation.RenewalExactly | coap/coap_client_observe.c:80-98 | The timeout computed outlives Max-Age exactly when Max-Age and the random delay do not exceed 2^31 milliseconds together; any longer Max-Age renews the observation early (section 3.3.1 of RFC 7641) |
| Observation.RenewalExample | coap/coap_client_observe.c:80-98 | A Max-Age of almost 50 days that is renewed after 5.704 seconds |
| Observation.RenewalIsTimeout | coap/coap_client_observe.c:70-98 | That timeout is the one that every fresh notification sets, Max-Age being 60 seconds when it is absent, and 5 to 15 seconds more |
| Observation.NotificationExamples | coap/coap_client_observe.c:53-120 | Notifications with a sequence number, with a Max-Age and with neither, byte by byte |
| Observation.RenewedExactly | coap/coap_client_misc.c:304-323 | So the timers never renew an observation while its last notification is fresh, exactly under that condition |
| CoapClient.ClientRequest.ChangeRequestState | coap/coap_client_misc.c:342-422 | In place: the specified state change, with the callback reentering |
| CoapClient.ClientRequest.GenerateMid | coap/coap_client_misc.c:768-777 | In the buffer: a new message ID in network byte order |
| CoapClient.ClientRequest.ProcessResponse | coap/coap_client_misc.c:570-648 | The outcome specified on the bytes of both messages, read from their buffers |
| CoapClient.ClientRequest.ProcessNotification | coap/coap_client_observe.c:53-120 | The specified outcome of a notification, its options read from the buffer |
| CoapClient.ClientRequest.ProcessRequestEvents | coap/coap_client_misc.c:198-332 | In place: the specified turn of the timers |
| CoapClient.ClientRequest.ReceiveMessage | coap/coap_client_misc.c:95-165 | The datagram is copied into the buffer, parsed and terminated there, and matched, processed or rejected as specified |
| CoapClient.ClientRequest.ProcessEvents | coap/coap_client_misc.c:56-189 | In place: one turn of the event loop as specified |
| CoapClient.ClientRequest.SendRequest | coap/coap_client_request.c:157-266 | The loop returns the specified machine and status for every sequence of inputs; after a blocking success the buffer holds a response with the token of the request |
| CoapClient.ClientRequest.CancelRequest | coap/coap_client_request.c:275-341 | The specified cancellation, by editing the options in the buffer |
| CoapClient.ClientRequest.GetRequestMessage | coap/coap_client_request.c:370-405 | Access is granted exactly between exchanges |
| CoapClient.ClientRequest.Match | coap/coap_client_misc.c:432-560 | The headers and tokens of both buffers are compared as specified on their bytes |
| CoapClient.ClientRequest.CreateRequest | coap/coap_client_request.c:53-120 | A fresh request in a slot not in use, with the timeout of the client |
| CoapClient.ClientRequest.DeleteRequest | coap/coap_client_request.c:349-361 | The slot is released and nothing else changes |
| CoapClient.ClientRequest.Run | coap/coap_client_misc.c:56-189 | Any sequence of events on the object is the run of the machine |
| ChunkView.SpelledWritten | core/net_mem.c:637-678 | A write into one of several disjoint chunks is a write into the flat string at the right place |
| ChunkView.FlatElsewhere | core/net_mem.c:522-593 | A write into one buffer leaves another that shares no memory unchanged |
| ChunkView.ClipMore | core/net_mem.c:690-731 | Reading on into another piece continues the reading of the first |
| NetBuffers.NetBuffer.GetLength | core/net_mem.c:297-312 | The length of the flat string |
| NetBuffers.NetBuffer.At | core/net_mem.c:418-448 | An address is returned exactly when one chunk holds the segment, and the segment of the flat string lies there |
| NetBuffers.Read | core/net_mem.c:690-731 | Copies the flat string from the offset on: as many of the bytes wanted as there are, and says how many |
| NetBuffers.Write | core/net_mem.c:637-678 | Overwrites the flat string from the offset on, as far as it goes, and no memory outside the buffer |
| NetBuffers.Copy | core/net_mem.c:522-593 | Copies between flat strings through any chunks, empty ones included, always ends, keeps the source, and reports exactly whether all was copied |
| NetBuffers.Concat | core/net_mem.c:460-509 | Appends the wanted stretch of the other flat string, one descriptor for the share of each chunk, falling short only when that string ends or no descriptor is left; the chunks appended are borrowed |
| NetBuffers.Append | core/net_mem.c:604-625 | Adds a borrowed chunk exactly when a descriptor is free |
| NetBuffers.AppendExactly | core/net_mem.c:604-625 | That appends the bytes given exactly when their number fits 16 bits |
| NetBuffers.AppendExample | core/net_mem.c:604-625 | A call that succeeds and appends nothing of 65536 bytes |
| BlockOwnership.RefittedFlat | core/net_mem.c:322-352 | Adjusting the chunks keeps the common prefix of the flat string |
| BlockOwnership.GrownFlat | core/net_mem.c:376-403 | Adding chunks keeps all of it |
| NetMemory.NetMem.MemPoolAlloc | core/net_mem.c:100-158 | The first free block, exactly when the size fits and one is free; the counters stay true |
| NetMemory.NetMem.MemPoolFree | core/net_mem.c:166-197 | That block becomes free and no other; the counters stay true |
| NetMemory.NetMem.Resize | core/net_mem.c:322-407 | Succeeds exactly when the last block, the descriptors and the pool have room; then the length is the one wanted, the common prefix is kept, and no chunk is left behind the end; blocks change hands one for one |
| NetMemory.NetMem.SetLength | core/net_mem.c:322-407 | The same on a buffer of the pool, with every other buffer's blocks untouched |
| NetMemory.NetMem.Alloc | core/net_mem.c:243-274 | A buffer of the length wanted exactly when a block is free for the descriptors and enough others for what the first does not hold; else none, and no block is left behind |
| NetMemory.NetMem.Free | core/net_mem.c:282-288 | Exactly the blocks of that buffer go back |
| NetMemory.NetMem.NothingLeaks | core/net_mem.c:243-288 | When all buffers have been freed the pool is empty |
| NetMemory.ResizeGrown | core/net_mem.c:376-407 | The exact amount by which a buffer can grow |
| NetMemory.OwnerReplaced | core/net_mem.c:322-407 | Exchanging blocks between one owner and the free ones keeps the blocks in use partitioned among the buffers |
| NetMemory.BorrowingOwnsNothing | core/net_mem.c:460-625 | Adding borrowed chunks changes nothing about who owns what |
| NetMemory.NetMem.AppendTo | core/net_mem.c:604-625 | Appending to a live buffer keeps the pool valid: counters, table and the partition of the blocks in use among the buffers |
| NetMemory.NetMem.ConcatTo | core/net_mem.c:460-509 | So does concatenating to one |
| OnesComplement.OnesSumWeight | core/ip.c:471-580 | The one's complement sum of the 16-bit words (section 1 of RFC 1071) is the weighted byte sum modulo 65535, zero told apart |
| OnesComplement.ByteOrder | core/ip.c:471-580 | The sum is independent of the byte order of the host but for the order in the result (section 2 of RFC 1071) |
| OnesComplement.ChecksumExactly | core/ping.c:259-297 | A message checks out exactly when its field holds its checksum, or the other zero when that is zero |
| IpChecksum.SummedDouble | core/ip.c:519-541 | Adding four bytes at once with the carry added back loses nothing |
| IpChecksum.SumHead | core/ip.c:485-517 | The bytes up to the first aligned word, for each of the four alignments |
| IpChecksum.IpCalcChecksum | core/ip.c:471-580 | For every string of bytes at every address the fast form is the complement of the one's complement sum, and no 32-bit addition overflows unnoticed |
| IpChecksum.ChecksumExample | core/ip.c:471-580 | The example of section 3 of RFC 1071, byte by byte |
| IpChecksum.JoinedSum | core/ip.c:622-641 | Joining the sums of two pieces, the first even or odd, gives the sum of both |
| IpChecksum.IpCalcChecksumEx | core/ip.c:591-652 | For every division into chunks, empty and odd ones included, the checksum of the stretch of the flat string |
| IpChecksum.IpCalcUpperLayerChecksum | core/ip.c:664-678 | The complement of the folded sums of pseudo header and data |
| IpChecksum.IpCalcUpperLayerChecksumEx | core/ip.c:691-705 | The same over a multi-part buffer |
| IpChecksum.UpperLayerExactly | core/ip.c:664-705 | That is the checksum of both one after the other exactly when the pseudo header is even or the sum of the data is symmetric |
| IpChecksum.UpperLayerExample | core/ip.c:664-705 | A pseudo header and data of one byte each on which it is not |
| IpChecksum.FilledChecksOut | core/ping.c:259-297 | Filling the field with the checksum makes verification return zero, alone and behind a pseudo header, for all sums |
| Ping.PingContext.FormatRequest | core/ping.c:214-297 | The request in memory is the echo message sealed with its checksum, for IPv4 and IPv6, and no byte outside it is written |
| Ping.PingContext.CheckReply | core/ping.c:367-485 | A message is accepted exactly when it is an echo reply to this request that checks out |
| Ping.PingContext.MirrorAccepted | core/ping.c:214-485 | The mirrored reply is accepted, and nothing with another identifier, number or checksum is |
| Crc32.StepLinear | core/ethernet_misc.c:515-538 | A step of the register is linear |
| Crc32.TableIsSteps | core/ethernet_misc.c:67-133 | Each of the 256 entries of the table is what eight bit steps make of its index |
| Crc32.LookupIsAbsorb | core/ethernet_misc.c:486-538 | One look-up does the work of eight steps, for every register and byte |
| Crc32.ResidueExactly | core/ethernet_misc.c:486-540 | Four bytes behind a frame leave the residue 0x2144DF1C exactly when they are its CRC, lowest byte first |
| Crc32.WrittenBack | core/ethernet_misc.c:486-540 | Four bytes read as a word and written again are the same bytes, so different bytes are different words |
| Crc32.CheckValue | core/ethernet_misc.c:486-540 | The CRC of "123456789" is 0xCBF43926, and that of nothing is zero |
| Crc32.LeadingZeros | core/ethernet_misc.c:486-540 | A zero byte more in front always changes the CRC, as it does from every register but a clear one |
| Crc32.BurstDetected | core/ethernet_misc.c:486-540 | Frames that differ within four neighbouring bytes only have different CRCs |
| EthernetFrames.UpdateBits | core/ethernet_misc.c:515-534 | Eight steps of the loop take in one byte |
| EthernetFrames.EthCalcCrc | core/ethernet_misc.c:486-540 | Both forms compute the CRC of the bytes, whose check value is CheckValue |
| EthernetFrames.EthCalcCrcEx | core/ethernet_misc.c:551-617 | Both forms, over any chunks, compute the CRC of the stretch of the flat string |
| EthernetFrames.EthPadFrame | core/ethernet_misc.c:145-174 | A short frame is extended by zeros to 60 bytes and no other is changed; that fails exactly when no descriptor is left for a short one |
| EthernetFrames.FinishFrame | core/ethernet.c:553-591 | What is handed over is the frame padded and sealed, as far as the hardware does not do so; that fails exactly when there are not enough descriptors, and writes no memory but that of the CRC |
| EthernetFrames.EthCheckCrc | core/ethernet_misc.c:628-651 | The verdict on a received frame |
| EthernetFrames.AcceptedExactly | core/ethernet_misc.c:628-651 | Whatever its length: a frame is accepted exactly when it has 18 bytes and its last four are the CRC of those before, or the hardware has checked it; which error else |
| EthernetFrames.SealedAccepted | core/ethernet.c:553-591 | What a sender pads and seals a receiver accepts, and it has at least 64 bytes (section 3.2.9 of IEEE 802.3) |
| EthernetFrames.DamageDetected | core/ethernet_misc.c:628-651 | A sealed frame damaged within four neighbouring bytes is rejected |
| Trivium.NextInjective | core/net_misc.c:1039-1091 | No two states of the cipher have the same successor |
| Trivium.LoadedApart | core/net_misc.c:899-947 | Different keys or vectors never lead to the same state |
| Trivium.StreamOfKey | core/net_misc.c:899-1091 | Every bit of key stream, however late, is the one that the recurrence of the cipher yields for key and vector |
| RandomGenerator.SetBit | core/net_misc.h:48-52 | One bit of the packed state is set and no other changes |
| RandomGenerator.RotateState | core/net_misc.c:1072-1080 | Every bit of the packed state moves one place up |
| RandomGenerator.BitOrder | core/net_misc.h:48-52 | The order of bits in bytes and numbers, and of the bytes of the counter |
| RandomGenerator.GenerateRandBit | core/net_misc.c:1039-1091 | A step on the 36 bytes is a step of the three shift registers (section 2.1 of the Trivium specification), with the same bit of key stream |
| RandomGenerator.RandState.InitRand | core/net_misc.c:899-947 | Key, vector and the three ones are loaded where section 2.2 has them, and the state is rotated four cycles; the vector counts the initializations |
| RandomGenerator.RandState.GenerateRand | core/net_misc.c:956-972 | 32 bits of key stream, lowest first, plus the entropy modulo 2^32 |
| RandomGenerator.RandState.GenerateRandRange | core/net_misc.c:983-1001 | A value within the bounds, both included, or the lower bound without touching the state, unless the divisor, computed in 32 bits, is zero |
| RandomGenerator.RangeSizeExactly | core/net_misc.c:983-1001 | The divisor is zero for the full range of 32 bits and for no other |
| RandomGenerator.RandState.GenerateRandData | core/net_misc.c:1011-1030 | Each byte is eight bits of key stream plus the entropy, one byte after the other |

## Left out

- RandomGenerator.RandState.GenerateRandRange: requires that the divisor is not zero, because the source divides by zero there.
- BlockTransfer.CoapClientRequest.WriteBody: bodies of 2^32 bytes or more are not covered, because positions are kept in 32 bits; the source limits block numbers no further than that.
- BlockTransfer.CoapClientRequest.ReadBody: positions are those of 32-bit arithmetic, so the places of blocks are modulo 2^32 for longer bodies.
- BlockTransfer.CoapClientRequest.UploadInParts: says when an upload fails only for requests with room to spare (`Spacious`); any other may also fail for want of room in the message.
- BlockTransfer.CoapClientRequest.DownloadInParts: likewise for requests with room for a Block2 option (`HasRoom`).
- BlockTransfer.CoapClientRequest.SendRequest: an exchange is a new message ID, one logged request and one answer or none, every failure being a timeout; its retransmissions, status codes and the check of tokens are the subject of the request machine.
- CoapClient.ClientRequest.ProcessEvents: one turn of the loop; where an operating system is present the source repeats turns until a datagram arrives or its timeout passes, which is several inputs here.
- CoapClient.ClientRequest.CreateRequest: the block sizes that a new request starts with are those of the constructor in the model of block-wise transfer.
- RequestOutcomes.OutcomeReportedOnce: for callbacks that only listen, because one that acts on its request can have it sent again or deleted; EndIsReported holds for every callback.
- Observation.ObservationRun: likewise for callbacks that only listen, since any other may end the observation.
- Observation.RenewalIsTimeout: likewise for callbacks that only listen.
- Observation.RenewedExactly: likewise for callbacks that only listen.
- RequestOutcomes.LeavesInTime: for turns in which reception and replies do not fail, because the source leaves the timers out of a turn whose reception fails.
- Bytes behind the length of a message, but for the zero that the payload calls and reception store there.
- Values, payloads or data buffers that alias the message buffer they are written to.
- More than one outstanding request per client (the default is one), and a callback that itself makes a blocking call.
- An application that changes a request message while an exchange is going on; the interface does not hand it out then.
- Percent-coding of paths and queries, which the program does not do either.
- Sockets, DTLS, mutexes, events and tasks: the request machine is given their outcomes.
- Heap allocation in place of the fixed pool, and the contents of the descriptor block of a pooled buffer.
- Buffers whose chunks share memory with one another, where the order of writes would matter.
- Big-endian hosts; `ByteOrder` says how their checksums relate.
- VLAN and port tagging, frame headers, MAC filters and statistics.
- Address selection and waiting for a reply in ping; TCP, drivers, name resolution and configuration.
