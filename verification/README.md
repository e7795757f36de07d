# A verified model of the iPod accessory protocol stack

The repository lets a machine play the iPod for a car radio: it speaks the iPod accessory protocol
over USB HID reports and feeds the radio from a Bluetooth (AVRCP) source. This project models its
layers in Dafny and proves what they promise, separately and together:

- **Packets** (`checksum.dfy`, `packet.dfy`, `packet_laws.dfy`): start byte, short and long length
  headers, checksum, and the loop that scans a frame for packets.
- **HID reports** (`hid.dfy`, `hid_laws.dfy`, `hid_decoder.dfy`, `hid_decoder_laws.dfy`): frames cut
  into zero-padded reports with link controls, and their reassembly.
- **Traces** (`sequences.dfy`, `trace_queue.dfy`, `trace_queue_laws.dfy`, `trace_text.dfy`,
  `trace_text_laws.dfy`, `dump_trace.dfy`, `dump_trace_laws.dfy`): the queue of three linked lists, the
  text form, and the dump that takes two interleaved directions apart, with what it can lose.
- **Commands** (`lingo.dfy`, `command.dfy`, `command_modes.dfy`): ids, the registry, the lookup by
  payload length, and the serialiser whose transaction mode is state on both sides, also when commands
  fail, are lost, or cross.
- **Identification and authentication** (`idps.dfy`, `idps_laws.dfy`, `idps_wire.dfy`, `authentication.dfy`):
  token lists and their acknowledgement, and the certificate that arrives in sections.
- **AVRCP** (`avrcp.dfy`, `avrcp_protocol.dfy`, `avrcp_operations.dfy`, `avrcp_laws.dfy`): goroutines that
  poll, fetch and control, and one consumer, interleaved at every critical section, flag and channel operation.
- **The layers together** (`stack.dfy`, `session.dfy`): frames through reports, reports through a
  recorded trace, and commands through everything.
- **Small encodings** (`buttons.dfy`, `utf8.dfy`): button masks and string clamping.

Code that changes state is a class or a loop, proved against a function of the old state; the laws
are then lemmas about those functions. What goes over a wire, into a file or into shared state is
described a second time, byte by byte or field by field, by predicates that use none of these functions
(`Packets.IsPacket`, `Commands.IsPacket`, `HidDecoderLaws.IsMessage`, `IdpsWire.IsToken`,
`Avrcp.IsMerged` and their like), and proved to hold of them. Bytes are integers from 0 to 255. Where a slice expression of
the source can panic, the model has an outcome for the panic.

## What the code does not do

Where the source departs from what it seems meant to do, the model follows the source, and a lemma
says exactly when it does what it should.

- A payload of exactly 256 bytes gets length byte 0, which the reader takes for the long form: it
  never comes back (`PacketLaws.NotAt256`). Payloads come back exactly for lengths 1 to 255 and 257
  to 65535 (`PacketLaws.ReadBackExactly`).
- A packet whose header announces more than is left is meant to give `io.ErrUnexpectedEOF`. Reslicing
  beyond the length reaches into the capacity or panics, so that error is only ever given for fewer
  than three bytes (`PacketLaws.ShortPacketOutcome`).
- Fragmentation uses the fewest reports for frames of every length exactly when the last entry
  towards the accessory is the largest (`HidLaws.OptimalIff`); both tables qualify.
- `fetchTrack` writes back a copy of the whole state that it took before. If Play or Pause comes in
  between, the update is lost and the car is left with the wrong play state
  (`AvrcpLaws.StaleCopyBackLosesAnUpdate`). `Playing` and `lastKnownPlaying` agree throughout a run
  exactly when no stale copy is written back (`AvrcpProtocol.AgreesExactlyWhenFresh`).
- `dumpTrace` stops when the direction at the head of the queue ends inside a frame, and then drops
  what is left of the other direction (`DumpTraces.CutLosesTheOtherDirection`). It loses nothing exactly
  when no frame of the other direction starts behind such an unfinished frame
  (`DumpTraceLaws.LosesNothingExactly`); a direction ends inside a frame exactly when its last report is
  recognised and does not end one (`DumpTraceLaws.CutExactly`).
- A command that fails to marshal, or whose frame the device loses, has already changed the sender's
  transaction mode. The two ends then differ exactly when the last command that sets the mode and the
  last of these that arrives set different ones (`CommandModes.ModesAgreeExactly`). Values of the
  registered types never fail (`CommandModes.RegisteredSettersAgree`), but a RequestIdentify can be lost
  (`CommandModes.LostIdentifyParts`).
- A RequestIdentify that crosses a StartIDPS leaves the two ends in different modes
  (`CommandModes.CrossingParts`). Once all has arrived they differ exactly when the last command that
  sets the mode crossed one that sets the other mode (`CommandModes.CrossingExactly`).
- A token list comes back with up to 244 lingoes in a token, and beyond that only by accident: a last
  identify token of 248 to 255 zeros is cut short and filled up again
  (`IdpsLaws.TokensRoundTripExactly`).
- A bare `ACKDataDropped` is read as an `ACKPending` with a transaction, and the extended and the
  position form of `PlayStatusChangeNotification` are never found (`Lingos.RegisteredLists`).
- The reply to a token list that holds a token of an unknown kind cannot be marshalled, so it is never
  sent (`Idps.ReplySentExactly`).
- A trace message of more than 21844 bytes can be written but not read (`TraceText.StreamRoundTripExactly`).

## Model

| member | source | states |
|---|---|---|
| Checksums.Checksum | crc.go:36-42 | the 8-bit loop gives the two's complement of the sum of all bytes |
| Checksums.ChecksumCloses | crc.go:36-42 | the checksum is the one byte that brings the sum of what it is appended to down to zero |
| Checksums.Crc8.Write | crc.go:16-21 | the running sum is that of everything written since the last reset |
| Checksums.Crc8.Sum8 | crc.go:23 | however the input was cut into writes, the digest is the checksum of all of it |
| Packets.PacketReader.ReadPacket | packet.go:64-76 | one call: the first start byte, the packet behind it or an error or a panic, and what is left of the frame |
| Packets.PacketWriter.WritePacket | packet.go:88-107 | appends exactly the start byte, the length in one byte up to 256 and in a zero and two bytes above, the payload, and the byte that makes the sum of all but the first zero; an empty payload is refused and nothing is written |
| Packets.PacketExactly | packet.go:88-107 | those are the bytes of the encoding and no others |
| Packets.ReadPackets | cmd/ipod/main.go:495-510 | the reading loop delivers what the recursive scan of the frame delivers |
| PacketLaws.ReadBack | packet.go:32-107 | a packet with 1 to 255 or 257 to 65535 bytes reads back, whatever follows it and lies in the capacity |
| PacketLaws.NotAt256 | packet.go:96-103 | no 256-byte payload ever reads back |
| PacketLaws.ReadBackExactly | packet.go:32-107 | a packet reads back if and only if its payload has one of those lengths |
| PacketLaws.ShortPacketOutcome | packet.go:32-62 | the error for short packets is given only below three bytes; otherwise they panic or fail the checksum |
| PacketLaws.PanicsOnlyWhenShort | packet.go:52-74 | a panic means that the header announced more bytes than were left |
| PacketLaws.ScanRoundTrip | packet.go:64-107 | any list of framable payloads, written one behind the other and zero-padded, scans to that list and then EOF |
| PacketLaws.CallsBounded | cmd/ipod/main.go:497-509 | on any frame the loop makes at most as many non-EOF calls as there are start bytes |
| PacketLaws.ParsedIffFramed | packet.go:47-62 | a packet is accepted exactly when a length byte, or a zero and two length bytes, that many bytes and a sum of zero modulo 256 are all there |
| PacketLaws.ScanSound | packet.go:64-76 | the payloads come from complete packets in the frame, in order and without overlap |
| PacketLaws.ScanComplete | packet.go:64-76 | unless it panics, the scan misses no complete packet except those inside packets it delivered |
| Hid.Pick | hid/report_def.go:77-94 | the loop settles on what the recursive search settles on, or fails when no entry has the direction |
| HidLaws.PickExactly | hid/report_def.go:77-94 | the first entry of the direction that takes all the bytes besides its link control; when none does, the last of the direction |
| Hid.Find | hid/report_def.go:97-104 | the first entry with the id, or an error |
| Hid.Encoder.WriteFrame | hid/hid.go:34-69 | the loop ends and writes exactly the fragments of the frame; when the device fails, the ones before that |
| HidLaws.PicksRoomExactly | hid/report_def.go:77-94 | an entry with room is picked if and only if the last of the direction has room or some entry takes all the bytes, which is what WriteFrame needs |
| HidLaws.FragmentContents | hid/hid.go:34-69 | the reports carry the frame followed by nothing but zeros |
| HidLaws.FragmentGrammar | hid/hid.go:39-51 | link controls are Done, or MoreToFollow, any number of both bits, Continue |
| HidLaws.FragmentSizes | hid/hid.go:52-58 | every report is as long as an entry of the direction with its id, and at least one byte |
| HidLaws.FragmentEntries | hid/hid.go:37-66 | every report is of the entry that is picked for the bytes that the reports before it left over |
| HidLaws.FragmentCount | hid/hid.go:34-69 | the exact number of reports for any table |
| HidLaws.ChunksMinimal | hid/hid.go:34-69 | no way of cutting into chunks of at most m bytes needs fewer than the ceiling of n/m |
| HidLaws.OptimalIff | hid/hid.go:34-69 | the encoder reaches that minimum for every frame if and only if the last entry of the direction is the largest |
| HidLaws.DefaultTableOptimal | hid/report_def.go:38-48 | the default table does, with 62 bytes to a report |
| HidLaws.LegacyTableOptimal | hid/report_def.go:51-74 | the legacy table does, with 766 bytes to a report |
| HidDecoder.ReportReader.ReadReport | hid/report_transport.go:33-46 | takes the first message of its direction and no other; fewer than three bytes are an error |
| HidDecoderLaws.RawReadMeans | hid/report_transport.go:33-46 | any message: its id, its link control and the first 1022 bytes of the rest, or an error when there are none |
| HidDecoder.Decoder.ReadFrame | hid/hid.go:88-120 | reassembles one frame, taking from the queue just the messages it used |
| HidDecoderLaws.RawRoundTripExactly | hid/report_transport.go:26-67 | a report survives its raw form if and only if it has 1 to 1022 bytes of data |
| HidDecoderLaws.MessagesOnTheWire | hid/hid.go:34-69 | the messages of a frame: the id of the entry picked for what is left, link control 0 for a single one and otherwise 2, then threes, then 1, and as many bytes as the entry holds |
| HidDecoderLaws.BytesOnTheWire | hid/report_transport.go:60-67 | behind the first two bytes, the messages carry the frame and then only zeros |
| HidDecoderLaws.DecodeStops | hid/hid.go:92-118 | on any input the decoder stops at the first report that ends a frame, is unknown or fails, or at the end |
| HidDecoderLaws.DecodeAppends | hid/hid.go:102-117 | without a restarting report the frame is the buffer and then, of each report in order, the longest prefix of its data that the first entry with its id allows |
| HidDecoderLaws.DecodeSince | hid/hid.go:102-117 | otherwise it is made of those prefixes since the last Done or MoreToFollow report |
| HidDecoderLaws.AbsorbMeans | hid/hid.go:102-117 | what one recognised report does to the buffer: it appends that prefix, or restarts with it, or with any other link control changes nothing |
| HidDecoderLaws.DecodeDone | hid/hid.go:102-117 | a lone Done report gives a prefix of its data, as long as the data or as the first entry with its id allows, whichever is less |
| HidDecoderLaws.ContributionUnique | hid/hid.go:102-117 | there is only one such prefix |
| HidDecoderLaws.DistinctIdsCompatible | hid/report_def.go:97-104 | distinct one-byte ids make the decoder find the entry that the encoder used |
| HidDecoderLaws.Resynchronises | hid/hid.go:34-120 | after any prefix of an aborted frame, a complete frame comes back as itself and zero padding |
| TraceQueue.Queue.Enqueue | trace/trace.go:212-216 | appends to the one abstract sequence, and keeps all three lists and both handles of every item consistent |
| TraceQueue.Queue.Head | trace/trace.go:218-228 | the first message of the sequence, if any |
| TraceQueue.Queue.Dequeue | trace/trace.go:230-243 | removes the first message, from both lists it is in |
| TraceQueue.Queue.DequeueDir | trace/trace.go:245-258 | removes the first message of the direction and leaves the rest in order |
| TraceQueueLaws.Execute | trace/trace.go:212-258 | a queue put through any list of operations delivers and keeps what the abstract run says |
| TraceQueueLaws.FifoPerDirection | trace/trace.go:192-258 | over any mix of operations, what a direction delivers and still holds is what it held and was given, in order |
| TraceQueueLaws.Conservation | trace/trace.go:212-258 | over any mix of operations no message is lost, made up or delivered twice |
| TraceQueueLaws.FifoOverall | trace/trace.go:212-243 | without DequeueDir the queue is first in, first out over both directions |
| TraceText.MsgRoundTrip | trace/trace.go:51-81 | a printed message parses to its direction and data |
| TraceText.NormalForm | trace/trace.go:51-81 | any line that parses prints to a line that parses to the same message |
| TraceText.Reader.ReadMsg | trace/trace.go:95-116 | skips empty lines, numbers what it reads, and repeats the error that ended the input |
| TraceText.Writer.WriteMsg | trace/trace.go:128-137 | writes one line, or nothing when the message cannot be printed |
| TraceText.StreamRoundTripExactly | trace/trace.go:95-137 | a written trace reads back, numbered from zero, if and only if every line fits the scanner's buffer |
| TraceText.NumberedWithoutGaps | trace/trace.go:99-110 | from any text, what is read is numbered without gaps and can be printed again |
| TraceTextLaws.MsgAsText | trace/trace.go:51-62 | the line of a message: an arrow, and for every byte a space and two upper-case digits, the higher first |
| TraceTextLaws.SpellingRead | trace/trace.go:64-81 | every spelling is read: digits of either case with spaces anywhere, white space in front, and anything behind the last pair |
| TraceTextLaws.SpaceMeans | trace/trace.go:72-77 | white space is recognised by the Unicode character that the text starts with |
| TraceTextLaws.SpaceIsCharacter | trace/trace.go:72-77 | and bytes that are no character are none |
| TraceTextLaws.HalfPairBad | trace/trace.go:64-81 | half a pair of digits makes a line bad |
| TraceTextLaws.LineEndings | trace/trace.go:95-116 | a line ends with a newline, with or without a carriage return; empty ones are skipped, bad ones cost no number and not the lines behind them |
| TraceTextLaws.LastLine | trace/trace.go:95-116 | the last line need not be ended |
| DumpTraces.DumpTrace | cmd/ipod/main.go:662-694 | the loops end and give the log of the abstract dump; every turn removes a message |
| DumpTraces.Demultiplexes | cmd/ipod/main.go:678-694 | each direction's log is a prefix of its own decoding, as if the other were not there; the queue is emptied if and only if neither ends inside a frame |
| DumpTraceLaws.DumpsInOrder | cmd/ipod/main.go:678-694 | the outcomes of both directions are shown in the order in which they start in the trace |
| DumpTraceLaws.CutExactly | hid/hid.go:92-118 | reports end inside a frame if and only if the last one is recognised and does not end a frame |
| DumpTraceLaws.CutByLastMessage | cmd/ipod/main.go:678-694 | so a direction of a trace does if and only if its last message says so |
| DumpTraceLaws.LosesNothingExactly | cmd/ipod/main.go:678-694 | every outcome of both directions is dumped if and only if, in each direction that ends inside a frame, no outcome of the other starts behind that frame's start |
| DumpTraceLaws.DumpOfText | cmd/ipod/main.go:662-694 | so it is for the messages that the reader makes of any text |
| DumpTraces.CutLosesTheOtherDirection | cmd/ipod/main.go:689-692 | a trace on which a complete frame is dropped |
| Stack.RoundTrip | packet.go:64-107 | packets in one frame, fragmented, reassembled after an aborted frame and scanned, come back in order and then EOF |
| Stack.DecodeSession | hid/hid.go:34-120 | the reports of any number of frames decode to those frames, padded, and then end of input |
| Stack.InterleavedSessions | cmd/ipod/main.go:662-694 | two sessions, each with the entries of its own direction, whose reports interleave in any way are dumped completely and separately |
| Stack.RecordedSessions | trace/trace.go:95-137 | the same when the interleaved trace was written to text and read again |
| Stack.ArrivalScans | cmd/ipod/main.go:495-510 | a padded frame scans to the payloads that were put into it |
| Stack.DistinctIdsLink | hid/report_def.go:77-104 | tables with distinct one-byte ids and, for the direction, a last entry with room meet all these laws |
| Stack.DefaultTableLinks | hid/report_def.go:38-48 | the default table does |
| Stack.LegacyTableLinks | hid/report_def.go:51-74 | the legacy table does in both directions |
| Lingos.IDRoundTripExactly | lingo.go:41-83 | an id survives the wire if and only if it has no bits above the lingo and its command fits the lingo's width |
| Lingos.Registry.StoreMapping | lingo.go:93-96 | appends the type to its id's list; every registered type stays listed under the id it maps to |
| Lingos.Registry.LookupID | lingo.go:138-146 | a payload is sent under an id whose list holds its type |
| Lingos.Lookup | lingo.go:156-190 | the loop finds the first type of the length, with a transaction exactly when its size is two less; failing that the only type, with a transaction by default; otherwise nothing |
| Lingos.LookupMeans | lingo.go:156-190 | the lookup as a function of list and length is that too |
| Lingos.AllRecoveredExactly | lingo.go:156-190 | all types of a list are recovered with and without transaction if and only if the sets {s, s+2} are disjoint |
| Lingos.OrderIrrelevant | lingo.go:93-96 | then they are recovered in every order of registration |
| Lingos.ShadowedNeverFound | lingo.go:156-190 | a type behind another of its size is never found |
| Lingos.RegisteredLists | lingo-extremote/extremote.go:51-56 | of the four lists with several types, sizes 17/21 and 4/1 are unambiguous, 2/6/8 are not, and of 2/5/2/5 the last two are never found |
| Commands.CommandSerde.HandleCmdID | cmd.go:68-88 | transactions go off with 0x00 and 0x13, on with 0x38, and stay as they were with any other id |
| Commands.CommandSerde.MarshalCmd | cmd.go:90-121 | the packet byte by byte: lingo, command in one or two bytes, the transaction high byte first when on and given, payload; and the new mode, also when marshalling fails, which it does exactly without a marshalable payload |
| Commands.EncodedIsPacket | cmd.go:90-121 | the packets of all laws about sessions are those bytes |
| Commands.PacketUnique | cmd.go:90-121 | which leave nothing open |
| Commands.CommandSerde.UnmarshalCmd | cmd.go:123-163 | the command or the error, and the new mode |
| Commands.ReceivedMeans | cmd.go:123-163 | any packet byte by byte: id, the transaction as 0x100 times the first and the second byte behind it when the lookup says so, and as many bytes as the type has; which packets are too short or unknown; and the new mode |
| Commands.BodyDecodesExactly | cmd.go:123-163 | a command, its payload taken as bytes, decodes to itself if and only if no earlier type of its id matches the length of the payload |
| Commands.PacketDecodesExactly | cmd.go:90-163 | the same for whole packets between serdes in the same mode, which stay in the same mode |
| Commands.SessionExactly | cmd.go:68-163 | a session arrives as it was sent if and only if every command is recoverable in the mode it is sent in |
| Commands.ConversationExactly | cmd/ipod/main.go:376-518 | with one serde on each side, and every command arriving before the next is sent, both keep the same mode and everything arrives if and only if it is recoverable |
| CommandModes.ModeIsLastSet | cmd.go:68-81 | the mode is decided by the last RequestIdentify, IdentifyDeviceLingoes or StartIDPS |
| CommandModes.ModesAgreeExactly | cmd/ipod/main.go:376-393 | when any commands fail to marshal or are lost, the ends agree if and only if the last setter and the last that arrives come to the same mode |
| CommandModes.FailuresDesynchroniseExactly | cmd.go:93-118 | the same for failures to marshal alone |
| CommandModes.RegisteredSettersAgree | cmd.go:68-118 | it never happens when the mode-setting payloads are values of registered types |
| CommandModes.LostIdentifyParts | cmd/ipod/main.go:405-414 | a lost RequestIdentify does part the ends |
| CommandModes.NeutralRunAgrees | cmd.go:68-163 | ends that agree keep agreeing over any run with commands in flight that set no mode |
| CommandModes.CrossingExactly | cmd/ipod/main.go:404-425 | with queues in flight in both directions, the ends agree once all has arrived if and only if the last setter did not cross one that sets the other mode |
| CommandModes.CrossingParts | cmd/ipod/main.go:404-425 | a RequestIdentify that crosses a StartIDPS leaves the ends in different modes |
| Sessions.PacketsArrive | cmd/ipod/main.go:376-393 | packets sent in frames of their own arrive as the same packets |
| Sessions.CommandsArrive | cmd/ipod/main.go:376-393 | through packets, frames and reports a session arrives as sent if and only if every command is recoverable |
| Idps.MarshalItems | lingo-general/general.go:724-820 | the loop of both lists gives the count and each item behind its length, or the first failure |
| Idps.UnmarshalItems | lingo-general/general.go:739-841 | the loop of both lists reads as many items as the count says, or gives the first failure |
| IdpsWire.TokensOnTheWire | lingo-general/general.go:490-737 | a list of tokens byte by byte: the count, and per token its length, type, subtype and fields, numbers high byte first |
| IdpsWire.AcksOnTheWire | lingo-general/general.go:761-820 | the reply byte by byte: the count, and per token length, type, subtype, 0x00, and what its kind repeats |
| IdpsWire.ListReadsExactly | lingo-general/general.go:739-841 | any bytes read as a list if and only if the first counts the items and each item reads from the bytes that its length byte delimits, or that are left |
| IdpsWire.TokenReadsAs | lingo-general/general.go:499-718 | any bytes: the token that is read from them, kind by kind, with zeros for what is missing where the source lets it be |
| IdpsWire.TokenFails | lingo-general/general.go:499-718 | reading fails exactly for too few bytes or an unknown type of accessory information |
| Idps.TokenRoundTrip | lingo-general/general.go:490-718 | a consistently tagged token of a fixed layout, or an identify token of at most 244 lingoes, comes back |
| IdpsLaws.TokensRoundTripExactly | lingo-general/general.go:490-759 | the exact lists that come back: at most 255 tokens, tagged, with a binary form of at most 255 bytes, except for a last identify token of 248 to 255 zeros |
| IdpsLaws.TokensRoundTrip | lingo-general/general.go:642-759 | a list of at most 255 portable tokens comes back as it was |
| IdpsLaws.LingoesExactly | lingo-general/general.go:490-510 | a single identify token comes back if and only if it has at most 244 lingoes or is such a token of zeros |
| IdpsLaws.MarshalsExactly | lingo-general/general.go:642-664 | a list can be sent if and only if it holds no AccInfo and no EAProtocol token |
| IdpsLaws.TooManyTokens | lingo-general/general.go:724-737 | a list of more than 255 tokens never comes back |
| IdpsLaws.TooManyLingoes | lingo-general/general.go:724-759 | 245 to 247 lingoes in a lone token make reading fail |
| Idps.AckTokens | lingo-general/handler.go:54-95 | every token gets its id, status 0 and, for accessory information, preferences and protocols, the type, class or index; an unknown kind gets nothing that can be sent |
| IdpsWire.AckReads | lingo-general/general.go:790-801 | any two bytes or more read as an acknowledgement, with what is behind the id taken as it is |
| Idps.ReplySentExactly | lingo-general/general.go:761-841 | ids and order are kept; the reply can be sent, and then reads back, if and only if no token was of an unknown kind |
| Idps.RequestCount | lingo-general/general.go:739-759 | a request holds as many tokens as its count byte says, so the reply's count never overflows |
| Authentication.InfoRoundTripExactly | lingo-general/general.go:292-326 | the message comes back if and only if it is of version 2 or holds nothing but its version |
| Authentication.InfoReads | lingo-general/general.go:292-309 | any bytes: which cannot be read, and what the others say |
| Authentication.RequestOnTheWire | lingo-general/general.go:311-326 | the whole command byte by byte: 0x00 and 0x15, the transaction, two version bytes, the two section numbers from version 2 on, and the data |
| Authentication.Handler.HandleInfo | lingo-general/handler.go:165-223 | one request field by field: the buffer, cleared by section 0; an acknowledgement, or an acceptance, or an acceptance and a challenge; the 32-bit counter, which wraps to 0 |
| Authentication.HandledMeans | lingo-general/handler.go:165-223 | the step that all runs are made of is that too |
| Authentication.HandledOnce | lingo-general/handler.go:165-223 | which leaves nothing open |
| Authentication.Handler.HandleAll | cmd/ipod/main.go:513-517 | the loop over the requests of a frame is the abstract run |
| Authentication.Handler.Send | cmd.go:187-204 | an unsolicited command carries the next value of the 32-bit counter, cut to 16 bits |
| Authentication.BufferGrows | lingo-general/handler.go:173-179 | without a section 0 the accepted data is appended to whatever the buffer held |
| Authentication.BufferSince | lingo-general/handler.go:173-179 | in any run the buffer is the data accepted since the last section 0 |
| Authentication.EveryRequestAnswered | lingo-general/handler.go:173-223 | in any run every request gets one response under its transaction, and every final section one challenge |
| Authentication.Assembles | lingo-general/handler.go:173-216 | sections 0 to n leave exactly the certificate, n ACKs, one acceptance and one challenge, from any buffer |
| Authentication.SectionsArrive | cmd/ipod/main.go:495-518 | sections sent as commands through packets, frames and reports are the requests that the handler gets |
| Authentication.CertificateArrives | lingo-general/handler.go:173-216 | so a certificate sent in sections over the whole stack ends up whole in the buffer |
| Avrcp.Source.LockedControl | avrcp/avrcp.go:177-190 | MediaControl's critical section, field by field: the commanded state, known at once, and a window of 1500 ms |
| Avrcp.Source.LockedCommit | avrcp/avrcp.go:627-643 | refresh's last section, field by field: the patched copy, with Playing as BlueZ says from the end of the window on, and whether it has to signal |
| Avrcp.Source.LockedMerge | avrcp/avrcp.go:592-617 | refresh's section behind fetchTrack, field by field: a reported status is taken over from the end of the window on and signalled if and only if it is new, a reported position is taken over, posRefreshedAt is now, kept or none |
| Avrcp.Source.LockedCopyBack | avrcp/avrcp.go:398-404 | fetchTrack's copy-back, field by field, and whether it has to signal |
| AvrcpOperations.RefreshWithTrack | avrcp/avrcp.go:497-646 | a refresh that runs alone and was given Track: what was reported is what the state says afterwards, Playing as believed; flags and token are set if and only if title or Playing changed; and no other field changes |
| AvrcpOperations.RefreshWithoutTrack | avrcp/avrcp.go:497-646 | the same when fetchTrack supplies the track, or fails to |
| AvrcpOperations.Fetch | avrcp/avrcp.go:337-408 | fetchTrack takes over the track and nothing else, and reports a new title |
| AvrcpOperations.Control | avrcp/avrcp.go:177-198 | a control alone: its critical section, and a report even when nothing changed |
| AvrcpOperations.ConsumerTurn | cmd/ipod/main.go:456-484 | a woken consumer takes the token, clears both flags and is told Playing exactly when its flag was set |
| AvrcpProtocol.WakeUpStep | avrcp/avrcp.go:56-91 | every atomic step keeps: a set flag has a token, a sender about to send, or a consumer about to swap it |
| AvrcpProtocol.NoLostWakeUp | cmd/ipod/main.go:456-484 | so does every run of any number of goroutines |
| AvrcpProtocol.QuietMeansNoticed | avrcp/avrcp.go:56-91 | when all are idle and the channel is empty, both flags are clear |
| AvrcpProtocol.AgreesExactlyWhenFresh | avrcp/avrcp.go:360-404 | Playing equals lastKnownPlaying throughout a run if and only if no stale copy is written back |
| AvrcpProtocol.AtomicFetchesAreFresh | avrcp/avrcp.go:360-404 | runs in which copy-out and copy-back are one step write back no stale copy |
| AvrcpProtocol.TrackedRun | avrcp/avrcp.go:73-91 | in such runs the consumer has been told, or will be; and a set posRefreshedAt implies Playing |
| AvrcpProtocol.Converges | avrcp/avrcp.go:73-82 | in every quiet state of such a run the last delivered play state is the actual one |
| AvrcpLaws.SilentStep | avrcp/avrcp.go:590-646 | inside the guard window no step but a control reports a change of Playing, whatever the state and BlueZ's answer |
| AvrcpLaws.GuardedStep | avrcp/avrcp.go:360-646 | nor does any change Playing, refresh and fetchTrack's copy-back included, unless the copy is stale |
| AvrcpLaws.GuardWindow | avrcp/avrcp.go:177-198 | over whole fresh runs, for 1500 ms from a Play, Pause or Stop and until the next one, Playing is what was commanded in every state and nobody reports a change |
| AvrcpLaws.Settles | cmd/ipod/main.go:456-484 | without new operations a run ends after a bounded number of steps |
| AvrcpLaws.StopsOnlyWhenQuiet | cmd/ipod/main.go:456-484 | nothing can move if and only if everything is quiet: no deadlock |
| AvrcpLaws.StaleCopyBackLosesAnUpdate | avrcp/avrcp.go:360-404 | a run from the start that ends quiet with the consumer told the wrong play state |
| Buttons.ButtonStates.MarshalBinary | lingo-simpleremote/simpleremote.go:46-54 | the bit-length arithmetic gives the bytes up to the highest in use |
| Buttons.ButtonStates.UnmarshalBinary | lingo-simpleremote/simpleremote.go:56-65 | reads up to four bytes; empty data is an error and changes nothing |
| Buttons.ShortestForm | lingo-simpleremote/simpleremote.go:46-65 | every mask comes back from 1 to 4 bytes, the last not zero unless alone, and from no shorter data |
| Buttons.UnmarshalExactly | lingo-simpleremote/simpleremote.go:56-65 | the data that reads as a mask: its short form, then zeros up to the fourth byte, then anything |
| Buttons.CanonicalExactly | lingo-simpleremote/simpleremote.go:46-65 | data is printed back as it was if and only if it is a short form itself |
| Buttons.MaskOnTheWire | lingo-simpleremote/simpleremote.go:46-54 | byte i holds bits 8i to 8i+7; bytes left out are zero |
| Buttons.MaskReads | lingo-simpleremote/simpleremote.go:56-65 | and so any data is read |
| Utf8.ClampString | util.go:24-34 | the longest valid prefix within the limit; a string within the limit is left alone, valid or not |
| Utf8.ClampKeepsCharacters | util.go:21-34 | of a valid string, the most whole characters that fit, at most three bytes below the limit |
| Utf8.LongestIsUnique | util.go:28-33 | there is only one longest valid prefix, so ClampString is fully described |
| Utf8.ThreeBytesLost | util.go:28-33 | three bytes can be lost |
| Utf8.ValidIsEncoding | util.go:30 | the byte patterns of section 4 of RFC 3629 accept exactly the encodings of section 3 |

## Left out

- BlueZ, busctl, dbus-monitor, JSON and real clocks: their answers and the time are parameters of the AVRCP steps; the several readings of the clock inside one critical section are one instant.
- AVRCP position extrapolation, track getters, device names and logging: they only read the shared state.
- Position and duration are natural numbers, not 32-bit values: the modelled sections only copy them.
- Hid.Encoder.WriteFrame: requires that the last entry towards the accessory has room, or that one entry takes the whole frame; otherwise the source picks an entry of no payload for ever or panics on a negative one.
- HidDecoder.Decoder.ReadFrame: requires entries of non-negative payload, because reslicing to a negative length panics in the source; frames are values, so the buffer shared with the next read (hid/hid.go:119) is not modelled.
- HidDecoder.ReportReader.ReadReport: reads a trace queue; a live device is a queue with one direction, and its I/O errors are not modelled.
- Hid.ReportWriter stands for any device that accepts a number of reports and then fails.
- TraceQueue.ItemList is container/list by its contract: push at the back, front, removal by element; pointers inside the list are not modelled. Directions other than the two, on which the source panics, cannot be expressed.
- Stack.RecordedSessions: assumes the trace file holds what Writer.WriteMsg wrote; the tracer that wraps a device is not modelled. The sender of the other direction is taken to fragment as this encoder does, with the entries of its direction.
- DumpTraces.DumpTrace: takes the messages as read and ends with each frame; that the queue was emptied is the model's own flag, as the source ends the same way in both cases. The exit on a malformed trace line, and the packets and commands that the dump prints, are not modelled.
- TraceText.Reader.ReadMsg: the counter is unbounded, where the source wraps at 64 bits; bufio.Scanner and fmt.Sscanf are modelled by what they do to lines and to hex digits.
- Commands.BodyDecodesExactly: fixed-size payloads are their bytes, and a variable-size payload is the bytes handed to its own UnmarshalBinary, which may still refuse or drop some of them.
- Struct tags, reflection and encoding/binary on structs: a payload type is a name and a size.
- Idps: tokens of fixed layout are their fields; `binary.Size(nil)` is taken to be -1, as in current Go, where older releases panic; the device's SetToken has no effect here.
- IdpsLaws.TokensRoundTripExactly: the seed has 11 bytes and the screen 6 sizes, as their Go types fix; AccInfo and EAProtocol tokens have no marshaller, so lists with them are among those that do not come back.
- Authentication.Handler.HandleInfo: the challenge is a parameter; signatures and out-of-order sections are not checked by the source, and the laws say what the buffer then holds.
- The other requests of HandleGeneral, and the reply tables and subscriptions of the extended, display, audio and simple remote lingos: many branches, one-line facts.
- Handshake retries and tickers as such: the RequestIdentify and the notifications they send are commands like any other to the laws of `command_modes.dfy`; their timing, and the writer lock, are not modelled.
- Authentication.Handler.HandleAll: nothing else sends in between; notifications and retries that do advance the same transaction counter, so a challenge may carry a later number.
- Command-line handling, formatting, generated string methods and the device alias cache.
