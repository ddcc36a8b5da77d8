# An MQTT 5.0 client platform, modelled and verified

This project models five parts of an MQTT 5.0 platform in Dafny and proves what they promise
over all inputs and all runs. `dafny verify dfyconfig.toml` checks everything.

| part | files |
|---|---|
| QoS 2 handshake | `QoS2.dfy` (handlers, receiver alone), `QoS2Protocol.dfy` (sender, receiver and network), `QoS2Client.dfy` (the sender as the client runs it), `QoS2Ordering.dfy` (message order over streams) |
| Packet identifiers | `PacketIds.dfy` (sequential allocator), `ConcurrentPacketIds.dfy` (lock-free allocator) |
| Wire codec and framing | `Bytes.dfy`, `VarInt.dfy`, `Properties.dfy`, `PropertyParser.dfy`, `Publish.dfy`, `Connect.dfy`, `ConnAck.dfy`, `Framing.dfy`, `RawClient.dfy`, `WasmDecoder.dfy` |
| Topics and callbacks | `TopicMatching.dfy`, `Callbacks.dfy` |
| Reconnection | `Backoff.dfy` (the delay), `Reconnect.dfy` (the state machine) |

The main results:

- **Exactly once.** In every run of the two-party QoS 2 system, with any number of lost
  connections and replays and with identifiers reused, no message is delivered twice, and a
  message whose flow has ended was delivered exactly once. The sender tracks the PUBREL at
  publish time, so that no PUBCOMP ends a flow early is a property of the whole system, not of
  a handler. The sender that the client ships, which tracks and replays differently, refines
  this system event by event and inherits all of it.
- **Each side alone.** Against a peer that sends anything, the receiver delivers an identifier once
  per completion, and the sender reports of each flow exactly what is due.
- **Drain.** On a live connection each unfinished flow has exactly one packet in flight, each
  receipt lowers a weight by one, and when it reaches zero everything is delivered and both
  sessions are empty.
- **Order.** Over FIFO streams with ordered replay, what was delivered is at any time exactly the
  first so many messages published, in order, whatever connections were lost.
- **Framing.** Frames survive any chunking; no byte is lost on any input; which streams are
  read independently of their chunks is characterised exactly; the two framers read the same
  packets of any stream up to an error that is stated exactly.
- **Codec.** PUBLISH, CONNECT and CONNACK round trips, exact accounting of every byte of an accepted
  CONNECT, and when bytes behind a packet can change how it is parsed, although the decoders see
  the whole buffer.
- **Matching.** The matcher with its fast paths is the level-by-level rule of section 4.7; the
  callback index selects what a scan with that matcher would, in an order that is stated.
- **Allocation.** The code of the lock-free allocator takes the steps of a machine whose every
  interleaving hands out the cyclic sequence without gaps, unless a call falls back at 65535; no
  two calls get the same identifier then, and which runs return 0 is stated exactly.
- **Backoff.** Which configurations make the saturating loop the capped recurrence, when the
  delay never shrinks, and by which attempt it is at its maximum.

## Where the code departs from what it promises

Each of these is proved twice: at a concrete input, and as the exact condition under which the
promise holds.

- `PacketIdGenerator::next` promises identifiers in 1..=65535. After 1000 lost compare-exchanges
  it falls back on `fetch_add`; if the cell then holds 65535 it becomes 0 and a later call returns
  0 (`ZeroCanBeReturned`). The promise holds exactly of the runs in which no fallback at 65535 is
  followed by a compare-exchange as the next write to the cell (`IdsInRangeIff`). The cell itself
  leaves its range at every fallback at 65535 (`RangeIffNoFallbackAtTop`).
- A malformed length header makes `try_extract_packet` hand out whatever is buffered, so the
  packets seen depend on how the stream was cut (`MalformedHeaderIsCut`, `ChunkIndependentIff`).
- `read_packet` limits packets to 268,435,456 bytes, which refuses the four longest bodies the
  length field can announce (`LongBodyIsRefused`, `LimitRefusesLongestBodies`).
- `ParsedConnAck::parse` does not compare the end of the properties with the end of the packet, so
  a packet that is rejected alone can be accepted with other bytes behind it
  (`ConnAckReadsPast`, `ConnAckLocalIff`).
- `handle_incoming_pubrec` treats codes 0x01..0x7F as errors, where section 4.3.3 of MQTT 5.0
  continues the flow (`PubRecFollowsStandardIff`, which also shows code 0x10). The two-party
  results are unaffected: the receiver only sends Success.
- `unregister` drops the whole list of a key without wildcards, so another live filter that strips
  to the same key stays registered but is no longer called (`UnregisterLosesAnother`,
  `UnregisterCoincidesIff`, `CoincideRunIff`).
- A message on a topic that is empty or not a valid name still reaches callbacks registered under
  that very string (`EmptyTopicIsDispatched`, `AgreesWithScanIff`).
- The backoff delay sticks below a maximum of more than 2^64 / 100 milliseconds and, with a factor
  below 1, at a maximum that the first retry reaches (`SticksBelowMax`, `SticksAtMax`,
  `DelayIsCappedIff`), and can shrink on the first retry by losing a fraction of
  a millisecond or by saturating (`FractionIsLost`, `SaturationShrinks`, `MonotoneIff`).
- A Reconnecting or Connecting event that no Disconnected event preceded leaves the session
  information of the old connection in place (`ReconnectingKeepsSession`, `StaleIff`).
- `should_reconnect` adds 1 to a 32-bit attempt number. At 2^32 - 1 the sum overflows: a build that
  checks for overflow panics, the other wraps to 0 and retries past the limit (`LimitKeptIff`).

## How things are represented

- Strings are their UTF-8 bytes; `Utf8` is the well-formedness table of the Unicode Standard.
- Masks and shifts on single bytes are written as division and remainder, and `|` of disjoint bits
  as a sum. Indices (`usize`) are unbounded naturals.
- The handlers of `qos2.rs` only list actions. The model performs them on sets: `is_duplicate` and
  `has_pending_pubrec` mean that the identifier is tracked by the receiver, `has_pending_publish`
  that it is in the sender's publish store, `has_pending_pubrel` that it is in its PUBREL set.
  Sending a PUBREL drops the stored publish as `complete_pubrec` does
  (crates/mqtt5/src/session/state.rs:775-782), and a disconnect empties the network and keeps both
  sessions.
- A reconnect in `QoS2Protocol` replays stored publishes and the PUBRELs of the *other* tracked
  identifiers, in any order. Holding back the PUBREL of a stored publish is an assumption of the
  model: the handlers of `qos2.rs` leave the replay to their user, and `outbound_replay`
  (crates/mqtt5/src/session/state.rs:350-368) replays every tracked PUBREL, before the publishes.
  With the publish-time tracking of `handle_outgoing_publish_qos2` that would deliver messages twice
  (`UnfilteredDeliversTwice`); when it would not is stated exactly (`UnfilteredSafeIff`). The client
  tracks a PUBREL only on PUBREC (crates/mqtt5/src/client/direct/handlers.rs:442-468) and needs no
  filter: `QoS2Client` has its tracking and its replay as they are (`ClientRefines`,
  `ClientExactlyOnce`, `ClientDeliveredInOrder`).
- Transports are the list of what their reads return (`RawClient`), or a stream handed out in
  reads of any length that ends with a read of 0 bytes or an error (`WasmDecoder`). Deadlines are an
  event in that list.
- Other threads are any number of steps of the machine of `ConcurrentPacketIds` before each atomic
  operation of the caller.
- `hide` statements in some proofs only keep definitions from the solver that the proof does not
  need.

## Model

| member | source | states |
|---|---|---|
| QoS2Protocol.ExactlyOnce | crates/mqtt5-protocol/src/qos2.rs:80-168 | in every run from the start, any message is delivered at most once and only if published; every ended flow's message was delivered exactly once; each flow ends at most once, with Success or PacketIdentifierNotFound |
| QoS2Protocol.StepKeeps | crates/mqtt5-protocol/src/qos2.rs:80-168 | the global invariant (owner of each identifier, delivery status per phase, which packet may be in flight in which phase) is kept by publish, receipt of any packet in flight, disconnect and reconnect with any replay |
| QoS2Protocol.UnfinishedFlowsHaveDistinctIds | crates/mqtt5-protocol/src/packet_id.rs:57-59 | composed with the allocator, two messages under way never share a packet identifier, in any run |
| QoS2Protocol.PublishBlockedIff | crates/mqtt5/src/session/state.rs:399-412 | in any reachable state, and whatever identifiers are in use elsewhere, a publish finds no identifier exactly when all 65535 are under way or in use elsewhere |
| QoS2Protocol.OnePacketPerFlow | crates/mqtt5-protocol/src/qos2.rs:85-168 | while connected, an identifier is unfinished iff it has a packet in flight, and then exactly one |
| QoS2Protocol.Drain | crates/mqtt5-protocol/src/qos2.rs:85-168 | from any reachable connected state, receipts in any order go on exactly Weight(net) steps; then every message ever published is delivered exactly once and publish store, PUBREL set and tracked set are empty |
| QoS2Protocol.CanAlwaysFinish | crates/mqtt5-protocol/src/qos2.rs:80-168 | from every reachable state, connected or not, some continuation delivers every message published so far exactly once and empties both sessions |
| QoS2Protocol.ReceiptLightens | crates/mqtt5-protocol/src/qos2.rs:85-168 | each receipt (PUBLISH 4, PUBREC 3, PUBREL 2, PUBCOMP 1) lowers the weight in flight by exactly one |
| QoS2Protocol.ErrorNeedsDisconnect | crates/mqtt5-protocol/src/qos2.rs:153-168 | a flow can end with a code other than Success only in a run that lost a connection |
| QoS2Client.ClientRefines | crates/mqtt5/src/client/direct/handlers.rs:442-482 | every run of the client's sender (PUBREL tracked on PUBREC, unfiltered replay) is, event by event, a run of the protocol of the handlers, and no identifier is ever in both its publish store and its PUBREL set |
| QoS2Client.ClientExactlyOnce | crates/mqtt5/src/session/state.rs:350-368 | so in every run of the client no message is delivered twice and every ended flow's message was delivered exactly once |
| QoS2Client.ReceiptSimulates | crates/mqtt5/src/client/direct/reader.rs:194-265 | the client's handling of PUBREC and PUBCOMP, with its check against the stage of the identifier, does what the handlers do in every state the system reaches |
| QoS2Client.Acknowledged | crates/mqtt5/src/client/direct/reader.rs:194-265 | in any state, reachable or not: a PUBREC or PUBCOMP that is not in order at the stage of its identifier ends the connection and changes no session; any other moves the identifier to the PUBCOMP stage with a PUBREL, or releases it and ends its flow with the code received, and touches no other identifier |
| QoS2Client.ClientCanAlwaysFinish | crates/mqtt5/src/session/state.rs:350-397 | from every state the client reaches, some continuation delivers every message published so far exactly once and empties both sessions |
| QoS2Client.UnfilteredSafeIff | crates/mqtt5/src/session/state.rs:350-368 | with PUBRELs tracked at publish time, in any run whose every replay is unfiltered: no connection can deliver a message twice iff at each reconnect every stored publish delivered before is still tracked by the receiver and its PUBREL not by the sender; and then the whole run delivers none twice |
| QoS2Client.UnfilteredDeliversTwice | crates/mqtt5-protocol/src/qos2.rs:80-82 | such a run in which a message is delivered twice |
| QoS2Ordering.DeliveredInOrder | crates/mqtt5/src/session/state.rs:350-368 | over FIFO streams, with stored publishes replayed in the order of first sending, the messages delivered in any run are 0, 1, ..., k-1 in this order (section 4.6 of MQTT 5.0) |
| QoS2Ordering.NextInLine | crates/mqtt5-protocol/src/qos2.rs:134-150 | in such a run the next PUBLISH with an untracked identifier carries exactly the next undelivered message |
| QoS2Ordering.ClientDeliveredInOrder | crates/mqtt5/src/session/state.rs:350-368 | the same order of delivery for every run of the client, whose replay sends PUBRELs first and then the stored publishes in the order of first sending |
| QoS2Receiver.ReceiverConservation | crates/mqtt5-protocol/src/qos2.rs:134-168 | against a peer that sends any PUBLISH and PUBREL: deliveries of an identifier equal successful PUBCOMPs plus one while it is tracked, and between two deliveries there is a successful PUBCOMP |
| QoS2Sender.SenderReports | crates/mqtt5-protocol/src/qos2.rs:80-131 | against a peer that sends any PUBREC and PUBCOMP: the sender tracks exactly the identifiers opened by a publish or an accepting PUBREC and not closed by a PUBCOMP since, and of each it reports and sends exactly what is due: completion only by a PUBCOMP with Success while open, failure with the code received otherwise, 0x92 for a PUBREC without a pending publish, nothing for a PUBCOMP that is not awaited |
| QoS2Sender.RefusedIsReported | crates/mqtt5-protocol/src/qos2.rs:97-102 | a message refused with 0x97 is reported as failed with 0x97, and nothing is sent |
| QoS2.PubRecFollowsStandardIff | crates/mqtt5-protocol/src/qos2.rs:85-108 | PUBREC is answered as section 4.3.3 says except exactly for pending flows with codes 0x01..0x7F; whenever no PUBREL is sent, the only action is to fail the flow, with the code received or, without a pending publish, 0x92 |
| PacketIds.PacketIdGenerator.NextAvailable | crates/mqtt5-protocol/src/packet_id.rs:57-59 | returns the first identifier in cyclic order not in use and moves just past it; None iff all 65535 are in use, and then the generator is back where it was |
| PacketIds.FirstFreeNone | crates/mqtt5-protocol/src/packet_id.rs:57-59 | 65535 steps of the cyclic sequence miss no identifier: the search fails iff every identifier is in use |
| PacketIds.CycleDistinct | crates/mqtt5-protocol/src/packet_id.rs:31-45 | fewer than 65535 steps never return to the same identifier |
| ConcurrentPacketIds.RangeIffNoFallbackAtTop | crates/mqtt5-protocol/src/packet_id.rs:28-54 | over any interleaving of any number of threads, the stored cell stays in 1..65535 iff no call falls back on fetch_add while it holds 65535 |
| ConcurrentPacketIds.IdsInRangeIff | crates/mqtt5-protocol/src/packet_id.rs:28-54 | over any interleaving, all identifiers returned are in 1..65535 iff no fallback at 65535 is followed by a compare-exchange as the next write to the cell |
| ConcurrentPacketIds.SwapAfterWrapNeedsFallback | crates/mqtt5-protocol/src/packet_id.rs:47-53 | so a run without a fallback at 65535 returns identifiers only |
| ConcurrentPacketIds.SharedGenerator.NextId | crates/mqtt5-protocol/src/packet_id.rs:31-54 | the code of next with its retry loop and its fallback, interrupted by other threads before each atomic operation: a call takes steps of the machine only, makes exactly one update under its own thread, and returns the value listed for it |
| ConcurrentPacketIds.ResultsAreCyclic | crates/mqtt5-protocol/src/packet_id.rs:31-54 | without a fallback at 65535 the n-th update returns the n-th value of the cyclic sequence, and any 65535 consecutive results are distinct |
| ConcurrentPacketIds.ResultsAreCyclicIff | crates/mqtt5-protocol/src/packet_id.rs:31-54 | over any interleaving the results are the cyclic sequence iff each wrapped cell is met by a second fallback first and its store of 2 comes before any other update that returns a value |
| ConcurrentPacketIds.NoIdTwice | crates/mqtt5-protocol/src/packet_id.rs:31-54 | of at most 65535 updates without a fallback at 65535, no two calls, of one thread or of two, get the same identifier |
| ConcurrentPacketIds.ZeroCanBeReturned | crates/mqtt5-protocol/src/packet_id.rs:47-53 | a run of two threads from a new generator in which a call returns 0 |
| ConcurrentPacketIds.SoloCall | crates/mqtt5-protocol/src/packet_id.rs:31-45 | an undisturbed call returns the cell and stores its successor, as the sequential model has it |
| Bytes.Utf8Meaning | crates/mqtt5-conformance/src/packet_parser.rs:70-82 | the strings the decoders accept are exactly the encodings of sequences of Unicode scalar values |
| Bytes.Utf8Examples | crates/mqtt5-conformance/src/packet_parser.rs:70-82 | the euro sign is E2 82 AC; an overlong NUL and a surrogate are rejected |
| VarInt.EncodeVariableInt | crates/mqtt5-conformance/src/raw_client.rs:1794-1806 | the loop appends the base-128 encoding of any value to the buffer |
| VarInt.DecodeVariableInt | crates/mqtt5-conformance/src/packet_parser.rs:44-63 | the accumulating loop computes the value read recursively from the slice, on any buffer and start index |
| VarInt.DecodeEncode | crates/mqtt5-conformance/src/packet_parser.rs:44-63 | a printed value is read back in any surroundings iff it is at most 268,435,455, and rejected otherwise |
| VarInt.DecodeMeaning | crates/mqtt5-conformance/src/packet_parser.rs:44-63 | accepted are exactly 1 to 4 bytes of which only the last has its top bit clear, with their base-128 value |
| VarInt.DecodeSlice | crates/mqtt5-conformance/src/packet_parser.rs:44-63 | decoding in a buffer and in a slice of it agree iff the value ends inside the slice |
| VarInt.LowBitsFirst | crates/mqtt5-conformance/src/raw_client.rs:1794-1806 | 321 is C1 02 and is read back as 321 |
| Framing.FramesSurviveChunking | crates/mqtt5-conformance/src/raw_client.rs:370-401 | any list of frames, cut into any chunks, comes back frame by frame, in order, with an empty buffer |
| Framing.FeedConserves | crates/mqtt5-conformance/src/raw_client.rs:370-401 | on any bytes in any chunks, the packets handed out followed by the buffer are the input |
| Framing.ChunkIndependentIff | crates/mqtt5-conformance/src/raw_client.rs:370-382 | reads of 1 to 8192 bytes give the same packets however the stream is cut iff it has no malformed header, or one with nothing after its fifth byte |
| Framing.MalformedHeaderIsCut | crates/mqtt5-conformance/src/raw_client.rs:370-401 | the bytes 30 FF FF FF FF 00 are one packet in one read, and five bytes and a remainder in two |
| RawClient.RawMqttClient.TryExtractPacket | crates/mqtt5-conformance/src/raw_client.rs:370-382 | splits off a complete packet, or everything after a malformed header; packet and remaining buffer make up the old buffer |
| RawClient.RawMqttClient.ReadUntil | crates/mqtt5-conformance/src/raw_client.rs:384-401 | returns the first packet of buffer and arriving chunks and leaves the others to later calls; at the end of the stream the rest once, then Closed; TimedOut when nothing arrives in time |
| RawClient.ReadFrames | crates/mqtt5-conformance/src/raw_client.rs:93-103 | repeated reads return any list of frames one per call and in order, for any chunks |
| WasmDecoder.WasmReader.ReadExact | crates/mqtt5-wasm/src/decoder.rs:68-78 | under any pattern of short reads the buffer is filled with the next bytes, or the stream is used up and the error is the one it ends with |
| WasmDecoder.WasmReader.ReadFrame | crates/mqtt5-wasm/src/decoder.rs:20-60 | under any pattern of short reads, the frame or the error (closed, read error, type, length, size) determined by the stream as a whole, and exactly the frame is consumed |
| WasmDecoder.FrameWithHeader | crates/mqtt5-wasm/src/decoder.rs:37-60 | with a type in 1..15 and n length bytes of which only the last has its top bit clear: too large, a frame with type, flags, length and body, closed, or the read error, by the announced total |
| WasmDecoder.FrameWithoutHeader | crates/mqtt5-wasm/src/decoder.rs:24-43 | all other streams: type 0, four length bytes with top bit set, or closed or failed within the header |
| WasmDecoder.FramersAgree | crates/mqtt5-wasm/src/decoder.rs:20-60 | a frame is read iff the type nibble is not 0, the length decodes, the packet is complete and within the limit; it is then what try_extract_packet splits off |
| WasmDecoder.StreamsAgree | crates/mqtt5-wasm/src/decoder.rs:20-60 | over a whole stream the frames read are the packets of try_extract_packet up to the first with type 0, malformed length or more than max bytes; that packet, or else the remainder, decides the error |
| WasmDecoder.SamePacketsIff | crates/mqtt5-wasm/src/decoder.rs:20-60 | both framers read equally many packets of a stream iff every packet of the other is acceptable to this one |
| WasmDecoder.WasmReader.ReadAll | crates/mqtt5-wasm/src/decoder.rs:10-60 | repeated reads return the frames of the stream up to the first error, and that error |
| WasmDecoder.LimitRefusesLongestBodies | crates/mqtt5-wasm/src/decoder.rs:45-53 | with MAX_PACKET_SIZE a printed packet is read back iff its body has at most 268,435,451 bytes |
| WasmDecoder.LongBodyIsRefused | crates/mqtt5-wasm/src/decoder.rs:45-53 | a body of 268,435,452 bytes is refused |
| Properties.ParsePrinted | crates/mqtt5-conformance/src/scripted_broker.rs:214-245 | parsing the printed form of any encodable list of properties gives the fold over the list |
| Properties.FieldMeaning | crates/mqtt5-conformance/src/packet_parser.rs:65-82 | a length-prefixed field is accepted iff 256 times its first length byte plus the second is its length and it lies in the buffer; a string iff it is moreover UTF-8 |
| Properties.TakeFixed | crates/mqtt5-conformance/src/packet_parser.rs:27-36 | for each identifier with a fixed size, in literals: the bytes taken and their big-endian value |
| Properties.TakePrefixed | crates/mqtt5-conformance/src/packet_parser.rs:27-36 | for each identifier with a length prefix, in literals: the bytes taken, and UTF-8 for the four strings |
| Properties.TakeVariable | crates/mqtt5-conformance/src/packet_parser.rs:175-179 | 0x0B takes exactly a variable byte integer |
| Properties.TakePair | crates/mqtt5-conformance/src/packet_parser.rs:180-185 | 0x26 takes a key and then a value |
| Properties.TakeUnknown | crates/mqtt5-conformance/src/packet_parser.rs:186-197 | any other identifier is rejected |
| Properties.RecordedFromBytes | crates/mqtt5-conformance/src/packet_parser.rs:129-174 | the field and the value that the bytes of each recorded number give, such as 256 hi + lo for the topic alias 23 hi lo |
| Properties.RecordedTextFromBytes | crates/mqtt5-conformance/src/packet_parser.rs:105-112 | the field that each of the four strings and the correlation data go to |
| Properties.RecordedLists | crates/mqtt5-conformance/src/packet_parser.rs:166-185 | user properties and subscription identifiers keep the order of the block |
| Properties.RecordedNumbers | crates/mqtt5-conformance/src/packet_parser.rs:136-147 | the numeric fields hold the last value the block gives, None if it gives none |
| Properties.RecordedTexts | crates/mqtt5-conformance/src/packet_parser.rs:105-112 | the four string fields hold the last string of their own identifier |
| Properties.RecordedBytes | crates/mqtt5-conformance/src/packet_parser.rs:129-165 | payload format indicator and correlation data hold the last value the block gives |
| PropertyParser.ParseProperties | crates/mqtt5-conformance/src/packet_parser.rs:118-202 | locality: parsing a block inside a buffer equals parsing the block alone, although strings, pairs and variable integers are decoded against the whole buffer |
| Publish.PrintPublish | crates/mqtt5-conformance/src/scripted_broker.rs:267-281 | the packet is header, length, topic, identifier, property block and payload in this order |
| Publish.ParsePublish | crates/mqtt5-conformance/src/packet_parser.rs:308-350 | the parser, bounded by the buffer, computes the result of the packet body alone |
| Publish.PublishLocal | crates/mqtt5-conformance/src/packet_parser.rs:308-350 | bytes behind a complete packet do not change the result |
| Publish.PublishRoundTrip | crates/mqtt5-conformance/src/packet_parser.rs:308-350 | parsing a PUBLISH built from DUP, QoS and RETAIN, topic, identifier iff the QoS is not 0, properties and payload, with anything behind it, returns all of them iff the body fits the length field, and None otherwise |
| Publish.FlagBits | crates/mqtt5-conformance/src/scripted_broker.rs:262-264 | the flags read from a first byte are exactly those it is built from: bit 3, bits 2 and 1, bit 0 |
| Publish.PublishAccounting | crates/mqtt5-conformance/src/packet_parser.rs:308-350 | an accepted PUBLISH body is its topic, well-formed UTF-8, an identifier iff the QoS is not 0, a property block and the payload |
| Publish.PublishAccepted | crates/mqtt5-conformance/src/packet_parser.rs:308-322 | with a readable length field, exactly the complete packets of type 3 are parsed, and by the body announced |
| Publish.PublishExample | crates/mqtt5-conformance/src/packet_parser.rs:469-485 | an 18-byte packet of QoS 1 and its seven fields |
| Connect.ConnectAccounting | crates/mqtt5-conformance/src/packet_parser.rs:236-287 | an accepted CONNECT body is the concatenation of the fields returned and of trailing_bytes more bytes; properties_length is the length its property block announces and has |
| Connect.ConnectRoundTrip | crates/mqtt5-conformance/src/packet_parser.rs:236-287 | any CONNECT whose flags announce its fields is parsed back whole |
| Connect.ConnectFieldsRoundTrip | crates/mqtt5-conformance/src/packet_parser.rs:236-287 | with the flags byte computed from the fields present and any other flags, a CONNECT is parsed back whole |
| Connect.ConnectExample | crates/mqtt5-conformance/src/packet_parser.rs:236-287 | a body with will, user name and password, byte by byte, and its fields |
| Connect.ConnectAccepted | crates/mqtt5-conformance/src/packet_parser.rs:236-243 | with a readable length field, exactly the complete packets with first byte 0x10 are parsed, and by the body announced |
| Connect.ConnectWithWillUserProperties | crates/mqtt5-conformance/src/raw_client.rs:1218-1245 | the builder's loop produces the layout of the CONNECT it describes |
| Connect.BuiltBytes | crates/mqtt5-conformance/src/raw_client.rs:1218-1245 | the built body in bytes, for any client id and properties |
| Connect.BuiltRoundTrip | crates/mqtt5-conformance/src/raw_client.rs:1218-1245 | parsing the built CONNECT returns the will user properties in order and no trailing bytes iff it fits the length field |
| ConnAck.ParseConnAck | crates/mqtt5-conformance/src/packet_parser.rs:365-389 | every early return of the parser; its properties are bounded by the buffer, not by the packet (what the result is in bytes: ConnAckAccounting and ConnAckRoundTrip) |
| ConnAck.ConnAckIsBodyIff | crates/mqtt5-conformance/src/packet_parser.rs:365-389 | in any buffer, the result is that of the packet body alone iff the properties do not end behind the packet in bytes that complete them; otherwise the body alone is rejected |
| ConnAck.ConnAckLocalIff | crates/mqtt5-conformance/src/packet_parser.rs:378-383 | bytes behind a packet change the result exactly then |
| ConnAck.ConnAckReadsPast | crates/mqtt5-conformance/src/packet_parser.rs:378-383 | 20 03 00 00 02 is rejected, and accepted with 24 01 behind it |
| ConnAck.PrintConnAck | crates/mqtt5-conformance/src/scripted_broker.rs:255-259 | the packet is header, length, flag, code 0 and property block in this order |
| ConnAck.ConnAckRoundTrip | crates/mqtt5-conformance/src/packet_parser.rs:365-389 | parsing a CONNACK with any flag byte, any code and any properties, with anything behind it, returns bit 0 of the flag byte, the code and the fold of the properties iff the body fits the length field, and None otherwise |
| ConnAck.ConnAckAccounting | crates/mqtt5-conformance/src/packet_parser.rs:374-388 | an accepted body has at least two bytes: bit 0 of the first is the session flag, the second is the reason code, and a longer one goes on with a property block |
| ConnAck.ShortConnAck | crates/mqtt5-conformance/src/packet_parser.rs:370-386 | two bytes are a CONNACK without properties; fewer are rejected |
| ConnAck.ConnAckNeedsHeader | crates/mqtt5-conformance/src/packet_parser.rs:367-373 | other first bytes and incomplete packets are rejected |
| ConnAck.RefusedConnAck | crates/mqtt5-conformance/src/packet_parser.rs:376 | 20 03 00 87 00 gives code 0x87 |
| TopicMatching.MatchesIsStandard | crates/mqtt5-protocol/src/topic_matching.rs:26-79 | the matcher with fast paths and early returns decides exactly the level-by-level rule of section 4.7 with the $ exclusion |
| TopicMatching.IsValidFilter | crates/mqtt5-protocol/src/topic_matching.rs:90-110 | the early-return loop decides the rule about all levels |
| TopicMatching.JoinSplit | crates/mqtt5-protocol/src/topic_matching.rs:52-53 | joining the levels of a string gives it back |
| TopicMatching.SplitJoin | crates/mqtt5-protocol/src/topic_matching.rs:52-53 | splitting joined levels gives them back |
| TopicMatching.ExactFilter | crates/mqtt5-protocol/src/topic_matching.rs:37-40 | a valid filter without wildcards matches itself and nothing else |
| TopicMatching.PlusWidens | crates/mqtt5-protocol/src/topic_matching.rs:42-79 | replacing a level other than # by + keeps every matched topic, unless the first level is replaced and the topic starts with $ |
| TopicMatching.HashWidens | crates/mqtt5-protocol/src/topic_matching.rs:42-79 | replacing a non-empty tail by # keeps every matched topic, with the same exception |
| TopicMatching.HashIsWiderThanPlus | crates/mqtt5-protocol/src/topic_matching.rs:64-65 | for every topic, topic/# matches it and topic/+ does not |
| TopicMatching.StripShareGroup | crates/mqtt5-protocol/src/validation/shared_subscription.rs:2-17 | stripping removes exactly the prefix and the group |
| TopicMatching.TopicIsPlainFilter | crates/mqtt5-protocol/src/topic_matching.rs:81-110 | a non-empty valid topic name is exactly a valid filter without wildcards |
| TopicMatching.SpecialCharacters | crates/mqtt5-protocol/src/topic_matching.rs:26-79 | the bytes of NUL, #, +, /, $ and $share/ |
| Callbacks.IndexRefinesScan | crates/mqtt5/src/callback.rs:196-216 | in every valid index, a message on a valid topic selects each indexed entry exactly once iff its stripped filter matches, and no other entry |
| Callbacks.AgreesWithScanIff | crates/mqtt5/src/callback.rs:196-216 | for any topic string, dispatch agrees with the scan iff the topic is a valid non-empty name or nothing is indexed under it |
| Callbacks.EmptyTopicIsDispatched | crates/mqtt5/src/callback.rs:196-216 | a callback registered under the empty filter is selected for the empty topic, which matches nothing |
| Callbacks.ReachableValid | crates/mqtt5/src/callback.rs:101-257 | after any sequence of operations every indexed entry is registered with the same data, in the slot of its stripped filter, once |
| Callbacks.RestoreIdempotent | crates/mqtt5/src/callback.rs:145-168 | restoring twice is restoring once; the entries indexed afterwards are those before and the restored one |
| Callbacks.UnregisterCoincidesIff | crates/mqtt5/src/callback.rs:171-191 | index and registry stay in step iff no other live filter strips to the same key without wildcards |
| Callbacks.CoincideRunIff | crates/mqtt5/src/callback.rs:101-257 | the index holds exactly the registered entries in every state of a run iff every filter the run unregisters is then the only live one with its key |
| Callbacks.UnregisterLosesAnother | crates/mqtt5/src/callback.rs:171-191 | after registering "a" and "$share/g/a" and unregistering "a", the second callback is registered and not called |
| Callbacks.UnregisterRemoves | crates/mqtt5/src/callback.rs:171-191 | afterwards no entry with that filter is registered or selected |
| Callbacks.UnregisterRemovesOnly | crates/mqtt5/src/callback.rs:171-191 | the registry loses exactly the entries with that filter, and the index these and, for a key without wildcards, all with the same key |
| Callbacks.RemovedIffChanged | crates/mqtt5/src/callback.rs:171-191 | unregister reports true iff it changed registry or index |
| Callbacks.RegisterAdds | crates/mqtt5/src/callback.rs:101-138 | registry and index gain exactly the new entry, under the next identifier |
| Callbacks.IdsNeverReused | crates/mqtt5/src/callback.rs:101-257 | after any operations the next identifier has grown by the number of registrations |
| Callbacks.DispatchOrder | crates/mqtt5/src/callback.rs:196-216 | of two selected entries, one without wildcards is never called after one with; within either kind they are called in the order of their list |
| Callbacks.CalledInOrder | crates/mqtt5/src/callback.rs:101-216 | in any run without restores each kind is called in the order of registration |
| Callbacks.ExactFirst | crates/mqtt5/src/callback.rs:196-216 | "a/b" is called before "a/+" although registered after it |
| Callbacks.CallbackManager.RegisterWithId | crates/mqtt5/src/callback.rs:101-138 | a fresh identifier, the entry in registry and index, everything else unchanged |
| Callbacks.CallbackManager.RestoreCallback | crates/mqtt5/src/callback.rs:145-168 | true iff registered; the entry is added to the index if it was missing |
| Callbacks.CallbackManager.UnregisterFilter | crates/mqtt5/src/callback.rs:171-191 | the new state, and true iff an entry had this filter or the index held its key |
| Callbacks.CallbackManager.Dispatch | crates/mqtt5/src/callback.rs:196-216 | the callbacks of the selected entries, exact ones first, each part in index order |
| Callbacks.CallbackManager.ClearAll | crates/mqtt5/src/callback.rs:253-257 | index and registry are empty, the next identifier is kept |
| Backoff.CalculateDelay | crates/mqtt5-protocol/src/connection.rs:142-161 | the early-exit loop computes the saturating iteration, on any configuration |
| Backoff.DelayIsCapped | crates/mqtt5-protocol/src/connection.rs:142-161 | with factor at least 1 and a reachable cap the delay is the unlimited floor recurrence capped at the maximum |
| Backoff.DelayIsCappedIff | crates/mqtt5-protocol/src/connection.rs:142-161 | for every configuration the delay is the capped recurrence at all 32-bit attempts iff: with a factor of at least 1, the maximum is at most 2^64 / 100 ms, or the initial delay is below 1 ms, or the factor is 1 and the initial delay at most 2^64 / 100 ms; with a factor below 1, the maximum is below 1 ms, or the first product is below the maximum and at most 2^64 / 100 ms and is not one of four products that rounding brings apart later |
| Backoff.StuckBelowMax | crates/mqtt5-protocol/src/connection.rs:153-160 | a larger maximum is reached on no retry, whatever the factor |
| Backoff.SticksBelowMax | crates/mqtt5-protocol/src/connection.rs:142-161 | 1 s doubled up to 2 * 10^17 ms is below the maximum at attempt 1280, where the recurrence is past it |
| Backoff.SticksAtMax | crates/mqtt5-protocol/src/connection.rs:153-158 | 10 s halved under a maximum of 5 s waits 5 s on every retry, where the recurrence is at 2.5 s on the second |
| Backoff.MonotoneIff | crates/mqtt5-protocol/src/connection.rs:142-161 | for every configuration and any number of attempts, the delay never decreases iff the initial delay is at most the maximum and the first retry, saturated and rounded down to milliseconds, reaches the maximum or is no shorter than the initial delay |
| Backoff.FractionIsLost | crates/mqtt5-protocol/src/connection.rs:147-160 | 1.5 ms with factor 1.0 shrinks on the first retry |
| Backoff.SaturationShrinks | crates/mqtt5-protocol/src/connection.rs:147-160 | 2 * 10^17 ms with factor 1.0 below a maximum of 3 * 10^17 ms shrinks on the first retry |
| Backoff.ReachesMax | crates/mqtt5-protocol/src/connection.rs:153-158 | a growing delay below a reachable maximum of 2^k ms is at it from attempt 20 k on |
| Backoff.ReachesAnyMax | crates/mqtt5-protocol/src/connection.rs:153-158 | at any attempt from 1160 on a growing delay is at its maximum iff that is at most 2^64 / 100 ms |
| Backoff.DelayBounded | crates/mqtt5-protocol/src/connection.rs:142-161 | no delay exceeds the larger of initial and maximum |
| Reconnect.NextReconnectDelay | crates/mqtt5-protocol/src/connection.rs:255-284 | a delay is offered in exactly the states where a reconnect should be tried |
| Reconnect.OfferedAfter | crates/mqtt5-protocol/src/connection.rs:221-284 | after any history: no attempt is offered after Connecting or Connected; after Disconnected or ReconnectFailed the initial delay iff enabled; after Reconnecting its delay iff one more attempt is allowed |
| Reconnect.KeepAliveFits | crates/mqtt5-protocol/src/connection.rs:226-233 | the keep-alive of a Connected event is kept iff it is at most 65535 s |
| Reconnect.Schedule | crates/mqtt5-protocol/src/connection.rs:322-337 | 1 s doubled up to 30 s with at most 5 attempts, attempt by attempt |
| Reconnect.MachineAfterRun | crates/mqtt5-protocol/src/connection.rs:221-247 | after any sequence of events and set_connection_info: the state is that of the last event; session and keep-alive are those of the last Connected event unless a Disconnected, ReconnectFailed or set_connection_info came later, and the rest is what was set last, or the default |
| Reconnect.StaleIff | crates/mqtt5-protocol/src/connection.rs:221-243 | events alone leave information without a connection iff a Connected event with something to tell is followed by Connecting and Reconnecting events only |
| Reconnect.ReconnectingKeepsSession | crates/mqtt5-protocol/src/connection.rs:238-240 | after Connected(true, 60 s) and Reconnecting the old session flag and keep-alive are still there |
| Reconnect.RetryUntilRefused | crates/mqtt5-protocol/src/connection.rs:164-172 | with a limit of m, exactly max(1, m) attempts are made, with the initial delay waited twice, and the total waiting time is bounded |
| Reconnect.NeverRefusesIff | crates/mqtt5-protocol/src/connection.rs:164-172 | for 32-bit attempts, no retry is ever refused iff retrying is enabled without a limit |
| Reconnect.LimitKeptIff | crates/mqtt5-protocol/src/connection.rs:255-263 | with attempt + 1 wrapping at 2^32, the limit is kept in every state but Reconnecting with attempt 2^32 - 1 and a limit above 0 |

## Left out

- Acknowledgement and SUBACK parsing (crates/mqtt5-conformance/src/raw_client.rs:20-36 and 1737-1749): round trips with fewer fields than those of PUBLISH, CONNECT and CONNACK.
- The packet codec of crates/mqtt5-protocol/src/packet: the conformance codec is modelled instead.
- PacketIds.PacketIdGenerator.NextAvailable: is stated for one caller at a time; a single call among others is ConcurrentPacketIds.SharedGenerator.NextId.
- Callbacks.CallbackManager.RegisterWithId: identifiers are unbounded; the wrap-around of the 64-bit counter is not modelled.
- Callbacks.CallbackManager.Dispatch: returns the callbacks in order; the worker channel, panic catching and telemetry are not modelled.
- Backoff.CalculateDelay: takes any attempt number, not only 32-bit ones; `set_backoff_factor` and its floating point are not modelled.
- Reconnect.RetryUntilRefused: the driver loop is the model's; in the platform it is spread over client code with timers.
- QoS2Protocol.ExactlyOnce: holds back the PUBREL of a stored publish on a reconnect, which is an assumption; error codes other than those the receiver sends, deferred acknowledgement and loss of session state are not modelled.
- QoS2Client.ClientRefines: the client's offline queue, its send quota and the abandoning of publishes a new connection no longer admits are not modelled; the receiver is that of qos2.rs, not the client's own, which answers every PUBREL with Success.
- The broker, the session queue, flow control, topic aliases, authentication and bridges.
- Transports, TLS, timers and the conformance tests themselves.
