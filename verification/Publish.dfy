/**
 PUBLISH packets (section 3.3 of MQTT 5.0): printed as in
 crates/mqtt5-conformance/src/scripted_broker.rs, parsed as in
 crates/mqtt5-conformance/src/packet_parser.rs.
 */
module Publish {
  import opened Options
  import opened Bytes
  import opened VarInt
  import opened Properties
  import opened PropertyParser

  // ---- printing ----

  // `wrap_fixed_header`
  function Packet(first: byte, body: seq<byte>): seq<byte> {
    [first] + Encode(|body|) + body
  }

  // `properties`: the block preceded by its length.
  function PropertyBlock(props: seq<byte>): seq<byte> {
    Encode(|props|) + props
  }

  function PacketIdBytes(id: Option<u16>): seq<byte> {
    if id.Some? then Be16(id.value) else []
  }

  function PublishBody(topic: seq<byte>, id: Option<u16>, props: seq<byte>, payload: seq<byte>): seq<byte>
    requires |topic| < 0x1_0000
  {
    LengthPrefixed(topic) + PacketIdBytes(id) + PropertyBlock(props) + payload
  }

  method WrapFixedHeader(first: byte, body: seq<byte>) returns (packet: seq<byte>)
    ensures packet == Packet(first, body)
  {
    packet := [first];
    packet := EncodeVariableInt(packet, |body|);
    packet := packet + body;
  }

  method PrintPublish(first: byte, topic: seq<byte>, id: Option<u16>, props: seq<byte>, payload: seq<byte>)
    returns (packet: seq<byte>)
    requires |topic| < 0x1_0000
    ensures packet == Packet(first, PublishBody(topic, id, props, payload))
  {
    var body := LengthPrefixed(topic);
    if id.Some? {
      body := body + Be16(id.value);
    }
    ghost var prefix := LengthPrefixed(topic) + PacketIdBytes(id);
    assert body == prefix;
    body := EncodeVariableInt(body, |props|);
    body := body + props;
    assert body == prefix + PropertyBlock(props);
    body := body + payload;
    packet := WrapFixedHeader(first, body);
  }

  // ---- parsing, stated on the packet body alone ----

  datatype ParsedPublish = ParsedPublish(
    dup: bool,
    qos: nat,
    retain: bool,
    topic: seq<byte>,
    packetId: Option<u16>,
    properties: Parsed,
    payload: seq<byte>)

  // Bit 3, bits 2 and 1, and bit 0 of the first byte.

  predicate DupOf(first: byte) {
    first / 8 % 2 == 1
  }

  function QosOf(first: byte): nat {
    first / 2 % 4
  }

  predicate RetainOf(first: byte) {
    first % 2 == 1
  }

  // The fields after the topic, of a body whose topic ends at idx.
  function AfterTopic(first: byte, body: seq<byte>, topic: seq<byte>, id: Option<u16>, idx: nat): Option<ParsedPublish> {
    var block :- Decode(body, idx);
    var payloadStart := block.next + block.value;
    if payloadStart > |body| then None
    else
      var parsed :- ParseBlock(NOTHING, body[block.next..payloadStart]);
      Some(ParsedPublish(DupOf(first), QosOf(first), RetainOf(first), topic, id, parsed, body[payloadStart..]))
  }

  function BodyOf(first: byte, body: seq<byte>): Option<ParsedPublish> {
    var topic :- DecodeString(body, 0);
    var idx := topic.next;
    if QosOf(first) == 0 then AfterTopic(first, body, topic.bytes, None, idx)
    else if idx + 2 > |body| then None
    else AfterTopic(first, body, topic.bytes, Some(FromBe16(body[idx], body[idx + 1])), idx + 2)
  }

  function PublishOf(data: seq<byte>): Option<ParsedPublish> {
    if data == [] || data[0] / 16 != 3 then None
    else
      var header :- Decode(data, 1);
      var end := header.next + header.value;
      if end > |data| then None else BodyOf(data[0], data[header.next..end])
  }

  // ---- the parser itself, whose decoders are bounded by the buffer and not by the body ----

  // The same fields read with decoders that see the whole buffer.
  ghost function RestInBuffer(first: byte, data: seq<byte>, end: nat, topic: seq<byte>, id: Option<u16>, idx: nat)
    : Option<ParsedPublish>
    requires end <= |data|
  {
    var block :- Decode(data, idx);
    var payloadStart := block.next + block.value;
    if payloadStart > end then None
    else
      var parsed :- ParseBlock(NOTHING, data[block.next..payloadStart]);
      Some(ParsedPublish(DupOf(first), QosOf(first), RetainOf(first), topic, id, parsed, data[payloadStart..end]))
  }

  ghost function BodyInBuffer(first: byte, data: seq<byte>, start: nat, end: nat): Option<ParsedPublish>
    requires start <= end <= |data|
  {
    var topic :- DecodeString(data, start);
    var idx := topic.next;
    if QosOf(first) == 0 then RestInBuffer(first, data, end, topic.bytes, None, idx)
    else if idx + 2 > end then None
    else RestInBuffer(first, data, end, topic.bytes, Some(FromBe16(data[idx], data[idx + 1])), idx + 2)
  }

  lemma RestSlice(first: byte, data: seq<byte>, start: nat, end: nat, topic: seq<byte>, id: Option<u16>, idx: nat)
    requires start <= idx <= end <= |data|
    ensures AfterTopic(first, data[start..end], topic, id, idx - start) ==
            RestInBuffer(first, data, end, topic, id, idx)
  {
    hide ParseBlock, Decode, DupOf, QosOf, RetainOf;
    DecodeSlice(data, start, idx, end);
    match Decode(data, idx)
    case None =>
    case Some(b) =>
      if b.next + b.value <= end {
        var i := b.next - start;
        SliceOfSlice(data, start, end, i, i + b.value);
        SliceOfSlice(data, start, end, i + b.value, i + b.value);
      }
  }

  // Whatever lies behind the body, the result is that of the body alone: a field that runs
  // over its end is noticed at the latest when the payload would start behind it.
  lemma BodySlice(first: byte, data: seq<byte>, start: nat, end: nat)
    requires start <= end <= |data|
    ensures BodyOf(first, data[start..end]) == BodyInBuffer(first, data, start, end)
  {
    hide AfterTopic, Decode, DecodeString, ParseBlock, DupOf, QosOf, RetainOf, FromBe16;
    var body, topic := data[start..end], DecodeString(data, start);
    StringSlice(data, start, start, end);
    StringEnd(data, start);
    if topic.Some? && topic.value.next <= end {
      var idx := topic.value.next;
      RestSlice(first, data, start, end, topic.value.bytes, None, idx);
      if idx + 2 <= end {
        var id := FromBe16(data[idx], data[idx + 1]);
        assert body[idx - start] == data[idx] && body[idx - start + 1] == data[idx + 1];
        RestSlice(first, data, start, end, topic.value.bytes, Some(id), idx + 2);
      }
    } else if topic.Some? {
      assert RestInBuffer(first, data, end, topic.value.bytes, None, topic.value.next) == None;
    }
  }

  method ParsePublish(data: seq<byte>) returns (r: Option<ParsedPublish>)
    ensures r == PublishOf(data)
  {
    hide ParseBlock, Decode, DecodeString, BodyOf, DupOf, QosOf, RetainOf;
    if data == [] || data[0] / 16 != 3 {
      return None;
    }
    var first := data[0];
    var header := DecodeVariableInt(data, 1);
    if header.None? {
      return None;
    }
    var bodyStart := header.value.next;
    var bodyEnd := bodyStart + header.value.value;
    if bodyEnd > |data| {
      return None;
    }
    BodySlice(first, data, bodyStart, bodyEnd);
    var topic := DecodeString(data, bodyStart);
    if topic.None? {
      return None;
    }
    var idx := topic.value.next;
    var id: Option<u16> := None;
    if QosOf(first) > 0 {
      if idx + 2 > bodyEnd {
        return None;
      }
      id := Some(FromBe16(data[idx], data[idx + 1]));
      idx := idx + 2;
    }
    assert PublishOf(data) == RestInBuffer(first, data, bodyEnd, topic.value.bytes, id, idx);
    var block := DecodeVariableInt(data, idx);
    if block.None? {
      return None;
    }
    var properties := ParseProperties(data, block.value.next, block.value.value);
    if properties.None? {
      return None;
    }
    var payloadStart := block.value.next + block.value.value;
    if payloadStart > bodyEnd {
      return None;
    }
    r := Some(ParsedPublish(DupOf(first), QosOf(first), RetainOf(first), topic.value.bytes, id,
                            properties.value, data[payloadStart..bodyEnd]));
  }

  // Locality: bytes behind a complete packet do not change how it is parsed.
  lemma PublishLocal(frame: seq<byte>, trailing: seq<byte>)
    requires frame != [] && Decode(frame, 1).Some?
    requires Decode(frame, 1).value.next + Decode(frame, 1).value.value <= |frame|
    ensures PublishOf(frame + trailing) == PublishOf(frame)
  {
    hide BodyOf, Decode;
    var data := frame + trailing;
    DecodeSlice(data, 0, 1, |frame|);
    assert data[0..|frame|] == frame;
    var d := Decode(frame, 1).value;
    if Decode(data, 1).Some? {
      assert data[d.next..d.next + d.value] == frame[d.next..d.next + d.value];
    }
  }

  // ---- what an accepted packet consists of ----

  // bs is a property block: a field that holds `length`, then that many bytes, which parse to
  // `properties`.
  predicate IsBlock(bs: seq<byte>, length: nat, properties: Parsed) {
    && length <= |bs|
    && var k := |bs| - length;
    && IsVarInt(bs[..k]) && ValueOf(bs[..k]) == length
    && ParseBlock(NOTHING, bs[k..]) == Some(properties)
  }

  ghost predicate IsSomeBlock(bs: seq<byte>, properties: Parsed) {
    exists length: nat :: IsBlock(bs, length, properties)
  }

  lemma BlockFound(body: seq<byte>, idx: nat)
    requires Decode(body, idx).Some?
    requires
      var d := Decode(body, idx).value;
      d.next + d.value <= |body| && ParseBlock(NOTHING, body[d.next..d.next + d.value]).Some?
    ensures
      var d := Decode(body, idx).value;
      IsBlock(body[idx..d.next + d.value], d.value, ParseBlock(NOTHING, body[d.next..d.next + d.value]).value)
  {
    hide ParseBlock, Decode, ValueOf;
    var d := Decode(body, idx).value;
    var bs, k := body[idx..d.next + d.value], d.next - idx;
    DecodeMeaning(body, idx, d.next);
    assert bs[..k] == body[idx..d.next] && bs[k..] == body[d.next..d.next + d.value];
  }

  // An accepted body is its topic, which is well-formed UTF-8, an identifier exactly if the QoS
  // is not 0, a property block and the payload.
  lemma PublishAccounting(first: byte, body: seq<byte>) returns (block: seq<byte>)
    requires BodyOf(first, body).Some?
    ensures
      var p := BodyOf(first, body).value;
      && IsString(p.topic) && (p.packetId.Some? <==> p.qos > 0)
      && body == LengthPrefixed(p.topic) + PacketIdBytes(p.packetId) + block + p.payload
      && IsSomeBlock(block, p.properties)
  {
    hide ParseBlock, Decode, LengthPrefixed, IsBlock, DupOf, QosOf, RetainOf, Utf8, Be16, FromBe16;
    var p := BodyOf(first, body).value;
    var i := DecodeString(body, 0).value.next;
    var j := if QosOf(first) == 0 then i else i + 2;
    var d := Decode(body, j).value;
    var k := d.next + d.value;
    BlockFound(body, j);
    block := body[j..k];
    assert body[..i] == LengthPrefixed(p.topic) by { assert body[0..i] == body[..i]; }
    assert body[i..j] == PacketIdBytes(p.packetId) by {
      if j == i + 2 {
        Be16Again(body[i], body[i + 1]);
      }
    }
    assert body == body[..i] + body[i..j] + body[j..k] + body[k..];
  }

  // Only complete packets of type 3 are accepted, with the body their length announces.
  lemma PublishAccepted(data: seq<byte>, n: nat)
    requires 1 + n <= |data| && IsVarInt(data[1..1 + n])
    ensures
      var end := 1 + n + ValueOf(data[1..1 + n]);
      PublishOf(data) == if data[0] / 16 == 3 && end <= |data| then BodyOf(data[0], data[1 + n..end]) else None
  {
    hide BodyOf, Decode, ValueOf;
    DecodeMeaning(data, 1, 1 + n);
  }

  // ---- round trip ----

  lemma AfterTopicPrinted(first: byte, before: seq<byte>, topic: seq<byte>, id: Option<u16>,
                          ps: seq<Property>, payload: seq<byte>)
    requires AllEncodable(ps) && |PrintAll(ps)| <= MAX_VARINT
    ensures AfterTopic(first, before + PropertyBlock(PrintAll(ps)) + payload, topic, id, |before|) ==
            Some(ParsedPublish(DupOf(first), QosOf(first), RetainOf(first), topic, id,
                               RecordAll(NOTHING, ps), payload))
  {
    hide ParseBlock, Decode, RecordAll, PrintAll, Encode, DupOf, QosOf, RetainOf;
    var block := PrintAll(ps);
    var n := Encode(|block|);
    var body := before + PropertyBlock(block) + payload;
    assert body == before + n + (block + payload);
    DecodeEncode(before, |block|, block + payload);
    var s := |before| + |n|;
    assert body[s..s + |block|] == block && body[s + |block|..] == payload;
    ParsePrinted(NOTHING, ps);
  }

  lemma BodyPrinted(first: byte, topic: seq<byte>, id: Option<u16>, ps: seq<Property>, payload: seq<byte>)
    requires IsString(topic) && (id.Some? <==> QosOf(first) != 0)
    requires AllEncodable(ps) && |PrintAll(ps)| <= MAX_VARINT
    ensures BodyOf(first, PublishBody(topic, id, PrintAll(ps), payload)) ==
            Some(ParsedPublish(DupOf(first), QosOf(first), RetainOf(first), topic, id,
                               RecordAll(NOTHING, ps), payload))
  {
    hide AfterTopic, DecodeString, PrintAll, RecordAll, PropertyBlock, DupOf, QosOf, RetainOf, Encodable, Utf8;
    var t, i := LengthPrefixed(topic), PacketIdBytes(id);
    var block := PropertyBlock(PrintAll(ps));
    var body := PublishBody(topic, id, PrintAll(ps), payload);
    assert DecodeString(body, 0) == Some(Field(topic, |t|)) by {
      assert body == [] + t + (i + block + payload);
      StringPrefixed([], topic, i + block + payload);
    }
    assert AfterTopic(first, body, topic, id, |t| + |i|) ==
           Some(ParsedPublish(DupOf(first), QosOf(first), RetainOf(first), topic, id, RecordAll(NOTHING, ps), payload)) by {
      AfterTopicPrinted(first, t + i, topic, id, ps, payload);
    }
    assert id.Some? ==> |t| + 2 <= |body| && FromBe16(body[|t|], body[|t| + 1]) == id.value by {
      if id.Some? {
        assert body[|t|] == i[0] && body[|t| + 1] == i[1];
      }
    }
  }

  lemma BlockFits(topic: seq<byte>, id: Option<u16>, props: seq<byte>, payload: seq<byte>)
    requires |topic| < 0x1_0000
    ensures |props| <= |PublishBody(topic, id, props, payload)|
  {
  }

  // Opening a printed packet, whatever is behind it.
  lemma PacketOpens(first: byte, body: seq<byte>, trailing: seq<byte>)
    ensures
      var data := Packet(first, body) + trailing;
      && data[0] == first
      && Decode(data, 1) == (if |body| <= MAX_VARINT then Some(Decoded(|body|, 1 + |Encode(|body|)|)) else None)
      && 1 + |Encode(|body|)| + |body| <= |data|
      && data[1 + |Encode(|body|)|..1 + |Encode(|body|)| + |body|] == body
  {
    var n := Encode(|body|);
    assert Packet(first, body) + trailing == [first] + n + (body + trailing);
    DecodeEncode([first], |body|, body + trailing);
  }

  // `publish_first_byte`, with the retain flag: packet type 3, then DUP, two bits of QoS, RETAIN.
  function FirstByte(dup: bool, qos: nat, retain: bool): byte
    requires qos < 4
  {
    0x30 + (if dup then 8 else 0) + 2 * qos + if retain then 1 else 0
  }

  // The flags read from a first byte are the ones it is built from, and every first byte of a
  // PUBLISH is built so.
  lemma FlagBits(dup: bool, qos: nat, retain: bool, first: byte)
    requires qos < 4
    ensures first == FirstByte(dup, qos, retain) <==>
            first / 16 == 3 && DupOf(first) == dup && QosOf(first) == qos && RetainOf(first) == retain
  {
  }

  // Parsing what was printed, with anything behind it, returns every field; it does so exactly
  // when the body is short enough for the length field, and fails otherwise.
  lemma PublishRoundTrip(dup: bool, qos: nat, retain: bool, topic: seq<byte>, id: Option<u16>, ps: seq<Property>,
                         payload: seq<byte>, trailing: seq<byte>)
    requires qos < 4 && IsString(topic) && (id.Some? <==> qos > 0)
    requires AllEncodable(ps)
    ensures
      var first := 0x30 + (if dup then 8 else 0) + 2 * qos + if retain then 1 else 0;
      var body := PublishBody(topic, id, PrintAll(ps), payload);
      PublishOf(Packet(first, body) + trailing) ==
      if |body| > MAX_VARINT then None
      else Some(ParsedPublish(dup, qos, retain, topic, id, RecordAll(NOTHING, ps), payload))
  {
    hide BodyOf, Decode, Encode, RecordAll, PublishBody, PrintAll, Packet, Utf8, Encodable, QosOf, DupOf, RetainOf;
    var first := FirstByte(dup, qos, retain);
    FlagBits(dup, qos, retain, first);
    var body := PublishBody(topic, id, PrintAll(ps), payload);
    BlockFits(topic, id, PrintAll(ps), payload);
    PacketOpens(first, body, trailing);
    if |body| <= MAX_VARINT {
      BodyPrinted(first, topic, id, ps, payload);
    }
  }

  // For instance, with QoS 1, topic "t/ab", identifier 1, payload format 1 and payload "hello".
  lemma PublishExample()
    ensures
      PublishOf([0x32, 0x10, 0x00, 0x04, 0x74, 0x2F, 0x61, 0x62, 0x00, 0x01, 0x02, 0x01, 0x01,
                 0x68, 0x65, 0x6C, 0x6C, 0x6F]) ==
      Some(ParsedPublish(false, 1, false, [0x74, 0x2F, 0x61, 0x62], Some(1),
                              NOTHING.(payloadFormatIndicator := Some(1)), [0x68, 0x65, 0x6C, 0x6C, 0x6F]))
  {
    hide PublishOf, RecordAll;
    var topic: seq<byte>, payload: seq<byte> := [0x74, 0x2F, 0x61, 0x62], [0x68, 0x65, 0x6C, 0x6C, 0x6F];
    var ps := [ByteProperty(0x01, 0x01)];
    AsciiIsUtf8(topic);
    PublishRoundTrip(false, 1, false, topic, Some(1), ps, payload, []);
    assert [ps[0]][1..] == [];
    assert PrintAll(ps) == [0x01, 0x01] by { assert PrintAll([]) == []; }
    assert RecordAll(NOTHING, ps) == NOTHING.(payloadFormatIndicator := Some(1)) by { RecordOnly(NOTHING, ps[0]); }
    PrintedExample(topic, payload);
  }

  lemma PrintedExample(topic: seq<byte>, payload: seq<byte>)
    requires topic == [0x74, 0x2F, 0x61, 0x62] && payload == [0x68, 0x65, 0x6C, 0x6C, 0x6F]
    ensures
      Packet(0x32, PublishBody(topic, Some(1), [0x01, 0x01], payload)) + [] ==
      [0x32, 0x10, 0x00, 0x04, 0x74, 0x2F, 0x61, 0x62, 0x00, 0x01, 0x02, 0x01, 0x01, 0x68, 0x65, 0x6C, 0x6C, 0x6F]
  {
    hide Be16, Encode, PublishBody;
    ExampleBody(topic, payload);
    OneByteLength(16);
  }

  lemma ExampleBody(topic: seq<byte>, payload: seq<byte>)
    requires |topic| == 4
    ensures
      PublishBody(topic, Some(1), [0x01, 0x01], payload) ==
      [0x00, 0x04] + topic + [0x00, 0x01] + [0x02, 0x01, 0x01] + payload
  {
    hide Be16, Encode;
    HighFirst(4);
    HighFirst(1);
    OneByteLength(2);
  }

  lemma OneByteLength(v: nat)
    requires v < 128
    ensures Encode(v) == [v]
  {
  }

  lemma RecordOnly(v: Parsed, p: Property)
    ensures RecordAll(v, [p]) == Record(v, p)
  {
    assert [p][1..] == [];
    assert RecordAll(Record(v, p), []) == Record(v, p);
  }

  lemma {:induction false} AsciiIsUtf8(s: seq<byte>)
    requires forall k :: 0 <= k < |s| ==> s[k] < 0x80
    ensures Utf8(s)
  {
    if s != [] {
      AsciiIsUtf8(s[1..]);
    }
  }
}
