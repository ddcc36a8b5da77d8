/**
 CONNACK packets (section 3.2 of MQTT 5.0): printed as in
 crates/mqtt5-conformance/src/scripted_broker.rs, parsed as in
 crates/mqtt5-conformance/src/packet_parser.rs. Unlike the parsers of PUBLISH and CONNECT this
 one does not compare the end of the properties with the end of the packet.
 */
module ConnAck {
  import opened Options
  import opened Bytes
  import opened VarInt
  import opened Properties
  import opened PropertyParser
  import opened Publish

  datatype ParsedConnAck = ParsedConnAck(sessionPresent: bool, reasonCode: byte, properties: Parsed)

  // ---- the parser ----

  // The properties announced at idx, of a packet that ends at `end`, as far as `limit`.
  function PropertiesAt(data: seq<byte>, idx: nat, end: nat, limit: nat): Option<Parsed>
    requires end <= limit <= |data|
  {
    if idx >= end then Some(NOTHING)
    else
      var d :- Decode(data, idx);
      if d.next + d.value > limit then None else ParseBlock(NOTHING, data[d.next..d.next + d.value])
  }

  // The packet between start and end, with its properties read as far as `limit`.
  function FieldsAt(data: seq<byte>, start: nat, end: nat, limit: nat): Option<ParsedConnAck>
    requires start <= end <= limit <= |data|
  {
    if end - start < 2 then None
    else
      var properties :- PropertiesAt(data, start + 2, end, limit);
      Some(ParsedConnAck(data[start] % 2 == 1, data[start + 1], properties))
  }

  // The result of a packet body alone.
  function BodyOf(body: seq<byte>): Option<ParsedConnAck> {
    FieldsAt(body, 0, |body|, |body|)
  }

  predicate Complete(data: seq<byte>) {
    && data != [] && data[0] == 0x20 && Decode(data, 1).Some?
    && Decode(data, 1).value.next + Decode(data, 1).value.value <= |data|
  }

  // What the parser computes: the limit is the buffer.
  function ConnAckOf(data: seq<byte>): Option<ParsedConnAck> {
    if !Complete(data) then None
    else
      var d := Decode(data, 1).value;
      FieldsAt(data, d.next, d.next + d.value, |data|)
  }

  method ParseConnAck(data: seq<byte>) returns (r: Option<ParsedConnAck>)
    ensures r == ConnAckOf(data)
  {
    hide Decode, ParseBlock;
    if data == [] || data[0] != 0x20 {
      return None;
    }
    var header := DecodeVariableInt(data, 1);
    if header.None? {
      return None;
    }
    var bodyStart := header.value.next;
    var bodyEnd := bodyStart + header.value.value;
    if bodyEnd > |data| || header.value.value < 2 {
      return None;
    }
    var afterFixed := bodyStart + 2;
    var properties := NOTHING;
    if afterFixed < bodyEnd {
      var block := DecodeVariableInt(data, afterFixed);
      if block.None? {
        return None;
      }
      var parsed := ParseProperties(data, block.value.next, block.value.value);
      if parsed.None? {
        return None;
      }
      properties := parsed.value;
    }
    r := Some(ParsedConnAck(data[bodyStart] % 2 == 1, data[bodyStart + 1], properties));
  }

  // ---- when the bytes behind a packet matter ----

  function BodyStart(data: seq<byte>): nat
    requires Complete(data)
  {
    Decode(data, 1).value.next
  }

  function BodyEnd(data: seq<byte>): nat
    requires Complete(data)
  {
    Decode(data, 1).value.next + Decode(data, 1).value.value
  }

  // The properties announced end behind the packet but in the buffer, and those bytes parse.
  predicate ReadsPast(data: seq<byte>)
    requires Complete(data)
  {
    && BodyStart(data) + 2 < BodyEnd(data)
    && var d := Decode(data, BodyStart(data) + 2);
    && d.Some? && BodyEnd(data) < d.value.next + d.value.value <= |data|
    && ParseBlock(NOTHING, data[d.value.next..d.value.next + d.value.value]).Some?
  }

  lemma PropertiesSlice(data: seq<byte>, start: nat, end: nat)
    requires start + 2 < end <= |data|
    ensures PropertiesAt(data[start..end], 2, end - start, end - start) == PropertiesAt(data, start + 2, end, end)
  {
    hide Decode, ParseBlock;
    DecodeSlice(data, start, start + 2, end);
    match Decode(data, start + 2)
    case None =>
    case Some(d) =>
      if d.next + d.value <= end {
        SliceOfSlice(data, start, end, d.next - start, d.next - start + d.value);
      }
  }

  lemma FieldsSlice(data: seq<byte>, start: nat, end: nat)
    requires start <= end <= |data|
    ensures BodyOf(data[start..end]) == FieldsAt(data, start, end, end)
  {
    hide PropertiesAt;
    var body := data[start..end];
    if end - start >= 2 {
      assert body[0] == data[start] && body[1] == data[start + 1];
      if end - start > 2 {
        PropertiesSlice(data, start, end);
      } else {
        NoProperties(body, 2, 2, 2);
        NoProperties(data, end, end, end);
      }
    }
  }

  lemma NoProperties(data: seq<byte>, idx: nat, end: nat, limit: nat)
    requires idx == end <= limit <= |data|
    ensures PropertiesAt(data, idx, end, limit) == Some(NOTHING)
  {
  }

  // In any buffer that starts with a complete CONNACK, the parser returns what the packet says
  // unless the properties run past its end into bytes that complete them.
  lemma ConnAckIsBodyIff(data: seq<byte>)
    requires Complete(data)
    ensures ConnAckOf(data) == BodyOf(data[BodyStart(data)..BodyEnd(data)]) <==> !ReadsPast(data)
    ensures ReadsPast(data) ==> BodyOf(data[BodyStart(data)..BodyEnd(data)]).None?
  {
    hide Decode, ParseBlock, BodyOf;
    FieldsSlice(data, BodyStart(data), BodyEnd(data));
  }

  // Bytes behind a packet change its result exactly then; alone, that packet is rejected.
  lemma ConnAckLocalIff(frame: seq<byte>, trailing: seq<byte>)
    requires Complete(frame) && BodyEnd(frame) == |frame|
    ensures Complete(frame + trailing)
    ensures ConnAckOf(frame + trailing) == ConnAckOf(frame) <==> !ReadsPast(frame + trailing)
    ensures ReadsPast(frame + trailing) ==> ConnAckOf(frame).None?
  {
    hide Decode, ParseBlock, BodyOf, ConnAckOf;
    var data := frame + trailing;
    DecodeSlice(data, 0, 1, |frame|);
    assert data[0..|frame|] == frame;
    HeaderKept(frame, trailing);
    var i, j := BodyStart(frame), BodyEnd(frame);
    assert data[i..j] == frame[i..j];
    ConnAckIsBodyIff(data);
    ConnAckIsBodyIff(frame);
  }

  lemma HeaderKept(frame: seq<byte>, trailing: seq<byte>)
    requires Complete(frame)
    ensures Decode(frame + trailing, 1) == Decode(frame, 1)
  {
    var data := frame + trailing;
    assert data[1..] == frame[1..] + trailing;
    ScanExtend(frame[1..], 4, trailing);
  }

  // For instance, a packet that announces two bytes of properties and has none.
  lemma ConnAckReadsPast()
    ensures ConnAckOf([0x20, 3, 0, 0, 2]).None?
    ensures ConnAckOf([0x20, 3, 0, 0, 2] + [0x24, 1]) == Some(ParsedConnAck(false, 0, NOTHING))
  {
    hide ParseBlock;
    var frame: seq<byte>, trailing: seq<byte> := [0x20, 3, 0, 0, 2], [0x24, 1];
    var data := frame + trailing;
    ShortVarInt(frame, 1);
    ShortVarInt(data, 1);
    ShortVarInt(frame, 4);
    ShortVarInt(data, 4);
    assert data[5..7] == trailing;
    SkippedByte(trailing);
  }

  lemma ShortVarInt(data: seq<byte>, idx: nat)
    requires idx < |data| && data[idx] < 128
    ensures Decode(data, idx) == Some(Decoded(data[idx], idx + 1))
  {
  }

  lemma SkippedByte(block: seq<byte>)
    requires |block| == 2 && block[0] == 0x24
    ensures ParseBlock(NOTHING, block) == Some(NOTHING)
  {
    assert block[2..] == [];
    assert ParseBlock(NOTHING, []) == Some(NOTHING);
  }

  // ---- what an accepted packet consists of ----

  // The first bit of the flag byte, the code byte, and either nothing more or a property block,
  // behind which the body may go on.
  lemma ConnAckAccounting(body: seq<byte>) returns (block: seq<byte>)
    requires BodyOf(body).Some?
    ensures
      var p := BodyOf(body).value;
      && |body| >= 2 && p.sessionPresent == (body[0] % 2 == 1) && p.reasonCode == body[1]
      && (|body| == 2 ==> p.properties == NOTHING)
      && (|body| > 2 ==> block <= body[2..] && IsSomeBlock(block, p.properties))
  {
    hide ParseBlock, Decode, IsBlock;
    block := [];
    if |body| > 2 {
      var d := Decode(body, 2).value;
      BlockFound(body, 2);
      block := body[2..d.next + d.value];
      assert body[2..] == block + body[d.next + d.value..];
    }
  }

  // Only packets with first byte 0x20 that are complete are accepted.
  lemma ConnAckNeedsHeader(data: seq<byte>, n: nat)
    requires 1 + n <= |data| && IsVarInt(data[1..1 + n])
    ensures data[0] != 0x20 || 1 + n + ValueOf(data[1..1 + n]) > |data| ==> ConnAckOf(data) == None
  {
    hide Decode, ValueOf;
    DecodeMeaning(data, 1, 1 + n);
  }

  // ---- round trip ----

  method PrintConnAck(sessionPresent: bool, props: seq<byte>) returns (packet: seq<byte>)
    ensures packet == Packet(0x20, [if sessionPresent then 1 else 0, 0] + PropertyBlock(props))
  {
    var flags: seq<byte> := [if sessionPresent then 1 else 0, 0x00];
    var body := EncodeVariableInt(flags, |props|);
    body := body + props;
    assert body == flags + PropertyBlock(props);
    packet := WrapFixedHeader(0x20, body);
  }

  lemma PropertiesPrinted(before: seq<byte>, ps: seq<Property>, rest: seq<byte>)
    requires AllEncodable(ps) && |PrintAll(ps)| <= MAX_VARINT
    ensures
      var data := before + PropertyBlock(PrintAll(ps)) + rest;
      var end := |before| + |PropertyBlock(PrintAll(ps))|;
      PropertiesAt(data, |before|, end, |data|) == Some(RecordAll(NOTHING, ps))
  {
    hide ParseBlock, Decode, Encode, PrintAll, RecordAll;
    var block := PrintAll(ps);
    var n := Encode(|block|);
    var data := before + PropertyBlock(block) + rest;
    assert data == before + n + (block + rest);
    DecodeEncode(before, |block|, block + rest);
    var s := |before| + |n|;
    assert data[s..s + |block|] == block;
    ParsePrinted(NOTHING, ps);
  }

  // Parsing a packet with any flag byte, any code and any properties, with anything behind it,
  // returns these exactly when the body is short enough for the length field, and fails
  // otherwise.
  lemma ConnAckRoundTrip(flag: byte, code: byte, ps: seq<Property>, trailing: seq<byte>)
    requires AllEncodable(ps)
    ensures
      var body := [flag, code] + PropertyBlock(PrintAll(ps));
      ConnAckOf(Packet(0x20, body) + trailing) ==
      if |body| > MAX_VARINT then None
      else Some(ParsedConnAck(flag % 2 == 1, code, RecordAll(NOTHING, ps)))
  {
    hide Decode, Encode, PrintAll, RecordAll, PropertiesAt, Encodable, PropertyBlock;
    var block := PropertyBlock(PrintAll(ps));
    var body := [flag, code] + block;
    var data := Packet(0x20, body) + trailing;
    PacketOpens(0x20, body, trailing);
    if |body| <= MAX_VARINT {
      var header := [0x20] + Encode(|body|);
      BlockLength(PrintAll(ps));
      assert data == (header + [flag, code]) + block + trailing;
      PropertiesPrinted(header + [flag, code], ps, trailing);
      assert data[|header|] == flag && data[|header| + 1] == code;
    }
  }

  // A body of two bytes has no properties, and a shorter one is rejected.
  lemma ShortConnAck(flag: byte, code: byte, trailing: seq<byte>)
    ensures ConnAckOf([0x20, 2, flag, code] + trailing) == Some(ParsedConnAck(flag % 2 == 1, code, NOTHING))
    ensures ConnAckOf([0x20, 1, flag] + trailing) == None && ConnAckOf([0x20, 0] + trailing) == None
  {
    ShortVarInt([0x20, 2, flag, code] + trailing, 1);
    ShortVarInt([0x20, 1, flag] + trailing, 1);
    ShortVarInt([0x20, 0] + trailing, 1);
  }

  // For instance, a connection refused with 0x87 (not authorized).
  lemma RefusedConnAck()
    ensures ConnAckOf([0x20, 3, 0, 0x87, 0]) == Some(ParsedConnAck(false, 0x87, NOTHING))
  {
    hide ConnAckOf;
    ConnAckRoundTrip(0, 0x87, [], []);
    var body: seq<byte> := [0, 0x87] + PropertyBlock(PrintAll([]));
    assert PrintAll([]) == [] && Encode(0) == [0] && Encode(3) == [3];
    assert PropertyBlock([]) == [0];
    assert body == [0, 0x87, 0];
    assert Packet(0x20, body) + [] == [0x20, 3, 0, 0x87, 0];
  }

  lemma BlockLength(props: seq<byte>)
    ensures |PropertyBlock(props)| > |props|
  {
  }
}
