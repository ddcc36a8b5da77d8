/**
 The loop of `ParsedProperties::parse` (crates/mqtt5-conformance/src/packet_parser.rs). It
 walks a block inside a larger buffer, and its decoders for strings, pairs and variable
 integers look at the whole buffer: only the test after each property keeps it in the block.
 */
module PropertyParser {
  import opened Options
  import opened Bytes
  import opened VarInt
  import opened Properties

  datatype Progress = Progress(props: Parsed, idx: nat)

  // The step that parsing the block alone would take.
  ghost function Step(data: seq<byte>, at: nat, end: nat, props: Parsed): Option<Progress>
    requires at < end <= |data|
  {
    match Take(data[at..end])
    case None => None
    case Some(t) => Some(Progress(Record(props, t.property), at + t.length))
  }

  lemma StepText(data: seq<byte>, at: nat, end: nat, props: Parsed)
    requires at < end <= |data| && KindOf(data[at]) == Some(Text)
    ensures Step(data, at, end, props) ==
            match DecodeString(data, at + 1)
            case None => None
            case Some(f) => if f.next > end then None
            else Some(Progress(Record(props, StringProperty(data[at], f.bytes)), f.next))
  {
    StringSlice(data, at, at + 1, end);
  }

  lemma StepBinary(data: seq<byte>, at: nat, end: nat, props: Parsed)
    requires at < end <= |data| && KindOf(data[at]) == Some(Binary)
    ensures Step(data, at, end, props) ==
            match DecodeBinary(data, at + 1)
            case None => None
            case Some(f) => if f.next > end then None
            else Some(Progress(Record(props, BinaryProperty(data[at], f.bytes)), f.next))
  {
    BinarySlice(data, at, at + 1, end);
  }

  lemma StepVariable(data: seq<byte>, at: nat, end: nat, props: Parsed)
    requires at < end <= |data| && data[at] == SUBSCRIPTION_IDENTIFIER
    ensures Step(data, at, end, props) ==
            match Decode(data, at + 1)
            case None => None
            case Some(d) => if d.next > end then None
            else Some(Progress(Record(props, SubscriptionIdentifier(d.value)), d.next))
  {
    DecodeSlice(data, at, at + 1, end);
  }

  // The two strings of a pair, read one after the other.
  function PairAt(data: seq<byte>, idx: nat): Option<(seq<byte>, seq<byte>, nat)> {
    var k :- DecodeString(data, idx);
    var v :- DecodeString(data, k.next);
    Some((k.bytes, v.bytes, v.next))
  }

  lemma PairSlice(data: seq<byte>, at: nat, end: nat)
    requires at < end <= |data|
    ensures PairAt(data[at..end], 1) ==
            match PairAt(data, at + 1)
            case None => None
            case Some(kv) => if kv.2 > end then None else Some((kv.0, kv.1, kv.2 - at))
  {
    hide DecodeString;
    StringSlice(data, at, at + 1, end);
    match DecodeString(data, at + 1)
    case None =>
    case Some(k) =>
      StringEnd(data, k.next);
      if k.next <= end {
        StringSlice(data, at, k.next, end);
      }
  }

  lemma StringEnd(data: seq<byte>, idx: nat)
    ensures DecodeString(data, idx).Some? ==> idx < DecodeString(data, idx).value.next <= |data|
  {
  }

  lemma StepPair(data: seq<byte>, at: nat, end: nat, props: Parsed)
    requires at < end <= |data| && data[at] == USER_PROPERTY
    ensures Step(data, at, end, props) ==
            match PairAt(data, at + 1)
            case None => None
            case Some(kv) => if kv.2 > end then None
            else Some(Progress(Record(props, UserProperty(kv.0, kv.1)), kv.2))
  {
    hide DecodeString;
    var s := data[at..end];
    assert s[0] == USER_PROPERTY && KindOf(s[0]) == Some(Pair);
    PairSlice(data, at, end);
    assert Take(s) == match PairAt(s, 1)
                      case None => None
                      case Some(kv) => Some(Taken(UserProperty(kv.0, kv.1), kv.2));
  }

  lemma StepUnknown(data: seq<byte>, at: nat, end: nat, props: Parsed)
    requires at < end <= |data| && KindOf(data[at]) == None
    ensures Step(data, at, end, props) == None
  {
  }

  lemma StepFixed(data: seq<byte>, at: nat, end: nat, props: Parsed)
    requires at < end <= |data|
    requires KindOf(data[at]) in {Some(OneByte), Some(TwoBytes), Some(FourBytes)}
    ensures KindOf(data[at]) == Some(OneByte) ==>
              Step(data, at, end, props) ==
              if at + 2 > end then None
              else Some(Progress(Record(props, ByteProperty(data[at], data[at + 1])), at + 2))
    ensures KindOf(data[at]) == Some(TwoBytes) ==>
              Step(data, at, end, props) ==
              if at + 3 > end then None
              else Some(Progress(Record(props, U16Property(data[at], FromBe16(data[at + 1], data[at + 2]))), at + 3))
    ensures KindOf(data[at]) == Some(FourBytes) ==>
              Step(data, at, end, props) ==
              if at + 5 > end then None
              else
                var w := FromBe32(data[at + 1], data[at + 2], data[at + 3], data[at + 4]);
                Some(Progress(Record(props, U32Property(data[at], w)), at + 5))
  {
    var s := data[at..end];
    assert forall k :: 0 <= k < |s| ==> s[k] == data[at + k];
  }

  // The recorded, fixed-size properties.
  method ParseFixed(data: seq<byte>, at: nat, end: nat, props: Parsed) returns (r: Option<Progress>)
    requires at < end <= |data|
    requires data[at] in {PAYLOAD_FORMAT_INDICATOR, MESSAGE_EXPIRY_INTERVAL, SESSION_EXPIRY_INTERVAL,
                          TOPIC_ALIAS, TOPIC_ALIAS_MAXIMUM}
    ensures r == Step(data, at, end, props)
  {
    hide Step;
    StepFixed(data, at, end, props);
    var id, idx := data[at], at + 1;
    if id == PAYLOAD_FORMAT_INDICATOR {
      if idx >= end {
        return None;
      }
      return Some(Progress(props.(payloadFormatIndicator := Some(data[idx])), idx + 1));
    } else if id == MESSAGE_EXPIRY_INTERVAL || id == SESSION_EXPIRY_INTERVAL {
      if idx + 4 > end {
        return None;
      }
      var w := FromBe32(data[idx], data[idx + 1], data[idx + 2], data[idx + 3]);
      if id == MESSAGE_EXPIRY_INTERVAL {
        return Some(Progress(props.(messageExpiryInterval := Some(w)), idx + 4));
      }
      return Some(Progress(props.(sessionExpiryInterval := Some(w)), idx + 4));
    } else {
      if idx + 2 > end {
        return None;
      }
      var h := FromBe16(data[idx], data[idx + 1]);
      if id == TOPIC_ALIAS {
        return Some(Progress(props.(topicAlias := Some(h)), idx + 2));
      }
      return Some(Progress(props.(topicAliasMaximum := Some(h)), idx + 2));
    }
  }

  // The properties that are only stepped over; the caller tests the index afterwards.
  method SkipIgnored(data: seq<byte>, at: nat, end: nat, props: Parsed) returns (idx: Option<nat>)
    requires at < end <= |data|
    requires data[at] !in {PAYLOAD_FORMAT_INDICATOR, MESSAGE_EXPIRY_INTERVAL, SESSION_EXPIRY_INTERVAL,
                           TOPIC_ALIAS, TOPIC_ALIAS_MAXIMUM, CORRELATION_DATA, SUBSCRIPTION_IDENTIFIER, USER_PROPERTY}
    requires KindOf(data[at]) != Some(Text)
    ensures Step(data, at, end, props) ==
            if idx.Some? && idx.value <= end then Some(Progress(props, idx.value)) else None
  {
    hide Step;
    var id := data[at];
    if id in [0x17, 0x19, 0x24, 0x25, 0x28, 0x29, 0x2A] {
      StepFixed(data, at, end, props);
      return Some(at + 2);
    } else if id in [0x13, 0x21] {
      StepFixed(data, at, end, props);
      return Some(at + 3);
    } else if id in [0x18, 0x27] {
      StepFixed(data, at, end, props);
      return Some(at + 5);
    } else if id in [0x12, 0x1A, 0x1C, 0x16] {
      StepBinary(data, at, end, props);
      if at + 3 > end {
        return None;
      }
      return Some(at + 3 + FromBe16(data[at + 1], data[at + 2]));
    } else {
      StepUnknown(data, at, end, props);
      return None;
    }
  }

  // The recorded properties whose decoders see the whole buffer; the caller tests the index
  // afterwards.
  method ParseField(data: seq<byte>, at: nat, end: nat, props: Parsed) returns (r: Option<Progress>)
    requires at < end <= |data|
    requires data[at] in {CONTENT_TYPE, RESPONSE_TOPIC, AUTHENTICATION_METHOD, REASON_STRING,
                          SUBSCRIPTION_IDENTIFIER, USER_PROPERTY}
    ensures Step(data, at, end, props) == if r.Some? && r.value.idx <= end then r else None
  {
    hide Step, DecodeString, Decode;
    var id, idx := data[at], at + 1;
    if id == SUBSCRIPTION_IDENTIFIER {
      StepVariable(data, at, end, props);
      var d := DecodeVariableInt(data, idx);
      if d.None? {
        return None;
      }
      return Some(Progress(props.(subscriptionIdentifiers := props.subscriptionIdentifiers + [d.value.value]), d.value.next));
    } else if id == USER_PROPERTY {
      StepPair(data, at, end, props);
      var k := DecodeString(data, idx);
      if k.None? {
        return None;
      }
      var v := DecodeString(data, k.value.next);
      if v.None? {
        return None;
      }
      return Some(Progress(props.(userProperties := props.userProperties + [(k.value.bytes, v.value.bytes)]), v.value.next));
    } else {
      StepText(data, at, end, props);
      var f := DecodeString(data, idx);
      if f.None? {
        return None;
      }
      return Some(Progress(Record(props, StringProperty(id, f.value.bytes)), f.value.next));
    }
  }

  method ParseCorrelationData(data: seq<byte>, at: nat, end: nat, props: Parsed) returns (r: Option<Progress>)
    requires at < end <= |data| && data[at] == CORRELATION_DATA
    ensures r == Step(data, at, end, props)
  {
    hide Step;
    StepBinary(data, at, end, props);
    var idx := at + 1;
    if idx + 2 > end {
      return None;
    }
    var bodyEnd := idx + 2 + FromBe16(data[idx], data[idx + 1]);
    if bodyEnd > end {
      return None;
    }
    return Some(Progress(props.(correlationData := Some(data[idx + 2..bodyEnd])), bodyEnd));
  }

  // One turn of the loop.
  method ParseOne(data: seq<byte>, at: nat, end: nat, props: Parsed) returns (r: Option<Progress>)
    requires at < end <= |data|
    ensures r == Step(data, at, end, props)
  {
    hide Step;
    var id := data[at];
    if id in [PAYLOAD_FORMAT_INDICATOR, MESSAGE_EXPIRY_INTERVAL, SESSION_EXPIRY_INTERVAL,
              TOPIC_ALIAS, TOPIC_ALIAS_MAXIMUM] {
      r := ParseFixed(data, at, end, props);
      return;
    } else if id == CORRELATION_DATA {
      r := ParseCorrelationData(data, at, end, props);
      return;
    } else if id in [CONTENT_TYPE, RESPONSE_TOPIC, AUTHENTICATION_METHOD, REASON_STRING,
                     SUBSCRIPTION_IDENTIFIER, USER_PROPERTY] {
      r := ParseField(data, at, end, props);
    } else {
      var skipped := SkipIgnored(data, at, end, props);
      r := if skipped.Some? then Some(Progress(props, skipped.value)) else None;
    }
    if r.Some? && r.value.idx > end {
      return None;
    }
  }

  // Locality: parsing the block inside the buffer is parsing the block alone.
  method ParseProperties(data: seq<byte>, start: nat, len: nat) returns (r: Option<Parsed>)
    ensures r == if start + len > |data| then None else ParseBlock(NOTHING, data[start..start + len])
  {
    hide Take;
    var end := start + len;
    if end > |data| {
      return None;
    }
    var props, idx := NOTHING, start;
    while idx < end
      invariant start <= idx <= end
      invariant ParseBlock(NOTHING, data[start..end]) == ParseBlock(props, data[idx..end])
    {
      var one := ParseOne(data, idx, end, props);
      match one {
        case None => return None;
        case Some(p) =>
          assert data[idx..end][p.idx - idx..] == data[p.idx..end];
          props, idx := p.props, p.idx;
      }
    }
    return Some(props);
  }
}
