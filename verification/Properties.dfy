/**
 Property blocks (section 2.2.2 of MQTT 5.0): the printers of
 crates/mqtt5-conformance/src/scripted_broker.rs and the table-driven parser of
 crates/mqtt5-conformance/src/packet_parser.rs.
 */
module Properties {
  import opened Options
  import opened Bytes
  import opened VarInt

  // ---- length-prefixed fields ----

  datatype Field = Field(bytes: seq<byte>, next: nat)

  function DecodeBinary(data: seq<byte>, idx: nat): (r: Option<Field>)
    ensures r.Some? ==> idx + 2 + |r.value.bytes| == r.value.next <= |data|
    ensures r.Some? ==> |r.value.bytes| < 0x1_0000
    ensures r.Some? ==> data[idx..r.value.next] == LengthPrefixed(r.value.bytes)
  {
    if idx + 2 > |data| then None
    else
      var end := idx + 2 + FromBe16(data[idx], data[idx + 1]);
      if end > |data| then None
      else
        assert data[idx..end] == data[idx..idx + 2] + data[idx + 2..end];
        Some(Field(data[idx + 2..end], end))
  }

  function DecodeString(data: seq<byte>, idx: nat): Option<Field> {
    var f :- DecodeBinary(data, idx);
    if Utf8(f.bytes) then Some(f) else None
  }

  // `mqtt_string` and `put_mqtt_string`: both panic on more than 65535 bytes.
  function LengthPrefixed(bs: seq<byte>): seq<byte>
    requires |bs| < 0x1_0000
  {
    Be16(|bs|) + bs
  }

  lemma DecodePrefixed(before: seq<byte>, bs: seq<byte>, rest: seq<byte>)
    requires |bs| < 0x1_0000
    ensures DecodeBinary(before + LengthPrefixed(bs) + rest, |before|) ==
            Some(Field(bs, |before| + 2 + |bs|))
  {
    var data, i := before + LengthPrefixed(bs) + rest, |before|;
    assert data[i] == Be16(|bs|)[0] && data[i + 1] == Be16(|bs|)[1];
    assert data[i + 2..i + 2 + |bs|] == bs;
  }

  lemma StringPrefixed(before: seq<byte>, bs: seq<byte>, rest: seq<byte>)
    requires IsString(bs)
    ensures DecodeString(before + LengthPrefixed(bs) + rest, |before|) ==
            Some(Field(bs, |before| + 2 + |bs|))
  {
    DecodePrefixed(before, bs, rest);
  }

  // A field decoded in a buffer and in a slice of it: the same if it ends inside the slice.
  lemma BinarySlice(data: seq<byte>, start: nat, idx: nat, end: nat)
    requires start <= idx && start <= end <= |data|
    ensures DecodeBinary(data[start..end], idx - start) ==
            match DecodeBinary(data, idx)
            case None => None
            case Some(f) => if f.next <= end then Some(Field(f.bytes, f.next - start)) else None
  {
    var slice, i := data[start..end], idx - start;
    if idx + 2 <= end {
      assert slice[i] == data[idx] && slice[i + 1] == data[idx + 1];
      var n := FromBe16(data[idx], data[idx + 1]);
      if idx + 2 + n <= end {
        assert slice[i + 2..i + 2 + n] == data[idx + 2..idx + 2 + n];
      }
    }
  }

  lemma StringSlice(data: seq<byte>, start: nat, idx: nat, end: nat)
    requires start <= idx && start <= end <= |data|
    ensures DecodeString(data[start..end], idx - start) ==
            match DecodeString(data, idx)
            case None => None
            case Some(f) => if f.next <= end then Some(Field(f.bytes, f.next - start)) else None
  {
    BinarySlice(data, start, idx, end);
  }

  // ---- properties ----

  const PAYLOAD_FORMAT_INDICATOR: byte := 0x01
  const MESSAGE_EXPIRY_INTERVAL: byte := 0x02
  const CONTENT_TYPE: byte := 0x03
  const RESPONSE_TOPIC: byte := 0x08
  const CORRELATION_DATA: byte := 0x09
  const SUBSCRIPTION_IDENTIFIER: byte := 0x0B
  const SESSION_EXPIRY_INTERVAL: byte := 0x11
  const AUTHENTICATION_METHOD: byte := 0x15
  const REASON_STRING: byte := 0x1F
  const TOPIC_ALIAS_MAXIMUM: byte := 0x22
  const TOPIC_ALIAS: byte := 0x23
  const USER_PROPERTY: byte := 0x26

  datatype Kind = OneByte | TwoBytes | FourBytes | Text | Binary | Variable | Pair

  // The wire form that follows each known identifier.
  function KindOf(id: byte): Option<Kind> {
    if id in {PAYLOAD_FORMAT_INDICATOR, 0x17, 0x19, 0x24, 0x25, 0x28, 0x29, 0x2A} then Some(OneByte)
    else if id in {TOPIC_ALIAS, TOPIC_ALIAS_MAXIMUM, 0x13, 0x21} then Some(TwoBytes)
    else if id in {MESSAGE_EXPIRY_INTERVAL, SESSION_EXPIRY_INTERVAL, 0x18, 0x27} then Some(FourBytes)
    else if id in {CONTENT_TYPE, RESPONSE_TOPIC, AUTHENTICATION_METHOD, REASON_STRING} then Some(Text)
    else if id in {CORRELATION_DATA, 0x12, 0x1A, 0x1C, 0x16} then Some(Binary)
    else if id == SUBSCRIPTION_IDENTIFIER then Some(Variable)
    else if id == USER_PROPERTY then Some(Pair)
    else None
  }

  datatype Property =
    | ByteProperty(id: byte, b: byte)
    | U16Property(id: byte, h: u16)
    | U32Property(id: byte, w: u32)
    | StringProperty(id: byte, text: seq<byte>)
    | BinaryProperty(id: byte, blob: seq<byte>)
    | SubscriptionIdentifier(n: nat)
    | UserProperty(key: seq<byte>, value: seq<byte>)

  predicate IsString(s: seq<byte>) {
    |s| < 0x1_0000 && Utf8(s)
  }

  // The property can be printed under its identifier.
  predicate Encodable(p: Property) {
    match p
    case ByteProperty(id, _) => KindOf(id) == Some(OneByte)
    case U16Property(id, _) => KindOf(id) == Some(TwoBytes)
    case U32Property(id, _) => KindOf(id) == Some(FourBytes)
    case StringProperty(id, text) => KindOf(id) == Some(Text) && IsString(text)
    case BinaryProperty(id, blob) => KindOf(id) == Some(Binary) && |blob| < 0x1_0000
    case SubscriptionIdentifier(n) => n <= MAX_VARINT
    case UserProperty(key, value) => IsString(key) && IsString(value)
  }

  predicate AllEncodable(ps: seq<Property>) {
    forall k :: 0 <= k < |ps| ==> Encodable(ps[k])
  }

  function Print(p: Property): (bs: seq<byte>)
    requires Encodable(p)
    ensures bs != []
  {
    match p
    case ByteProperty(id, b) => [id, b]
    case U16Property(id, h) => [id] + Be16(h)
    case U32Property(id, w) => [id] + Be32(w)
    case StringProperty(id, text) => [id] + LengthPrefixed(text)
    case BinaryProperty(id, blob) => [id] + LengthPrefixed(blob)
    case SubscriptionIdentifier(n) => [SUBSCRIPTION_IDENTIFIER] + Encode(n)
    case UserProperty(key, value) => [USER_PROPERTY] + LengthPrefixed(key) + LengthPrefixed(value)
  }

  function PrintAll(ps: seq<Property>): seq<byte>
    requires AllEncodable(ps)
  {
    if ps == [] then [] else Print(ps[0]) + PrintAll(ps[1..])
  }

  // The typed view over a block.
  datatype Parsed = Parsed(
    userProperties: seq<(seq<byte>, seq<byte>)>,
    subscriptionIdentifiers: seq<nat>,
    topicAlias: Option<u16>,
    topicAliasMaximum: Option<u16>,
    contentType: Option<seq<byte>>,
    responseTopic: Option<seq<byte>>,
    correlationData: Option<seq<byte>>,
    payloadFormatIndicator: Option<byte>,
    messageExpiryInterval: Option<u32>,
    sessionExpiryInterval: Option<u32>,
    reasonString: Option<seq<byte>>,
    authenticationMethod: Option<seq<byte>>)

  const NOTHING := Parsed([], [], None, None, None, None, None, None, None, None, None, None)

  // Records one property; properties of no interest are dropped.
  function Record(v: Parsed, p: Property): Parsed {
    match p
    case ByteProperty(id, b) =>
      if id == PAYLOAD_FORMAT_INDICATOR then v.(payloadFormatIndicator := Some(b)) else v
    case U16Property(id, h) =>
      if id == TOPIC_ALIAS then v.(topicAlias := Some(h))
      else if id == TOPIC_ALIAS_MAXIMUM then v.(topicAliasMaximum := Some(h)) else v
    case U32Property(id, w) =>
      if id == MESSAGE_EXPIRY_INTERVAL then v.(messageExpiryInterval := Some(w))
      else if id == SESSION_EXPIRY_INTERVAL then v.(sessionExpiryInterval := Some(w)) else v
    case StringProperty(id, text) =>
      if id == CONTENT_TYPE then v.(contentType := Some(text))
      else if id == RESPONSE_TOPIC then v.(responseTopic := Some(text))
      else if id == AUTHENTICATION_METHOD then v.(authenticationMethod := Some(text))
      else v.(reasonString := Some(text))
    case BinaryProperty(id, blob) =>
      if id == CORRELATION_DATA then v.(correlationData := Some(blob)) else v
    case SubscriptionIdentifier(n) =>
      v.(subscriptionIdentifiers := v.subscriptionIdentifiers + [n])
    case UserProperty(key, value) =>
      v.(userProperties := v.userProperties + [(key, value)])
  }

  function RecordAll(v: Parsed, ps: seq<Property>): Parsed
    decreases |ps|
  {
    if ps == [] then v else RecordAll(Record(v, ps[0]), ps[1..])
  }

  // ---- parsing, stated on the block alone ----

  datatype Taken = Taken(property: Property, length: nat)

  // The property at the head of the block and its length.
  function Take(s: seq<byte>): (r: Option<Taken>)
    requires s != []
    ensures r.Some? ==> 1 <= r.value.length <= |s|
  {
    var kind :- KindOf(s[0]);
    match kind
    case OneByte => if |s| < 2 then None else Some(Taken(ByteProperty(s[0], s[1]), 2))
    case TwoBytes => if |s| < 3 then None else Some(Taken(U16Property(s[0], FromBe16(s[1], s[2])), 3))
    case FourBytes =>
      if |s| < 5 then None
      else Some(Taken(U32Property(s[0], FromBe32(s[1], s[2], s[3], s[4])), 5))
    case Text => var f :- DecodeString(s, 1); Some(Taken(StringProperty(s[0], f.bytes), f.next))
    case Binary => var f :- DecodeBinary(s, 1); Some(Taken(BinaryProperty(s[0], f.bytes), f.next))
    case Variable => var d :- Decode(s, 1); Some(Taken(SubscriptionIdentifier(d.value), d.next))
    case Pair =>
      var key :- DecodeString(s, 1);
      var value :- DecodeString(s, key.next);
      Some(Taken(UserProperty(key.bytes, value.bytes), value.next))
  }

  // The whole block, continuing from v.
  function ParseBlock(v: Parsed, s: seq<byte>): Option<Parsed>
    decreases |s|
  {
    if s == [] then Some(v)
    else
      var t :- Take(s);
      ParseBlock(Record(v, t.property), s[t.length..])
  }

  // ---- round trip ----

  lemma TakePrintFixed(p: Property, rest: seq<byte>)
    requires Encodable(p) && (p.ByteProperty? || p.U16Property? || p.U32Property?)
    ensures Take(Print(p) + rest) == Some(Taken(p, |Print(p)|))
  {
    var s := Print(p) + rest;
    match p
    case ByteProperty(id, b) =>
    case U16Property(id, h) =>
      assert s[1] == Be16(h)[0] && s[2] == Be16(h)[1];
    case U32Property(id, w) =>
      assert s[1] == Be32(w)[0] && s[2] == Be32(w)[1] && s[3] == Be32(w)[2] && s[4] == Be32(w)[3];
  }

  lemma TakePrintField(p: Property, rest: seq<byte>)
    requires Encodable(p) && (p.StringProperty? || p.BinaryProperty? || p.SubscriptionIdentifier?)
    ensures Take(Print(p) + rest) == Some(Taken(p, |Print(p)|))
  {
    match p
    case StringProperty(id, text) => DecodePrefixed([id], text, rest);
    case BinaryProperty(id, blob) => DecodePrefixed([id], blob, rest);
    case SubscriptionIdentifier(n) => DecodeEncode([SUBSCRIPTION_IDENTIFIER], n, rest);
  }

  lemma TakePrintPair(key: seq<byte>, value: seq<byte>, rest: seq<byte>)
    requires Encodable(UserProperty(key, value))
    ensures var bs := Print(UserProperty(key, value));
            Take(bs + rest) == Some(Taken(UserProperty(key, value), |bs|))
  {
    hide DecodeString, Utf8;
    var k, v := LengthPrefixed(key), LengthPrefixed(value);
    var s := [USER_PROPERTY] + k + v + rest;
    assert s == [USER_PROPERTY] + k + (v + rest);
    StringPrefixed([USER_PROPERTY], key, v + rest);
    StringPrefixed([USER_PROPERTY] + k, value, rest);
    assert s[0] == USER_PROPERTY;
  }

  lemma TakePrint(p: Property, rest: seq<byte>)
    requires Encodable(p)
    ensures Take(Print(p) + rest) == Some(Taken(p, |Print(p)|))
  {
    match p
    case ByteProperty(_, _) => TakePrintFixed(p, rest);
    case U16Property(_, _) => TakePrintFixed(p, rest);
    case U32Property(_, _) => TakePrintFixed(p, rest);
    case UserProperty(key, value) => TakePrintPair(key, value, rest);
    case _ => TakePrintField(p, rest);
  }

  // Parsing printed properties gives their fold.
  lemma {:induction false} ParsePrinted(v: Parsed, ps: seq<Property>)
    requires AllEncodable(ps)
    ensures ParseBlock(v, PrintAll(ps)) == Some(RecordAll(v, ps))
    decreases |ps|
  {
    if ps != [] {
      var s, rest := PrintAll(ps), PrintAll(ps[1..]);
      TakePrint(ps[0], rest);
      assert s[|Print(ps[0])|..] == rest;
      ParsePrinted(Record(v, ps[0]), ps[1..]);
    }
  }

  // ---- what the fold means ----

  // The last property with the given identifier.
  function LastWith(ps: seq<Property>, id: byte): Option<Property> {
    if ps == [] then None
    else if HasId(ps[|ps| - 1], id) then Some(ps[|ps| - 1])
    else LastWith(ps[..|ps| - 1], id)
  }

  predicate HasId(p: Property, id: byte) {
    match p
    case SubscriptionIdentifier(_) => id == SUBSCRIPTION_IDENTIFIER
    case UserProperty(_, _) => id == USER_PROPERTY
    case _ => p.id == id
  }

  function Users(ps: seq<Property>): seq<(seq<byte>, seq<byte>)> {
    if ps == [] then []
    else
      var p := ps[|ps| - 1];
      Users(ps[..|ps| - 1]) + if p.UserProperty? then [(p.key, p.value)] else []
  }

  function Subscriptions(ps: seq<Property>): seq<nat> {
    if ps == [] then []
    else
      var p := ps[|ps| - 1];
      Subscriptions(ps[..|ps| - 1]) + if p.SubscriptionIdentifier? then [p.n] else []
  }

  lemma {:induction false} RecordLast(v: Parsed, ps: seq<Property>)
    requires ps != []
    ensures RecordAll(v, ps) == Record(RecordAll(v, ps[..|ps| - 1]), ps[|ps| - 1])
    decreases |ps|
  {
    if |ps| > 1 {
      RecordLast(Record(v, ps[0]), ps[1..]);
      assert ps[1..][..|ps| - 2] == ps[..|ps| - 1][1..];
    }
  }

  function HalfOf(p: Option<Property>): Option<u16> {
    if p.Some? && p.value.U16Property? then Some(p.value.h) else None
  }

  function WordOf(p: Option<Property>): Option<u32> {
    if p.Some? && p.value.U32Property? then Some(p.value.w) else None
  }

  function BlobOf(p: Option<Property>): Option<seq<byte>> {
    if p.Some? && p.value.BinaryProperty? then Some(p.value.blob) else None
  }

  function ByteOf(p: Option<Property>): Option<byte> {
    if p.Some? && p.value.ByteProperty? then Some(p.value.b) else None
  }

  function TextOf(p: Option<Property>): Option<seq<byte>> {
    if p.Some? && p.value.StringProperty? then Some(p.value.text) else None
  }

  // The lists keep the order of the block.
  lemma {:induction false} RecordedLists(ps: seq<Property>)
    ensures RecordAll(NOTHING, ps).userProperties == Users(ps)
    ensures RecordAll(NOTHING, ps).subscriptionIdentifiers == Subscriptions(ps)
    decreases |ps|
  {
    if ps != [] {
      RecordLast(NOTHING, ps);
      RecordedLists(ps[..|ps| - 1]);
    }
  }

  // Every single field holds the last value the block gives for it.

  lemma {:induction false} RecordedNumbers(ps: seq<Property>)
    requires AllEncodable(ps)
    ensures
      var v := RecordAll(NOTHING, ps);
      && v.topicAlias == HalfOf(LastWith(ps, TOPIC_ALIAS))
      && v.topicAliasMaximum == HalfOf(LastWith(ps, TOPIC_ALIAS_MAXIMUM))
      && v.messageExpiryInterval == WordOf(LastWith(ps, MESSAGE_EXPIRY_INTERVAL))
      && v.sessionExpiryInterval == WordOf(LastWith(ps, SESSION_EXPIRY_INTERVAL))
    decreases |ps|
  {
    hide Record, Encodable;
    if ps != [] {
      RecordLast(NOTHING, ps);
      RecordedNumbers(ps[..|ps| - 1]);
      RecordOne(RecordAll(NOTHING, ps[..|ps| - 1]), ps[|ps| - 1]);
    }
  }

  lemma {:induction false} RecordedTexts(ps: seq<Property>)
    requires AllEncodable(ps)
    ensures
      var v := RecordAll(NOTHING, ps);
      && v.contentType == TextOf(LastWith(ps, CONTENT_TYPE))
      && v.responseTopic == TextOf(LastWith(ps, RESPONSE_TOPIC))
      && v.authenticationMethod == TextOf(LastWith(ps, AUTHENTICATION_METHOD))
      && v.reasonString == TextOf(LastWith(ps, REASON_STRING))
    decreases |ps|
  {
    hide Record, Encodable;
    if ps != [] {
      RecordLast(NOTHING, ps);
      RecordedTexts(ps[..|ps| - 1]);
      RecordOne(RecordAll(NOTHING, ps[..|ps| - 1]), ps[|ps| - 1]);
    }
  }

  lemma {:induction false} RecordedBytes(ps: seq<Property>)
    requires AllEncodable(ps)
    ensures
      var v := RecordAll(NOTHING, ps);
      && v.correlationData == BlobOf(LastWith(ps, CORRELATION_DATA))
      && v.payloadFormatIndicator == ByteOf(LastWith(ps, PAYLOAD_FORMAT_INDICATOR))
    decreases |ps|
  {
    hide Record, Encodable;
    if ps != [] {
      RecordLast(NOTHING, ps);
      RecordedBytes(ps[..|ps| - 1]);
      RecordOne(RecordAll(NOTHING, ps[..|ps| - 1]), ps[|ps| - 1]);
    }
  }

  // One property sets the field of its identifier and no other.
  lemma RecordOne(v: Parsed, p: Property)
    requires Encodable(p)
    ensures
      var r := Record(v, p);
      && r.topicAlias == (if HasId(p, TOPIC_ALIAS) then HalfOf(Some(p)) else v.topicAlias)
      && r.topicAliasMaximum == (if HasId(p, TOPIC_ALIAS_MAXIMUM) then HalfOf(Some(p)) else v.topicAliasMaximum)
      && r.messageExpiryInterval == (if HasId(p, MESSAGE_EXPIRY_INTERVAL) then WordOf(Some(p)) else v.messageExpiryInterval)
      && r.sessionExpiryInterval == (if HasId(p, SESSION_EXPIRY_INTERVAL) then WordOf(Some(p)) else v.sessionExpiryInterval)
      && r.contentType == (if HasId(p, CONTENT_TYPE) then TextOf(Some(p)) else v.contentType)
      && r.responseTopic == (if HasId(p, RESPONSE_TOPIC) then TextOf(Some(p)) else v.responseTopic)
      && r.authenticationMethod == (if HasId(p, AUTHENTICATION_METHOD) then TextOf(Some(p)) else v.authenticationMethod)
      && r.reasonString == (if HasId(p, REASON_STRING) then TextOf(Some(p)) else v.reasonString)
      && r.correlationData == (if HasId(p, CORRELATION_DATA) then BlobOf(Some(p)) else v.correlationData)
      && r.payloadFormatIndicator == (if HasId(p, PAYLOAD_FORMAT_INDICATOR) then ByteOf(Some(p)) else v.payloadFormatIndicator)
  {
    match p
    case ByteProperty(id, _) =>
    case U16Property(id, _) =>
    case U32Property(id, _) =>
    case StringProperty(id, _) =>
    case BinaryProperty(id, _) =>
    case SubscriptionIdentifier(_) =>
    case UserProperty(_, _) =>
  }

  // ---- the bytes themselves ----

  // A field is accepted exactly if its two length bytes, high byte first, announce it.
  lemma FieldMeaning(data: seq<byte>, idx: nat, bs: seq<byte>, next: nat)
    ensures DecodeBinary(data, idx) == Some(Field(bs, next)) <==>
            && idx + 2 <= |data| && |bs| == 256 * (data[idx] as int) + data[idx + 1] as int
            && next == idx + 2 + |bs| <= |data| && data[idx + 2..next] == bs
    ensures DecodeString(data, idx) == Some(Field(bs, next)) <==>
            DecodeBinary(data, idx) == Some(Field(bs, next)) && Utf8(bs)
  {
  }

  // What the parser takes for each identifier, in the numbers of section 2.2.2.2.

  lemma TakeFixed(s: seq<byte>)
    requires s != []
    ensures s[0] in {0x01, 0x17, 0x19, 0x24, 0x25, 0x28, 0x29, 0x2A} ==>
              Take(s) == if |s| < 2 then None else Some(Taken(ByteProperty(s[0], s[1]), 2))
    ensures s[0] in {0x13, 0x21, 0x22, 0x23} ==>
              Take(s) == if |s| < 3 then None else Some(Taken(U16Property(s[0], 256 * (s[1] as int) + s[2] as int), 3))
    ensures s[0] in {0x02, 0x11, 0x18, 0x27} ==>
              Take(s) == if |s| < 5 then None
              else
                var w := 0x100_0000 * (s[1] as int) + 0x1_0000 * (s[2] as int) + 256 * (s[3] as int) + s[4] as int;
                Some(Taken(U32Property(s[0], w), 5))
  {
  }

  lemma TakePrefixed(s: seq<byte>)
    requires s != [] && s[0] in {0x03, 0x08, 0x15, 0x1F, 0x09, 0x12, 0x16, 0x1A, 0x1C}
    ensures |s| < 3 ==> Take(s) == None
    ensures |s| >= 3 ==>
              var n := 3 + 256 * (s[1] as int) + s[2] as int;
              Take(s) ==
              if n > |s| then None
              else if s[0] in {0x09, 0x12, 0x16, 0x1A, 0x1C} then Some(Taken(BinaryProperty(s[0], s[3..n]), n))
              else if Utf8(s[3..n]) then Some(Taken(StringProperty(s[0], s[3..n]), n))
              else None
  {
    hide Utf8;
    if |s| >= 3 {
      var n := 3 + 256 * (s[1] as int) + s[2] as int;
      if n <= |s| {
        FieldMeaning(s, 1, s[3..n], n);
      }
    }
  }

  lemma TakeVariable(s: seq<byte>, n: nat)
    requires 1 < n <= |s| && s[0] == 0x0B
    ensures (Take(s).Some? && Take(s).value.length == n) <==> IsVarInt(s[1..n])
    ensures IsVarInt(s[1..n]) ==> Take(s) == Some(Taken(SubscriptionIdentifier(ValueOf(s[1..n])), n))
  {
    hide Decode, IsVarInt, ValueOf;
    DecodeMeaning(s, 1, n);
  }

  // A pair is the key and then the value.
  lemma TakePair(key: seq<byte>, value: seq<byte>, rest: seq<byte>)
    requires IsString(key) && IsString(value)
    ensures
      var s := [0x26] + [|key| / 256, |key| % 256] + key + [|value| / 256, |value| % 256] + value + rest;
      Take(s) == Some(Taken(UserProperty(key, value), 5 + |key| + |value|))
  {
    hide Utf8, Take, Be16;
    var s := [0x26] + [|key| / 256, |key| % 256] + key + [|value| / 256, |value| % 256] + value + rest;
    HighFirst(|key|);
    HighFirst(|value|);
    var k, v := LengthPrefixed(key), LengthPrefixed(value);
    assert k == [|key| / 256, |key| % 256] + key && v == [|value| / 256, |value| % 256] + value;
    PairBytes([0x26], k, v, rest, [|key| / 256, |key| % 256], key, [|value| / 256, |value| % 256], value);
    TakePrintPair(key, value, rest);
  }

  lemma PairBytes(id: seq<byte>, k: seq<byte>, v: seq<byte>, rest: seq<byte>,
                  a: seq<byte>, key: seq<byte>, b: seq<byte>, value: seq<byte>)
    requires k == a + key && v == b + value
    ensures id + a + key + b + value + rest == id + k + v + rest
  {
    assert id + k == id + a + key;
    assert id + k + v == id + k + b + value;
  }

  lemma HighFirst(v: u16)
    ensures Be16(v) == [v / 256, v % 256]
  {
  }

  lemma TakeUnknown(s: seq<byte>)
    requires s != []
    requires s[0] !in {0x01, 0x02, 0x03, 0x08, 0x09, 0x0B, 0x11, 0x12, 0x13, 0x15, 0x16, 0x17, 0x18, 0x19,
                       0x1A, 0x1C, 0x1F, 0x21, 0x22, 0x23, 0x24, 0x25, 0x26, 0x27, 0x28, 0x29, 0x2A}
    ensures Take(s) == None
  {
  }

  // The field each recorded number goes to, and its bytes.
  lemma RecordedFromBytes(b0: byte, b1: byte, b2: byte, b3: byte)
    ensures ParseBlock(NOTHING, [0x01, b0]) == Some(NOTHING.(payloadFormatIndicator := Some(b0)))
    ensures ParseBlock(NOTHING, [0x23, b0, b1]) == Some(NOTHING.(topicAlias := Some(256 * (b0 as int) + b1 as int)))
    ensures ParseBlock(NOTHING, [0x22, b0, b1]) == Some(NOTHING.(topicAliasMaximum := Some(256 * (b0 as int) + b1 as int)))
    ensures
      var w := 0x100_0000 * (b0 as int) + 0x1_0000 * (b1 as int) + 256 * (b2 as int) + b3 as int;
      && ParseBlock(NOTHING, [0x02, b0, b1, b2, b3]) == Some(NOTHING.(messageExpiryInterval := Some(w)))
      && ParseBlock(NOTHING, [0x11, b0, b1, b2, b3]) == Some(NOTHING.(sessionExpiryInterval := Some(w)))
  {
    hide Take;
    TakeFixed([0x01, b0]);
    TakeFixed([0x23, b0, b1]);
    TakeFixed([0x22, b0, b1]);
    TakeFixed([0x02, b0, b1, b2, b3]);
    TakeFixed([0x11, b0, b1, b2, b3]);
    LoneProperty([0x01, b0]);
    LoneProperty([0x23, b0, b1]);
    LoneProperty([0x22, b0, b1]);
    LoneProperty([0x02, b0, b1, b2, b3]);
    LoneProperty([0x11, b0, b1, b2, b3]);
  }

  // The field each recorded string or blob goes to.
  lemma RecordedTextFromBytes(bs: seq<byte>)
    requires IsString(bs)
    ensures
      var p := [|bs| / 256, |bs| % 256] + bs;
      && ParseBlock(NOTHING, [0x03] + p) == Some(NOTHING.(contentType := Some(bs)))
      && ParseBlock(NOTHING, [0x08] + p) == Some(NOTHING.(responseTopic := Some(bs)))
      && ParseBlock(NOTHING, [0x15] + p) == Some(NOTHING.(authenticationMethod := Some(bs)))
      && ParseBlock(NOTHING, [0x1F] + p) == Some(NOTHING.(reasonString := Some(bs)))
      && ParseBlock(NOTHING, [0x09] + p) == Some(NOTHING.(correlationData := Some(bs)))
  {
    hide Take, Utf8, ParseBlock;
    LonePrefixed(0x03, bs);
    LonePrefixed(0x08, bs);
    LonePrefixed(0x15, bs);
    LonePrefixed(0x1F, bs);
    LonePrefixed(0x09, bs);
  }

  // A block of one property records it and nothing else.
  lemma LoneProperty(s: seq<byte>)
    requires s != [] && Take(s).Some? && Take(s).value.length == |s|
    ensures ParseBlock(NOTHING, s) == Some(Record(NOTHING, Take(s).value.property))
  {
    hide Take, Record;
    assert s[|s|..] == [];
    assert ParseBlock(Record(NOTHING, Take(s).value.property), []) == Some(Record(NOTHING, Take(s).value.property));
  }

  lemma LonePrefixed(id: byte, bs: seq<byte>)
    requires IsString(bs) && id in {0x03, 0x08, 0x15, 0x1F, 0x09}
    ensures
      var s := [id] + ([|bs| / 256, |bs| % 256] + bs);
      ParseBlock(NOTHING, s) ==
      Some(Record(NOTHING, if id == 0x09 then BinaryProperty(id, bs) else StringProperty(id, bs)))
  {
    hide Take, Record, Utf8, ParseBlock;
    var s := [id] + ([|bs| / 256, |bs| % 256] + bs);
    TakePrefixed(s);
    assert 3 + 256 * (s[1] as int) + s[2] as int == |s| && s[3..|s|] == bs;
    LoneProperty(s);
  }
}
