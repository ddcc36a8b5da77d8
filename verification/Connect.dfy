/**
 CONNECT packets (section 3.1 of MQTT 5.0): the parser of
 crates/mqtt5-conformance/src/packet_parser.rs and the builder
 `connect_with_will_user_properties` of crates/mqtt5-conformance/src/raw_client.rs.
 */
module Connect {
  import opened Options
  import opened Bytes
  import opened VarInt
  import opened Properties
  import opened PropertyParser
  import opened Publish

  datatype ParsedWill = ParsedWill(properties: Parsed, topic: seq<byte>, payload: seq<byte>)

  datatype ParsedConnect = ParsedConnect(
    protocolName: seq<byte>,
    protocolVersion: byte,
    flags: byte,
    keepAlive: u16,
    propertiesLength: nat,
    properties: Parsed,
    clientId: seq<byte>,
    will: Option<ParsedWill>,
    username: Option<seq<byte>>,
    password: Option<seq<byte>>,
    trailingBytes: nat)

  // ---- parsing ----

  datatype Block = Block(length: nat, properties: Parsed, next: nat)
  datatype WillField = WillField(will: Option<ParsedWill>, next: nat)
  datatype OptionalField = OptionalField(value: Option<seq<byte>>, next: nat)

  predicate HasWill(flags: byte) {
    flags / 4 % 2 == 1
  }

  predicate HasUsername(flags: byte) {
    flags / 128 == 1
  }

  predicate HasPassword(flags: byte) {
    flags / 64 % 2 == 1
  }

  // A length and that many bytes of properties.
  function BlockAt(body: seq<byte>, idx: nat): (r: Option<Block>)
    ensures r.Some? ==> idx < r.value.next <= |body|
  {
    var d :- Decode(body, idx);
    var end := d.next + d.value;
    if end > |body| then None
    else
      var properties :- ParseBlock(NOTHING, body[d.next..end]);
      Some(Block(d.value, properties, end))
  }

  function WillAt(body: seq<byte>, flags: byte, idx: nat): (r: Option<WillField>)
    requires idx <= |body|
    ensures r.Some? ==> idx <= r.value.next <= |body|
  {
    if !HasWill(flags) then Some(WillField(None, idx))
    else
      var block :- BlockAt(body, idx);
      var topic :- DecodeBinary(body, block.next);
      var payload :- DecodeBinary(body, topic.next);
      Some(WillField(Some(ParsedWill(block.properties, topic.bytes, payload.bytes)), payload.next))
  }

  function OptionalAt(body: seq<byte>, present: bool, idx: nat): (r: Option<OptionalField>)
    requires idx <= |body|
    ensures r.Some? ==> idx <= r.value.next <= |body|
  {
    if !present then Some(OptionalField(None, idx))
    else
      var f :- DecodeBinary(body, idx);
      Some(OptionalField(Some(f.bytes), f.next))
  }

  function ConnectBody(body: seq<byte>): Option<ParsedConnect> {
    var name :- DecodeBinary(body, 0);
    var i := name.next;
    if i + 4 > |body| then None
    else
      var flags := body[i + 1];
      var block :- BlockAt(body, i + 4);
      var client :- DecodeBinary(body, block.next);
      var will :- WillAt(body, flags, client.next);
      var username :- OptionalAt(body, HasUsername(flags), will.next);
      var password :- OptionalAt(body, HasPassword(flags), username.next);
      Some(ParsedConnect(name.bytes, body[i], flags, FromBe16(body[i + 2], body[i + 3]), block.length,
                         block.properties, client.bytes, will.will, username.value, password.value,
                         |body| - password.next))
  }

  function ConnectOf(data: seq<byte>): Option<ParsedConnect> {
    if data == [] || data[0] != 0x10 then None
    else
      var header :- Decode(data, 1);
      var end := header.next + header.value;
      if end > |data| then None else ConnectBody(data[header.next..end])
  }

  // ---- every byte of an accepted body is accounted for ----

  function Fields(c: ParsedConnect): seq<byte>
    requires |c.protocolName| < 0x1_0000
  {
    LengthPrefixed(c.protocolName) + ([c.protocolVersion, c.flags] + Be16(c.keepAlive))
  }

  function OptionalBytes(v: Option<seq<byte>>): seq<byte>
    requires v.Some? ==> |v.value| < 0x1_0000
  {
    if v.Some? then LengthPrefixed(v.value) else []
  }

  function WillBytes(will: Option<ParsedWill>, block: seq<byte>): seq<byte>
    requires will.Some? ==> |will.value.topic| < 0x1_0000 && |will.value.payload| < 0x1_0000
  {
    if will.Some? then block + LengthPrefixed(will.value.topic) + LengthPrefixed(will.value.payload) else []
  }

  predicate Sized(c: ParsedConnect) {
    && |c.protocolName| < 0x1_0000 && |c.clientId| < 0x1_0000
    && (c.will.Some? ==> |c.will.value.topic| < 0x1_0000 && |c.will.value.payload| < 0x1_0000)
    && (c.username.Some? ==> |c.username.value| < 0x1_0000)
    && (c.password.Some? ==> |c.password.value| < 0x1_0000)
    && (c.will.Some? <==> HasWill(c.flags))
    && (c.username.Some? <==> HasUsername(c.flags))
    && (c.password.Some? <==> HasPassword(c.flags))
  }

  // The body as the concatenation of its fields.
  function Layout(c: ParsedConnect, block: seq<byte>, willBlock: seq<byte>, tail: seq<byte>): seq<byte>
    requires Sized(c)
  {
    Fields(c) + block + LengthPrefixed(c.clientId) + WillBytes(c.will, willBlock)
    + OptionalBytes(c.username) + OptionalBytes(c.password) + tail
  }

  lemma BlockBytes(body: seq<byte>, idx: nat)
    requires BlockAt(body, idx).Some?
    ensures
      var b := BlockAt(body, idx).value;
      IsBlock(body[idx..b.next], b.length, b.properties)
  {
    hide ParseBlock, Decode, ValueOf;
    var b := BlockAt(body, idx).value;
    var d := Decode(body, idx).value;
    var bs, k := body[idx..b.next], d.next - idx;
    DecodeMeaning(body, idx, d.next);
    assert bs[..k] == body[idx..d.next] && bs[k..] == body[d.next..b.next];
  }

  lemma WillFieldBytes(body: seq<byte>, flags: byte, idx: nat) returns (block: seq<byte>)
    requires idx <= |body| && WillAt(body, flags, idx).Some?
    ensures
      var w := WillAt(body, flags, idx).value;
      && (w.will.Some? <==> HasWill(flags))
      && (w.will.Some? ==> |w.will.value.topic| < 0x1_0000 && |w.will.value.payload| < 0x1_0000)
      && (w.will.Some? ==> IsSomeBlock(block, w.will.value.properties))
      && body[idx..w.next] == WillBytes(w.will, block)
  {
    hide Decode, ParseBlock, LengthPrefixed, HasWill, BlockAt, IsBlock;
    block := [];
    if HasWill(flags) {
      var b := BlockAt(body, idx).value;
      var topic := DecodeBinary(body, b.next).value;
      var w := WillAt(body, flags, idx).value;
      BlockBytes(body, idx);
      block := body[idx..b.next];
      assert body[idx..w.next] == body[idx..b.next] + body[b.next..topic.next] + body[topic.next..w.next];
    }
  }

  lemma OptionalFieldBytes(body: seq<byte>, present: bool, idx: nat)
    requires idx <= |body| && OptionalAt(body, present, idx).Some?
    ensures
      var f := OptionalAt(body, present, idx).value;
      && (f.value.Some? <==> present)
      && (f.value.Some? ==> |f.value.value| < 0x1_0000)
      && body[idx..f.next] == OptionalBytes(f.value)
  {
  }

  lemma HeadBytes(body: seq<byte>, c: ParsedConnect)
    requires ConnectBody(body) == Some(c)
    ensures |c.protocolName| < 0x1_0000
    ensures body[..DecodeBinary(body, 0).value.next + 4] == Fields(c)
  {
    hide Decode, ParseBlock, LengthPrefixed, BlockAt, WillAt, OptionalAt, Be16, FromBe16;
    var i := DecodeBinary(body, 0).value.next;
    assert body[..i] == LengthPrefixed(c.protocolName) by { assert body[0..i] == body[..i]; }
    FourBytes(body, i);
    assert body[..i + 4] == body[..i] + body[i..i + 4];
  }

  lemma FourBytes(body: seq<byte>, i: nat)
    requires i + 4 <= |body|
    ensures body[i..i + 4] == [body[i], body[i + 1]] + Be16(FromBe16(body[i + 2], body[i + 3]))
  {
    hide Be16, FromBe16;
    Be16Again(body[i + 2], body[i + 3]);
  }

  // An accepted body is the concatenation of the fields returned and of `trailing_bytes` more
  // bytes: nothing is skipped, overlapped or counted twice.
  lemma ConnectAccounting(body: seq<byte>) returns (block: seq<byte>, willBlock: seq<byte>, tail: seq<byte>)
    requires ConnectBody(body).Some?
    ensures
      var c := ConnectBody(body).value;
      && Sized(c)
      && body == Layout(c, block, willBlock, tail)
      && |tail| == c.trailingBytes
      && IsBlock(block, c.propertiesLength, c.properties)
      && (c.will.Some? ==> IsSomeBlock(willBlock, c.will.value.properties))
  {
    hide Decode, ParseBlock, LengthPrefixed, Fields, DecodeBinary, BlockAt, WillAt, OptionalAt, IsBlock, IsSomeBlock, FromBe16,
      HasWill, HasUsername, HasPassword, OptionalBytes, WillBytes;
    var c := ConnectBody(body).value;
    var i := DecodeBinary(body, 0).value.next + 4;
    var j := BlockAt(body, i).value.next;
    var k := DecodeBinary(body, j).value.next;
    var l := WillAt(body, c.flags, k).value.next;
    var m := OptionalAt(body, HasUsername(c.flags), l).value.next;
    var n := OptionalAt(body, HasPassword(c.flags), m).value.next;
    HeadBytes(body, c);
    BlockBytes(body, i);
    willBlock := WillFieldBytes(body, c.flags, k);
    OptionalFieldBytes(body, HasUsername(c.flags), l);
    OptionalFieldBytes(body, HasPassword(c.flags), m);
    block, tail := body[i..j], body[n..];
    Pieces(body, i, j, k, l, m, n);
  }

  lemma Pieces(s: seq<byte>, i: nat, j: nat, k: nat, l: nat, m: nat, n: nat)
    requires i <= j <= k <= l <= m <= n <= |s|
    ensures s == s[..i] + s[i..j] + s[j..k] + s[k..l] + s[l..m] + s[m..n] + s[n..]
  {
    assert s[..j] == s[..i] + s[i..j];
    assert s[..k] == s[..j] + s[j..k];
    assert s[..l] == s[..k] + s[k..l];
    assert s[..m] == s[..l] + s[l..m];
    assert s[..n] == s[..m] + s[m..n];
  }

  // ---- and every such body is accepted ----

  lemma BlockPrinted(before: seq<byte>, props: seq<byte>, rest: seq<byte>, v: Parsed)
    requires |props| <= MAX_VARINT && ParseBlock(NOTHING, props) == Some(v)
    ensures BlockAt(before + PropertyBlock(props) + rest, |before|) ==
            Some(Block(|props|, v, |before| + |PropertyBlock(props)|))
  {
    hide ParseBlock, Decode, Encode;
    var n := Encode(|props|);
    var body, s := before + PropertyBlock(props) + rest, |before| + |n|;
    assert body == before + n + (props + rest);
    DecodeEncode(before, |props|, props + rest);
    assert body[s..s + |props|] == props;
  }

  lemma WillPrinted(before: seq<byte>, flags: byte, will: Option<ParsedWill>, props: seq<byte>, rest: seq<byte>)
    requires will.Some? <==> HasWill(flags)
    requires will.Some? ==> |will.value.topic| < 0x1_0000 && |will.value.payload| < 0x1_0000
    requires will.Some? ==> |props| <= MAX_VARINT && ParseBlock(NOTHING, props) == Some(will.value.properties)
    ensures
      var w := WillBytes(will, PropertyBlock(props));
      WillAt(before + w + rest, flags, |before|) == Some(WillField(will, |before| + |w|))
  {
    hide ParseBlock, Decode, Encode, DecodeBinary, BlockAt, HasWill, PropertyBlock;
    if will.Some? {
      var b, t, p := PropertyBlock(props), LengthPrefixed(will.value.topic), LengthPrefixed(will.value.payload);
      var body := before + (b + t + p) + rest;
      assert body == before + b + (t + p + rest);
      BlockPrinted(before, props, t + p + rest, will.value.properties);
      assert body == (before + b) + t + (p + rest);
      DecodePrefixed(before + b, will.value.topic, p + rest);
      assert body == (before + b + t) + p + rest;
      DecodePrefixed(before + b + t, will.value.payload, rest);
    } else {
      assert before + [] + rest == before + rest;
    }
  }

  lemma OptionalPrinted(before: seq<byte>, v: Option<seq<byte>>, rest: seq<byte>)
    requires v.Some? ==> |v.value| < 0x1_0000
    ensures
      var bs := OptionalBytes(v);
      OptionalAt(before + bs + rest, v.Some?, |before|) == Some(OptionalField(v, |before| + |bs|))
  {
    if v.Some? {
      DecodePrefixed(before, v.value, rest);
    }
  }

  lemma HeadPrinted(c: ParsedConnect, rest: seq<byte>)
    requires |c.protocolName| < 0x1_0000
    ensures
      var body, i := Fields(c) + rest, 2 + |c.protocolName|;
      && |Fields(c)| == i + 4
      && DecodeBinary(body, 0) == Some(Field(c.protocolName, i))
      && body[i] == c.protocolVersion && body[i + 1] == c.flags
      && FromBe16(body[i + 2], body[i + 3]) == c.keepAlive
  {
    var n, h := LengthPrefixed(c.protocolName), [c.protocolVersion, c.flags] + Be16(c.keepAlive);
    assert Fields(c) + rest == [] + n + (h + rest);
    DecodePrefixed([], c.protocolName, h + rest);
  }

  // Round trip: any CONNECT whose flags announce the fields it has is parsed back whole.
  lemma ConnectRoundTrip(c: ParsedConnect, props: seq<byte>, willProps: seq<byte>, tail: seq<byte>)
    requires Sized(c) && |tail| == c.trailingBytes
    requires |props| == c.propertiesLength <= MAX_VARINT && ParseBlock(NOTHING, props) == Some(c.properties)
    requires c.will.Some? ==>
               |willProps| <= MAX_VARINT && ParseBlock(NOTHING, willProps) == Some(c.will.value.properties)
    ensures ConnectBody(Layout(c, PropertyBlock(props), PropertyBlock(willProps), tail)) == Some(c)
  {
    hide ParseBlock, LengthPrefixed, Fields, PropertyBlock, WillBytes, OptionalBytes, HasWill, HasUsername, HasPassword,
      ConnectBody, HeadAt, ClientAt, LoginAt, Layout;
    var b, wb := PropertyBlock(props), PropertyBlock(willProps);
    var j := |Fields(c)| + |b|;
    var k := j + |LengthPrefixed(c.clientId)|;
    var l := k + |WillBytes(c.will, wb)|;
    var m := l + |OptionalBytes(c.username)|;
    var n := m + |OptionalBytes(c.password)|;
    LayoutParts(c, b, wb, tail);
    HeadOfLayout(c, props, wb, tail);
    ClientOfLayout(c, b, willProps, tail, j, k, l);
    LoginOfLayout(c, b, wb, tail, l, m, n);
    Assemble(c, Layout(c, b, wb, tail), |Fields(c)|, j, k, l, m, n);
  }

  // The flags byte of section 3.1.2.3: user name, password, will retain, two bits of will QoS,
  // will, clean start, and a reserved bit.
  function Flags(username: bool, password: bool, retain: bool, qos: nat, will: bool, clean: bool, reserved: bool): byte
    requires qos < 4
  {
    (if username then 0x80 else 0) + (if password then 0x40 else 0) + (if retain then 0x20 else 0)
    + 8 * qos + (if will then 4 else 0) + (if clean then 2 else 0) + if reserved then 1 else 0
  }

  lemma FlagsMean(u: bool, p: bool, retain: bool, qos: nat, w: bool, clean: bool, reserved: bool)
    requires qos < 4
    ensures
      var flags := Flags(u, p, retain, qos, w, clean, reserved);
      HasUsername(flags) == u && HasPassword(flags) == p && HasWill(flags) == w
  {
    var flags: int := Flags(u, p, retain, qos, w, clean, reserved);
    var login := (if u then 2 else 0) + if p then 1 else 0;
    var will := (if retain then 8 else 0) + 2 * qos + if w then 1 else 0;
    assert flags / 64 == login;
    assert flags / 4 == 16 * login + will;
  }

  // Round trip in terms of the fields: with the flags that announce the fields it has, and
  // whatever the other flags, a CONNECT is parsed back whole.
  lemma ConnectFieldsRoundTrip(c: ParsedConnect, props: seq<byte>, willProps: seq<byte>, tail: seq<byte>,
                               retain: bool, qos: nat, clean: bool, reserved: bool)
    requires qos < 4
    requires c.flags == Flags(c.username.Some?, c.password.Some?, retain, qos, c.will.Some?, clean, reserved)
    requires |c.protocolName| < 0x1_0000 && |c.clientId| < 0x1_0000 && |tail| == c.trailingBytes
    requires c.will.Some? ==> |c.will.value.topic| < 0x1_0000 && |c.will.value.payload| < 0x1_0000
    requires (c.username.Some? ==> |c.username.value| < 0x1_0000) && (c.password.Some? ==> |c.password.value| < 0x1_0000)
    requires |props| == c.propertiesLength <= MAX_VARINT && ParseBlock(NOTHING, props) == Some(c.properties)
    requires c.will.Some? ==>
               |willProps| <= MAX_VARINT && ParseBlock(NOTHING, willProps) == Some(c.will.value.properties)
    ensures Sized(c)
    ensures ConnectBody(Layout(c, PropertyBlock(props), PropertyBlock(willProps), tail)) == Some(c)
  {
    hide ParseBlock, ConnectBody, Layout, PropertyBlock, HasWill, HasUsername, HasPassword;
    FlagsMean(c.username.Some?, c.password.Some?, retain, qos, c.will.Some?, clean, reserved);
    ConnectRoundTrip(c, props, willProps, tail);
  }

  const EXAMPLE: seq<byte> :=
    [0x00, 0x04, 0x4D, 0x51, 0x54, 0x54, 0x05, 0xC6, 0x01, 0x2C, 0x00, 0x00, 0x01, 0x63,
     0x00, 0x00, 0x01, 0x77, 0x00, 0x01, 0x78, 0x00, 0x01, 0x75, 0x00, 0x01, 0x70]

  // For instance, with client "c", will "w" with payload "x", user "u" and password "p".
  lemma ConnectExample()
    ensures
      ConnectBody(EXAMPLE) ==
      Some(ParsedConnect(MQTT, 5, 0xC6, 300, 0, NOTHING, [0x63], Some(ParsedWill(NOTHING, [0x77], [0x78])),
                              Some([0x75]), Some([0x70]), 0))
  {
    hide ConnectBody, Layout, PropertyBlock, Flags;
    var will := ParsedWill(NOTHING, [0x77], [0x78]);
    var c := ParsedConnect(MQTT, 5, 0xC6, 300, 0, NOTHING, [0x63], Some(will), Some([0x75]), Some([0x70]), 0);
    ExampleFlags();
    EmptyBlock();
    ConnectFieldsRoundTrip(c, [], [], [], false, 0, true, false);
    ExampleLayout(c);
  }

  lemma ExampleFlags()
    ensures Flags(true, true, false, 0, true, true, false) == 0xC6
  {
  }

  lemma ExampleLayout(c: ParsedConnect)
    requires Sized(c)
    requires c.protocolName == MQTT && c.protocolVersion == 5 && c.flags == 0xC6 && c.keepAlive == 300
    requires c.clientId == [0x63] && c.will.Some? && c.will.value.topic == [0x77] && c.will.value.payload == [0x78]
    requires c.username == Some([0x75]) && c.password == Some([0x70])
    ensures Layout(c, PropertyBlock([]), PropertyBlock([]), []) == EXAMPLE
  {
    hide LengthPrefixed, Be16, HasWill, HasUsername, HasPassword, Fields, PropertyBlock;
    ExampleFields(c);
    NoPropertyBlock();
    Prefixed([0x63], 0, 1);
    Prefixed([0x77], 0, 1);
    Prefixed([0x78], 0, 1);
    Prefixed([0x75], 0, 1);
    Prefixed([0x70], 0, 1);
  }

  lemma NoPropertyBlock()
    ensures PropertyBlock([]) == [0x00]
  {
  }

  lemma ExampleFields(c: ParsedConnect)
    requires c.protocolName == MQTT && c.protocolVersion == 5 && c.flags == 0xC6 && c.keepAlive == 300
    ensures Fields(c) == [0x00, 0x04, 0x4D, 0x51, 0x54, 0x54, 0x05, 0xC6, 0x01, 0x2C]
  {
    hide LengthPrefixed, Be16;
    Prefixed(MQTT, 0, 4);
    Be16Of(300, 1, 44);
  }

  lemma Be16Of(v: u16, hi: byte, lo: byte)
    requires v == 256 * (hi as int) + lo as int
    ensures Be16(v) == [hi, lo]
  {
    Be16Again(hi, lo);
  }

  lemma Prefixed(bs: seq<byte>, hi: byte, lo: byte)
    requires |bs| == 256 * (hi as int) + lo as int
    ensures LengthPrefixed(bs) == [hi, lo] + bs
  {
    Be16Of(|bs|, hi, lo);
  }

  lemma HeadOfLayout(c: ParsedConnect, props: seq<byte>, wb: seq<byte>, tail: seq<byte>)
    requires Sized(c) && |props| <= MAX_VARINT && ParseBlock(NOTHING, props) == Some(c.properties)
    ensures HeadAt(c, Layout(c, PropertyBlock(props), wb, tail), |props|, |Fields(c)|, |Fields(c)| + |PropertyBlock(props)|)
  {
    hide ParseBlock, LengthPrefixed, Fields, PropertyBlock, WillBytes, OptionalBytes, HasWill, HasUsername, HasPassword,
      HeadAt, Layout;
    LayoutParts(c, PropertyBlock(props), wb, tail);
    var rest := LengthPrefixed(c.clientId) + WillBytes(c.will, wb) + OptionalBytes(c.username)
    + OptionalBytes(c.password) + tail;
    HeadPart(c, props, rest, Layout(c, PropertyBlock(props), wb, tail));
  }

  lemma ClientOfLayout(c: ParsedConnect, b: seq<byte>, willProps: seq<byte>, tail: seq<byte>, j: nat, k: nat, l: nat)
    requires Sized(c)
    requires c.will.Some? ==>
               |willProps| <= MAX_VARINT && ParseBlock(NOTHING, willProps) == Some(c.will.value.properties)
    requires j == |Fields(c) + b|
    requires k == j + |LengthPrefixed(c.clientId)| && l == k + |WillBytes(c.will, PropertyBlock(willProps))|
    ensures ClientAt(c, Layout(c, b, PropertyBlock(willProps), tail), j, k, l)
  {
    hide ParseBlock, LengthPrefixed, Fields, PropertyBlock, WillBytes, OptionalBytes, HasWill, HasUsername, HasPassword,
      ClientAt, Layout;
    LayoutParts(c, b, PropertyBlock(willProps), tail);
    var rest := OptionalBytes(c.username) + OptionalBytes(c.password) + tail;
    ClientPart(c, Fields(c) + b, willProps, rest, Layout(c, b, PropertyBlock(willProps), tail));
  }

  lemma LoginOfLayout(c: ParsedConnect, b: seq<byte>, wb: seq<byte>, tail: seq<byte>, l: nat, m: nat, n: nat)
    requires Sized(c)
    requires l == |Fields(c) + b + LengthPrefixed(c.clientId) + WillBytes(c.will, wb)|
    requires m == l + |OptionalBytes(c.username)| && n == m + |OptionalBytes(c.password)|
    ensures LoginAt(c, Layout(c, b, wb, tail), l, m, n)
  {
    hide LengthPrefixed, Fields, WillBytes, OptionalBytes, HasWill, HasUsername, HasPassword, LoginAt, Layout;
    LayoutParts(c, b, wb, tail);
    var before := Fields(c) + b + LengthPrefixed(c.clientId) + WillBytes(c.will, wb);
    LoginPart(c, before, tail, Layout(c, b, wb, tail));
  }

  predicate HeadAt(c: ParsedConnect, body: seq<byte>, length: nat, i: nat, j: nat) {
    && i == 6 + |c.protocolName| <= |body|
    && DecodeBinary(body, 0) == Some(Field(c.protocolName, i - 4))
    && body[i - 4] == c.protocolVersion && body[i - 3] == c.flags
    && FromBe16(body[i - 2], body[i - 1]) == c.keepAlive
    && BlockAt(body, i) == Some(Block(length, c.properties, j))
  }

  predicate ClientAt(c: ParsedConnect, body: seq<byte>, j: nat, k: nat, l: nat) {
    && k <= |body|
    && DecodeBinary(body, j) == Some(Field(c.clientId, k))
    && WillAt(body, c.flags, k) == Some(WillField(c.will, l))
  }

  predicate LoginAt(c: ParsedConnect, body: seq<byte>, l: nat, m: nat, n: nat) {
    && l <= m <= n <= |body|
    && OptionalAt(body, c.username.Some?, l) == Some(OptionalField(c.username, m))
    && OptionalAt(body, c.password.Some?, m) == Some(OptionalField(c.password, n))
  }

  lemma LayoutParts(c: ParsedConnect, b: seq<byte>, willBlock: seq<byte>, t: seq<byte>)
    requires Sized(c)
    ensures
      var f, i := Fields(c), LengthPrefixed(c.clientId);
      var w, u, p := WillBytes(c.will, willBlock), OptionalBytes(c.username), OptionalBytes(c.password);
      var body := Layout(c, b, willBlock, t);
      && body == f + b + (i + w + u + p + t)
      && body == (f + b) + i + w + (u + p + t)
      && body == (f + b + i + w) + u + p + t
      && |body| == |f| + |b| + |i| + |w| + |u| + |p| + |t|
  {
    hide Fields, LengthPrefixed, WillBytes, OptionalBytes, HasWill, HasUsername, HasPassword;
  }

  lemma HeadPart(c: ParsedConnect, props: seq<byte>, rest: seq<byte>, body: seq<byte>)
    requires |c.protocolName| < 0x1_0000
    requires |props| <= MAX_VARINT && ParseBlock(NOTHING, props) == Some(c.properties)
    requires body == Fields(c) + PropertyBlock(props) + rest
    ensures HeadAt(c, body, |props|, |Fields(c)|, |Fields(c)| + |PropertyBlock(props)|)
  {
    hide ParseBlock, DecodeBinary, BlockAt, Fields, PropertyBlock, FromBe16;
    assert body == Fields(c) + (PropertyBlock(props) + rest);
    HeadPrinted(c, PropertyBlock(props) + rest);
    BlockPrinted(Fields(c), props, rest, c.properties);
  }

  lemma ClientPart(c: ParsedConnect, before: seq<byte>, willProps: seq<byte>, rest: seq<byte>, body: seq<byte>)
    requires Sized(c)
    requires c.will.Some? ==>
               |willProps| <= MAX_VARINT && ParseBlock(NOTHING, willProps) == Some(c.will.value.properties)
    requires body == before + LengthPrefixed(c.clientId) + WillBytes(c.will, PropertyBlock(willProps)) + rest
    ensures
      var k := |before| + |LengthPrefixed(c.clientId)|;
      ClientAt(c, body, |before|, k, k + |WillBytes(c.will, PropertyBlock(willProps))|)
  {
    hide ParseBlock, DecodeBinary, WillAt, LengthPrefixed, WillBytes, PropertyBlock, HasWill, HasUsername, HasPassword;
    var i, w := LengthPrefixed(c.clientId), WillBytes(c.will, PropertyBlock(willProps));
    assert body == before + i + (w + rest);
    DecodePrefixed(before, c.clientId, w + rest);
    ClientLength(c.clientId);
    WillPrinted(before + i, c.flags, c.will, willProps, rest);
  }

  lemma LoginPart(c: ParsedConnect, before: seq<byte>, tail: seq<byte>, body: seq<byte>)
    requires Sized(c)
    requires body == before + OptionalBytes(c.username) + OptionalBytes(c.password) + tail
    ensures
      var m := |before| + |OptionalBytes(c.username)|;
      LoginAt(c, body, |before|, m, m + |OptionalBytes(c.password)|)
  {
    hide OptionalAt, OptionalBytes, HasWill, HasUsername, HasPassword;
    var u, p := OptionalBytes(c.username), OptionalBytes(c.password);
    assert body == before + u + (p + tail);
    OptionalPrinted(before, c.username, p + tail);
    OptionalPrinted(before + u, c.password, tail);
  }

  // The parts, each decoded where the one before ends, make up the whole.
  lemma Assemble(c: ParsedConnect, body: seq<byte>, i: nat, j: nat, k: nat, l: nat, m: nat, n: nat)
    requires Sized(c) && n + c.trailingBytes == |body|
    requires HeadAt(c, body, c.propertiesLength, i, j) && ClientAt(c, body, j, k, l) && LoginAt(c, body, l, m, n)
    ensures ConnectBody(body) == Some(c)
  {
    hide DecodeBinary, BlockAt, WillAt, OptionalAt, HasWill, HasUsername, HasPassword, FromBe16;
  }

  lemma ClientLength(bs: seq<byte>)
    requires |bs| < 0x1_0000
    ensures |LengthPrefixed(bs)| == 2 + |bs|
  {
  }

  // ---- the builder with will user properties ----

  function UsersToProperties(users: seq<(seq<byte>, seq<byte>)>): seq<Property> {
    if users == [] then [] else [UserProperty(users[0].0, users[0].1)] + UsersToProperties(users[1..])
  }

  predicate Strings(users: seq<(seq<byte>, seq<byte>)>) {
    forall k :: 0 <= k < |users| ==> IsString(users[k].0) && IsString(users[k].1)
  }

  lemma {:induction false} UsersEncodable(users: seq<(seq<byte>, seq<byte>)>)
    requires Strings(users)
    ensures AllEncodable(UsersToProperties(users))
  {
    hide Utf8;
    if users != [] {
      UsersEncodable(users[1..]);
      var ps := UsersToProperties(users);
      assert ps[0] == UserProperty(users[0].0, users[0].1);
      assert forall k :: 1 <= k < |ps| ==> ps[k] == UsersToProperties(users[1..])[k - 1];
    }
  }

  // Recording user properties appends them, in order.
  lemma {:induction false} RecordUsers(v: Parsed, users: seq<(seq<byte>, seq<byte>)>)
    ensures RecordAll(v, UsersToProperties(users)) == v.(userProperties := v.userProperties + users)
    decreases |users|
  {
    if users == [] {
      assert v.userProperties + [] == v.userProperties;
    } else {
      var ps := UsersToProperties(users);
      assert ps[1..] == UsersToProperties(users[1..]);
      var v1 := v.(userProperties := v.userProperties + [users[0]]);
      assert Record(v, ps[0]) == v1;
      RecordUsers(v1, users[1..]);
      assert v1.userProperties + users[1..] == v.userProperties + users;
    }
  }

  // "MQTT" and "will/" and "offline"
  const MQTT: seq<byte> := [0x4D, 0x51, 0x54, 0x54]
  const WILL_PREFIX: seq<byte> := [0x77, 0x69, 0x6C, 0x6C, 0x2F]
  const OFFLINE: seq<byte> := [0x6F, 0x66, 0x66, 0x6C, 0x69, 0x6E, 0x65]

  // What the built packet says.
  function Built(clientId: seq<byte>, users: seq<(seq<byte>, seq<byte>)>): ParsedConnect {
    var will := ParsedWill(NOTHING.(userProperties := users), WILL_PREFIX + clientId, OFFLINE);
    ParsedConnect(MQTT, 5, 0x06, 60, 0, NOTHING, clientId, Some(will), None, None, 0)
  }

  // The body, given the printed user properties.
  function BuiltBody(clientId: seq<byte>, users: seq<(seq<byte>, seq<byte>)>, props: seq<byte>): seq<byte>
    requires |clientId| + 5 < 0x1_0000
  {
    Layout(Built(clientId, users), PropertyBlock([]), PropertyBlock(props), [])
  }

  lemma {:induction false} PrintAppend(ps: seq<Property>, p: Property)
    requires AllEncodable(ps) && Encodable(p)
    ensures AllEncodable(ps + [p]) && PrintAll(ps + [p]) == PrintAll(ps) + Print(p)
  {
    hide Encodable, Print;
    if ps == [] {
      assert ps + [p] == [p] && [p][1..] == [];
      assert PrintAll([p]) == Print(p) + [];
    } else {
      PrintAppend(ps[1..], p);
      assert (ps + [p])[1..] == ps[1..] + [p];
      assert Print(ps[0]) + (PrintAll(ps[1..]) + Print(p)) == Print(ps[0]) + PrintAll(ps[1..]) + Print(p);
    }
  }

  lemma {:induction false} UsersAppend(users: seq<(seq<byte>, seq<byte>)>, u: (seq<byte>, seq<byte>))
    ensures UsersToProperties(users + [u]) == UsersToProperties(users) + [UserProperty(u.0, u.1)]
  {
    if users == [] {
      assert [u][1..] == [];
      assert users + [u] == [u];
    } else {
      UsersAppend(users[1..], u);
      assert (users + [u])[1..] == users[1..] + [u];
    }
  }

  // The loop that prints the user properties one by one.
  method PutUserProperties(users: seq<(seq<byte>, seq<byte>)>) returns (out: seq<byte>)
    requires Strings(users)
    ensures AllEncodable(UsersToProperties(users))
    ensures out == PrintAll(UsersToProperties(users))
  {
    hide Utf8, PrintAll, UsersToProperties;
    UsersEncodable(users);
    out := [];
    var i := 0;
    PrintNothing();
    assert users[..0] == [];
    while i < |users|
      invariant 0 <= i <= |users|
      invariant AllEncodable(UsersToProperties(users[..i]))
      invariant out == PrintAll(UsersToProperties(users[..i]))
    {
      var (key, value) := users[i];
      UsersAppend(users[..i], users[i]);
      PrintAppend(UsersToProperties(users[..i]), UserProperty(key, value));
      assert users[..i + 1] == users[..i] + [users[i]];
      ghost var before := out;
      out := out + [USER_PROPERTY];
      out := out + LengthPrefixed(key);
      out := out + LengthPrefixed(value);
      assert out == before + Print(UserProperty(key, value));
      i := i + 1;
    }
    assert users[..i] == users;
  }

  lemma PrintNothing()
    ensures UsersToProperties([]) == [] && PrintAll([]) == []
  {
  }

  method ConnectWithWillUserProperties(clientId: seq<byte>, users: seq<(seq<byte>, seq<byte>)>)
    returns (packet: seq<byte>)
    requires |clientId| + 5 < 0x1_0000 && Strings(users)
    ensures AllEncodable(UsersToProperties(users))
    ensures packet == Packet(0x10, BuiltBody(clientId, users, PrintAll(UsersToProperties(users))))
  {
    hide Utf8, PrintAll, UsersToProperties, AllEncodable, Fields, LengthPrefixed, BuiltBody, Encode, Be16;
    var body: seq<byte> := Be16(4);
    body := body + MQTT;
    body := body + [5];
    body := body + [0x06];
    body := body + Be16(60);
    BuiltHead(Built(clientId, users));
    body := body + [0];
    body := body + LengthPrefixed(clientId);
    ghost var head := body;
    var willProps := PutUserProperties(users);
    ghost var block := PropertyBlock(willProps);
    body := EncodeVariableInt(body, |willProps|);
    body := body + willProps;
    assert body == head + block;
    body := body + LengthPrefixed(WILL_PREFIX + clientId);
    body := body + LengthPrefixed(OFFLINE);
    BuiltLayout(clientId, users, willProps);
    packet := WrapFixedHeader(0x10, body);
  }

  lemma BuiltHead(c: ParsedConnect)
    requires c.protocolName == MQTT && c.protocolVersion == 5 && c.flags == 0x06 && c.keepAlive == 60
    ensures Be16(4) + MQTT + [5] + [0x06] + Be16(60) == Fields(c)
  {
  }

  lemma BuiltLayout(clientId: seq<byte>, users: seq<(seq<byte>, seq<byte>)>, willProps: seq<byte>)
    requires |clientId| + 5 < 0x1_0000
    ensures
      var head := Fields(Built(clientId, users)) + [0] + LengthPrefixed(clientId);
      var topic, payload := LengthPrefixed(WILL_PREFIX + clientId), LengthPrefixed(OFFLINE);
      head + PropertyBlock(willProps) + topic + payload == BuiltBody(clientId, users, willProps)
  {
    hide Fields, LengthPrefixed;
    assert PropertyBlock([]) == [0];
    var head := Fields(Built(clientId, users)) + [0] + LengthPrefixed(clientId);
    var block, topic := PropertyBlock(willProps), LengthPrefixed(WILL_PREFIX + clientId);
    assert head + block + topic + LengthPrefixed(OFFLINE) == head + (block + topic + LengthPrefixed(OFFLINE));
  }

  // The body that is built, in bytes: protocol name and version, flags for a will and a clean
  // start, 60 s of keep-alive, no properties, the client id, and the will with its properties.
  lemma BuiltBytes(clientId: seq<byte>, users: seq<(seq<byte>, seq<byte>)>, props: seq<byte>)
    requires |clientId| + 5 < 0x1_0000
    ensures
      var topic := Ascii("will/") + clientId;
      BuiltBody(clientId, users, props) ==
      ([0x00, 0x04] + Ascii("MQTT")) + [0x05, 0x06] + [0x00, 0x3C] + [0x00]
      + ([|clientId| / 256, |clientId| % 256] + clientId) + (Encode(|props|) + props)
      + ([|topic| / 256, |topic| % 256] + topic) + ([0x00, 0x07] + Ascii("offline"))
  {
    hide Be16, Encode, LengthPrefixed, PropertyBlock, Ascii, Fields, BuiltBody;
    BuilderTexts();
    BlockOf(props);
    BuiltPrefixes(clientId);
    BuiltFields(Built(clientId, users));
    BuiltLayout(clientId, users, props);
  }

  lemma BuiltPrefixes(clientId: seq<byte>)
    requires |clientId| + 5 < 0x1_0000
    ensures LengthPrefixed(clientId) == [|clientId| / 256, |clientId| % 256] + clientId
    ensures
      var topic := WILL_PREFIX + clientId;
      LengthPrefixed(topic) == [|topic| / 256, |topic| % 256] + topic
    ensures LengthPrefixed(OFFLINE) == [0x00, 0x07] + OFFLINE
  {
    hide LengthPrefixed;
    Prefixed(clientId, |clientId| / 256, |clientId| % 256);
    var topic := WILL_PREFIX + clientId;
    Prefixed(topic, |topic| / 256, |topic| % 256);
    Prefixed(OFFLINE, 0, 7);
  }

  lemma BuiltFields(c: ParsedConnect)
    requires c.protocolName == MQTT && c.protocolVersion == 5 && c.flags == 0x06 && c.keepAlive == 60
    ensures Fields(c) == ([0x00, 0x04] + MQTT) + [0x05, 0x06] + [0x00, 0x3C]
  {
    hide LengthPrefixed, Be16, Fields;
    FieldsOf(c);
    Prefixed(MQTT, 0, 4);
    Be16Of(60, 0, 60);
  }

  lemma BuilderTexts()
    ensures MQTT == Ascii("MQTT") && WILL_PREFIX == Ascii("will/") && OFFLINE == Ascii("offline")
  {
  }

  lemma BlockOf(props: seq<byte>)
    ensures PropertyBlock(props) == Encode(|props|) + props
  {
  }

  lemma FieldsOf(c: ParsedConnect)
    requires |c.protocolName| < 0x1_0000
    ensures Fields(c) == LengthPrefixed(c.protocolName) + [c.protocolVersion, c.flags] + Be16(c.keepAlive)
  {
  }

  // The built packet parses to the will properties in order, the client id and topic, and no
  // trailing bytes; exactly when it is short enough to be announced.
  lemma BuiltRoundTrip(clientId: seq<byte>, users: seq<(seq<byte>, seq<byte>)>)
    requires |clientId| + 5 < 0x1_0000 && Strings(users)
    ensures AllEncodable(UsersToProperties(users))
    ensures
      var body := BuiltBody(clientId, users, PrintAll(UsersToProperties(users)));
      ConnectOf(Packet(0x10, body)) == if |body| <= MAX_VARINT then Some(Built(clientId, users)) else None
  {
    hide Utf8, PrintAll, UsersToProperties, AllEncodable, ParseBlock, ConnectBody, Layout, Decode, Encode, RecordAll;
    UsersEncodable(users);
    var ps := UsersToProperties(users);
    var props := PrintAll(ps);
    var body := BuiltBody(clientId, users, props);
    PacketOpens(0x10, body, []);
    assert Packet(0x10, body) + [] == Packet(0x10, body);
    if |body| <= MAX_VARINT {
      ParsePrinted(NOTHING, ps);
      RecordUsers(NOTHING, users);
      assert [] + users == users;
      EmptyBlock();
      WillFits(Built(clientId, users), PropertyBlock([]), props, []);
      ConnectRoundTrip(Built(clientId, users), [], props, []);
    }
  }

  lemma EmptyBlock()
    ensures ParseBlock(NOTHING, []) == Some(NOTHING)
  {
  }

  lemma WillFits(c: ParsedConnect, block: seq<byte>, props: seq<byte>, tail: seq<byte>)
    requires Sized(c) && c.will.Some?
    ensures |props| <= |Layout(c, block, PropertyBlock(props), tail)|
  {
  }

  // Only complete packets with first byte 0x10 are accepted, with the body their length
  // announces.
  lemma ConnectAccepted(data: seq<byte>, n: nat)
    requires 1 + n <= |data| && IsVarInt(data[1..1 + n])
    ensures
      var end := 1 + n + ValueOf(data[1..1 + n]);
      ConnectOf(data) == if data[0] == 0x10 && end <= |data| then ConnectBody(data[1 + n..end]) else None
  {
    hide ConnectBody, Decode, ValueOf;
    DecodeMeaning(data, 1, 1 + n);
  }
}
