/**
 The streaming packet reader of crates/mqtt5-wasm/src/decoder.rs. The transport hands out
 the bytes of a stream in reads of any length it likes; once they are used up, a read returns
 0 bytes or an error.
 */
module WasmDecoder {
  import opened Options
  import opened Bytes
  import opened VarInt
  import Framing

  const MAX_REMAINING_LENGTH_BYTES := 4

  // crates/mqtt5-protocol/src/constants.rs
  const MAX_PACKET_SIZE: u32 := 268_435_456

  // What a read returns after the last byte.
  datatype Ending = Closes | Fails(error: nat)

  datatype FrameResult =
    | Frame(packetType: byte, flags: byte, remainingLength: nat, body: seq<byte>)
    | ConnectionClosed
    | ReadFailed(error: nat)
    | InvalidPacketType(value: byte)
    | MalformedLength
    | PacketTooLarge(size: nat, max: nat)

  // The error of a frame that the stream ends in.
  function Cut(ending: Ending): FrameResult {
    match ending
    case Closes => ConnectionClosed
    case Fails(error) => ReadFailed(error)
  }

  // What reading one frame of the stream s yields, stated on the stream as a whole.
  function FrameOf(s: seq<byte>, ending: Ending, max: u32): FrameResult {
    if s == [] then Cut(ending)
    else if s[0] / 16 == 0 then InvalidPacketType(0)
    else match Decode(s, 1)
         case None => if |s| >= 5 then MalformedLength else Cut(ending)
         case Some(d) =>
           var total := d.next + d.value;
           if total > max then PacketTooLarge(total, max)
           else if |s| < total then Cut(ending)
           else Frame(s[0] / 16, s[0] % 16, d.value, s[d.next..total])
  }

  // How many bytes of the stream the frame takes.
  function FrameLength(s: seq<byte>): nat
    requires s != [] && Decode(s, 1).Some?
  {
    Decode(s, 1).value.next + Decode(s, 1).value.value
  }

  // The frames of a stream up to the first error, and that error.
  datatype Reading = Reading(frames: seq<FrameResult>, error: FrameResult)

  function FramesOf(s: seq<byte>, ending: Ending, max: u32): Reading
    decreases |s|
  {
    var r := FrameOf(s, ending, max);
    if r.Frame? then
      var later := FramesOf(s[FrameLength(s)..], ending, max);
      Reading([r] + later.frames, later.error)
    else Reading([], r)
  }

  class WasmReader {
    var stream: seq<byte>
    const ending: Ending

    constructor (stream: seq<byte>, ending: Ending)
      ensures this.stream == stream && this.ending == ending
    {
      this.stream, this.ending := stream, ending;
    }

    // Fills some of buf[from..]; an exhausted stream gives 0, or no result but an error.
    method Read(buf: array<byte>, from: nat) returns (n: Option<nat>)
      requires from < buf.Length
      modifies this, buf
      ensures old(stream) == [] ==> n == if ending.Closes? then Some(0) else None
      ensures old(stream) == [] ==> stream == []
      ensures old(stream) != [] ==>
                && n.Some? && 1 <= n.value <= |old(stream)| && from + n.value <= buf.Length
                && stream == old(stream)[n.value..]
                && buf[from..from + n.value] == old(stream)[..n.value]
      ensures buf[..from] == old(buf[..from])
    {
      if stream == [] {
        return if ending.Closes? then Some(0) else None;
      }
      var room := buf.Length - from;
      var len :| 1 <= len <= room && len <= |stream|;
      forall k | 0 <= k < len {
        buf[from + k] := stream[k];
      }
      stream := stream[len..];
      return Some(len);
    }

    // Fills the whole buffer, or fails having used up the stream.
    method ReadExact(buf: array<byte>) returns (failure: Option<FrameResult>)
      modifies this, buf
      ensures failure == if buf.Length <= |old(stream)| then None else Some(Cut(ending))
      ensures failure.None? ==> buf[..] == old(stream)[..buf.Length] && stream == old(stream)[buf.Length..]
      ensures failure.Some? ==> stream == []
    {
      var totalRead := 0;
      while totalRead < buf.Length
        invariant 0 <= totalRead <= buf.Length && totalRead <= |old(stream)|
        invariant stream == old(stream)[totalRead..]
        invariant buf[..totalRead] == old(stream)[..totalRead]
      {
        ghost var filled := buf[..totalRead];
        var n := Read(buf, totalRead);
        if n.None? {
          return Some(ReadFailed(ending.error));
        }
        if n.value == 0 {
          return Some(ConnectionClosed);
        }
        assert buf[..totalRead + n.value] == filled + buf[totalRead..totalRead + n.value];
        totalRead := totalRead + n.value;
      }
      assert buf[..] == buf[..totalRead];
      failure := None;
    }

    method ReadByte() returns (b: byte, failure: Option<FrameResult>)
      modifies this
      ensures old(stream) == [] ==> failure == Some(Cut(ending)) && stream == []
      ensures old(stream) != [] ==> failure.None? && b == old(stream)[0] && stream == old(stream)[1..]
    {
      var one := new byte[1];
      failure := ReadExact(one);
      b := one[0];
    }

    // The length field behind the first byte of s: its value and the bytes it takes.
    method ReadLength(ghost s: seq<byte>) returns (remaining: nat, lengthBytes: nat, failure: Option<FrameResult>)
      requires s != [] && stream == s[1..]
      modifies this
      ensures failure.None? ==> Decode(s, 1) == Some(Decoded(remaining, 1 + lengthBytes)) && stream == s[1 + lengthBytes..]
      ensures failure.Some? ==>
                Decode(s, 1).None? && failure.value == if |s| >= 5 then MalformedLength else Cut(ending)
    {
      hide Decode, Resume;
      remaining, lengthBytes, failure := 0, 0, None;
      ResumeEnds(s, 1, remaining, 0);
      while true
        invariant lengthBytes <= 4 && 1 + lengthBytes <= |s|
        invariant stream == s[1 + lengthBytes..]
        invariant lengthBytes < 4 ==> Resume(s, 1 + lengthBytes, remaining, 7 * lengthBytes) == Decode(s, 1)
        invariant lengthBytes == 4 ==> Decode(s, 1).None?
        decreases 4 - lengthBytes
      {
        if lengthBytes == MAX_REMAINING_LENGTH_BYTES {
          failure := Some(MalformedLength);
          return;
        }
        var b;
        b, failure := ReadByte();
        if failure.Some? {
          ResumeEnds(s, 1, remaining, 7 * lengthBytes);
          return;
        }
        ResumeStep(s, 1 + lengthBytes, remaining, 7 * lengthBytes);
        remaining := remaining + Shifted(b % 128, 7 * lengthBytes);
        lengthBytes := lengthBytes + 1;
        if b < 128 {
          return;
        }
      }
    }

    // Whatever the pattern of short reads, the result is the one FrameOf states, and a frame
    // is taken off the stream exactly.
    method ReadFrame(max: u32) returns (r: FrameResult)
      modifies this
      ensures r == FrameOf(old(stream), ending, max)
      ensures r.Frame? ==> stream == old(stream)[FrameLength(old(stream))..]
    {
      hide Decode;
      ghost var s := stream;
      var first, failure := ReadByte();
      if failure.Some? {
        return failure.value;
      }
      var packetType := first / 16;
      if packetType == 0 {
        return InvalidPacketType(packetType);
      }
      var remaining, lengthBytes;
      remaining, lengthBytes, failure := ReadLength(s);
      if failure.Some? {
        return failure.value;
      }
      var headerLen := 1 + lengthBytes;
      var total := remaining + headerLen;
      if total > max {
        return PacketTooLarge(total, max);
      }
      var body := new byte[total - headerLen];
      failure := ReadExact(body);
      if failure.Some? {
        return failure.value;
      }
      DropTake(s, headerLen, remaining);
      r := Frame(packetType, first % 16, remaining, body[..]);
    }

    // Frames read one after the other, until an error.
    method ReadAll(max: u32) returns (frames: seq<FrameResult>, error: FrameResult)
      modifies this
      ensures Reading(frames, error) == FramesOf(old(stream), ending, max)
    {
      hide FrameOf;
      frames := [];
      while true
        invariant
          var f := FramesOf(stream, ending, max);
          FramesOf(old(stream), ending, max) == Reading(frames + f.frames, f.error)
        decreases |stream|
      {
        ghost var s := stream;
        var r := ReadFrame(max);
        if !r.Frame? {
          return frames, r;
        }
        FrameTaken(s, ending, max);
        ghost var later := FramesOf(stream, ending, max).frames;
        assert frames + ([r] + later) == (frames + [r]) + later;
        frames := frames + [r];
      }
    }
  }

  lemma FrameTaken(s: seq<byte>, ending: Ending, max: u32)
    requires FrameOf(s, ending, max).Frame?
    ensures s != [] && Decode(s, 1).Some? && 2 <= FrameLength(s) <= |s|
  {
  }

  // ---- which stream gives which result ----

  // A header that can be read: the type is in 1..15, and of n length bytes only the last has
  // its top bit clear.
  predicate HasHeader(s: seq<byte>, n: nat) {
    1 + n <= |s| && s[0] >= 16 && IsVarInt(s[1..1 + n])
  }

  lemma FrameWithHeader(s: seq<byte>, n: nat, ending: Ending, max: u32)
    requires HasHeader(s, n)
    ensures
      var length := ValueOf(s[1..1 + n]);
      var total := 1 + n + length;
      FrameOf(s, ending, max) ==
      if total > max then PacketTooLarge(total, max)
      else if total <= |s| then Frame(s[0] / 16, s[0] % 16, length, s[1 + n..total])
      else if ending == Closes then ConnectionClosed
      else ReadFailed(ending.error)
  {
    hide Decode, ValueOf;
    DecodeMeaning(s, 1, 1 + n);
  }

  // All others: type 0, four length bytes with top bit set, or the stream ends in the header.
  lemma FrameWithoutHeader(s: seq<byte>, ending: Ending, max: u32)
    requires forall n: nat :: !HasHeader(s, n)
    ensures
      FrameOf(s, ending, max) ==
      if s != [] && s[0] < 16 then InvalidPacketType(0)
      else if |s| >= 5 then MalformedLength
      else if ending == Closes then ConnectionClosed
      else ReadFailed(ending.error)
    ensures |s| >= 5 && s[0] >= 16 ==> forall k :: 1 <= k < 5 ==> s[k] >= 128
  {
    hide Decode;
    if s != [] && s[0] >= 16 {
      if Decode(s, 1).Some? {
        HeaderRead(s);
      } else if |s| >= 5 {
        TopBitsSet(s);
      }
    }
  }

  lemma HeaderRead(s: seq<byte>)
    requires s != [] && s[0] >= 16 && Decode(s, 1).Some?
    ensures HasHeader(s, Decode(s, 1).value.next - 1)
  {
    hide Decode;
    DecodeMeaning(s, 1, Decode(s, 1).value.next);
  }

  lemma TopBitsSet(s: seq<byte>)
    requires |s| >= 5 && Decode(s, 1).None?
    ensures forall k :: 1 <= k < 5 ==> s[k] >= 128
  {
    ScanNone(s[1..], 4);
    forall k | 1 <= k < 5 ensures s[k] >= 128 {
      assert s[1..][k - 1] == s[k];
    }
  }

  // ---- the two framers ----

  // A frame is read exactly when the type nibble is not 0, the length decodes, the packet is
  // complete and within the limit, and then it is the packet that `try_extract_packet` splits
  // off the same bytes, with its header taken apart.
  lemma FramersAgree(s: seq<byte>, ending: Ending, max: u32)
    ensures FrameOf(s, ending, max).Frame? <==>
            && s != [] && s[0] / 16 != 0 && Decode(s, 1).Some?
            && FrameLength(s) <= |s| && FrameLength(s) <= max
    ensures FrameOf(s, ending, max).Frame? ==>
              var f := FrameOf(s, ending, max);
              && Framing.Extract(s) == Some(FrameLength(s))
              && s[..FrameLength(s)] == s[..Decode(s, 1).value.next] + f.body
              && |f.body| == f.remainingLength
              && s[0] == 16 * f.packetType + f.flags
  {
    if FrameOf(s, ending, max).Frame? {
      var d := Decode(s, 1).value;
      assert s[..d.next + d.value] == s[..d.next] + s[d.next..d.next + d.value];
    }
  }

  // A packet split off by the one framer that the other one accepts.
  predicate Acceptable(p: seq<byte>, max: u32) {
    Framing.IsFrame(p) && p[0] / 16 != 0 && |p| <= max
  }

  // The number of acceptable packets before the first that is not.
  function AcceptableCount(packets: seq<seq<byte>>, max: u32): (n: nat)
    ensures n <= |packets|
    ensures forall k :: 0 <= k < n ==> Acceptable(packets[k], max)
    ensures n < |packets| ==> !Acceptable(packets[n], max)
  {
    if packets == [] || !Acceptable(packets[0], max) then 0 else 1 + AcceptableCount(packets[1..], max)
  }

  // A packet with its header taken apart.
  function Opened(p: seq<byte>): FrameResult
    requires Framing.IsFrame(p)
  {
    var d := Decode(p, 1).value;
    Frame(p[0] / 16, p[0] % 16, d.value, p[d.next..])
  }

  // The first packet of a stream, whatever follows it.
  lemma FirstPacket(s: seq<byte>, ending: Ending, max: u32)
    requires Framing.Extract(s).Some?
    ensures
      var n := Framing.Extract(s).value;
      && FrameOf(s, ending, max) == FrameOf(s[..n], ending, max)
      && (FrameOf(s, ending, max).Frame? <==> Acceptable(s[..n], max))
      && (Acceptable(s[..n], max) ==> FrameLength(s) == n && FrameOf(s, ending, max) == Opened(s[..n]))
  {
    hide Scan;
    var n := Framing.Extract(s).value;
    var p := s[..n];
    DecodeSlice(s, 0, 1, n);
    assert s[0..n] == p;
    if Decode(s, 1).Some? {
      var d := Decode(s, 1).value;
      assert p[d.next..] == s[d.next..n];
    }
  }

  // Over a whole stream: the frames read are the packets of the other framer up to the first
  // with type 0, a malformed length or too many bytes. That packet decides the error; without
  // one, the bytes left over do.
  lemma {:induction false} StreamsAgree(s: seq<byte>, ending: Ending, max: u32)
    ensures
      var d, r := Framing.Drained(s), FramesOf(s, ending, max);
      var n := AcceptableCount(d.packets, max);
      && |r.frames| == n
      && (forall k :: 0 <= k < n ==> r.frames[k] == Opened(d.packets[k]))
      && r.error == FrameOf(if n < |d.packets| then d.packets[n] else d.rest, ending, max)
    decreases |s|
  {
    hide FrameOf, Framing.Extract, Opened, Acceptable;
    match Framing.Extract(s)
    case None => NothingExtracted(s, ending, max);
    case Some(n) =>
      FirstPacket(s, ending, max);
      var d, later := Framing.Drained(s), Framing.Drained(s[n..]);
      assert d.packets[0] == s[..n] && d.packets[1..] == later.packets;
      if Acceptable(s[..n], max) {
        StreamsAgree(s[n..], ending, max);
      }
  }

  lemma NothingExtracted(s: seq<byte>, ending: Ending, max: u32)
    requires Framing.Extract(s).None?
    ensures !FrameOf(s, ending, max).Frame?
  {
    FramersAgree(s, ending, max);
  }

  // The streams of which both framers read the same packets.
  lemma SamePacketsIff(s: seq<byte>, ending: Ending, max: u32)
    ensures |FramesOf(s, ending, max).frames| == |Framing.Drained(s).packets|
       <==> forall k :: 0 <= k < |Framing.Drained(s).packets| ==> Acceptable(Framing.Drained(s).packets[k], max)
  {
    hide Acceptable;
    StreamsAgree(s, ending, max);
  }

  // ---- the limit ----

  // A printed packet of type 1..15 is read back under the limit `read_packet` sets exactly
  // when its body has at most 268,435,451 bytes: the four longest lengths the encoding allows
  // are refused.
  lemma LimitRefusesLongestBodies(first: byte, body: seq<byte>, rest: seq<byte>, ending: Ending)
    requires first / 16 != 0 && |body| <= MAX_VARINT
    ensures FrameOf([first] + Encode(|body|) + body + rest, ending, MAX_PACKET_SIZE) ==
            if |body| <= 268_435_451
            then Frame(first / 16, first % 16, |body|, body)
            else PacketTooLarge(|body| + 5, MAX_PACKET_SIZE)
  {
    hide Scan, Encode;
    var n := Encode(|body|);
    var s := [first] + n + body + rest;
    assert s == [first] + n + (body + rest);
    DecodeEncode([first], |body|, body + rest);
    EncodedLength(|body|);
    assert s[1 + |n|..1 + |n| + |body|] == body;
  }

  // For instance, a PUBLISH with a body of 268,435,452 zeros.
  lemma LongBodyIsRefused()
    ensures
      var body := seq(268_435_452, _ => 0);
      FrameOf([0x30] + Encode(|body|) + body, Closes, MAX_PACKET_SIZE) == PacketTooLarge(268_435_457, MAX_PACKET_SIZE)
  {
    hide FrameOf, Encode;
    var body := seq(268_435_452, _ => 0);
    LimitRefusesLongestBodies(0x30, body, [], Closes);
    var s := [0x30] + Encode(|body|) + body;
    assert s + [] == s;
  }

  lemma EncodedLength(v: nat)
    requires v <= MAX_VARINT
    ensures |Encode(v)| <= 4
    ensures v > 2_097_151 ==> |Encode(v)| == 4
  {
    var v1 := v / 128;
    var v2 := v1 / 128;
    var v3 := v2 / 128;
    assert v > 2_097_151 ==> v3 > 0;
    assert v3 < 128;
    assert v >= 128 ==> Encode(v) == [v % 128 + 128] + Encode(v1);
    assert v1 >= 128 ==> Encode(v1) == [v1 % 128 + 128] + Encode(v2);
    assert v2 >= 128 ==> Encode(v2) == [v2 % 128 + 128] + Encode(v3);
  }
}
