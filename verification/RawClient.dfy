/**
 The buffered reader of crates/mqtt5-conformance/src/raw_client.rs. The transport is the
 list of what its reads will return: data, the end of the stream (a read of 0 bytes or an
 error), or nothing before the deadline.
 */
module RawClient {
  import opened Options
  import opened Bytes
  import opened VarInt
  import opened Framing

  datatype Arrival = Data(bytes: seq<byte>) | Ended | Expired

  datatype ReadOutcome = Packet(bytes: seq<byte>) | Closed | TimedOut

  // The chunks that arrive before the stream ends or the deadline passes.
  function Chunks(incoming: seq<Arrival>): seq<seq<byte>> {
    if incoming == [] || !incoming[0].Data? then [] else [incoming[0].bytes] + Chunks(incoming[1..])
  }

  // What follows these chunks.
  function Later(incoming: seq<Arrival>): seq<Arrival> {
    if incoming == [] || !incoming[0].Data? then incoming else Later(incoming[1..])
  }

  class RawMqttClient {
    var buf: seq<byte>
    var incoming: seq<Arrival>

    constructor (incoming: seq<Arrival>)
      ensures this.buf == [] && this.incoming == incoming
    {
      buf, this.incoming := [], incoming;
    }

    // Splits the next packet off the buffer.
    method TryExtractPacket() returns (r: Option<seq<byte>>)
      modifies this`buf
      ensures r.None? <==> Extract(old(buf)).None?
      ensures r.Some? ==> |r.value| == Extract(old(buf)).value
      ensures (if r.Some? then r.value else []) + buf == old(buf)
    {
      if buf == [] {
        return None;
      }
      var header := DecodeVariableInt(buf, 1);
      match header {
        case Some(d) =>
          var total := d.next + d.value;
          if |buf| >= total {
            r := Some(buf[..total]);
            buf := buf[total..];
          } else {
            r := None;
          }
        case None =>
          if |buf| >= 5 {
            r := Some(buf);
            buf := [];
          } else {
            r := None;
          }
      }
    }

    // Returns the first packet of the stream made of the buffer and the arriving chunks, and
    // leaves the others to later calls. Without one, an ended stream yields the bytes left
    // over, once, and then Closed.
    method ReadUntil() returns (r: ReadOutcome)
      modifies this
      ensures Later(incoming) == Later(old(incoming)) || r.TimedOut?
      ensures
        var f := Feed(old(buf), Chunks(old(incoming)));
        var later := Later(old(incoming));
        if f.packets != [] then
          && r == Packet(f.packets[0])
          && Feed(buf, Chunks(incoming)) == Output(f.packets[1..], f.rest)
        else if later == [] || later[0].Expired? then
          r == TimedOut && buf == f.rest
        else
          && r == (if f.rest == [] then Closed else Packet(f.rest))
          && buf == [] && incoming == later
    {
      while true
        invariant Feed(buf, Chunks(incoming)) == Feed(old(buf), Chunks(old(incoming)))
        invariant Later(incoming) == Later(old(incoming))
        decreases |incoming|
      {
        ghost var before := buf;
        var pkt := TryExtractPacket();
        match pkt {
          case Some(p) =>
            FeedAfterExtract(before, Chunks(incoming));
            assert before[..|p|] == p && before[|p|..] == buf;
            return Packet(p);
          case None =>
        }
        assert buf == before;
        FeedBlocked(buf, Chunks(incoming));
        if incoming == [] {
          return TimedOut;
        }
        match incoming[0] {
          case Expired =>
            incoming := incoming[1..];
            return TimedOut;
          case Ended =>
            if buf == [] {
              return Closed;
            }
            r := Packet(buf);
            buf := [];
            return;
          case Data(bytes) =>
            assert Chunks(incoming)[1..] == Chunks(incoming[1..]);
            buf := buf + bytes;
            incoming := incoming[1..];
        }
      }
    }
  }

  lemma FeedAfterExtract(buf: seq<byte>, chunks: seq<seq<byte>>)
    requires Extract(buf).Some?
    ensures
      var n := Extract(buf).value;
      var g := Feed(buf[n..], chunks);
      Feed(buf, chunks) == Output([buf[..n]] + g.packets, g.rest)
  {
    var n := Extract(buf).value;
    var head, d := Output([buf[..n]], buf[n..]), Drained(buf[n..]);
    if chunks != [] {
      ThenAssoc(head, d, Feed(d.rest + chunks[0], chunks[1..]));
    }
  }

  lemma FeedBlocked(buf: seq<byte>, chunks: seq<seq<byte>>)
    requires Extract(buf).None?
    ensures Feed(buf, chunks) == if chunks == [] then Output([], buf) else Feed(buf + chunks[0], chunks[1..])
  {
    if chunks != [] {
      ThenAssoc(Drained(buf), Feed(buf + chunks[0], chunks[1..]), Drained(buf));
    }
  }

  // A client that reads until it has seen every frame: any number of frames, cut into any
  // chunks, are returned one per call and in order.
  method ReadFrames(frames: seq<seq<byte>>, incoming: seq<Arrival>) returns (outcomes: seq<ReadOutcome>)
    requires forall k :: 0 <= k < |frames| ==> IsFrame(frames[k])
    requires Concat(Chunks(incoming)) == Concat(frames)
    ensures |outcomes| == |frames|
    ensures forall k :: 0 <= k < |frames| ==> outcomes[k] == Packet(frames[k])
  {
    hide Feed, Chunks, Concat, IsFrame;
    var client := new RawMqttClient(incoming);
    FramesSurviveChunking(frames, Chunks(incoming));
    outcomes := [];
    while |outcomes| < |frames|
      invariant |outcomes| <= |frames|
      invariant forall k :: 0 <= k < |outcomes| ==> outcomes[k] == Packet(frames[k])
      invariant Feed(client.buf, Chunks(client.incoming)) == Output(frames[|outcomes|..], [])
    {
      var r := client.ReadUntil();
      outcomes := outcomes + [r];
    }
  }
}
