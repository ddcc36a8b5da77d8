/**
 Splitting a byte stream into packets: `try_extract_packet` and `read_until` of
 crates/mqtt5-conformance/src/raw_client.rs, which collect chunks in a buffer.
 */
module Framing {
  import opened Options
  import opened Bytes
  import opened VarInt

  // How many bytes of the buffer `try_extract_packet` splits off: a complete packet, or the
  // whole buffer when its header cannot become well formed.
  function Extract(buf: seq<byte>): (r: Option<nat>)
    ensures r.Some? ==> 2 <= r.value <= |buf|
  {
    if buf == [] then None
    else match Decode(buf, 1)
         case Some(d) => if |buf| >= d.next + d.value then Some(d.next + d.value) else None
         case None => if |buf| >= 5 then Some(|buf|) else None
  }

  // Packets handed out, and the bytes kept.
  datatype Output = Output(packets: seq<seq<byte>>, rest: seq<byte>)

  function Then(f: Output, g: Output): Output {
    Output(f.packets + g.packets, g.rest)
  }

  lemma ThenAssoc(f: Output, g: Output, h: Output)
    ensures Then(f, Then(g, h)) == Then(Then(f, g), h)
    ensures f.packets == [] ==> Then(f, g) == g
    ensures g == Output([], f.rest) ==> Then(f, g) == f
  {
    assert f.packets + (g.packets + h.packets) == (f.packets + g.packets) + h.packets;
  }

  // Extraction repeated until it yields nothing.
  function Drained(buf: seq<byte>): Output
    decreases |buf|
  {
    match Extract(buf)
    case None => Output([], buf)
    case Some(n) => Then(Output([buf[..n]], buf[n..]), Drained(buf[n..]))
  }

  // Reading chunks one by one, extracting all packets before each further read.
  function Feed(buf: seq<byte>, chunks: seq<seq<byte>>): Output
    decreases |chunks|
  {
    var d := Drained(buf);
    if chunks == [] then d else Then(d, Feed(d.rest + chunks[0], chunks[1..]))
  }

  function Concat(parts: seq<seq<byte>>): seq<byte> {
    if parts == [] then [] else parts[0] + Concat(parts[1..])
  }

  lemma SeqAssoc(x: seq<byte>, y: seq<byte>, z: seq<byte>)
    ensures x + (y + z) == (x + y) + z
  {
  }

  lemma {:induction false} ConcatAppend(a: seq<seq<byte>>, b: seq<seq<byte>>)
    ensures Concat(a + b) == Concat(a) + Concat(b)
  {
    if a == [] {
      assert a + b == b;
    } else {
      var x, y, z := a[0], Concat(a[1..]), Concat(b);
      calc {
        Concat(a + b);
        { assert (a + b)[1..] == a[1..] + b; }
        x + Concat(a[1..] + b);
        { ConcatAppend(a[1..], b); }
        x + (y + z);
        { SeqAssoc(x, y, z); }
        (x + y) + z;
      }
    }
  }

  // ---- no byte is lost, invented or reordered, on any input ----

  lemma {:induction false} DrainedConserves(buf: seq<byte>)
    ensures Concat(Drained(buf).packets) + Drained(buf).rest == buf
    ensures Extract(Drained(buf).rest).None?
    decreases |buf|
  {
    hide Extract;
    match Extract(buf)
    case None => assert [] + buf == buf;
    case Some(n) =>
      DrainedConserves(buf[n..]);
      var d := Drained(buf[n..]);
      assert ([buf[..n]] + d.packets)[1..] == d.packets;
      assert buf == buf[..n] + (Concat(d.packets) + d.rest);
      assert buf == (buf[..n] + Concat(d.packets)) + d.rest;
  }

  lemma {:induction false} FeedConserves(buf: seq<byte>, chunks: seq<seq<byte>>)
    ensures Concat(Feed(buf, chunks).packets) + Feed(buf, chunks).rest == buf + Concat(chunks)
    ensures Extract(Feed(buf, chunks).rest).None?
    decreases |chunks|
  {
    DrainedConserves(buf);
    var d := Drained(buf);
    if chunks == [] {
      assert buf + [] == buf;
    } else {
      FeedConserves(d.rest + chunks[0], chunks[1..]);
      var f := Feed(d.rest + chunks[0], chunks[1..]);
      ConcatAppend(d.packets, f.packets);
      Regroup(Concat(d.packets), d.rest, Concat(f.packets), f.rest, chunks[0], Concat(chunks[1..]));
    }
  }

  lemma Regroup(x: seq<byte>, r: seq<byte>, y: seq<byte>, z: seq<byte>, c: seq<byte>, cs: seq<byte>)
    requires y + z == (r + c) + cs
    ensures (x + y) + z == (x + r) + (c + cs)
  {
    assert (x + y) + z == x + (y + z);
    assert x + ((r + c) + cs) == (x + r) + (c + cs);
  }

  lemma {:induction false} FeedSplit(buf: seq<byte>, a: seq<seq<byte>>, b: seq<seq<byte>>)
    ensures Feed(buf, a + b) == Then(Feed(buf, a), Feed(Feed(buf, a).rest, b))
    decreases |a|
  {
    var d := Drained(buf);
    if a == [] {
      assert a + b == b;
      FeedRest(buf, b);
    } else {
      assert (a + b)[1..] == a[1..] + b;
      FeedSplit(d.rest + a[0], a[1..], b);
      var f := Feed(d.rest + a[0], a[1..]);
      ThenAssoc(d, f, Feed(f.rest, b));
    }
  }

  lemma FeedRest(buf: seq<byte>, b: seq<seq<byte>>)
    ensures Feed(buf, b) == Then(Drained(buf), Feed(Drained(buf).rest, b))
  {
    var d := Drained(buf);
    DrainedConserves(buf);
    assert Drained(d.rest) == Output([], d.rest);
    if b == [] {
      ThenAssoc(d, Output([], d.rest), d);
    } else {
      ThenAssoc(Output([], d.rest), Feed(d.rest + b[0], b[1..]), d);
    }
  }

  // ---- chunking independence ----

  // Where the first malformed header of the stream starts: four length bytes with top bit set.
  function Malformed(s: seq<byte>): (r: Option<nat>)
    ensures r.Some? ==> r.value + 5 <= |s|
    decreases |s|
  {
    if s == [] then None
    else match Decode(s, 1)
         case None => if |s| >= 5 then Some(0) else None
         case Some(d) =>
           var n := d.next + d.value;
           if |s| < n then None
           else match Malformed(s[n..])
                case None => None
                case Some(k) => Some(n + k)
  }

  // No malformed header, or one with nothing after its fifth byte.
  predicate Splittable(s: seq<byte>) {
    Malformed(s).None? || Malformed(s).value + 5 == |s|
  }

  lemma HeaderExtend(a: seq<byte>, b: seq<byte>)
    requires a != []
    ensures Decode(a, 1).Some? ==> Decode(a + b, 1) == Decode(a, 1)
    ensures Decode(a, 1).None? && |a| >= 5 ==> Decode(a + b, 1).None?
  {
    assert (a + b)[1..] == a[1..] + b;
    if Scan(a[1..], 4).Some? {
      ScanExtend(a[1..], 4, b);
    } else if |a| >= 5 {
      ScanNone(a[1..], 4);
      assert forall k :: 0 <= k < 4 ==> (a[1..] + b)[k] == a[1..][k];
      ScanAllSet(a[1..] + b, 4);
    }
  }

  lemma ExtractExtend(a: seq<byte>, b: seq<byte>)
    requires Extract(a).Some?
    ensures
      var n := Extract(a).value;
      if Decode(a, 1).Some? then
        && Extract(a + b) == Some(n)
        && (a + b)[n..] == a[n..] + b && (a + b)[..n] == a[..n]
        && (Malformed(a + b) == match Malformed(a[n..] + b)
                                case None => None
                                case Some(k) => Some(n + k))
      else n == |a| >= 5 && Malformed(a + b) == Some(0)
  {
    HeaderExtend(a, b);
    var n := Extract(a).value;
    assert (a + b)[n..] == a[n..] + b;
  }

  // Draining early and appending later is the same as draining once.
  lemma {:induction false} DrainAppend(a: seq<byte>, b: seq<byte>)
    requires Splittable(a + b)
    ensures Splittable(Drained(a).rest + b)
    ensures Drained(a + b) == Then(Drained(a), Drained(Drained(a).rest + b))
    decreases |a|
  {
    match Extract(a)
    case None => ThenAssoc(Drained(a), Drained(a + b), Drained(a));
    case Some(n) =>
      ExtractExtend(a, b);
      var head := Output([a[..n]], a[n..]);
      if Decode(a, 1).Some? {
        DrainAppend(a[n..], b);
        var d := Drained(a[n..]);
        ThenAssoc(head, d, Drained(d.rest + b));
      } else {
        assert b == [] && a + b == a && a[n..] == [];
        assert Drained([]) == Output([], []);
        ThenAssoc(Drained(a), Output([], []), head);
      }
  }

  lemma {:induction false} FeedIsDrained(buf: seq<byte>, chunks: seq<seq<byte>>)
    requires Splittable(buf + Concat(chunks))
    ensures Feed(buf, chunks) == Drained(buf + Concat(chunks))
    decreases |chunks|
  {
    hide Malformed, Drained;
    if chunks == [] {
      assert buf + [] == buf;
    } else {
      var c := Concat(chunks);
      DrainAppend(buf, c);
      var d := Drained(buf);
      assert d.rest + c == (d.rest + chunks[0]) + Concat(chunks[1..]);
      FeedIsDrained(d.rest + chunks[0], chunks[1..]);
    }
  }

  // A complete packet: the header decodes and the body has exactly the announced length.
  predicate IsFrame(f: seq<byte>) {
    && f != []
    && Decode(f, 1).Some?
    && |f| == Decode(f, 1).value.next + Decode(f, 1).value.value
  }

  lemma {:induction false} DrainedFrames(frames: seq<seq<byte>>)
    requires forall k :: 0 <= k < |frames| ==> IsFrame(frames[k])
    ensures Drained(Concat(frames)) == Output(frames, [])
    ensures Malformed(Concat(frames)).None?
  {
    if frames != [] {
      var f, tail := frames[0], Concat(frames[1..]);
      HeaderExtend(f, tail);
      assert (f + tail)[|f|..] == tail && (f + tail)[..|f|] == f;
      DrainedFrames(frames[1..]);
      assert [f] + frames[1..] == frames;
    }
  }

  // Any list of frames, cut into any chunks, comes back frame by frame and leaves nothing.
  lemma FramesSurviveChunking(frames: seq<seq<byte>>, chunks: seq<seq<byte>>)
    requires forall k :: 0 <= k < |frames| ==> IsFrame(frames[k])
    requires Concat(chunks) == Concat(frames)
    ensures Feed([], chunks) == Output(frames, [])
  {
    DrainedFrames(frames);
    assert [] + Concat(chunks) == Concat(frames);
    FeedIsDrained([], chunks);
  }

  // ---- and exactly which streams are read independently of their chunks ----

  // One read returns between 1 and 8192 bytes.
  predicate IsChunking(chunks: seq<seq<byte>>, s: seq<byte>) {
    Concat(chunks) == s && forall k :: 0 <= k < |chunks| ==> 1 <= |chunks[k]| <= 8192
  }

  ghost predicate ChunkIndependent(s: seq<byte>) {
    forall a, b :: IsChunking(a, s) && IsChunking(b, s) ==> Feed([], a) == Feed([], b)
  }

  function Singles(s: seq<byte>): (r: seq<seq<byte>>)
    ensures IsChunking(r, s)
  {
    if s == [] then [] else
    var r := [[s[0]]] + Singles(s[1..]);
    assert r[1..] == Singles(s[1..]);
    r
  }

  lemma {:induction false} CleanBeforeMalformed(s: seq<byte>)
    requires Malformed(s).Some?
    ensures
      var o := Malformed(s).value;
      Malformed(s[..o]).None? && Drained(s[..o]).rest == [] && Decode(s[o..], 1).None?
    decreases |s|
  {
    var o := Malformed(s).value;
    match Decode(s, 1)
    case None => assert s[o..] == s;
    case Some(d) =>
      var n := d.next + d.value;
      CleanBeforeMalformed(s[n..]);
      assert s[n..][..o - n] == s[..o][n..] && s[n..][o - n..] == s[o..];
      CleanStep(s, o);
  }

  lemma CleanStep(s: seq<byte>, o: nat)
    requires s != [] && Decode(s, 1).Some? && o <= |s|
    requires
      var n := Decode(s, 1).value.next + Decode(s, 1).value.value;
      n <= o && Malformed(s[..o][n..]).None? && Drained(s[..o][n..]).rest == []
    ensures Malformed(s[..o]).None? && Drained(s[..o]).rest == []
  {
    hide Decode;
    DecodeSlice(s, 0, 1, o);
    assert s[0..o] == s[..o];
    assert Decode(s[..o], 1) == Decode(s, 1);
  }

  lemma FlushHead(t: seq<byte>, n: nat, chunks: seq<seq<byte>>)
    requires 5 <= n <= |t| && Decode(t, 1).None?
    ensures |Feed([], [t[..n]] + chunks).packets| > 0
    ensures Feed([], [t[..n]] + chunks).packets[0] == t[..n]
  {
    var c := t[..n];
    assert t == c + t[n..];
    DecodeSlice(t, 0, 1, n);
    assert t[0..n] == c;
    assert ([c] + chunks)[1..] == chunks;
    assert [] + c == c;
    assert Drained([]) == Output([], []);
    assert Drained(c).packets[0] == c;
    var f := Feed(c, chunks);
    assert f.packets[0] == c;
    assert Feed([], [c] + chunks).packets == [] + f.packets;
  }

  // How the stream reads does not depend on the chunks exactly when it has no malformed
  // header, or has one with nothing after its fifth byte: a malformed header takes with it
  // whatever happens to be buffered.
  lemma ChunkIndependentIff(s: seq<byte>)
    ensures ChunkIndependent(s) <==> Splittable(s)
  {
    if Splittable(s) {
      forall a, b | IsChunking(a, s) && IsChunking(b, s) ensures Feed([], a) == Feed([], b) {
        assert [] + s == s;
        FeedIsDrained([], a);
        FeedIsDrained([], b);
      }
    } else {
      ChunksMatter(s);
    }
  }

  // For instance, a malformed header and one more byte: read at once they are one packet, read
  // apart the last byte is kept back.
  lemma MalformedHeaderIsCut()
    ensures
      var head, last := [0x30, 0xFF, 0xFF, 0xFF, 0xFF], [0x00];
      var s := head + last;
      && !Splittable(s) && IsChunking([s], s) && IsChunking([head, last], s)
      && Feed([], [s]) == Output([s], []) && Feed([], [head, last]) == Output([head], last)
  {
    hide Splittable, Feed, IsChunking, Decode;
    var head: seq<byte>, last: seq<byte> := [0x30, 0xFF, 0xFF, 0xFF, 0xFF], [0x00];
    var s := head + last;
    NoLength(head);
    NoLength(s);
    TwoWays(s, head, last);
  }

  lemma NoLength(s: seq<byte>)
    requires |s| >= 5 && forall k :: 1 <= k < 5 ==> s[k] >= 128
    ensures Decode(s, 1).None?
  {
    assert forall k :: 0 <= k < 4 ==> s[1..][k] == s[k + 1];
    ScanAllSet(s[1..], 4);
  }

  lemma TwoWays(s: seq<byte>, head: seq<byte>, last: seq<byte>)
    requires s == head + last && |head| == 5 && |last| == 1 && Decode(head, 1).None? && Decode(s, 1).None?
    ensures !Splittable(s) && IsChunking([s], s) && IsChunking([head, last], s)
    ensures Feed([], [s]) == Output([s], []) && Feed([], [head, last]) == Output([head], last)
  {
    hide IsChunking, Scan;
    OneChunk(s);
    OneChunk(last);
    ChunkFirst(head, [last], last);
    assert [s] + [] == [s] && [head] + [last] == [head, last];
    FlushAll(s, []);
    FlushAll(head, [last]);
    KeptBack(last);
  }

  lemma OneChunk(s: seq<byte>)
    requires 1 <= |s| <= 8192
    ensures IsChunking([s], s)
  {
    assert [s][1..] == [] && s + [] == s;
    assert Concat([s]) == s + Concat([]);
  }

  lemma KeptBack(last: seq<byte>)
    requires |last| == 1
    ensures Feed([], []) == Output([], []) && Feed([], [last]) == Output([], last)
  {
    assert last[1..] == [] && Decode(last, 1).None?;
    assert [] + last == last && [last][1..] == [];
    assert Drained(last) == Output([], last) && Feed(last, []) == Output([], last);
  }

  // A malformed header of at least 5 bytes takes the whole first chunk.
  lemma FlushAll(c: seq<byte>, chunks: seq<seq<byte>>)
    requires |c| >= 5 && Decode(c, 1).None?
    ensures Feed([], [c] + chunks) == Then(Output([c], []), Feed([], chunks))
  {
    hide Decode;
    assert ([c] + chunks)[1..] == chunks && [] + c == c;
    var nothing := Output([], []);
    assert Drained([]) == nothing;
    assert Drained(c) == Output([c], []) by { assert c[..|c|] == c && c[|c|..] == []; }
    ThenAssoc(nothing, Feed(c, chunks), nothing);
    FeedRest(c, chunks);
  }

  lemma ChunksMatter(s: seq<byte>)
    requires !Splittable(s)
    ensures !ChunkIndependent(s)
  {
    hide Feed, Drained, Singles, Decode, Concat;
    var o := Malformed(s).value;
    var t := s[o..];
    var before, after := Singles(s[..o]), Singles(s[o + 6..]);
    var a, b := before + ([t[..5]] + ([t[5..6]] + after)), before + ([t[..6]] + after);
    assert Feed([], a) != Feed([], b) by {
      CleanBeforeMalformed(s);
      FlushAfter(s, o, 5, [t[5..6]] + after);
      FlushAfter(s, o, 6, after);
      assert |t[..5]| != |t[..6]|;
    }
    ChunksConcat(s, o, before, after);
    Differ(s, a, b);
  }

  lemma Differ(s: seq<byte>, a: seq<seq<byte>>, b: seq<seq<byte>>)
    requires IsChunking(a, s) && IsChunking(b, s) && Feed([], a) != Feed([], b)
    ensures !ChunkIndependent(s)
  {
  }

  // Once the clean part is read, a malformed header of n buffered bytes is the next packet.
  lemma FlushAfter(s: seq<byte>, o: nat, n: nat, chunks: seq<seq<byte>>)
    requires 5 <= n && o + n <= |s| && Decode(s[o..], 1).None?
    requires Malformed(s[..o]).None? && Drained(s[..o]).rest == []
    ensures
      var k := |Drained(s[..o]).packets|;
      var f := Feed([], Singles(s[..o]) + ([s[o..][..n]] + chunks));
      |f.packets| > k && f.packets[k] == s[o..][..n]
  {
    assert [] + s[..o] == s[..o];
    FeedIsDrained([], Singles(s[..o]));
    FeedSplit([], Singles(s[..o]), [s[o..][..n]] + chunks);
    FlushHead(s[o..], n, chunks);
  }

  lemma ChunksConcat(s: seq<byte>, o: nat, before: seq<seq<byte>>, after: seq<seq<byte>>)
    requires o + 6 <= |s| && IsChunking(before, s[..o]) && IsChunking(after, s[o + 6..])
    ensures
      var t := s[o..];
      && IsChunking(before + ([t[..5]] + ([t[5..6]] + after)), s)
      && IsChunking(before + ([t[..6]] + after), s)
  {
    var t := s[o..];
    assert t[..5] + (t[5..6] + s[o + 6..]) == t && t[..6] + s[o + 6..] == t;
    assert s[..o] + t == s;
    ChunkFirst(t[5..6], after, s[o + 6..]);
    ChunkFirst(t[..5], [t[5..6]] + after, t[5..6] + s[o + 6..]);
    ChunkFirst(t[..6], after, s[o + 6..]);
    ChunksJoin(before, s[..o], [t[..5]] + ([t[5..6]] + after), t);
    ChunksJoin(before, s[..o], [t[..6]] + after, t);
  }

  lemma ChunkFirst(c: seq<byte>, chunks: seq<seq<byte>>, s: seq<byte>)
    requires 1 <= |c| <= 8192 && IsChunking(chunks, s)
    ensures IsChunking([c] + chunks, c + s)
  {
    assert ([c] + chunks)[1..] == chunks;
  }

  lemma ChunksJoin(a: seq<seq<byte>>, s: seq<byte>, b: seq<seq<byte>>, t: seq<byte>)
    requires IsChunking(a, s) && IsChunking(b, t)
    ensures IsChunking(a + b, s + t)
  {
    ConcatAppend(a, b);
  }
}
