/**
 The Variable Byte Integer of section 1.5.5 of MQTT 5.0: the encoder of
 crates/mqtt5-conformance/src/raw_client.rs and the decoder of
 crates/mqtt5-conformance/src/packet_parser.rs. Masks and shifts are written as arithmetic:
 `b & 0x7F` is b % 128, `b & 0x80 == 0` is b < 128, and `|` of disjoint bits is a sum.
 */
module VarInt {
  import opened Options
  import opened Bytes

  // The largest value four bytes can carry.
  const MAX_VARINT := 268_435_455

  datatype Decoded = Decoded(value: nat, next: nat)

  // The encoding, least significant seven bits first.
  function Encode(v: nat): (bs: seq<byte>)
    ensures 1 <= |bs|
    decreases v
  {
    if v < 128 then [v] else [v % 128 + 128] + Encode(v / 128)
  }

  // The value at the head of s and its length, if it ends within `limit` bytes.
  function Scan(s: seq<byte>, limit: nat): (r: Option<Decoded>)
    ensures r.Some? ==> 1 <= r.value.next <= limit && r.value.next <= |s|
    decreases |s|
  {
    if s == [] || limit == 0 then None
    else if s[0] < 128 then Some(Decoded(s[0], 1))
    else match Scan(s[1..], limit - 1)
         case None => None
         case Some(d) => Some(Decoded(s[0] - 128 + 128 * d.value, d.next + 1))
  }

  // The value starting at index `start`; the second component is the index after it.
  function Decode(data: seq<byte>, start: nat): (r: Option<Decoded>)
    ensures r.Some? ==> start < r.value.next <= start + 4 && r.value.next <= |data|
  {
    if start > |data| then None
    else match Scan(data[start..], 4)
         case None => None
         case Some(d) => Some(Decoded(d.value, start + d.next))
  }

  method EncodeVariableInt(buf: seq<byte>, v: nat) returns (out: seq<byte>)
    ensures out == buf + Encode(v)
  {
    var value := v;
    out := buf;
    while true
      invariant out + Encode(value) == buf + Encode(v)
      decreases value
    {
      var b: byte := value % 128;
      ghost var rest := Encode(value);
      value := value / 128;
      if value > 0 {
        b := b + 128;
        assert rest == [b] + Encode(value);
      } else {
        assert rest == [b];
      }
      assert out + rest == (out + [b]) + rest[1..];
      out := out + [b];
      if value == 0 {
        break;
      }
    }
  }

  // x << shift, for the shifts the decoder uses.
  function Shifted(x: nat, shift: nat): nat
    requires shift in {0, 7, 14, 21}
  {
    match shift
    case 0 => x
    case 7 => x * 128
    case 14 => x * 16_384
    case _ => x * 2_097_152
  }

  // What the decoder returns when `value` was read before idx and `shift` bits of it are used.
  ghost function Resume(data: seq<byte>, idx: nat, value: nat, shift: nat): Option<Decoded>
    requires idx <= |data| && shift in {0, 7, 14, 21}
  {
    match Scan(data[idx..], 4 - shift / 7)
    case None => None
    case Some(d) => Some(Decoded(value + Shifted(d.value, shift), idx + d.next))
  }

  lemma ResumeEnds(data: seq<byte>, start: nat, value: nat, shift: nat)
    requires shift in {0, 7, 14, 21}
    ensures start <= |data| ==> Resume(data, start, 0, 0) == Decode(data, start)
    ensures start > |data| ==> Decode(data, start) == None
    ensures Resume(data, |data|, value, shift) == None
  {
  }

  lemma ResumeStep(data: seq<byte>, idx: nat, value: nat, shift: nat)
    requires idx < |data| && shift in {0, 7, 14, 21}
    ensures
      var value' := value + Shifted(data[idx] % 128, shift);
      Resume(data, idx, value, shift) ==
      if data[idx] < 128 then Some(Decoded(value', idx + 1))
      else if shift == 21 then None
      else Resume(data, idx + 1, value', shift + 7)
  {
    assert data[idx..][1..] == data[idx + 1..];
    match shift
    case 0 =>
    case 7 =>
    case 14 =>
    case _ => assert Scan(data[idx + 1..], 0).None?;
  }

  method DecodeVariableInt(data: seq<byte>, start: nat) returns (r: Option<Decoded>)
    ensures r == Decode(data, start)
  {
    hide Decode, Resume;
    var value: nat, shift: nat, idx: nat := 0, 0, start;
    ResumeEnds(data, start, value, shift);
    while true
      invariant shift in {0, 7, 14, 21}
      invariant if idx <= |data| then Resume(data, idx, value, shift) == Decode(data, start) else idx == start
      decreases 21 - shift
    {
      if idx >= |data| {
        ResumeEnds(data, start, value, shift);
        return None;
      }
      var b := data[idx];
      ResumeStep(data, idx, value, shift);
      idx := idx + 1;
      value := value + Shifted(b % 128, shift);
      if b < 128 {
        return Some(Decoded(value, idx));
      }
      shift := shift + 7;
      if shift > 21 {
        return None;
      }
    }
  }

  // ---- round trip, and exactly when it holds ----

  function Pow128(n: nat): (p: nat)
    ensures p >= 1
  {
    if n == 0 then 1 else 128 * Pow128(n - 1)
  }

  // A printed value is read back, whatever follows, if and only if it fits in `limit` bytes.
  lemma {:induction false} ScanEncode(v: nat, limit: nat, rest: seq<byte>)
    ensures Scan(Encode(v) + rest, limit) ==
            if v < Pow128(limit) && limit > 0 then Some(Decoded(v, |Encode(v)|)) else None
    decreases limit
  {
    var s := Encode(v) + rest;
    if limit > 0 {
      if v < 128 {
        assert s[0] == v;
      } else {
        assert s[0] == v % 128 + 128;
        assert s[1..] == Encode(v / 128) + rest;
        ScanEncode(v / 128, limit - 1, rest);
      }
    }
  }

  // The encoder accepts any value; what it prints is decoded to that value exactly when the
  // value is at most 268,435,455, and is rejected otherwise.
  lemma DecodeEncode(before: seq<byte>, v: nat, rest: seq<byte>)
    ensures Decode(before + Encode(v) + rest, |before|) ==
            if v <= MAX_VARINT then Some(Decoded(v, |before| + |Encode(v)|)) else None
  {
    assert (before + Encode(v) + rest)[|before|..] == Encode(v) + rest;
    ScanEncode(v, 4, rest);
    assert Pow128(4) == 268_435_456 by {
      assert Pow128(1) == 128 && Pow128(2) == 16384;
    }
  }

  // ---- what the decoder accepts ----

  // bs are 1 to 4 bytes of which exactly the last has its top bit clear.
  predicate IsVarInt(bs: seq<byte>) {
    && 1 <= |bs| <= 4
    && (forall k :: 0 <= k < |bs| - 1 ==> bs[k] >= 128)
    && bs[|bs| - 1] < 128
  }

  function ValueOf(bs: seq<byte>): nat {
    if bs == [] then 0 else bs[0] % 128 + 128 * ValueOf(bs[1..])
  }

  lemma {:induction false} ScanMeaning(s: seq<byte>, limit: nat, n: nat)
    requires 1 <= n <= |s| && n <= limit
    ensures (Scan(s, limit).Some? && Scan(s, limit).value.next == n)
       <==> (forall k :: 0 <= k < n - 1 ==> s[k] >= 128) && s[n - 1] < 128
    ensures Scan(s, limit).Some? && Scan(s, limit).value.next == n ==>
              Scan(s, limit).value.value == ValueOf(s[..n])
    decreases limit
  {
    if s[0] < 128 {
      assert s[..1][1..] == [];
      assert ValueOf(s[..1][1..]) == 0;
    } else if n > 1 {
      ScanMeaning(s[1..], limit - 1, n - 1);
      assert s[..n][1..] == s[1..][..n - 1];
      assert forall k :: 0 <= k < n - 2 ==> s[1..][k] == s[k + 1];
      assert (forall k :: 0 <= k < n - 1 ==> s[k] >= 128) <==> (forall k :: 0 <= k < n - 2 ==> s[1..][k] >= 128) by {
        if forall k :: 0 <= k < n - 2 ==> s[1..][k] >= 128 {
          forall k | 0 <= k < n - 1 ensures s[k] >= 128 {
            assert k > 0 ==> s[1..][k - 1] == s[k];
          }
        }
      }
    }
  }

  // The decoder accepts exactly the prefixes of that form, and computes their value.
  lemma DecodeMeaning(data: seq<byte>, start: nat, next: nat)
    requires start < next <= |data|
    ensures (Decode(data, start).Some? && Decode(data, start).value.next == next)
       <==> IsVarInt(data[start..next])
    ensures Decode(data, start).Some? && Decode(data, start).value.next == next ==>
              Decode(data, start).value.value == ValueOf(data[start..next])
  {
    var s, n := data[start..], next - start;
    assert s[..n] == data[start..next];
    if n <= 4 {
      ScanMeaning(s, 4, n);
      assert forall k :: 0 <= k < n ==> s[k] == data[start..next][k];
    }
  }

  // ---- locality ----

  // More bytes after a complete value change nothing.
  lemma {:induction false} ScanExtend(s: seq<byte>, limit: nat, t: seq<byte>)
    requires Scan(s, limit).Some?
    ensures Scan(s + t, limit) == Scan(s, limit)
    decreases limit
  {
    assert (s + t)[0] == s[0];
    if s[0] >= 128 {
      assert (s + t)[1..] == s[1..] + t;
      ScanExtend(s[1..], limit - 1, t);
    }
  }

  // Without a value, either the bytes have run out or four of them have the top bit set.
  lemma {:induction false} ScanNone(s: seq<byte>, limit: nat)
    requires Scan(s, limit).None?
    ensures |s| < limit || (forall k :: 0 <= k < limit ==> s[k] >= 128)
    ensures forall k :: 0 <= k < |s| && k < limit ==> s[k] >= 128
    decreases limit
  {
    if s != [] && limit > 0 {
      ScanNone(s[1..], limit - 1);
      forall k | 0 <= k < |s| && k < limit ensures s[k] >= 128 {
        if k > 0 {
          assert s[k] == s[1..][k - 1];
        }
      }
    }
  }

  lemma {:induction false} ScanAllSet(s: seq<byte>, limit: nat)
    requires forall k :: 0 <= k < |s| && k < limit ==> s[k] >= 128
    ensures Scan(s, limit).None?
    decreases limit
  {
    if s != [] && limit > 0 {
      assert forall k :: 0 <= k < |s[1..]| ==> s[1..][k] == s[k + 1];
      ScanAllSet(s[1..], limit - 1);
    }
  }

  // A decoder bounded by the whole buffer and one bounded by a slice of it agree whenever the
  // value ends inside the slice; otherwise the slice holds no value.
  lemma DecodeSlice(data: seq<byte>, start: nat, idx: nat, end: nat)
    requires start <= idx <= end <= |data|
    ensures Decode(data[start..end], idx - start) ==
            match Decode(data, idx)
            case None => None
            case Some(d) => if d.next <= end then Some(Decoded(d.value, d.next - start)) else None
  {
    var whole, slice := data[idx..], data[start..end][idx - start..];
    assert whole == slice + data[end..];
    match Scan(slice, 4)
    case Some(_) => ScanExtend(slice, 4, data[end..]);
    case None =>
      ScanNone(slice, 4);
      match Scan(whole, 4)
      case None =>
      case Some(d) => ScanMeaning(whole, 4, d.next);
  }

  // For instance, 321 is C1 02, least significant seven bits first.
  lemma LowBitsFirst()
    ensures Encode(321) == [0xC1, 0x02]
    ensures Decode([0xC1, 0x02], 0) == Some(Decoded(321, 2))
  {
    assert Encode(2) == [0x02];
    assert Encode(321) == [0xC1] + Encode(2);
    DecodeEncode([], 321, []);
    assert [] + Encode(321) + [] == [0xC1, 0x02];
  }
}
