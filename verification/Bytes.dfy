/** Bytes, big-endian integers and UTF-8, as the packet printers and parsers use them. */
module Bytes {
  type byte = b: int | 0 <= b < 256
  type u16 = i: int | 0 <= i < 0x1_0000
  type u32 = i: int | 0 <= i < 0x1_0000_0000

  function Be16(v: u16): (bs: seq<byte>)
    ensures |bs| == 2 && 256 * (bs[0] as int) + bs[1] as int == v
    ensures FromBe16(bs[0], bs[1]) == v
  {
    [v / 256, v % 256]
  }

  function FromBe16(hi: byte, lo: byte): u16 {
    256 * hi + lo
  }

  lemma Be16Again(hi: byte, lo: byte)
    ensures Be16(FromBe16(hi, lo)) == [hi, lo]
  {
    HighAndLow(hi, lo);
  }

  lemma HighAndLow(hi: int, lo: int)
    requires 0 <= lo < 256
    ensures (256 * hi + lo) / 256 == hi && (256 * hi + lo) % 256 == lo
  {
  }

  function Be32(v: u32): (bs: seq<byte>)
    ensures |bs| == 4
    ensures 0x100_0000 * (bs[0] as int) + 0x1_0000 * (bs[1] as int) + 256 * (bs[2] as int) + bs[3] as int == v
    ensures FromBe32(bs[0], bs[1], bs[2], bs[3]) == v
  {
    Be16(v / 0x1_0000) + Be16(v % 0x1_0000)
  }

  function FromBe32(b0: byte, b1: byte, b2: byte, b3: byte): u32 {
    0x1_0000 * FromBe16(b0, b1) + FromBe16(b2, b3)
  }

  // The bytes of a text of ASCII characters.
  function Ascii(s: string): seq<byte>
    requires forall k :: 0 <= k < |s| ==> s[k] < 128 as char
  {
    seq(|s|, k requires 0 <= k < |s| => s[k] as int)
  }

  // Well-formed UTF-8 (table 3-7 of the Unicode Standard), which Rust strings must be.
  predicate Utf8(s: seq<byte>) {
    s == [] ||
    var n := ScalarLength(s);
    0 < n <= |s| && Utf8(s[n..])
  }

  // The length of the scalar value at the head of s, or 0 if none is well formed.
  function ScalarLength(s: seq<byte>): (n: nat)
    requires s != []
  {
    var b := s[0];
    if b < 0x80 then 1
    else if 0xC2 <= b <= 0xDF then if Tail(s, 1, 0x80, 0xBF) then 2 else 0
    else if 0xE0 <= b <= 0xEF then
      var lo, hi := if b == 0xE0 then 0xA0 else 0x80, if b == 0xED then 0x9F else 0xBF;
      if Tail(s, 1, lo, hi) && Tail(s, 2, 0x80, 0xBF) then 3 else 0
    else if 0xF0 <= b <= 0xF4 then
      var lo, hi := if b == 0xF0 then 0x90 else 0x80, if b == 0xF4 then 0x8F else 0xBF;
      if Tail(s, 1, lo, hi) && Tail(s, 2, 0x80, 0xBF) && Tail(s, 3, 0x80, 0xBF) then 4 else 0
    else 0
  }

  predicate Tail(s: seq<byte>, k: nat, lo: byte, hi: byte) {
    k < |s| && lo <= s[k] <= hi
  }

  // ---- what Utf8 accepts: exactly the encodings of sequences of Unicode scalar values ----

  type Scalar = c: int | 0 <= c <= 0x10_FFFF && !(0xD800 <= c <= 0xDFFF)

  // Six bits at a time from the low end, behind a lead byte that tells the length.
  function EncodeScalar(c: Scalar): (bs: seq<byte>)
    ensures bs != []
  {
    var c1 := c / 0x40;
    var c2 := c1 / 0x40;
    var c3 := c2 / 0x40;
    if c < 0x80 then [c]
    else if c < 0x800 then [0xC0 + c1, 0x80 + c % 0x40]
    else if c < 0x1_0000 then [0xE0 + c2, 0x80 + c1 % 0x40, 0x80 + c % 0x40]
    else [0xF0 + c3, 0x80 + c2 % 0x40, 0x80 + c1 % 0x40, 0x80 + c % 0x40]
  }

  function EncodeScalars(cs: seq<Scalar>): seq<byte> {
    if cs == [] then [] else EncodeScalar(cs[0]) + EncodeScalars(cs[1..])
  }

  lemma ScalarAccepted(c: Scalar, rest: seq<byte>)
    ensures ScalarLength(EncodeScalar(c) + rest) == |EncodeScalar(c)|
  {
    var bs := EncodeScalar(c);
    var s := bs + rest;
    if |bs| == 2 {
      assert s[0] == bs[0] && s[1] == bs[1];
    } else if |bs| == 3 {
      assert s[0] == bs[0] && s[1] == bs[1] && s[2] == bs[2];
    } else if |bs| == 4 {
      assert s[0] == bs[0] && s[1] == bs[1] && s[2] == bs[2] && s[3] == bs[3];
    }
  }

  lemma SixBits(hi: nat, lo: nat)
    requires lo < 0x40
    ensures (hi * 0x40 + lo) / 0x40 == hi && (hi * 0x40 + lo) % 0x40 == lo
  {
  }

  lemma ScalarFound(s: seq<byte>) returns (c: Scalar)
    requires s != [] && 0 < ScalarLength(s) <= |s|
    ensures EncodeScalar(c) == s[..ScalarLength(s)]
  {
    var n := ScalarLength(s);
    if n == 1 {
      c := s[0];
    } else if n == 2 {
      c := (s[0] as int - 0xC0) * 0x40 + (s[1] - 0x80);
    } else if n == 3 {
      c := ThreeBytes(s[0], s[1], s[2]);
    } else {
      c := FourBytes(s[0], s[1], s[2], s[3]);
    }
  }

  lemma ThreeBytes(b0: byte, b1: byte, b2: byte) returns (c: Scalar)
    requires 0xE0 <= b0 <= 0xEF && 0x80 <= b1 <= 0xBF && 0x80 <= b2 <= 0xBF
    requires (b0 == 0xE0 ==> 0xA0 <= b1) && (b0 == 0xED ==> b1 <= 0x9F)
    ensures EncodeScalar(c) == [b0, b1, b2]
  {
    var c2 := b0 as int - 0xE0;
    var c1 := c2 * 0x40 + (b1 - 0x80);
    SixBits(c2, b1 - 0x80);
    SixBits(c1, b2 - 0x80);
    c := c1 * 0x40 + (b2 - 0x80);
  }

  lemma FourBytes(b0: byte, b1: byte, b2: byte, b3: byte) returns (c: Scalar)
    requires 0xF0 <= b0 <= 0xF4 && 0x80 <= b1 <= 0xBF && 0x80 <= b2 <= 0xBF && 0x80 <= b3 <= 0xBF
    requires (b0 == 0xF0 ==> 0x90 <= b1) && (b0 == 0xF4 ==> b1 <= 0x8F)
    ensures EncodeScalar(c) == [b0, b1, b2, b3]
  {
    var c3 := b0 as int - 0xF0;
    var c2 := c3 * 0x40 + (b1 - 0x80);
    var c1 := c2 * 0x40 + (b2 - 0x80);
    SixBits(c3, b1 - 0x80);
    SixBits(c2, b2 - 0x80);
    SixBits(c1, b3 - 0x80);
    c := c1 * 0x40 + (b3 - 0x80);
  }

  lemma {:induction false} Utf8Decodes(s: seq<byte>) returns (cs: seq<Scalar>)
    requires Utf8(s)
    ensures EncodeScalars(cs) == s
  {
    if s == [] {
      cs := [];
    } else {
      var n := ScalarLength(s);
      var c := ScalarFound(s);
      var rest := Utf8Decodes(s[n..]);
      cs := [c] + rest;
      assert cs[1..] == rest;
      assert s == s[..n] + s[n..];
    }
  }

  lemma {:induction false} EncodedIsUtf8(cs: seq<Scalar>)
    ensures Utf8(EncodeScalars(cs))
  {
    if cs != [] {
      var bs, rest := EncodeScalar(cs[0]), EncodeScalars(cs[1..]);
      EncodedIsUtf8(cs[1..]);
      ScalarAccepted(cs[0], rest);
      assert (bs + rest)[|bs|..] == rest;
    }
  }

  lemma Utf8Meaning(s: seq<byte>)
    ensures Utf8(s) <==> exists cs: seq<Scalar> :: EncodeScalars(cs) == s
  {
    if Utf8(s) {
      var cs := Utf8Decodes(s);
    }
    forall cs: seq<Scalar> | EncodeScalars(cs) == s ensures Utf8(s) {
      EncodedIsUtf8(cs);
    }
  }

  // For instance: the euro sign, an overlong NUL and a surrogate.
  lemma Utf8Examples()
    ensures EncodeScalar(0x20AC) == [0xE2, 0x82, 0xAC]
    ensures Utf8([0xE2, 0x82, 0xAC]) && !Utf8([0xC0, 0x80]) && !Utf8([0xED, 0xA0, 0x80])
  {
    var euro: seq<byte> := [0xE2, 0x82, 0xAC];
    assert ScalarLength(euro) == 3 && euro[3..] == [];
    assert ScalarLength([0xC0, 0x80]) == 0 && ScalarLength([0xED, 0xA0, 0x80]) == 0;
  }

  lemma SliceOfSlice(data: seq<byte>, start: nat, end: nat, i: nat, j: nat)
    requires start <= end <= |data| && i <= j <= end - start
    ensures data[start..end][i..j] == data[start + i..start + j]
    ensures data[start..end][i..] == data[start + i..end]
  {
    var s := data[start..end];
    assert forall k :: i <= k < |s| ==> s[k] == data[start + k];
  }

  lemma DropTake(s: seq<byte>, i: nat, n: nat)
    requires i + n <= |s|
    ensures s[i..][..n] == s[i..i + n]
  {
    var t := s[i..];
    assert forall k :: 0 <= k < |t| ==> t[k] == s[i + k];
  }
}
