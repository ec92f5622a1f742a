/** UTF-8 (RFC 3629) for single Unicode scalar values: the octets that
    encodeURIComponent percent-escapes and that decodeURIComponent reassembles. */
module Utf8 {
  import opened Wrappers
  import opened Hex

  predicate IsContinuation(b: Byte) {
    0x80 <= b < 0xC0
  }

  /** The number of leading one bits of an octet; for a lead octet it is the
      length of the sequence it starts (0 means a one-octet ASCII sequence). */
  function LeadingOnes(b: Byte): (n: nat)
    ensures n <= 8
    ensures n == 0 <==> b < 0x80
  {
    if b < 0x80 then 0
    else if b < 0xC0 then 1
    else if b < 0xE0 then 2
    else if b < 0xF0 then 3
    else if b < 0xF8 then 4
    else if b < 0xFC then 5
    else if b < 0xFE then 6
    else if b < 0xFF then 7
    else 8
  }

  /** The shortest UTF-8 encoding of one scalar value. */
  function EncodeChar(c: char): (bs: seq<Byte>)
    ensures 1 <= |bs| <= 4
    ensures |bs| == 1 <==> c as int < 0x80
    ensures |bs| == 1 ==> bs[0] == c as int
    ensures |bs| > 1 ==> LeadingOnes(bs[0]) == |bs|
    ensures forall i | 1 <= i < |bs| :: IsContinuation(bs[i])
  {
    var cp := c as int;
    if cp < 0x80 then [cp]
    else if cp < 0x800 then
      [0xC0 + cp / 64, 0x80 + cp % 64]
    else if cp < 0x10000 then
      [0xE0 + (cp / 64) / 64, 0x80 + (cp / 64) % 64, 0x80 + cp % 64]
    else
      [0xF0 + ((cp / 64) / 64) / 64, 0x80 + ((cp / 64) / 64) % 64,
       0x80 + (cp / 64) % 64, 0x80 + cp % 64]
  }

  /** Appends the six payload bits of a continuation octet. */
  function Accumulate(acc: int, b: Byte): int {
    acc * 64 + (b - 0x80)
  }

  /** Decodes a multi-octet sequence whose length the lead octet announces;
      `None` when a continuation octet is malformed, the encoding is overlong,
      or the value is a surrogate or beyond U+10FFFF. */
  function DecodeSequence(bs: seq<Byte>): (r: Option<char>)
    requires 2 <= |bs| <= 4 && LeadingOnes(bs[0]) == |bs|
    ensures r.Some? ==> forall i | 1 <= i < |bs| :: IsContinuation(bs[i])
  {
    if exists i | 1 <= i < |bs| :: !IsContinuation(bs[i]) then None
    else if |bs| == 2 then
      var cp := Accumulate(bs[0] - 0xC0, bs[1]);
      if cp < 0x80 then None else Some(cp as char)
    else if |bs| == 3 then
      var cp := Accumulate(Accumulate(bs[0] - 0xE0, bs[1]), bs[2]);
      if cp < 0x800 || (0xD800 <= cp < 0xE000) then None else Some(cp as char)
    else
      var cp := Accumulate(Accumulate(Accumulate(bs[0] - 0xF0, bs[1]), bs[2]), bs[3]);
      if cp < 0x10000 || cp >= 0x110000 then None else Some(cp as char)
  }

  /** Decoding a multi-octet encoding gives back the scalar value. */
  lemma DecodeEncodeChar(c: char)
    requires c as int >= 0x80
    ensures DecodeSequence(EncodeChar(c)) == Some(c)
  {
    var cp := c as int;
    var q1, r0 := cp / 64, cp % 64;
    assert cp == q1 * 64 + r0;
    if cp < 0x800 {
      assert Accumulate(EncodeChar(c)[0] - 0xC0, EncodeChar(c)[1]) == cp;
    } else if cp < 0x10000 {
      var q2, r1 := q1 / 64, q1 % 64;
      assert q1 == q2 * 64 + r1;
      var bs := EncodeChar(c);
      assert Accumulate(bs[0] - 0xE0, bs[1]) == q1;
      assert Accumulate(Accumulate(bs[0] - 0xE0, bs[1]), bs[2]) == cp;
    } else {
      var q2, r1 := q1 / 64, q1 % 64;
      var q3, r2 := q2 / 64, q2 % 64;
      assert q1 == q2 * 64 + r1;
      assert q2 == q3 * 64 + r2;
      var bs := EncodeChar(c);
      assert Accumulate(bs[0] - 0xF0, bs[1]) == q2;
      assert Accumulate(Accumulate(bs[0] - 0xF0, bs[1]), bs[2]) == q1;
      assert Accumulate(Accumulate(Accumulate(bs[0] - 0xF0, bs[1]), bs[2]), bs[3]) == cp;
    }
  }

  /** A sequence that decodes is the encoding of what it decodes to: the
      decoder accepts exactly the shortest forms. */
  lemma EncodeDecodeSequence(bs: seq<Byte>)
    requires 2 <= |bs| <= 4 && LeadingOnes(bs[0]) == |bs|
    requires DecodeSequence(bs).Some?
    ensures EncodeChar(DecodeSequence(bs).value) == bs
  {
    var c := DecodeSequence(bs).value;
    var cp := c as int;
    if |bs| == 2 {
      assert cp == (bs[0] as int - 0xC0) * 64 + (bs[1] as int - 0x80);
      assert cp / 64 == bs[0] - 0xC0 && cp % 64 == bs[1] - 0x80;
    } else if |bs| == 3 {
      var q1: int := (bs[0] as int - 0xE0) * 64 + (bs[1] as int - 0x80);
      assert cp == q1 * 64 + (bs[2] as int - 0x80);
      assert cp / 64 == q1 && cp % 64 == bs[2] - 0x80;
      assert q1 / 64 == bs[0] - 0xE0 && q1 % 64 == bs[1] - 0x80;
    } else {
      var q2: int := (bs[0] as int - 0xF0) * 64 + (bs[1] as int - 0x80);
      var q1: int := q2 * 64 + (bs[2] as int - 0x80);
      assert cp == q1 * 64 + (bs[3] as int - 0x80);
      assert cp / 64 == q1 && cp % 64 == bs[3] - 0x80;
      assert q1 / 64 == q2 && q1 % 64 == bs[2] - 0x80;
      assert q2 / 64 == bs[0] - 0xF0 && q2 % 64 == bs[1] - 0x80;
    }
  }
}
