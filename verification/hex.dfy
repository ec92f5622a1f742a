/** Octets and their two-digit hexadecimal spelling, as used by percent-encoding. */
module Hex {
  import opened Wrappers

  /** An octet, the unit that UTF-8 and percent-encoding work in. */
  type Byte = b: int | 0 <= b < 256

  predicate IsHexDigit(c: char) {
    ('0' <= c <= '9') || ('A' <= c <= 'F') || ('a' <= c <= 'f')
  }

  /** The value of one hexadecimal digit; both letter cases are accepted. */
  function HexValue(c: char): (r: Option<int>)
    ensures r.Some? <==> IsHexDigit(c)
    ensures r.Some? ==> 0 <= r.value < 16
  {
    if '0' <= c <= '9' then Some(c as int - '0' as int)
    else if 'A' <= c <= 'F' then Some(c as int - 'A' as int + 10)
    else if 'a' <= c <= 'f' then Some(c as int - 'a' as int + 10)
    else None
  }

  /** The upper-case digit for a value below 16, the spelling encodeURIComponent emits. */
  function UpperDigit(d: int): (c: char)
    requires 0 <= d < 16
    ensures IsHexDigit(c) && HexValue(c) == Some(d)
    ensures !('a' <= c <= 'z')
  {
    if d < 10 then ('0' as int + d) as char else ('A' as int + d - 10) as char
  }

  /** The lower-case digit for a value below 16, the spelling JSON.stringify emits in `\u` escapes. */
  function LowerDigit(d: int): (c: char)
    requires 0 <= d < 16
    ensures IsHexDigit(c) && HexValue(c) == Some(d)
    ensures !('A' <= c <= 'Z')
  {
    if d < 10 then ('0' as int + d) as char else ('a' as int + d - 10) as char
  }

  /** Two upper-case hexadecimal digits, high nibble first. */
  function ByteToHex(b: Byte): (r: string)
    ensures |r| == 2 && IsHexDigit(r[0]) && IsHexDigit(r[1])
  {
    [UpperDigit(b / 16), UpperDigit(b % 16)]
  }

  /** Reads two hexadecimal digits as one octet; `None` when either is not a digit. */
  function ParseHexOctet(hi: char, lo: char): (r: Option<Byte>)
    ensures r.Some? <==> IsHexDigit(hi) && IsHexDigit(lo)
  {
    match (HexValue(hi), HexValue(lo))
    case (Some(h), Some(l)) => Some(h * 16 + l)
    case _ => None
  }

  /** Parsing undoes spelling. */
  lemma ParseByteToHex(b: Byte)
    ensures ParseHexOctet(ByteToHex(b)[0], ByteToHex(b)[1]) == Some(b)
  {
  }
}
