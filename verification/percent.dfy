/** Percent-encoding (section 2.1 of RFC 3986) as JavaScript's encodeURIComponent
    and decodeURIComponent perform it (section 19.2.6 of ECMA-262, "URI Handling
    Functions"): every character outside the unreserved set becomes the `%XX`
    escapes of its UTF-8 octets, and decoding reassembles those octets. */
module Percent {
  import opened Wrappers
  import opened Hex
  import Utf8

  /** decodeURIComponent's URIError: a malformed escape or invalid UTF-8. */
  datatype UriError = UriError

  predicate IsAlphaNum(c: char) {
    ('A' <= c <= 'Z') || ('a' <= c <= 'z') || ('0' <= c <= '9')
  }

  /** The characters encodeURIComponent leaves alone: letters, digits and the
      marks `- _ . ! ~ * ' ( )`. */
  predicate IsUnreserved(c: char) {
    IsAlphaNum(c) || c in "-_.!~*'()"
  }

  /** `%XX` for each octet, in order. */
  function EscapeBytes(bs: seq<Byte>): (r: string)
    ensures |r| == 3 * |bs|
    ensures forall i | 0 <= i < |r| :: r[i] == '%' || IsAlphaNum(r[i])
    ensures |bs| > 0 ==> r[0] == '%'
  {
    if |bs| == 0 then [] else "%" + ByteToHex(bs[0]) + EscapeBytes(bs[1..])
  }

  /** encodeURIComponent applied to one character. */
  function EncodeUriChar(c: char): (r: string)
    ensures IsUnreserved(c) ==> r == [c]
    ensures !IsUnreserved(c) ==> r == EscapeBytes(Utf8.EncodeChar(c))
    ensures r == [c] <==> IsUnreserved(c)
    ensures forall i | 0 <= i < |r| :: r[i] == '%' || IsUnreserved(r[i])
    ensures |r| == 1 || (3 <= |r| <= 12 && |r| % 3 == 0 && r[0] == '%')
  {
    if IsUnreserved(c) then [c] else EscapeBytes(Utf8.EncodeChar(c))
  }

  /** encodeURIComponent: the output holds only unreserved characters and
      `%`, and the only non-alphanumeric unreserved characters in it are
      ones the input already held. */
  function EncodeUriComponent(s: string): (r: string)
    ensures forall i | 0 <= i < |r| :: r[i] == '%' || IsUnreserved(r[i])
    ensures forall i | 0 <= i < |r| :: r[i] == '%' || IsAlphaNum(r[i]) || r[i] in s
    ensures |r| >= |s|
  {
    if |s| == 0 then [] else EncodeUriChar(s[0]) + EncodeUriComponent(s[1..])
  }

  /** Reads consecutive `%XX` escapes covering all of `e`. */
  function ParseEscapes(e: string): (r: Option<seq<Byte>>)
    ensures r.Some? ==> 3 * |r.value| == |e|
    decreases |e|
  {
    if |e| == 0 then Some([])
    else if |e| < 3 || e[0] != '%' then None
    else
      var b :- ParseHexOctet(e[1], e[2]);
      var rest :- ParseEscapes(e[3..]);
      Some([b] + rest)
  }

  /** Decodes the first character of `s`: a literal character, or the
      escapes that start with the `%` at its head. Yields the character and
      the number of input characters it used up. */
  function DecodeToken(s: string): (r: Result<(char, nat), UriError>)
    requires |s| > 0
    ensures r.Success? ==> 1 <= r.value.1 <= |s|
    ensures s[0] != '%' ==> r == Success((s[0], 1))
  {
    if s[0] != '%' then Success((s[0], 1)) else DecodeEscape(s)
  }

  /** Decodes one `%XX` escape of an ASCII octet, or the two to four escapes
      of a multi-octet UTF-8 sequence. Fails on a `%` without two
      hexadecimal digits after it, on a lead octet that is a continuation
      octet or announces more than four octets, on too few escapes, and on
      invalid UTF-8. */
  function DecodeEscape(s: string): (r: Result<(char, nat), UriError>)
    requires |s| > 0 && s[0] == '%'
    ensures r.Success? ==> 3 <= r.value.1 <= |s| && r.value.1 % 3 == 0
    ensures r.Success? && r.value.1 == 3 ==> r.value.0 as int < 0x80
  {
    if |s| < 3 then Failure(UriError)
    else match ParseHexOctet(s[1], s[2])
      case None => Failure(UriError)
      case Some(b) =>
        if b < 0x80 then Success((b as char, 3))
        else
          var n := Utf8.LeadingOnes(b);
          if n == 1 || n > 4 || |s| < 3 * n then Failure(UriError)
          else match ParseEscapes(s[..3 * n])
            case None => Failure(UriError)
            case Some(bs) =>
              match Utf8.DecodeSequence(bs)
              case None => Failure(UriError)
              case Some(c) => Success((c, 3 * n))
  }

  /** decodeURIComponent: decodes left to right, one token at a time. */
  function DecodeUriComponent(s: string): (r: Result<string, UriError>)
    ensures r.Success? ==> |r.value| <= |s|
    decreases |s|
  {
    if |s| == 0 then Success([])
    else
      var t := DecodeToken(s);
      if t.Failure? then Failure(t.error)
      else
        var rest := DecodeUriComponent(s[t.value.1..]);
        if rest.Failure? then rest
        else Success([t.value.0] + rest.value)
  }

  /** Concatenation of two decode outcomes: the first failure wins. */
  function Then(x: Result<string, UriError>, y: Result<string, UriError>): Result<string, UriError> {
    if x.Failure? then x else if y.Failure? then y else Success(x.value + y.value)
  }

  // ---------------------------------------------------------------------
  // Properties of the encoder

  lemma {:induction false} EncodeUriComponentAppend(a: string, b: string)
    ensures EncodeUriComponent(a + b) == EncodeUriComponent(a) + EncodeUriComponent(b)
    decreases |a|
  {
    if |a| == 0 {
      assert a + b == b;
    } else {
      assert (a + b)[0] == a[0];
      assert (a + b)[1..] == a[1..] + b;
      EncodeUriComponentAppend(a[1..], b);
    }
  }

  /** Text made of unreserved characters only is left as it is. */
  lemma {:induction false} EncodeUnreservedText(s: string)
    requires forall i | 0 <= i < |s| :: IsUnreserved(s[i])
    ensures EncodeUriComponent(s) == s
    decreases |s|
  {
    if |s| > 0 {
      assert IsUnreserved(s[0]);
      EncodeUnreservedText(s[1..]);
      assert [s[0]] + s[1..] == s;
    }
  }

  lemma {:induction false} ParseEscapeBytes(bs: seq<Byte>)
    ensures ParseEscapes(EscapeBytes(bs)) == Some(bs)
    decreases |bs|
  {
    if |bs| > 0 {
      var e := EscapeBytes(bs);
      ParseByteToHex(bs[0]);
      assert e[3..] == EscapeBytes(bs[1..]);
      ParseEscapeBytes(bs[1..]);
      assert [bs[0]] + bs[1..] == bs;
    }
  }

  /** The `%XX` escapes of a character's UTF-8 octets decode to that
      character and read nothing beyond them. */
  lemma DecodeTokenEscapeChar(c: char, t: string)
    ensures DecodeToken(EscapeBytes(Utf8.EncodeChar(c)) + t)
         == Success((c, |EscapeBytes(Utf8.EncodeChar(c))|))
  {
    var bs := Utf8.EncodeChar(c);
    var e := EscapeBytes(bs);
    var s := e + t;
    assert e == "%" + ByteToHex(bs[0]) + EscapeBytes(bs[1..]);
    ParseByteToHex(bs[0]);
    assert s[1] == ByteToHex(bs[0])[0] && s[2] == ByteToHex(bs[0])[1];
    if |bs| > 1 {
      Utf8.DecodeEncodeChar(c);
      assert s[..3 * |bs|] == e;
      ParseEscapeBytes(bs);
    }
  }

  /** One character's encoding decodes to that character and nothing more. */
  lemma DecodeTokenEncodeUriChar(c: char, t: string)
    ensures DecodeToken(EncodeUriChar(c) + t) == Success((c, |EncodeUriChar(c)|))
  {
    if !IsUnreserved(c) {
      DecodeTokenEscapeChar(c, t);
    }
  }

  /** Escaping a character, reserved or not, is undone by decoding. */
  lemma DecodeEscapeChar(c: char)
    ensures DecodeUriComponent(EscapeBytes(Utf8.EncodeChar(c))) == Success([c])
  {
    var e := EscapeBytes(Utf8.EncodeChar(c));
    DecodeTokenEscapeChar(c, "");
    assert e + "" == e;
    DecodeStep(e);
    assert e[|e|..] == "";
    assert [c] + "" == [c];
  }

  // ---------------------------------------------------------------------
  // Properties of the decoder

  /** A token that decodes reads nothing beyond its own characters. */
  lemma DecodeTokenPrefix(s: string, t: string)
    requires |s| > 0 && DecodeToken(s).Success?
    ensures DecodeToken(s + t) == DecodeToken(s)
  {
    var st := s + t;
    assert st[0] == s[0];
    if s[0] == '%' {
      assert st[1] == s[1] && st[2] == s[2];
      var b := ParseHexOctet(s[1], s[2]).value;
      if b >= 0x80 {
        var n := Utf8.LeadingOnes(b);
        assert st[..3 * n] == s[..3 * n];
      }
    }
  }

  lemma ThenAssoc(x: Result<string, UriError>, y: Result<string, UriError>, z: Result<string, UriError>)
    ensures Then(Then(x, y), z) == Then(x, Then(y, z))
  {
    if x.Success? && y.Success? && z.Success? {
      assert (x.value + y.value) + z.value == x.value + (y.value + z.value);
    }
  }

  lemma SliceAppend(a: string, b: string, n: nat)
    requires n <= |a|
    ensures (a + b)[n..] == a[n..] + b
  {
  }

  /** One decoding step: the first token, then the rest. */
  lemma DecodeStep(s: string)
    requires |s| > 0 && DecodeToken(s).Success?
    ensures DecodeUriComponent(s)
         == Then(Success([DecodeToken(s).value.0]), DecodeUriComponent(s[DecodeToken(s).value.1..]))
  {
  }

  /** Decoding distributes over a concatenation whose left part decodes on
      its own: no escape straddles the boundary. */
  lemma {:induction false} DecodeAppend(a: string, b: string)
    requires DecodeUriComponent(a).Success?
    ensures DecodeUriComponent(a + b) == Then(DecodeUriComponent(a), DecodeUriComponent(b))
    decreases |a|
  {
    if |a| == 0 {
      assert a + b == b;
      if DecodeUriComponent(b).Success? {
        assert [] + DecodeUriComponent(b).value == DecodeUriComponent(b).value;
      }
    } else {
      var ab := a + b;
      var (c, n) := DecodeToken(a).value;
      DecodeTokenPrefix(a, b);
      DecodeStep(a);
      DecodeStep(ab);
      SliceAppend(a, b, n);
      DecodeAppend(a[n..], b);
      ThenAssoc(Success([c]), DecodeUriComponent(a[n..]), DecodeUriComponent(b));
    }
  }

  /** decodeURIComponent undoes encodeURIComponent on every string. */
  lemma {:induction false} DecodeEncodeUriComponent(s: string)
    ensures DecodeUriComponent(EncodeUriComponent(s)) == Success(s)
    decreases |s|
  {
    if |s| > 0 {
      var e := EncodeUriChar(s[0]);
      var rest := EncodeUriComponent(s[1..]);
      DecodeTokenEncodeUriChar(s[0], rest);
      assert (e + rest)[|e|..] == rest;
      DecodeEncodeUriComponent(s[1..]);
      assert [s[0]] + s[1..] == s;
    }
  }

  /** Text without a `%` decodes to itself. */
  lemma {:induction false} DecodeWithoutEscapes(s: string)
    requires '%' !in s
    ensures DecodeUriComponent(s) == Success(s)
    decreases |s|
  {
    if |s| > 0 {
      assert s[0] != '%' && '%' !in s[1..];
      DecodeWithoutEscapes(s[1..]);
      assert [s[0]] + s[1..] == s;
    }
  }

  /** A `%` not followed by two hexadecimal digits makes the whole decode
      fail, wherever it appears after a well-formed prefix. */
  lemma BadEscapeFails(a: string, b: string)
    requires DecodeUriComponent(a).Success?
    requires |b| < 2 || !IsHexDigit(b[0]) || !IsHexDigit(b[1])
    ensures DecodeUriComponent(a + "%" + b).Failure?
  {
    var t := "%" + b;
    assert a + "%" + b == a + t;
    DecodeAppend(a, t);
    if |t| >= 3 {
      assert t[1] == b[0] && t[2] == b[1];
    }
    assert DecodeToken(t).Failure?;
  }

  /** Re-encoding the result of a successful decode and decoding again
      gives the same result. */
  lemma DecodeIsStable(s: string)
    requires DecodeUriComponent(s).Success?
    ensures DecodeUriComponent(EncodeUriComponent(DecodeUriComponent(s).value)) == DecodeUriComponent(s)
  {
    DecodeEncodeUriComponent(DecodeUriComponent(s).value);
  }
}
