/** The codec's round trip: decoding the encoding of an object with plain
    keys and supported values gives JSON.stringify's text of the object, with
    dates as their ISO strings and BigInts as numbers. */
module RoundTrip {
  import opened Wrappers
  import opened Text
  import opened Hex
  import opened Percent
  import opened Substitution
  import opened Json
  import opened Values
  import opened Codec
  import Utf8

  /** What the decoder does to a piece of its input before the outer braces:
      substitute, then percent-decode. */
  function DecodeFragment(t: string): Result<string, UriError> {
    DecodeUriComponent(Substitute(t))
  }

  // ---------------------------------------------------------------------
  // The decoder, piece by piece

  /** decodeJsonParamsAsString is the fragment decoding of the whole input
      inside `{"` and `}`, and fails exactly when that fails. */
  lemma DecodeAsStringShape(s: string)
    ensures DecodeAsString(s).Success? <==> DecodeFragment(s).Success?
    ensures DecodeAsString(s).Success? ==> DecodeAsString(s).value == "{\"" + DecodeFragment(s).value + "}"
  {
  }

  /** Input without `%` always decodes: the substituted text, wrapped. */
  lemma DecodeWithoutPercent(s: string)
    requires '%' !in s
    ensures DecodeAsString(s) == Success("{\"" + Substitute(s) + "}")
  {
    SubstituteChars(s);
    assert '%' !in Substitute(s);
    DecodeWithoutEscapes(Substitute(s));
  }

  /** The empty input decodes to `{"}`. */
  lemma DecodeEmpty()
    ensures DecodeAsString("") == Success("{\"}")
  {
    DecodeWithoutPercent("");
    assert Substitute("") == "";
    assert "{\"" + "" + "}" == "{\"}";
  }

  /** A `%` without two hexadecimal digits after it makes decoding fail,
      wherever it follows a prefix that decodes. */
  lemma DecodeFailsOnBadEscape(a: string, b: string)
    requires DecodeAsString(a).Success?
    requires |b| < 2 || !IsHexDigit(b[0]) || !IsHexDigit(b[1])
    ensures DecodeAsString(a + "%" + b).Failure?
  {
    SubstituteAppend(a + "%", b);
    SubstituteAppend(a, "%");
    SubstituteTable('%');
    var sb := Substitute(b);
    BadEscapeSurvives(b);
    BadEscapeFails(Substitute(a), sb);
  }

  lemma SubstituteAppendHead(b: string)
    requires |b| > 0
    ensures Substitute(b) == Substitute([b[0]]) + Substitute(b[1..])
  {
    assert b == [b[0]] + b[1..];
    SubstituteAppend([b[0]], b[1..]);
  }

  /** The first character after substitution is a hexadecimal digit only
      when it is the input's own first character, copied. */
  lemma SubstituteHead(b: string)
    requires |b| > 0
    ensures Substitute(b) == Substitute([b[0]]) + Substitute(b[1..])
    ensures IsHexDigit(b[0]) ==> Substitute([b[0]]) == [b[0]]
    ensures !IsHexDigit(b[0]) ==> !IsHexDigit(Substitute(b)[0])
  {
    SubstituteAppendHead(b);
    SubstituteCharHead(b[0]);
    HeadOfAppend(Substitute([b[0]]), Substitute(b[1..]));
  }

  lemma HeadOfAppend(x: string, y: string)
    requires |x| > 0
    ensures (x + y)[0] == x[0]
  {
  }

  /** A single character's replacement is itself or starts with JSON punctuation. */
  lemma SubstituteCharHead(c: char)
    ensures |Substitute([c])| > 0
    ensures IsHexDigit(c) ==> Substitute([c]) == [c]
    ensures var h := Substitute([c])[0]; h == c || h == '"' || h == '[' || h == ']' || h == ','

  {
    SubstituteTable(c);
  }

  /** Substitution turns no malformed escape into a well-formed one: hex
      digits are copied, and every replacement starts with a non-digit. */
  lemma BadEscapeSurvives(b: string)
    requires |b| < 2 || !IsHexDigit(b[0]) || !IsHexDigit(b[1])
    ensures var sb := Substitute(b); |sb| < 2 || !IsHexDigit(sb[0]) || !IsHexDigit(sb[1])
  {
    if |b| >= 1 {
      SubstituteHead(b);
      if IsHexDigit(b[0]) {
        if |b| == 1 {
          assert Substitute(b[1..]) == "";
        } else {
          SubstituteHead(b[1..]);
        }
      }
    }
  }

  lemma FragmentAppend(a: string, b: string)
    requires DecodeFragment(a).Success?
    ensures DecodeFragment(a + b) == Then(DecodeFragment(a), DecodeFragment(b))
  {
    SubstituteAppend(a, b);
    DecodeAppend(Substitute(a), Substitute(b));
  }

  /** Text with neither structural characters nor `%` decodes to itself. */
  lemma FragmentPlain(t: string)
    requires NoStructural(t) && '%' !in t
    ensures DecodeFragment(t) == Success(t)
  {
    SubstitutePlain(t);
    DecodeWithoutEscapes(t);
  }

  /** A fragment between two pieces that contain no `%`. */
  lemma FragmentWrap(open: string, body: string, close: string)
    requires '%' !in Substitute(open) && '%' !in Substitute(close)
    requires DecodeFragment(body).Success?
    ensures DecodeFragment(open + body + close)
         == Success(Substitute(open) + DecodeFragment(body).value + Substitute(close))
  {
    DecodeWithoutEscapes(Substitute(open));
    DecodeWithoutEscapes(Substitute(close));
    FragmentAppend(open, body);
    FragmentAppend(open + body, close);
  }

  /** Joined fragments decode to the joined decodings. */
  lemma {:induction false} FragmentJoin(xs: seq<string>, ys: seq<string>, sep: string, sepDecoded: string)
    requires |xs| == |ys|
    requires forall i | 0 <= i < |xs| :: DecodeFragment(xs[i]) == Success(ys[i])
    requires DecodeFragment(sep) == Success(sepDecoded)
    ensures DecodeFragment(Join(xs, sep)) == Success(Join(ys, sepDecoded))
    decreases |xs|
  {
    if |xs| == 0 {
      FragmentPlain("");
    } else if |xs| > 1 {
      FragmentJoin(xs[1..], ys[1..], sep, sepDecoded);
      FragmentAppend(xs[0], sep);
      FragmentAppend(xs[0] + sep, Join(xs[1..], sep));
    }
  }

  // ---------------------------------------------------------------------
  // String payloads

  lemma ReplaceAllAbsent(s: string, target: char, rep: string)
    requires target !in s
    ensures ReplaceAll(s, target, rep) == s
  {
    if |s| > 0 {
      assert target !in s[1..];
      ReplaceAllAbsent(s[1..], target, rep);
      assert [s[0]] + s[1..] == s;
    }
  }

  lemma StringPayloadAppend(a: string, b: string)
    ensures EncodeStringPayload(a + b) == EncodeStringPayload(a) + EncodeStringPayload(b)
  {
    EncodeUriComponentAppend(a, b);
    var a0, b0 := EncodeUriComponent(a), EncodeUriComponent(b);
    ReplaceAllAppend(a0, b0, '\'', "%27");
    var a1, b1 := ReplaceAll(a0, '\'', "%27"), ReplaceAll(b0, '\'', "%27");
    ReplaceAllAppend(a1, b1, '(', "%28");
    var a2, b2 := ReplaceAll(a1, '(', "%28"), ReplaceAll(b1, '(', "%28");
    ReplaceAllAppend(a2, b2, ')', "%29");
  }

  lemma EncodeUriComponentSingle(c: char)
    ensures EncodeUriComponent([c]) == EncodeUriChar(c)
  {
    assert [c][1..] == "";
    assert EncodeUriChar(c) + "" == EncodeUriChar(c);
  }

  /** The three marks that encodeURIComponent leaves alone but the string
      payload escapes. */
  predicate IsMark(c: char) {
    c == '\'' || c == '(' || c == ')'
  }

  function MarkEscape(c: char): string
    requires IsMark(c)
  {
    if c == '\'' then "%27" else if c == '(' then "%28" else "%29"
  }

  /** The payload escapes of a mark are its UTF-8 escapes. */
  lemma MarkEscapeIsUtf8(c: char)
    requires IsMark(c)
    ensures EscapeBytes(Utf8.EncodeChar(c)) == MarkEscape(c)
  {
    var bs := Utf8.EncodeChar(c);
    assert bs == [c as int];
    assert EscapeBytes(bs) == "%" + ByteToHex(c as int) + EscapeBytes([]);
  }

  lemma PayloadMark(c: char)
    requires IsMark(c)
    ensures EncodeStringPayload([c]) == MarkEscape(c)
  {
    EncodeUriComponentSingle(c);
    var e := MarkEscape(c);
    if c == '\'' {
      ReplaceAllSingle(c, '\'', e);
      ReplaceAllAbsent(e, '(', "%28");
      ReplaceAllAbsent(e, ')', "%29");
    } else if c == '(' {
      ReplaceAllSingle(c, '\'', "%27");
      ReplaceAllSingle(c, '(', e);
      ReplaceAllAbsent(e, ')', "%29");
    } else {
      ReplaceAllSingle(c, '\'', "%27");
      ReplaceAllSingle(c, '(', "%28");
      ReplaceAllSingle(c, ')', e);
    }
  }

  lemma PayloadOther(c: char)
    requires !IsMark(c)
    ensures EncodeStringPayload([c]) == EncodeUriChar(c)
  {
    EncodeUriComponentSingle(c);
    var e := EncodeUriChar(c);
    assert '\'' !in e && '(' !in e && ')' !in e by {
      if !IsUnreserved(c) {
        assert forall i | 0 <= i < |e| :: e[i] == '%' || IsAlphaNum(e[i]);
      }
    }
    ReplaceAllAbsent(e, '\'', "%27");
    ReplaceAllAbsent(e, '(', "%28");
    ReplaceAllAbsent(e, ')', "%29");
  }

  lemma DecodeStringPayloadChar(c: char)
    ensures DecodeUriComponent(EncodeStringPayload([c])) == Success([c])
  {
    if IsMark(c) {
      PayloadMark(c);
      MarkEscapeIsUtf8(c);
      DecodeEscapeChar(c);
    } else {
      PayloadOther(c);
      EncodeUriComponentSingle(c);
      DecodeEncodeUriComponent([c]);
    }
  }

  /** Percent-decoding a string's payload gives the string back. */
  lemma {:induction false} DecodeStringPayload(s: string)
    ensures DecodeUriComponent(EncodeStringPayload(s)) == Success(s)
    decreases |s|
  {
    if |s| == 0 {
      assert EncodeUriComponent(s) == "";
      assert EncodeStringPayload(s) == "";
    } else {
      var head, tail := EncodeStringPayload([s[0]]), EncodeStringPayload(s[1..]);
      assert s == [s[0]] + s[1..];
      StringPayloadAppend([s[0]], s[1..]);
      DecodeStringPayloadChar(s[0]);
      DecodeStringPayload(s[1..]);
      DecodeAppend(head, tail);
    }
  }

  /** An alphanumeric string is its own payload. */
  lemma {:induction false} AlphaNumPayload(s: string)
    requires forall i | 0 <= i < |s| :: IsAlphaNum(s[i])
    ensures EncodeStringPayload(s) == s
    decreases |s|
  {
    if |s| > 0 {
      assert s == [s[0]] + s[1..];
      assert IsAlphaNum(s[0]) && !IsMark(s[0]);
      StringPayloadAppend([s[0]], s[1..]);
      PayloadOther(s[0]);
      AlphaNumPayload(s[1..]);
    } else {
      assert EncodeUriComponent(s) == "";
    }
  }

  /** A comma is escaped as `%2C`. */
  lemma CommaEscape()
    ensures EscapeBytes(Utf8.EncodeChar(',')) == "%2C"
    ensures EncodeUriChar(',') == "%2C"
  {
    assert Utf8.EncodeChar(',') == [0x2C];
    assert EscapeBytes([0x2C]) == "%" + ByteToHex(0x2C) + EscapeBytes([]);
  }

  /** A string's payload holds none of `'`, `(`, `)`, `=`, `&` or `,`. */
  lemma StringPayloadClean(s: string)
    ensures NoStructural(EncodeStringPayload(s))
    ensures ',' !in EncodeStringPayload(s)
  {
    var p := EncodeStringPayload(s);
    forall i | 0 <= i < |p| ensures !IsStructural(p[i]) && p[i] != ',' {
      assert p[i] == '%' || (IsUnreserved(p[i]) && p[i] !in "'()");
    }
  }

  // ---------------------------------------------------------------------
  // Values and objects

  lemma PlainText(t: string)
    requires forall i | 0 <= i < |t| :: IsDigit(t[i]) || 'a' <= t[i] <= 'z' || t[i] == '-'
    ensures DecodeFragment(t) == Success(t)
  {
    FragmentPlain(t);
  }

  /** A quoted payload decodes to the JSON string literal of what the
      payload percent-decodes to. */
  lemma QuotedFragment(p: string, text: string)
    requires NoStructural(p) && DecodeUriComponent(p) == Success(text)
    ensures DecodeFragment("'" + p + "'") == Success("\"" + text + "\"")
    ensures JsonSafe(text) ==> DecodeFragment("'" + p + "'") == Success(Quote(text))
  {
    SubstitutePlain(p);
    SubstituteTable('\'');
    FragmentWrap("'", p, "'");
    if JsonSafe(text) {
      QuoteSafe(text);
    }
  }

  /** Any string comes back between double quotes, verbatim: the decoder
      adds no JSON escapes, so the result is the string's JSON literal only
      when the string needs none. */
  lemma StringRoundTrip(s: string)
    ensures DecodeFragment("'" + EncodeStringPayload(s) + "'") == Success("\"" + s + "\"")
    ensures JsonSafe(s) ==> DecodeFragment("'" + EncodeStringPayload(s) + "'") == Success(Quote(s))
  {
    StringPayloadClean(s);
    DecodeStringPayload(s);
    QuotedFragment(EncodeStringPayload(s), s);
  }

  /** Why strings must be JSON-safe: a string holding a character JSON
      escapes does not come back as its JSON literal. */
  lemma UnsafeStringBreaksRoundTrip(s: string)
    requires !JsonSafe(s)
    ensures EncodeValue(Str(s)).Success?
    ensures DecodeFragment(EncodeValue(Str(s)).value).Success?
    ensures DecodeFragment(EncodeValue(Str(s)).value).value != Serialize(Lossy(Str(s)))
  {
    var e := EncodeValue(Str(s)).value;
    assert e == "'" + EncodeStringPayload(s) + "'";
    StringRoundTrip(s);
    assert Serialize(Lossy(Str(s))) == Quote(s);
    EscapeLength(s);
    assert |Quote(s)| > |s| + 2;
  }

  lemma NoStructuralConcat(a: string, b: string)
    requires NoStructural(a) && NoStructural(b)
    ensures NoStructural(a + b)
  {
    forall i | 0 <= i < |a + b| ensures !IsStructural((a + b)[i]) {
      if i < |a| {
        assert (a + b)[i] == a[i];
      } else {
        assert (a + b)[i] == b[i - |a|];
      }
    }
  }

  /** encodeURIComponent of a timestamp holds no structural character:
      digits, `-`, `.`, `T` and `Z` are kept, `+` and `:` are escaped. */
  lemma {:induction false} IsoEncodingClean(iso: string)
    requires forall i | 0 <= i < |iso| :: IsIsoChar(iso[i])
    ensures NoStructural(EncodeUriComponent(iso))
    decreases |iso|
  {
    if |iso| > 0 {
      IsoEncodingClean(iso[1..]);
      IsoCharEncodingClean(iso[0]);
      NoStructuralConcat(EncodeUriChar(iso[0]), EncodeUriComponent(iso[1..]));
    }
  }

  lemma IsoCharEncodingClean(c: char)
    requires IsIsoChar(c)
    ensures NoStructural(EncodeUriChar(c))
  {
  }

  lemma DateRoundTrip(iso: string)
    requires forall i | 0 <= i < |iso| :: IsIsoChar(iso[i])
    ensures DecodeFragment("'" + EncodeUriComponent(iso) + "'") == Success(Quote(iso))
  {
    var p := EncodeUriComponent(iso);
    IsoEncodingClean(iso);
    DecodeEncodeUriComponent(iso);
    IsoTextSafe(iso);
    QuotedFragment(p, iso);
  }

  /** The element separator `%2C` decodes to a comma. */
  lemma CommaFragment()
    ensures DecodeFragment("%2C") == Success(",")
  {
    SubstitutePlain("%2C");
    CommaEscape();
    DecodeEscapeChar(',');
  }

  /** Encoded elements between parentheses decode to their decodings
      between brackets, separated by commas. */
  lemma ArrayFragment(parts: seq<string>, texts: seq<string>)
    requires |parts| == |texts|
    requires forall i | 0 <= i < |parts| :: DecodeFragment(parts[i]) == Success(texts[i])
    ensures DecodeFragment("(" + Join(parts, "%2C") + ")") == Success("[" + Join(texts, ",") + "]")
  {
    CommaFragment();
    FragmentJoin(parts, texts, "%2C", ",");
    SubstituteTable('(');
    SubstituteTable(')');
    FragmentWrap("(", Join(parts, "%2C"), ")");
  }

  lemma StrValueRoundTrip(s: string)
    requires JsonSafe(s)
    ensures DecodeFragment(EncodeValue(Str(s)).value) == Success(Serialize(Lossy(Str(s))))
  {
    StringRoundTrip(s);
  }

  lemma DateValueRoundTrip(iso: string)
    requires forall i | 0 <= i < |iso| :: IsIsoChar(iso[i])
    ensures DecodeFragment(EncodeValue(Date(iso)).value) == Success(Serialize(Lossy(Date(iso))))
  {
    assert EncodeValue(Date(iso)) == Success("'" + EncodeUriComponent(iso) + "'");
    assert Serialize(Lossy(Date(iso))) == Quote(iso);
    DateRoundTrip(iso);
  }

  /** Numbers, BigInts, booleans and null are written as JSON writes them. */
  lemma ScalarValueRoundTrip(v: Value)
    requires v.Num? || v.BigInt? || v.Bool? || v.Null?
    ensures DecodeFragment(EncodeValue(v).value) == Success(Serialize(Lossy(v)))
  {
    var t := EncodeValue(v).value;
    assert t == Serialize(Lossy(v));
    PlainText(t);
  }

  lemma ArrValueRoundTrip(elems: seq<Value>)
    requires forall i | 0 <= i < |elems| :: Encodable(elems[i])
    requires forall i | 0 <= i < |elems| ::
      DecodeFragment(EncodeValue(elems[i]).value) == Success(Serialize(Lossy(elems[i])))
    ensures DecodeFragment(EncodeValue(Arr(elems)).value) == Success(Serialize(Lossy(Arr(elems))))
  {
    var parts := EncodeAll(elems).value;
    var texts := SerializeAll(LossyAll(elems));
    ArrayFragment(parts, texts);
  }

  /** A supported value's encoding, substituted and percent-decoded, is the
      JSON text of its lossy image. */
  lemma {:induction false} ValueRoundTrip(v: Value)
    requires Supported(v)
    ensures EncodeValue(v).Success?
    ensures Encodable(v) && DecodeFragment(EncodeValue(v).value) == Success(Serialize(Lossy(v)))
    decreases v
  {
    SupportedEncodable(v);
    match v
    case Str(s) => StrValueRoundTrip(s);
    case Date(iso) => DateValueRoundTrip(iso);
    case Arr(elems) =>
      forall i | 0 <= i < |elems|
        ensures Encodable(elems[i])
        ensures DecodeFragment(EncodeValue(elems[i]).value) == Success(Serialize(Lossy(elems[i])))
      {
        ValueRoundTrip(elems[i]);
      }
      ArrValueRoundTrip(elems);
    case _ => ScalarValueRoundTrip(v);
  }

  /** The table entries that the segment separators turn into. */
  lemma SeparatorFragments()
    ensures DecodeFragment("=") == Success("\":")
    ensures DecodeFragment("&") == Success(",\"")
  {
    SubstituteTable('=');
    SubstituteTable('&');
    DecodeWithoutEscapes("\":");
    DecodeWithoutEscapes(",\"");
  }

  /** A plain key is written and read back verbatim. */
  lemma PlainKeyFragment(k: string)
    requires PlainKey(k)
    ensures DecodeFragment(k) == Success(k)
  {
    forall i | 0 <= i < |k| ensures !IsStructural(k[i]) {
      assert k[i] !in "'()=&%";
    }
    assert '%' !in k by {
      forall i | 0 <= i < |k| ensures k[i] != '%' {
        assert k[i] !in "'()=&%";
      }
    }
    FragmentPlain(k);
  }

  /** One segment `key=value` decodes to the body of the JSON member for it. */
  lemma SegmentRoundTrip(key: string, v: Value)
    requires PlainKey(key) && Supported(v)
    ensures EncodeValue(v).Success?
    ensures Encodable(v) &&
      DecodeFragment(key + "=" + EncodeValue(v).value) == Success(MemberBody((key, Lossy(v))))
  {
    ValueRoundTrip(v);
    var e := EncodeValue(v).value;
    PlainKeyFragment(key);
    SeparatorFragments();
    FragmentAppend(key, "=");
    FragmentAppend(key + "=", e);
  }

  /** The defined entries of a plain object have plain keys and supported,
      hence encodable, values. */
  lemma DefinedSupported(obj: Object)
    requires PlainObject(obj)
    ensures DefinedEncodable(obj)
    ensures forall i | 0 <= i < |Defined(obj)| :: PlainKey(Defined(obj)[i].0) && Supported(Defined(obj)[i].1)
  {
    DefinedPlain(obj);
    forall i | 0 <= i < |Defined(obj)| ensures Encodable(Defined(obj)[i].1) {
      SupportedEncodable(Defined(obj)[i].1);
    }
  }

  /** Each segment decodes to the body of the JSON member for its entry. */
  lemma SegmentsRoundTrip(obj: Object)
    requires PlainObject(obj)
    ensures DefinedEncodable(obj) && Segments(obj).Success?
    ensures DefinedEncodable(obj) &&
      forall i | 0 <= i < |Defined(obj)| ::
        DecodeFragment(Segments(obj).value[i]) == Success(MemberBody(LossyMembers(Defined(obj))[i]))
  {
    DefinedSupported(obj);
    var defs := Defined(obj);
    var segs := Segments(obj).value;
    var members := LossyMembers(defs);
    forall i | 0 <= i < |defs| ensures DecodeFragment(segs[i]) == Success(MemberBody(members[i])) {
      SegmentRoundTrip(defs[i].0, defs[i].1);
    }
  }

  /** The segments of an object decode, joined, to its member bodies joined
      by `,"`. */
  lemma ObjectBodyRoundTrip(obj: Object)
    requires PlainObject(obj)
    ensures DefinedEncodable(obj) && EncodeObject(obj).Success?
    ensures DefinedEncodable(obj) &&
      DecodeFragment(EncodeObject(obj).value)
        == Success(Join(MemberBodies(LossyMembers(Defined(obj))), ",\""))
  {
    SegmentsRoundTrip(obj);
    var defs := Defined(obj);
    var segs := Segments(obj).value;
    var members := LossyMembers(defs);
    var bodies := MemberBodies(members);
    SeparatorFragments();
    FragmentJoin(segs, bodies, "&", ",\"");
    assert EncodeObject(obj).value == Join(segs, "&");
  }

  /** The round trip the tests assert: for plain keys and supported values,
      with at least one entry defined, decoding the encoding gives
      JSON.stringify's text of the object after the lossy mapping. */
  lemma ObjectRoundTrip(obj: Object)
    requires PlainObject(obj) && |Defined(obj)| > 0
    ensures EncodeObject(obj).Success?
    ensures DefinedEncodable(obj) &&
      DecodeAsString(EncodeObject(obj).value) == Success(Serialize(JObject(LossyMembers(Defined(obj)))))
  {
    ObjectBodyRoundTrip(obj);
    DefinedPlain(obj);
    var members := LossyMembers(Defined(obj));
    forall i | 0 <= i < |members| ensures JsonSafe(members[i].0) {
      assert members[i].0 == Defined(obj)[i].0;
    }
    ObjectText(members);
    DecodeAsStringShape(EncodeObject(obj).value);
  }

  /** The object with no defined entry: the encoder writes the empty
      string, and the decoder turns that into `{"}`, which is not the text of
      any JSON value, while JSON.stringify writes `{}`. */
  lemma EmptyObjectBreaksRoundTrip(obj: Object)
    requires Defined(obj) == []
    ensures EncodeObject(obj) == Success("")
    ensures DecodeAsString("") == Success("{\"}")
    ensures Serialize(JObject([])) == "{}"
    ensures forall j: Json :: Serialize(j) != "{\"}"
  {
    DecodeEmpty();
    forall j: Json ensures Serialize(j) != "{\"}" {
      BrokenEmptyObjectIsNotJson(j);
    }
  }

  /** With the empty input mapped to `{}`, the round trip holds for every
      object with plain keys and supported values, including the one with
      no defined entry. */
  lemma FixedRoundTrip(obj: Object)
    requires PlainObject(obj)
    ensures EncodeObject(obj).Success?
    ensures DefinedEncodable(obj) &&
      DecodeAsStringFixed(EncodeObject(obj).value) == Success(Serialize(JObject(LossyMembers(Defined(obj)))))
  {
    DefinedSupported(obj);
    if |Defined(obj)| == 0 {
      assert LossyMembers(Defined(obj)) == [];
      assert Serialize(JObject([])) == "{}";
    } else {
      ObjectRoundTrip(obj);
      var segs := Segments(obj).value;
      JoinLength(segs, "&");
      assert |segs[0]| > 0;
      assert EncodeObject(obj).value == Join(segs, "&");
    }
  }

  /** decodeJsonParams after encodeObjectAsJsonParams gives the object back,
      given a JSON.parse that reads JSON.stringify's text of it. */
  lemma DecodeJsonParamsRoundTrip(obj: Object, parse: string -> Result<Json, ParseError>)
    requires PlainObject(obj) && |Defined(obj)| > 0
    requires DefinedEncodable(obj)
    requires var j := JObject(LossyMembers(Defined(obj))); parse(Serialize(j)) == Success(j)
    ensures EncodeObject(obj).Success?
    ensures DecodeJsonParams(EncodeObject(obj).value, parse) == Success(JObject(LossyMembers(Defined(obj))))
  {
    ObjectRoundTrip(obj);
  }

  /** An `undefined` entry, wherever it sits, contributes no segment. */
  lemma {:induction false} SegmentsSkipUndefined(a: Object, key: string, b: Object)
    ensures Segments(a + [(key, None)] + b) == Segments(a + b)
    decreases |a|
  {
    var x := a + [(key, None)] + b;
    if |a| == 0 {
      assert x[1..] == b && a + b == b;
    } else {
      assert x[0] == (a + b)[0] == a[0];
      assert x[1..] == a[1..] + [(key, None)] + b;
      assert (a + b)[1..] == a[1..] + b;
      SegmentsSkipUndefined(a[1..], key, b);
    }
  }

  /** Adding an `undefined` entry anywhere leaves the encoding unchanged. */
  lemma OmitUndefined(a: Object, key: string, b: Object)
    ensures EncodeObject(a + [(key, None)] + b) == EncodeObject(a + b)
  {
    SegmentsSkipUndefined(a, key, b);
  }
}
