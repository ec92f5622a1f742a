/** The encoder's and decoder's behaviour on the parameter strings the
    repository's tests list, worked out on the model. */
module Vectors {
  import opened Wrappers
  import opened Text
  import opened Values
  import opened Hex
  import opened Percent
  import opened Json
  import opened Codec
  import opened RoundTrip
  import Utf8

  /** A defined first entry puts its segment in front of the others'. */
  lemma SegmentsCons(k: string, v: Value, rest: Object)
    requires Encodable(v) && DefinedEncodable(rest)
    ensures Segments([(k, Some(v))] + rest) == Success([k + "=" + EncodeValue(v).value] + Segments(rest).value)
  {
    var obj := [(k, Some(v))] + rest;
    assert obj[0] == (k, Some(v));
    assert obj[1..] == rest;
    DefinedEncodableCons(obj);
  }

  lemma SegmentsOne(k: string, v: Value)
    requires Encodable(v)
    ensures Segments([(k, Some(v))]) == Success([k + "=" + EncodeValue(v).value])
  {
    SegmentsCons(k, v, []);
    assert [(k, Some(v))] + [] == [(k, Some(v))];
    var seg := k + "=" + EncodeValue(v).value;
    assert [seg] + [] == [seg];
  }

  /** An object with one defined entry encodes to that entry's segment. */
  lemma EncodeSingle(k: string, v: Value)
    requires Encodable(v)
    ensures EncodeObject([(k, Some(v))]) == Success(k + "=" + EncodeValue(v).value)
  {
    SegmentsOne(k, v);
  }

  lemma Digits123()
    ensures IntToString(123) == "123"
  {
    assert NatToString(1) == "1";
    assert NatToString(12) == "12";
  }

  lemma IntegerSegments()
    ensures "i1" + "=" + "123" == "i1=123"
    ensures "I1" + "=" + "123" == "I1=123"
  {
  }

  /** Numbers and BigInts are written unquoted, in decimal. */
  lemma EncodeIntegerVectors()
    ensures EncodeObject([("i1", Some(Num(123)))]) == Success("i1=123")
    ensures EncodeObject([("I1", Some(BigInt(123)))]) == Success("I1=123")
  {
    Digits123();
    IntegerSegments();
    EncodeSingle("i1", Num(123));
    EncodeSingle("I1", BigInt(123));
  }

  lemma BoolSegments()
    ensures "b1" + "=" + "true" == "b1=true"
    ensures "b1" + "=" + "false" == "b1=false"
  {
  }

  /** Booleans are written unquoted. */
  lemma EncodeBoolVectors()
    ensures EncodeObject([("b1", Some(Bool(true)))]) == Success("b1=true")
    ensures EncodeObject([("b1", Some(Bool(false)))]) == Success("b1=false")
  {
    BoolSegments();
    EncodeSingle("b1", Bool(true));
    EncodeSingle("b1", Bool(false));
  }

  lemma NullSegment()
    ensures "n1" + "=" + "null" == "n1=null"
  {
  }

  lemma EncodeNullVector()
    ensures EncodeObject([("n1", Some(Null))]) == Success("n1=null")
  {
    NullSegment();
    EncodeSingle("n1", Null);
  }

  lemma XyzPayload()
    ensures EncodeStringPayload("xyz") == "xyz"
  {
    assert forall i | 0 <= i < |"xyz"| :: IsAlphaNum("xyz"[i]);
    AlphaNumPayload("xyz");
  }

  /** The encoding of one string entry. */
  lemma EncodeStringEntry(k: string, s: string, payload: string)
    requires EncodeStringPayload(s) == payload
    ensures EncodeObject([(k, Some(Str(s)))]) == Success(k + "=" + ("'" + payload + "'"))
  {
    EncodeSingle(k, Str(s));
  }

  lemma XyzText()
    ensures "s1" + "=" + ("'" + "xyz" + "'") == "s1='xyz'"
  {
  }

  lemma EncodeStringVector()
    ensures EncodeObject([("s1", Some(Str("xyz")))]) == Success("s1='xyz'")
  {
    XyzPayload();
    EncodeStringEntry("s1", "xyz", "xyz");
    XyzText();
  }

  lemma PayloadOfFour(a: string, b: string, c: string, d: string)
    ensures EncodeStringPayload(a + b + c + d)
         == EncodeStringPayload(a) + EncodeStringPayload(b) + EncodeStringPayload(c) + EncodeStringPayload(d)
  {
    StringPayloadAppend(a + b + c, d);
    StringPayloadAppend(a + b, c);
    StringPayloadAppend(a, b);
  }

  lemma MarksPieces()
    ensures "abc(')" == "abc" + "(" + "'" + ")"
    ensures "abc" + "%28" + "%27" + "%29" == "abc%28%27%29"
    ensures "s1" + "=" + ("'" + "abc%28%27%29" + "'") == "s1='abc%28%27%29'"
  {
  }

  lemma MarksPayload()
    ensures EncodeStringPayload("abc(')") == "abc%28%27%29"
  {
    MarksPieces();
    assert forall i | 0 <= i < |"abc"| :: IsAlphaNum("abc"[i]);
    AlphaNumPayload("abc");
    PayloadMark('(');
    PayloadMark('\'');
    PayloadMark(')');
    PayloadOfFour("abc", "(", "'", ")");
  }

  /** `'`, `(` and `)` are escaped although encodeURIComponent keeps them. */
  lemma EncodeMarksVector()
    ensures EncodeObject([("s1", Some(Str("abc(')")))]) == Success("s1='abc%28%27%29'")
  {
    MarksPayload();
    EncodeStringEntry("s1", "abc(')", "abc%28%27%29");
    MarksPieces();
  }

  // ---------------------------------------------------------------------
  // Dates

  lemma ColonEscape()
    ensures EncodeUriComponent(":") == "%3A"
  {
    EncodeUriComponentSingle(':');
    assert Utf8.EncodeChar(':') == [0x3A];
    assert EscapeBytes([0x3A]) == "%" + ByteToHex(0x3A) + EscapeBytes([]);
  }

  lemma EncodeOfFive(a: string, b: string, c: string, d: string, e: string)
    ensures EncodeUriComponent(a + b + c + d + e)
         == EncodeUriComponent(a) + EncodeUriComponent(b) + EncodeUriComponent(c)
          + EncodeUriComponent(d) + EncodeUriComponent(e)
  {
    EncodeUriComponentAppend(a + b + c + d, e);
    EncodeUriComponentAppend(a + b + c, d);
    EncodeUriComponentAppend(a + b, c);
    EncodeUriComponentAppend(a, b);
  }

  lemma DateSplit()
    ensures "2021-01-01T00:00:00.000Z" == "2021-01-01T00" + ":" + "00" + ":" + "00.000Z"
  {
  }

  lemma DateJoin()
    ensures "2021-01-01T00" + "%3A" + "00" + "%3A" + "00.000Z" == "2021-01-01T00%3A00%3A00.000Z"
  {
  }

  lemma DateUnreservedParts()
    ensures forall i | 0 <= i < |"2021-01-01T00"| :: IsUnreserved("2021-01-01T00"[i])
    ensures forall i | 0 <= i < |"00"| :: IsUnreserved("00"[i])
    ensures forall i | 0 <= i < |"00.000Z"| :: IsUnreserved("00.000Z"[i])
  {
  }

  /** toJSON's colons are the only characters of a timestamp escaped. */
  lemma DateEncoding()
    ensures EncodeUriComponent("2021-01-01T00:00:00.000Z") == "2021-01-01T00%3A00%3A00.000Z"
  {
    DateSplit();
    DateJoin();
    DateUnreservedParts();
    EncodeUnreservedText("2021-01-01T00");
    EncodeUnreservedText("00");
    EncodeUnreservedText("00.000Z");
    ColonEscape();
    EncodeOfFive("2021-01-01T00", ":", "00", ":", "00.000Z");
  }

  lemma EncodeDateEntry(k: string, iso: string, encoded: string)
    requires EncodeUriComponent(iso) == encoded
    ensures EncodeObject([(k, Some(Date(iso)))]) == Success(k + "=" + ("'" + encoded + "'"))
  {
    EncodeSingle(k, Date(iso));
  }

  lemma EncodeDateVector()
    ensures EncodeObject([("d1", Some(Date("2021-01-01T00:00:00.000Z")))])
         == Success("d1='2021-01-01T00%3A00%3A00.000Z'")
  {
    DateEncoding();
    EncodeDateEntry("d1", "2021-01-01T00:00:00.000Z", "2021-01-01T00%3A00%3A00.000Z");
    DateEncodedQuoted();
    DateSegmentPieces();
  }

  // ---------------------------------------------------------------------
  // Arrays

  lemma JoinOfThree(a: string, b: string, c: string, sep: string)
    ensures Join([a, b, c], sep) == a + sep + b + sep + c
  {
    assert [a, b, c][1..] == [b, c];
    assert [b, c][1..] == [c];
    assert Join([c], sep) == c;
    assert Join([b, c], sep) == b + sep + c;
    assert a + sep + (b + sep + c) == a + sep + b + sep + c;
  }

  lemma EncodeArrayEntry(k: string, elems: seq<Value>, parts: seq<string>)
    requires |parts| == |elems|
    requires forall i | 0 <= i < |elems| :: EncodeValue(elems[i]) == Success(parts[i])
    ensures EncodeObject([(k, Some(Arr(elems)))]) == Success(k + "=" + ("(" + Join(parts, "%2C") + ")"))
  {
    var r := EncodeAll(elems);
    assert r.Success?;
    assert r.value == parts;
    EncodeSingle(k, Arr(elems));
  }

  lemma NumberElements()
    ensures EncodeValue(Num(1)) == Success("1")
    ensures EncodeValue(Num(2)) == Success("2")
    ensures EncodeValue(Num(3)) == Success("3")
  {
  }

  lemma NumbersPieces()
    ensures "a1" + "=" + ("(" + ("1" + "%2C" + "2" + "%2C" + "3") + ")") == "a1=(1%2C2%2C3)"
  {
  }

  lemma EncodeNumbersVector()
    ensures EncodeObject([("a1", Some(Arr([Num(1), Num(2), Num(3)])))]) == Success("a1=(1%2C2%2C3)")
  {
    NumberElements();
    EncodeArrayEntry("a1", [Num(1), Num(2), Num(3)], ["1", "2", "3"]);
    JoinOfThree("1", "2", "3", "%2C");
    NumbersPieces();
  }

  /** The empty array is the bare pair of parentheses. */
  lemma EncodeEmptyArray()
    ensures EncodeValue(Arr([])) == Success("()")
  {
    assert "(" + "" + ")" == "()";
  }

  lemma PayloadOfThree(a: string, b: string, c: string)
    ensures EncodeStringPayload(a + b + c)
         == EncodeStringPayload(a) + EncodeStringPayload(b) + EncodeStringPayload(c)
  {
    StringPayloadAppend(a + b, c);
    StringPayloadAppend(a, b);
  }

  /** A string `x,n` of two alphanumeric parts: only the comma is escaped. */
  lemma CommaPayload(x: string, n: string)
    requires forall i | 0 <= i < |x| :: IsAlphaNum(x[i])
    requires forall i | 0 <= i < |n| :: IsAlphaNum(n[i])
    ensures EncodeStringPayload(x + "," + n) == x + "%2C" + n
  {
    PayloadOfThree(x, ",", n);
    AlphaNumPayload(x);
    AlphaNumPayload(n);
    PayloadOther(',');
    CommaEscape();
  }

  lemma CommaStringValue(x: string, n: string)
    requires forall i | 0 <= i < |x| :: IsAlphaNum(x[i])
    requires forall i | 0 <= i < |n| :: IsAlphaNum(n[i])
    ensures EncodeValue(Str(x + "," + n)) == Success("'" + x + "%2C" + n + "'")
  {
    CommaPayload(x, n);
    var p := x + "%2C" + n;
    assert "'" + p + "'" == "'" + x + "%2C" + n + "'";
  }

  lemma StringElementsPieces()
    ensures "a,1" == "a" + "," + "1" && "b,2" == "b" + "," + "2" && "c,3" == "c" + "," + "3"
    ensures "'" + "a" + "%2C" + "1" + "'" == "'a%2C1'"
    ensures "'" + "b" + "%2C" + "2" + "'" == "'b%2C2'"
    ensures "'" + "c" + "%2C" + "3" + "'" == "'c%2C3'"
  {
  }

  lemma StringElementA()
    ensures EncodeValue(Str("a,1")) == Success("'a%2C1'")
  {
    StringElementsPieces();
    CommaStringValue("a", "1");
  }

  lemma StringElementB()
    ensures EncodeValue(Str("b,2")) == Success("'b%2C2'")
  {
    StringElementsPieces();
    CommaStringValue("b", "2");
  }

  lemma StringElementC()
    ensures EncodeValue(Str("c,3")) == Success("'c%2C3'")
  {
    StringElementsPieces();
    CommaStringValue("c", "3");
  }

  lemma StringsJoinFirst()
    ensures "'a%2C1'" + "%2C" + "'b%2C2'" == "'a%2C1'%2C'b%2C2'"
  {
  }

  lemma StringsJoinSecond()
    ensures "'a%2C1'%2C'b%2C2'" + "%2C" + "'c%2C3'" == "'a%2C1'%2C'b%2C2'%2C'c%2C3'"
  {
  }

  lemma StringsParens()
    ensures "(" + "'a%2C1'%2C'b%2C2'%2C'c%2C3'" + ")" == "('a%2C1'%2C'b%2C2'%2C'c%2C3')"
  {
  }

  lemma StringsSegment()
    ensures "a2" + "=" + "('a%2C1'%2C'b%2C2'%2C'c%2C3')" == "a2=('a%2C1'%2C'b%2C2'%2C'c%2C3')"
  {
  }

  lemma EncodeAllOfThree(a: Value, b: Value, c: Value, pa: string, pb: string, pc: string)
    requires EncodeValue(a) == Success(pa) && EncodeValue(b) == Success(pb) && EncodeValue(c) == Success(pc)
    ensures EncodeAll([a, b, c]) == Success([pa, pb, pc])
  {
    EncodeAllCons([c], pc, []);
    assert [pc] + [] == [pc];
    assert [b, c][1..] == [c];
    EncodeAllCons([b, c], pb, [pc]);
    assert [pb] + [pc] == [pb, pc];
    assert [a, b, c][1..] == [b, c];
    EncodeAllCons([a, b, c], pa, [pb, pc]);
    assert [pa] + [pb, pc] == [pa, pb, pc];
  }

  lemma EncodeAllCons(elems: seq<Value>, first: string, rest: seq<string>)
    requires |elems| > 0
    requires EncodeValue(elems[0]) == Success(first) && EncodeAll(elems[1..]) == Success(rest)
    ensures EncodeAll(elems) == Success([first] + rest)
  {
  }

  lemma StringsAll()
    ensures EncodeAll([Str("a,1"), Str("b,2"), Str("c,3")]) == Success(["'a%2C1'", "'b%2C2'", "'c%2C3'"])
  {
    StringElementA();
    StringElementB();
    StringElementC();
    EncodeAllOfThree(Str("a,1"), Str("b,2"), Str("c,3"), "'a%2C1'", "'b%2C2'", "'c%2C3'");
  }

  lemma StringsJoin()
    ensures Join(["'a%2C1'", "'b%2C2'", "'c%2C3'"], "%2C") == "'a%2C1'%2C'b%2C2'%2C'c%2C3'"
  {
    JoinOfThree("'a%2C1'", "'b%2C2'", "'c%2C3'", "%2C");
    StringsJoinFirst();
    StringsJoinSecond();
  }

  lemma StringsValue()
    ensures EncodeValue(Arr([Str("a,1"), Str("b,2"), Str("c,3")])) == Success("('a%2C1'%2C'b%2C2'%2C'c%2C3')")
  {
    StringsAll();
    StringsJoin();
    StringsParens();
  }

  lemma EncodeStringsVector()
    ensures EncodeObject([("a2", Some(Arr([Str("a,1"), Str("b,2"), Str("c,3")])))])
         == Success("a2=('a%2C1'%2C'b%2C2'%2C'c%2C3')")
  {
    StringsValue();
    EncodeSingle("a2", Arr([Str("a,1"), Str("b,2"), Str("c,3")]));
    StringsSegment();
  }

  // ---------------------------------------------------------------------
  // Decoding

  /** A single segment decodes to the one-member object JSON.stringify writes
      for its lossy value. */
  lemma DecodeEntry(k: string, v: Value, text: string, json: string)
    requires PlainKey(k) && Supported(v)
    requires EncodeValue(v) == Success(text)
    requires Encodable(v) && Serialize(Lossy(v)) == json
    ensures DecodeAsString(k + "=" + text) == Success("{\"" + (k + "\":" + json) + "}")
  {
    SegmentRoundTrip(k, v);
    DecodeAsStringShape(k + "=" + text);
  }

  lemma S1Key()
    ensures PlainKey("s1")
  {
  }

  lemma XyzJson()
    ensures "'" + "xyz" + "'" == "'xyz'"
    ensures "\"" + "xyz" + "\"" == "\"xyz\""
    ensures "s1" + "=" + "'xyz'" == "s1='xyz'"
    ensures "{\"" + ("s1" + "\":" + "\"xyz\"") + "}" == "{\"s1\":\"xyz\"}"
    ensures JsonSafe("xyz")
  {
  }

  lemma DecodeStringVector()
    ensures DecodeAsString("s1='xyz'") == Success("{\"s1\":\"xyz\"}")
  {
    XyzPayload();
    XyzJson();
    S1Key();
    EscapeIdentityIffSafe("xyz");
    DecodeEntry("s1", Str("xyz"), "'xyz'", "\"xyz\"");
  }

  lemma MarksJson()
    ensures "'" + "abc%28%27%29" + "'" == "'abc%28%27%29'"
    ensures "\"" + "abc(')" + "\"" == "\"abc(')\""
    ensures "s1" + "=" + "'abc%28%27%29'" == "s1='abc%28%27%29'"
    ensures "{\"" + ("s1" + "\":" + "\"abc(')\"") + "}" == "{\"s1\":\"abc(')\"}"
    ensures JsonSafe("abc(')")
  {
  }

  /** The escaped marks come back as the characters themselves. */
  lemma DecodeMarksVector()
    ensures DecodeAsString("s1='abc%28%27%29'") == Success("{\"s1\":\"abc(')\"}")
  {
    MarksPayload();
    MarksJson();
    S1Key();
    EscapeIdentityIffSafe("abc(')");
    DecodeEntry("s1", Str("abc(')"), "'abc%28%27%29'", "\"abc(')\"");
  }

  lemma IntegerPieces()
    ensures PlainKey("i1") && PlainKey("I1")
    ensures "i1" + "=" + "123" == "i1=123" && "I1" + "=" + "123" == "I1=123"
    ensures "{\"" + ("i1" + "\":" + "123") + "}" == "{\"i1\":123}"
    ensures "{\"" + ("I1" + "\":" + "123") + "}" == "{\"I1\":123}"
  {
  }

  /** Numbers decode to the same text; the BigInt comes back a plain number. */
  lemma DecodeIntegerVectors()
    ensures DecodeAsString("i1=123") == Success("{\"i1\":123}")
    ensures DecodeAsString("I1=123") == Success("{\"I1\":123}")
  {
    Digits123();
    IntegerPieces();
    DecodeEntry("i1", Num(123), "123", "123");
    DecodeEntry("I1", BigInt(123), "123", "123");
  }

  lemma BoolPieces()
    ensures PlainKey("b1")
    ensures "b1" + "=" + "true" == "b1=true" && "b1" + "=" + "false" == "b1=false"
    ensures "{\"" + ("b1" + "\":" + "true") + "}" == "{\"b1\":true}"
    ensures "{\"" + ("b1" + "\":" + "false") + "}" == "{\"b1\":false}"
  {
  }

  lemma DecodeBoolVectors()
    ensures DecodeAsString("b1=true") == Success("{\"b1\":true}")
    ensures DecodeAsString("b1=false") == Success("{\"b1\":false}")
  {
    BoolPieces();
    DecodeEntry("b1", Bool(true), "true", "true");
    DecodeEntry("b1", Bool(false), "false", "false");
  }

  lemma NullPieces()
    ensures PlainKey("n1")
    ensures "n1" + "=" + "null" == "n1=null"
    ensures "{\"" + ("n1" + "\":" + "null") + "}" == "{\"n1\":null}"
  {
  }

  lemma DecodeNullVector()
    ensures DecodeAsString("n1=null") == Success("{\"n1\":null}")
  {
    NullPieces();
    DecodeEntry("n1", Null, "null", "null");
  }

  lemma DateValueText(iso: string, encoded: string)
    requires forall i | 0 <= i < |iso| :: IsIsoChar(iso[i])
    requires EncodeUriComponent(iso) == encoded
    ensures Supported(Date(iso)) && Encodable(Date(iso))
    ensures EncodeValue(Date(iso)) == Success("'" + encoded + "'")
  {
  }

  lemma DateJsonText(iso: string)
    requires forall i | 0 <= i < |iso| :: IsIsoChar(iso[i])
    ensures Serialize(Lossy(Date(iso))) == "\"" + iso + "\""
  {
    IsoTextSafe(iso);
    EscapeIdentityIffSafe(iso);
  }

  /** A single date entry decodes to its toJSON text as a JSON string. */
  lemma DecodeDateEntry(k: string, iso: string, encoded: string)
    requires PlainKey(k) && forall i | 0 <= i < |iso| :: IsIsoChar(iso[i])
    requires EncodeUriComponent(iso) == encoded
    ensures DecodeAsString(k + "=" + ("'" + encoded + "'")) == Success("{\"" + (k + "\":" + ("\"" + iso + "\"")) + "}")
  {
    DateValueText(iso, encoded);
    DateJsonText(iso);
    DecodeEntry(k, Date(iso), "'" + encoded + "'", "\"" + iso + "\"");
  }

  lemma DateIsoChars()
    ensures forall i | 0 <= i < |"2021-01-01T00:00:00.000Z"| :: IsIsoChar("2021-01-01T00:00:00.000Z"[i])
    ensures PlainKey("d1")
  {
  }

  lemma DateEncodedQuoted()
    ensures "'" + "2021-01-01T00%3A00%3A00.000Z" + "'" == "'2021-01-01T00%3A00%3A00.000Z'"
  {
  }

  lemma DateTextQuoted()
    ensures "\"" + "2021-01-01T00:00:00.000Z" + "\"" == "\"2021-01-01T00:00:00.000Z\""
  {
  }

  lemma DateSegmentPieces()
    ensures "d1" + "=" + "'2021-01-01T00%3A00%3A00.000Z'" == "d1='2021-01-01T00%3A00%3A00.000Z'"
  {
  }

  lemma DateMemberPieces()
    ensures "d1" + "\":" + "\"2021-01-01T00:00:00.000Z\"" == "d1\":\"2021-01-01T00:00:00.000Z\""
  {
  }

  lemma DateObjectPieces()
    ensures "{\"" + "d1\":\"2021-01-01T00:00:00.000Z\"" + "}" == "{\"d1\":\"2021-01-01T00:00:00.000Z\"}"
  {
  }

  lemma DecodeDateVector()
    ensures DecodeAsString("d1='2021-01-01T00%3A00%3A00.000Z'")
         == Success("{\"d1\":\"2021-01-01T00:00:00.000Z\"}")
  {
    DateEncoding();
    DateIsoChars();
    DecodeDateEntry("d1", "2021-01-01T00:00:00.000Z", "2021-01-01T00%3A00%3A00.000Z");
    DateEncodedQuoted();
    DateSegmentPieces();
    DateTextQuoted();
    DateMemberPieces();
    DateObjectPieces();
  }

  lemma LossyOfThree(a: Value, b: Value, c: Value)
    requires Encodable(a) && Encodable(b) && Encodable(c)
    ensures Encodable(Arr([a, b, c]))
    ensures Lossy(Arr([a, b, c])) == JArray([Lossy(a), Lossy(b), Lossy(c)])
  {
    var r := LossyAll([a, b, c]);
    assert r == [Lossy(a), Lossy(b), Lossy(c)];
  }

  lemma SerializeArrayOfThree(a: Json, b: Json, c: Json)
    ensures Serialize(JArray([a, b, c]))
         == "[" + (Serialize(a) + "," + Serialize(b) + "," + Serialize(c)) + "]"
  {
    var r := SerializeAll([a, b, c]);
    assert r == [Serialize(a), Serialize(b), Serialize(c)];
    JoinOfThree(Serialize(a), Serialize(b), Serialize(c), ",");
  }

  lemma NumbersValue()
    ensures EncodeValue(Arr([Num(1), Num(2), Num(3)])) == Success("(" + ("1" + "%2C" + "2" + "%2C" + "3") + ")")
  {
    NumberElements();
    EncodeAllOfThree(Num(1), Num(2), Num(3), "1", "2", "3");
    JoinOfThree("1", "2", "3", "%2C");
  }

  lemma NumbersJson()
    ensures Serialize(Lossy(Arr([Num(1), Num(2), Num(3)]))) == "[" + ("1" + "," + "2" + "," + "3") + "]"
  {
    LossyOfThree(Num(1), Num(2), Num(3));
    SerializeArrayOfThree(JNumber(1), JNumber(2), JNumber(3));
  }

  lemma NumbersDecodedPieces()
    ensures "(" + ("1" + "%2C" + "2" + "%2C" + "3") + ")" == "(1%2C2%2C3)"
    ensures "[" + ("1" + "," + "2" + "," + "3") + "]" == "[1,2,3]"
    ensures "a1" + "=" + "(1%2C2%2C3)" == "a1=(1%2C2%2C3)"
    ensures "{\"" + ("a1" + "\":" + "[1,2,3]") + "}" == "{\"a1\":[1,2,3]}"
    ensures PlainKey("a1")
  {
  }

  /** The escaped commas between elements come back as JSON's commas. */
  lemma DecodeNumbersVector()
    ensures DecodeAsString("a1=(1%2C2%2C3)") == Success("{\"a1\":[1,2,3]}")
  {
    NumbersValue();
    NumbersJson();
    NumbersDecodedPieces();
    DecodeEntry("a1", Arr([Num(1), Num(2), Num(3)]), "(1%2C2%2C3)", "[1,2,3]");
  }

  lemma CommaStringsQuoted()
    ensures JsonSafe("a,1") && JsonSafe("b,2") && JsonSafe("c,3")
    ensures "\"" + "a,1" + "\"" == "\"a,1\""
    ensures "\"" + "b,2" + "\"" == "\"b,2\""
    ensures "\"" + "c,3" + "\"" == "\"c,3\""
  {
  }

  lemma StringsJson()
    ensures Serialize(Lossy(Arr([Str("a,1"), Str("b,2"), Str("c,3")])))
         == "[" + ("\"a,1\"" + "," + "\"b,2\"" + "," + "\"c,3\"") + "]"
  {
    CommaStringsQuoted();
    EscapeIdentityIffSafe("a,1");
    EscapeIdentityIffSafe("b,2");
    EscapeIdentityIffSafe("c,3");
    LossyOfThree(Str("a,1"), Str("b,2"), Str("c,3"));
    SerializeArrayOfThree(JString("a,1"), JString("b,2"), JString("c,3"));
  }

  lemma StringsJsonPieces()
    ensures "[" + ("\"a,1\"" + "," + "\"b,2\"" + "," + "\"c,3\"") + "]" == "[\"a,1\",\"b,2\",\"c,3\"]"
    ensures PlainKey("a2")
  {
  }

  lemma StringsSupported()
    ensures Supported(Arr([Str("a,1"), Str("b,2"), Str("c,3")]))
    ensures Encodable(Arr([Str("a,1"), Str("b,2"), Str("c,3")]))
  {
    CommaStringsQuoted();
  }

  lemma StringsObjectPieces()
    ensures "{\"" + ("a2" + "\":" + "[\"a,1\",\"b,2\",\"c,3\"]") + "}" == "{\"a2\":[\"a,1\",\"b,2\",\"c,3\"]}"
  {
  }

  /** Escaped commas inside the strings stay inside them; those between the
      elements become JSON's separators. */
  lemma DecodeStringsVector()
    ensures DecodeAsString("a2=('a%2C1'%2C'b%2C2'%2C'c%2C3')") == Success("{\"a2\":[\"a,1\",\"b,2\",\"c,3\"]}")
  {
    StringsValue();
    StringsSupported();
    StringsJson();
    StringsJsonPieces();
    StringsSegment();
    StringsObjectPieces();
    DecodeEntry("a2", Arr([Str("a,1"), Str("b,2"), Str("c,3")]), "('a%2C1'%2C'b%2C2'%2C'c%2C3')",
                "[\"a,1\",\"b,2\",\"c,3\"]");
  }

  // ---------------------------------------------------------------------
  // Several entries, undefined entries and refused values

  lemma SegmentsTwo(k1: string, v1: Value, k2: string, v2: Value)
    requires Encodable(v1) && Encodable(v2)
    ensures Segments([(k1, Some(v1))] + [(k2, Some(v2))])
         == Success([k1 + "=" + EncodeValue(v1).value] + [k2 + "=" + EncodeValue(v2).value])
  {
    SegmentsOne(k2, v2);
    SegmentsCons(k1, v1, [(k2, Some(v2))]);
  }

  lemma JoinTwo(a: string, b: string, sep: string)
    ensures Join([a] + [b], sep) == a + sep + b
  {
    assert ([a] + [b])[1..] == [b];
  }

  /** Two defined entries are joined by `&`. */
  lemma EncodeTwo(k1: string, v1: Value, k2: string, v2: Value)
    requires Encodable(v1) && Encodable(v2)
    ensures EncodeObject([(k1, Some(v1))] + [(k2, Some(v2))])
         == Success(k1 + "=" + EncodeValue(v1).value + "&" + (k2 + "=" + EncodeValue(v2).value))
  {
    SegmentsTwo(k1, v1, k2, v2);
    JoinTwo(k1 + "=" + EncodeValue(v1).value, k2 + "=" + EncodeValue(v2).value, "&");
  }

  lemma EntriesPieces()
    ensures [("b1", Some(Bool(true)))] + [("u", None)] + [("n1", Some(Null))]
         == [("b1", Some(Bool(true))), ("u", None), ("n1", Some(Null))]
    ensures "b1" + "=" + "true" + "&" + ("n1" + "=" + "null") == "b1=true&n1=null"
  {
  }

  /** The `undefined` entry leaves no trace; the others keep their order. */
  lemma EncodeEntriesVector()
    ensures EncodeObject([("b1", Some(Bool(true))), ("u", None), ("n1", Some(Null))]) == Success("b1=true&n1=null")
  {
    EntriesPieces();
    OmitUndefined([("b1", Some(Bool(true)))], "u", [("n1", Some(Null))]);
    EncodeTwo("b1", Bool(true), "n1", Null);
  }

  /** A nested object is refused with the text `${value}` gives it. */
  lemma EncodeNestedObjectFails()
    ensures EncodeObject([("o", Some(Other("[object Object]")))]) == Failure(CannotEncode("[object Object]"))
  {
    var obj := [("o", Some(Other("[object Object]")))];
    assert obj[1..] == [];
  }

  /** A refused element makes the whole array, and so the object, fail. */
  lemma EncodeArrayWithObjectFails()
    ensures EncodeObject([("a", Some(Arr([Num(1), Other("[object Object]")])))]) == Failure(CannotEncode("[object Object]"))
  {
    var elems := [Num(1), Other("[object Object]")];
    assert elems[1..] == [Other("[object Object]")];
    assert EncodeAll(elems[1..]) == Failure(CannotEncode("[object Object]"));
    var obj := [("a", Some(Arr(elems)))];
    assert obj[1..] == [];
  }
}
