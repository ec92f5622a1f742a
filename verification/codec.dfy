/** The query-parameter codec: encodeObjectAsJsonParams, encodeValue,
    decodeJsonParamsAsString and decodeJsonParams. */
module Codec {
  import opened Wrappers
  import opened Text
  import opened Percent
  import opened Substitution
  import opened Json
  import opened Values

  /** The error encodeValue throws: `Cannot encode value: ${value}`. */
  datatype EncodeError = CannotEncode(description: string)

  /** JSON.parse's SyntaxError. */
  datatype ParseError = SyntaxError

  /** What decodeJsonParams can throw. */
  datatype DecodeFailure = MalformedUri(uri: UriError) | MalformedJson(json: ParseError)

  /** A value's encoding never holds the segment characters `&` and `=`, so
      segment boundaries stay unambiguous. */
  predicate NoSeparators(s: string) {
    forall i | 0 <= i < |s| :: s[i] != '&' && s[i] != '='
  }

  /** Quoting text built from `%` and unreserved characters adds no separator. */
  lemma QuotedNoSeparators(p: string)
    requires forall i | 0 <= i < |p| :: p[i] == '%' || IsUnreserved(p[i])
    ensures NoSeparators("'" + p + "'")
  {
    var q := "'" + p + "'";
    forall i | 0 <= i < |q| ensures q[i] != '&' && q[i] != '=' {
      if 0 < i < |q| - 1 {
        assert q[i] == p[i - 1];
      }
    }
  }

  /** Only `%` and unreserved characters outside `marks`. */
  predicate CleanOutside(s: string, marks: string) {
    forall i | 0 <= i < |s| :: s[i] == '%' || (IsUnreserved(s[i]) && s[i] !in marks)
  }

  /** The payload of a quoted string: encodeURIComponent, then `'`, `(` and
      `)` (which encodeURIComponent leaves alone) escaped as well. Only `%`
      and unreserved characters other than those three remain. */
  function EncodeStringPayload(s: string): (r: string)
    ensures CleanOutside(r, "'()")
  {
    var e0 := EncodeUriComponent(s);
    var e1 := ReplaceAll(e0, '\'', "%27");
    var e2 := ReplaceAll(e1, '(', "%28");
    var e3 := ReplaceAll(e2, ')', "%29");
    MarkEscapesClean();
    EscapeMarkKeepsClean(e0, '\'', "%27", "");
    EscapeMarkKeepsClean(e1, '(', "%28", "'");
    EscapeMarkKeepsClean(e2, ')', "%29", "'(");
    e3
  }

  /** The three escapes, and the mark lists they extend. */
  lemma MarkEscapesClean()
    ensures "" + ['\''] == "'" && "'" + ['('] == "'(" && "'(" + [')'] == "'()"
    ensures CleanOutside("%27", "'") && CleanOutside("%28", "'(") && CleanOutside("%29", "'()")
  {
  }

  /** Escaping one more mark, with an escape made of `%` and unreserved
      characters, keeps the text clean and excludes that mark too. */
  lemma EscapeMarkKeepsClean(s: string, mark: char, escape: string, marks: string)
    requires mark != '%'
    requires CleanOutside(s, marks)
    requires CleanOutside(escape, marks + [mark])
    ensures CleanOutside(ReplaceAll(s, mark, escape), marks + [mark])
  {
    var r := ReplaceAll(s, mark, escape);
    var m := marks + [mark];
    assert mark in m;
    assert mark !in escape by {
      forall k | 0 <= k < |escape| ensures escape[k] != mark {
        assert escape[k] == '%' || escape[k] !in m;
      }
    }
    forall i | 0 <= i < |r| ensures r[i] == '%' || (IsUnreserved(r[i]) && r[i] !in m) {
      if r[i] !in escape {
        var j :| 0 <= j < |s| && s[j] == r[i];
        assert s[j] == '%' || (IsUnreserved(s[j]) && s[j] !in marks);
      }
    }
  }

  /** encodeValue. Succeeds exactly on values with no unsupported part;
      the first unsupported part met, depth first, names the error. */
  function EncodeValue(v: Value): (r: Result<string, EncodeError>)
    ensures r.Success? <==> Encodable(v)
    ensures r.Success? ==> NoSeparators(r.value)
    ensures v.Other? ==> r == Failure(CannotEncode(v.description))
    decreases v
  {
    match v
    case Str(s) =>
      QuotedNoSeparators(EncodeStringPayload(s));
      Success("'" + EncodeStringPayload(s) + "'")
    case Num(n) => Success(IntToString(n))
    case BigInt(n) => Success(IntToString(n))
    case Bool(b) => Success(if b then "true" else "false")
    case Date(iso) =>
      QuotedNoSeparators(EncodeUriComponent(iso));
      Success("'" + EncodeUriComponent(iso) + "'")
    case Arr(elems) =>
      var parts :- EncodeAll(elems);
      ArrayNoSeparators(parts);
      Success("(" + Join(parts, "%2C") + ")")
    case Null => Success("null")
    case Other(d) => Failure(CannotEncode(d))
  }

  lemma ArrayNoSeparators(parts: seq<string>)
    requires forall i | 0 <= i < |parts| :: NoSeparators(parts[i])
    ensures NoSeparators("(" + Join(parts, "%2C") + ")")
  {
    JoinExcludes(parts, "%2C", '&');
    JoinExcludes(parts, "%2C", '=');
    var q := "(" + Join(parts, "%2C") + ")";
    forall i | 0 <= i < |q| ensures q[i] != '&' && q[i] != '=' {
      if 0 < i < |q| - 1 {
        assert q[i] == Join(parts, "%2C")[i - 1];
      }
    }
  }

  /** `value.map(encodeValue)`: every element encoded, in order. */
  function EncodeAll(elems: seq<Value>): (r: Result<seq<string>, EncodeError>)
    ensures r.Success? <==> forall i | 0 <= i < |elems| :: Encodable(elems[i])
    ensures r.Success? ==> |r.value| == |elems|
    ensures r.Success? ==> forall i | 0 <= i < |elems| :: EncodeValue(elems[i]) == Success(r.value[i])
    decreases elems
  {
    if |elems| == 0 then Success([])
    else
      var first :- EncodeValue(elems[0]);
      var rest :- EncodeAll(elems[1..]);
      Success([first] + rest)
  }

  predicate DefinedEncodable(obj: Object) {
    forall i | 0 <= i < |Defined(obj)| :: Encodable(Defined(obj)[i].1)
  }

  lemma DefinedEncodableCons(obj: Object)
    requires |obj| > 0 && obj[0].1.Some?
    ensures Defined(obj) == [(obj[0].0, obj[0].1.value)] + Defined(obj[1..])
    ensures DefinedEncodable(obj) <==> Encodable(obj[0].1.value) && DefinedEncodable(obj[1..])
  {
    var d := Defined(obj);
    var t := Defined(obj[1..]);
    assert d == [(obj[0].0, obj[0].1.value)] + t;
    if Encodable(obj[0].1.value) && DefinedEncodable(obj[1..]) {
      forall i | 0 <= i < |d| ensures Encodable(d[i].1) {
        if i > 0 {
          assert d[i] == t[i - 1];
        }
      }
    }
    if DefinedEncodable(obj) {
      forall i | 0 <= i < |t| ensures Encodable(t[i].1) {
        assert t[i] == d[i + 1];
      }
    }
  }

  /** The loop of encodeObjectAsJsonParams: an entry whose value is
      `undefined` is skipped, any other one pushes `key=value`. The segments
      are exactly those of the defined entries, in entry order. */
  function Segments(obj: Object): (r: Result<seq<string>, EncodeError>)
    ensures r.Success? <==> DefinedEncodable(obj)
    ensures r.Success? ==> |r.value| == |Defined(obj)|
    ensures r.Success? ==> forall i | 0 <= i < |r.value| ::
      r.value[i] == Defined(obj)[i].0 + "=" + EncodeValue(Defined(obj)[i].1).value
  {
    if |obj| == 0 then Success([])
    else
      match obj[0].1
      case None =>
        assert Defined(obj) == Defined(obj[1..]);
        Segments(obj[1..])
      case Some(v) =>
        DefinedEncodableCons(obj);
        var e :- EncodeValue(v);
        var rest :- Segments(obj[1..]);
        Success([obj[0].0 + "=" + e] + rest)
  }

  /** encodeObjectAsJsonParams: the segments joined by `&`. */
  function EncodeObject(obj: Object): (r: Result<string, EncodeError>)
    ensures r.Success? <==> DefinedEncodable(obj)
    ensures Defined(obj) == [] ==> r == Success("")
  {
    var segs :- Segments(obj);
    Success(Join(segs, "&"))
  }

  /** decodeJsonParamsAsString: substitute, percent-decode, wrap in `{"` and `}`. */
  function DecodeAsString(s: string): (r: Result<string, UriError>)
    ensures r.Success? ==> |r.value| >= 3 && r.value[..2] == "{\"" && r.value[|r.value| - 1] == '}'
  {
    var body :- DecodeUriComponent(Substitute(s));
    Success("{\"" + body + "}")
  }

  /** decodeJsonParams: JSON.parse, passed in as `parse`, applied to the
      decoded text. */
  function DecodeJsonParams(s: string, parse: string -> Result<Json, ParseError>): (r: Result<Json, DecodeFailure>)
    ensures DecodeAsString(s).Failure? ==> r == Failure(MalformedUri(DecodeAsString(s).error))
    ensures DecodeAsString(s).Success? && parse(DecodeAsString(s).value).Failure? ==> r.Failure? && r.error.MalformedJson?
  {
    match DecodeAsString(s)
    case Failure(e) => Failure(MalformedUri(e))
    case Success(text) =>
      match parse(text)
      case Failure(pe) => Failure(MalformedJson(pe))
      case Success(j) => Success(j)
  }

  /** decodeJsonParamsAsString with the empty input, which an object with no
      defined entry encodes to, mapped to the empty JSON object `{}`. */
  function DecodeAsStringFixed(s: string): (r: Result<string, UriError>)
    ensures r.Success? ==> |r.value| >= 2 && r.value[0] == '{' && r.value[|r.value| - 1] == '}'
    ensures s == "" ==> r == Success("{}")
    ensures s != "" ==> r == DecodeAsString(s)
    ensures r == Success("{}") <==> s == ""
    ensures r.Failure? <==> DecodeAsString(s).Failure?
  {
    if s == "" then Success("{}") else DecodeAsString(s)
  }
}
