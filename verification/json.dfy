/** The JSON data model and JSON.stringify's text for it: the reference the
    decoder's output is compared against. */
module Json {
  import opened Text
  import opened Hex

  /** A JSON value; numbers are restricted to integers. */
  datatype Json =
    | JString(s: string)
    | JNumber(n: int)
    | JBool(b: bool)
    | JNull
    | JArray(elems: seq<Json>)
    | JObject(members: seq<(string, Json)>)

  /** The characters JSON.stringify escapes inside a string literal. */
  predicate NeedsEscape(c: char) {
    c == '"' || c == '\\' || c as int < 0x20
  }

  predicate JsonSafe(s: string) {
    forall i | 0 <= i < |s| :: !NeedsEscape(s[i])
  }

  /** One character as JSON.stringify writes it inside quotes: the two-character
      escapes for backspace, tab, line feed, form feed, carriage return, quote
      and backslash; `\u00xx` in lower-case hex for other control characters. */
  function EscapeChar(c: char): (r: string)
    ensures !NeedsEscape(c) <==> r == [c]
  {
    var n := c as int;
    if n == 0x08 then "\\b"
    else if n == 0x09 then "\\t"
    else if n == 0x0A then "\\n"
    else if n == 0x0C then "\\f"
    else if n == 0x0D then "\\r"
    else if c == '"' then "\\\""
    else if c == '\\' then "\\\\"
    else if n < 0x20 then "\\u00" + [LowerDigit(n / 16), LowerDigit(n % 16)]
    else [c]
  }

  function Escape(s: string): string {
    if |s| == 0 then "" else EscapeChar(s[0]) + Escape(s[1..])
  }

  /** A JSON string literal. */
  function Quote(s: string): string {
    "\"" + Escape(s) + "\""
  }

  /** JSON.stringify: no whitespace, members and elements in order. */
  function Serialize(j: Json): string {
    match j
    case JString(s) => Quote(s)
    case JNumber(n) => IntToString(n)
    case JBool(b) => if b then "true" else "false"
    case JNull => "null"
    case JArray(elems) => "[" + Join(SerializeAll(elems), ",") + "]"
    case JObject(members) => "{" + Join(SerializeMembers(members), ",") + "}"
  }

  function SerializeAll(elems: seq<Json>): (r: seq<string>)
    ensures |r| == |elems|
    ensures forall i | 0 <= i < |elems| :: r[i] == Serialize(elems[i])
  {
    if |elems| == 0 then [] else [Serialize(elems[0])] + SerializeAll(elems[1..])
  }

  /** `"key":value` for each member. */
  function SerializeMembers(members: seq<(string, Json)>): (r: seq<string>)
    ensures |r| == |members|
  {
    if |members| == 0 then []
    else
      var m := members[0];
      assert m in members && m.1 < m;
      [Quote(m.0) + ":" + Serialize(m.1)] + SerializeMembers(members[1..])
  }

  lemma {:induction false} SerializeMembersAt(members: seq<(string, Json)>, i: nat)
    requires i < |members|
    ensures SerializeMembers(members)[i] == Quote(members[i].0) + ":" + Serialize(members[i].1)
    decreases i
  {
    if i > 0 {
      SerializeMembersAt(members[1..], i - 1);
    }
  }

  // ---------------------------------------------------------------------

  /** A string with nothing to escape is quoted verbatim. */
  lemma {:induction false} EscapeSafe(s: string)
    requires JsonSafe(s)
    ensures Escape(s) == s
    decreases |s|
  {
    if |s| > 0 {
      assert !NeedsEscape(s[0]);
      EscapeSafe(s[1..]);
      assert [s[0]] + s[1..] == s;
    }
  }

  /** Escaping never shortens a string, and lengthens exactly the strings
      that hold a character needing an escape. */
  lemma {:induction false} EscapeLength(s: string)
    ensures |Escape(s)| >= |s|
    ensures |Escape(s)| == |s| <==> JsonSafe(s)
    decreases |s|
  {
    if |s| > 0 {
      EscapeLength(s[1..]);
      assert JsonSafe(s) <==> !NeedsEscape(s[0]) && JsonSafe(s[1..]) by {
        if !NeedsEscape(s[0]) && JsonSafe(s[1..]) {
          forall i | 0 <= i < |s| ensures !NeedsEscape(s[i]) {
            if i > 0 {
              assert s[i] == s[1..][i - 1];
            }
          }
        }
        if JsonSafe(s) {
          forall i | 0 <= i < |s| - 1 ensures !NeedsEscape(s[1..][i]) {
            assert s[1..][i] == s[i + 1];
          }
        }
      }
    }
  }

  /** Escape leaves a string unchanged exactly when it is JSON-safe. */
  lemma EscapeIdentityIffSafe(s: string)
    ensures Escape(s) == s <==> JsonSafe(s)
  {
    EscapeLength(s);
    if JsonSafe(s) {
      EscapeSafe(s);
    }
  }

  lemma QuoteSafe(s: string)
    requires JsonSafe(s)
    ensures Quote(s) == "\"" + s + "\""
  {
    EscapeSafe(s);
  }

  /** The first character of a JSON text tells which kind of value it is. */
  lemma SerializeFirst(j: Json)
    ensures |Serialize(j)| > 0
    ensures Serialize(j)[0] == '{' <==> j.JObject?
  {
    match j
    case JNumber(n) =>
      assert IsDigit(IntToString(n)[0]) || IntToString(n)[0] == '-';
    case _ =>
  }

  /** The text of an object with members is at least `{"":x}` long. */
  lemma ObjectTextLength(members: seq<(string, Json)>)
    requires |members| > 0
    ensures |Serialize(JObject(members))| >= 6
  {
    var parts := SerializeMembers(members);
    SerializeMembersAt(members, 0);
    SerializeFirst(members[0].1);
    assert |parts[0]| >= 4;
    JoinLength(parts, ",");
  }

  /** `{"}`, which the decoder returns for empty input, is not the text of
      any JSON value. */
  lemma BrokenEmptyObjectIsNotJson(j: Json)
    ensures Serialize(j) != "{\"}"
  {
    SerializeFirst(j);
    if j.JObject? && |j.members| > 0 {
      ObjectTextLength(j.members);
    }
  }

  /** Prefixing every part with `p` is the same as prefixing the whole join
      and the separator with `p`. */
  lemma {:induction false} JoinShift(outs: seq<string>, members: seq<string>, p: string, sep: string)
    requires |outs| == |members| > 0
    requires forall i | 0 <= i < |outs| :: members[i] == p + outs[i]
    ensures p + Join(outs, sep + p) == Join(members, sep)
    decreases |outs|
  {
    if |outs| > 1 {
      JoinShift(outs[1..], members[1..], p, sep);
      assert p + (outs[0] + (sep + p) + Join(outs[1..], sep + p))
          == (p + outs[0]) + sep + (p + Join(outs[1..], sep + p));
    }
  }

  /** The JSON member text `key":value` without its opening quote (which
      comes from the preceding `{"` or `,"`). */
  function MemberBody(member: (string, Json)): string {
    member.0 + "\":" + Serialize(member.1)
  }

  function MemberBodies(members: seq<(string, Json)>): (r: seq<string>)
    ensures |r| == |members|
    ensures forall i | 0 <= i < |members| :: r[i] == MemberBody(members[i])
  {
    seq(|members|, i requires 0 <= i < |members| => MemberBody(members[i]))
  }

  lemma QuotedKeyConcat(k: string, t: string)
    ensures "\"" + k + "\"" + ":" + t == "\"" + (k + "\":" + t)
  {
    assert "\"" + ":" == "\":";
    assert "\"" + k + "\"" + ":" + t == "\"" + k + ("\"" + ":") + t;
  }

  /** With a JSON-safe key, a member's text is a quote and its body. */
  lemma MemberTextAt(members: seq<(string, Json)>, i: nat)
    requires i < |members| && JsonSafe(members[i].0)
    ensures SerializeMembers(members)[i] == "\"" + MemberBody(members[i])
  {
    var k := members[i].0;
    var t := Serialize(members[i].1);
    SerializeMembersAt(members, i);
    assert SerializeMembers(members)[i] == Quote(k) + ":" + t;
    QuoteSafe(k);
    assert Quote(k) + ":" + t == "\"" + k + "\"" + ":" + t;
    QuotedKeyConcat(k, t);
  }

  lemma MemberTexts(members: seq<(string, Json)>)
    requires forall i | 0 <= i < |members| :: JsonSafe(members[i].0)
    ensures forall i | 0 <= i < |members| :: SerializeMembers(members)[i] == "\"" + MemberBodies(members)[i]
  {
    forall i | 0 <= i < |members| ensures SerializeMembers(members)[i] == "\"" + MemberBodies(members)[i] {
      MemberTextAt(members, i);
    }
  }

  /** JSON.stringify's text of an object with JSON-safe keys is `{"`, the
      member bodies joined by `,"`, and `}`. */
  lemma ObjectText(members: seq<(string, Json)>)
    requires |members| > 0
    requires forall i | 0 <= i < |members| :: JsonSafe(members[i].0)
    ensures Serialize(JObject(members))
         == "{\"" + Join(MemberBodies(members), ",\"") + "}"
  {
    var bodies := MemberBodies(members);
    var texts := SerializeMembers(members);
    MemberTexts(members);
    assert "," + "\"" == ",\"";
    JoinShift(bodies, texts, "\"", ",");
    var j := Join(bodies, ",\"");
    assert "\"" + j == Join(texts, ",");
    assert Serialize(JObject(members)) == "{" + Join(texts, ",") + "}";
    assert "{" + ("\"" + j) + "}" == "{\"" + j + "}";
  }
}
