/** The decode-side character substitution: the five structural characters of
    the parameter syntax are replaced, in one scan, by the JSON punctuation
    they stand for. Also the two alternatives the single scan is checked
    against: a branch per character, and five whole-string `replaceAll`
    passes. */
module Substitution {
  import opened Text

  /** jsonCharsMap: each structural character and the JSON fragment it becomes. */
  const JsonCharsMap: map<char, string> :=
    map['\'' := "\"", '(' := "[", ')' := "]", '=' := "\":", '&' := ",\""]

  /** The characters the decoder's pattern `'|\(|\)|=|&` matches. */
  predicate IsStructural(c: char) {
    c in JsonCharsMap
  }

  predicate NoStructural(s: string) {
    forall i | 0 <= i < |s| :: !IsStructural(s[i])
  }

  /** The replacement callback: the table entry of a matched character. */
  function LookupChar(c: char): (r: string)
    ensures 1 <= |r| <= 2
    ensures NoStructural(r)
    ensures |r| == 2 <==> c == '=' || c == '&'
    ensures forall i | 0 <= i < |r| :: r[i] == c || r[i] in "\"[]:,"
  {
    if c in JsonCharsMap then JsonCharsMap[c] else [c]
  }

  /** The single-pass substitution: a global replace whose callback looks the
      matched character up in the table; other characters are copied. The
      result holds no structural character. */
  function Substitute(s: string): (r: string)
    ensures NoStructural(r)
  {
    if |s| == 0 then "" else LookupChar(s[0]) + Substitute(s[1..])
  }

  /** The benchmark's variant that branches on the matched character. */
  function SwitchChar(c: char): string {
    match c
    case '\'' => "\""
    case '(' => "["
    case ')' => "]"
    case '=' => "\":"
    case '&' => ",\""
    case _ => [c]
  }

  function SubstituteSwitch(s: string): string {
    if |s| == 0 then "" else SwitchChar(s[0]) + SubstituteSwitch(s[1..])
  }

  /** String.prototype.replaceAll with a one-character pattern: every
      occurrence of `target` becomes `rep`, everything else is kept. */
  function ReplaceAll(s: string, target: char, rep: string): (r: string)
    ensures target !in rep ==> target !in r
    ensures forall i | 0 <= i < |r| :: r[i] in s || r[i] in rep
  {
    if |s| == 0 then ""
    else (if s[0] == target then rep else [s[0]]) + ReplaceAll(s[1..], target, rep)
  }

  /** The benchmark's variant: five whole-string passes, in table order. */
  function SubstituteSequential(s: string): string {
    ReplaceAll(ReplaceAll(ReplaceAll(ReplaceAll(ReplaceAll(
      s, '\'', "\""), '(', "["), ')', "]"), '=', "\":"), '&', ",\"")
  }

  // ---------------------------------------------------------------------

  /** The five table entries, and every other character left alone. */
  lemma SubstituteTable(c: char)
    ensures Substitute([c]) == (
      if c == '\'' then "\"" else if c == '(' then "[" else if c == ')' then "]"
      else if c == '=' then "\":" else if c == '&' then ",\"" else [c])
  {
    assert [c][1..] == "";
  }

  /** Each `=` or `&` grows the text by one character; nothing else changes
      the length. */
  lemma {:induction false} SubstituteLength(s: string)
    ensures |Substitute(s)| == |s| + Count(s, '=') + Count(s, '&')
    decreases |s|
  {
    if |s| > 0 {
      SubstituteLength(s[1..]);
    }
  }

  /** Every character of the output is copied from the input or is JSON
      punctuation from the table. */
  lemma {:induction false} SubstituteChars(s: string)
    ensures forall i | 0 <= i < |Substitute(s)| :: Substitute(s)[i] in s || Substitute(s)[i] in "\"[]:,"
    decreases |s|
  {
    if |s| > 0 {
      SubstituteChars(s[1..]);
      var h, t := LookupChar(s[0]), Substitute(s[1..]);
      forall i | 0 <= i < |h + t| ensures (h + t)[i] in s || (h + t)[i] in "\"[]:," {
        if i < |h| {
          assert (h + t)[i] == h[i];
        } else {
          assert (h + t)[i] == t[i - |h|];
          assert t[i - |h|] in s[1..] ==> t[i - |h|] in s;
        }
      }
    }
  }

  lemma {:induction false} SubstituteAppend(a: string, b: string)
    ensures Substitute(a + b) == Substitute(a) + Substitute(b)
    decreases |a|
  {
    if |a| == 0 {
      assert a + b == b;
    } else {
      assert (a + b)[0] == a[0];
      assert (a + b)[1..] == a[1..] + b;
      SubstituteAppend(a[1..], b);
    }
  }

  /** Text without structural characters passes through unchanged. */
  lemma {:induction false} SubstitutePlain(s: string)
    requires NoStructural(s)
    ensures Substitute(s) == s
    decreases |s|
  {
    if |s| > 0 {
      assert !IsStructural(s[0]);
      SubstitutePlain(s[1..]);
      assert [s[0]] + s[1..] == s;
    }
  }

  /** Substituting twice is substituting once. */
  lemma SubstituteIdempotent(s: string)
    ensures Substitute(Substitute(s)) == Substitute(s)
  {
    SubstitutePlain(Substitute(s));
  }

  /** The lookup callback and the branching callback agree everywhere. */
  lemma {:induction false} LookupEqualsSwitch(s: string)
    ensures Substitute(s) == SubstituteSwitch(s)
    decreases |s|
  {
    if |s| > 0 {
      assert LookupChar(s[0]) == SwitchChar(s[0]);
      LookupEqualsSwitch(s[1..]);
    }
  }

  lemma {:induction false} ReplaceAllAppend(a: string, b: string, target: char, rep: string)
    ensures ReplaceAll(a + b, target, rep) == ReplaceAll(a, target, rep) + ReplaceAll(b, target, rep)
    decreases |a|
  {
    if |a| == 0 {
      assert a + b == b;
    } else {
      assert (a + b)[0] == a[0];
      assert (a + b)[1..] == a[1..] + b;
      ReplaceAllAppend(a[1..], b, target, rep);
    }
  }

  lemma ReplaceAllSingle(c: char, target: char, rep: string)
    ensures ReplaceAll([c], target, rep) == if c == target then rep else [c]
  {
    assert [c][1..] == "";
  }

  /** The five passes, applied to a single character, give its table entry:
      no pass introduces a character that a later pass targets. */
  lemma SequentialSingle(c: char)
    ensures SubstituteSequential([c]) == LookupChar(c)
  {
    // After the first pass the single character is `d`; it stays a single
    // character through the next three passes.
    var d := if c == '\'' then '"' else c;
    ReplaceAllSingle(c, '\'', "\"");
    var e := if d == '(' then '[' else d;
    ReplaceAllSingle(d, '(', "[");
    var f := if e == ')' then ']' else e;
    ReplaceAllSingle(e, ')', "]");
    ReplaceAllSingle(f, '=', "\":");
    if f == '=' {
      ReplaceAllAppend("\"", ":", '&', ",\"");
      ReplaceAllSingle('"', '&', ",\"");
      ReplaceAllSingle(':', '&', ",\"");
      assert "\"" + ":" == "\":";
    } else {
      ReplaceAllSingle(f, '&', ",\"");
    }
  }

  lemma SequentialAppend(a: string, b: string)
    ensures SubstituteSequential(a + b) == SubstituteSequential(a) + SubstituteSequential(b)
  {
    ReplaceAllAppend(a, b, '\'', "\"");
    var a1, b1 := ReplaceAll(a, '\'', "\""), ReplaceAll(b, '\'', "\"");
    ReplaceAllAppend(a1, b1, '(', "[");
    var a2, b2 := ReplaceAll(a1, '(', "["), ReplaceAll(b1, '(', "[");
    ReplaceAllAppend(a2, b2, ')', "]");
    var a3, b3 := ReplaceAll(a2, ')', "]"), ReplaceAll(b2, ')', "]");
    ReplaceAllAppend(a3, b3, '=', "\":");
    var a4, b4 := ReplaceAll(a3, '=', "\":"), ReplaceAll(b3, '=', "\":");
    ReplaceAllAppend(a4, b4, '&', ",\"");
  }

  /** The single scan gives exactly the text of the five sequential passes. */
  lemma {:induction false} SinglePassEqualsSequential(s: string)
    ensures Substitute(s) == SubstituteSequential(s)
    decreases |s|
  {
    if |s| > 0 {
      assert s == [s[0]] + s[1..];
      SequentialAppend([s[0]], s[1..]);
      SequentialSingle(s[0]);
      SinglePassEqualsSequential(s[1..]);
    }
  }
}
