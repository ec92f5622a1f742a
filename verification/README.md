# fast-json-query-params, modelled in Dafny

fast-json-query-params turns a flat JavaScript object into a query-parameter
string that decodes back to JSON text with almost no parsing work.

The encoder (`encodeObjectAsJsonParams`) writes each entry whose value is not
`undefined` as a `key=value` segment and joins the segments with `&`. Each
value is written by `encodeValue`:

- a string is `'…'`, holding its `encodeURIComponent` form with `'`, `(` and `)` escaped as well;
- a number, boolean or BigInt is its `toString()`;
- a Date is `'…'` around the `encodeURIComponent` form of its `toJSON()`;
- an array is `(…)`, its elements joined by `%2C`;
- `null` is `null`;
- anything else throws.

The decoder (`decodeJsonParamsAsString`) works in one scan. It replaces
`'` `(` `)` `=` `&` by `"` `[` `]` `":` `,"` (the table `jsonCharsMap`).
Then it percent-decodes the result and wraps it in `{"` … `}`.
`decodeJsonParams` hands that text to `JSON.parse`.

The modules are these.

- `Wrappers`: `Option` and `Result`. `None` stands for `undefined`, and a `Failure` for a thrown exception.
- `Hex`, `Utf8`, `Percent`: the percent codec. It stands for JavaScript's `encodeURIComponent` and `decodeURIComponent` (section 19.2.6 of ECMA-262, "URI Handling Functions"). Non-unreserved characters become the `%XX` escapes of their UTF-8 octets (section 2.1 of RFC 3986, RFC 3629). Decoding fails on a malformed escape or on invalid UTF-8.
- `Text`: `Array.prototype.join`, counting, and the decimal rendering of integers.
- `Substitution`: `jsonCharsMap` and the single-scan replacement. It also holds the benchmark's two alternatives (a `switch` callback and five sequential `replaceAll` passes), which it is proved equal to.
- `Json`: a JSON data model and `JSON.stringify` for it. This is the independent reference that decoded text is compared against.
- `Values`: the values the encoder dispatches on, and the object as an ordered sequence of entries. It also holds the lossy mapping `Lossy`: what `JSON.parse` gives back for the decoded text, with dates as their ISO text and BigInts as plain numbers at every depth. The test helper `replaceLossyParams` converts top-level entries only; for the test file's objects, which hold no date or BigInt inside an array, the two agree.
- `Codec`: `encodeValue`, `encodeObjectAsJsonParams`, `decodeJsonParamsAsString` and `decodeJsonParams`.
- `RoundTrip`: the decoder taken apart piece by piece, then the round trip the tests assert. For plain keys and supported values, decoding the encoding gives `JSON.stringify` of the lossy object.
- `Vectors`: the test file's parameter strings, worked out in both directions. Each literal string equality is stated in a lemma of its own, which keeps every proof small.

## Model

| member | source | states |
|---|---|---|
| Substitution.SubstituteTable | src/index.ts:5-11 | The five table entries `'`→`"`, `(`→`[`, `)`→`]`, `=`→`":`, `&`→`,"`; every other character is kept as it is |
| Substitution.LookupChar | src/index.ts:53-56 | The replacement of one character is one or two characters long, two exactly for `=` and `&`, and holds no structural character |
| Substitution.Substitute | src/index.ts:53-56 | No structural character survives the replacement |
| Substitution.SubstituteLength | src/index.ts:53-56 | The output length is the input length plus the number of `=` plus the number of `&` |
| Substitution.SubstituteChars | src/index.ts:53-56 | Every output character comes from the input or is one of the JSON punctuation characters `"[]:,` |
| Substitution.SubstituteAppend | src/index.ts:53-56 | The replacement is character-local: substituting a concatenation is concatenating the substitutions |
| Substitution.SubstitutePlain | src/index.ts:53-56 | Text with no structural character passes through unchanged |
| Substitution.SubstituteIdempotent | src/index.ts:53-56 | Substituting a second time changes nothing |
| Substitution.ReplaceAll | src/index.ts:66-68 | After `replaceAll(target, rep)` with `target` not in `rep`, no `target` is left; every output character comes from the input or from `rep` |
| Substitution.ReplaceAllAppend | benchmarks/variations-bench.js:41-46 | A single-character `replaceAll` distributes over concatenation |
| Substitution.LookupEqualsSwitch | benchmarks/variations-bench.js:13-35 | The table-lookup callback and the benchmark's `switch` callback give the same text on every input |
| Substitution.SequentialSingle | benchmarks/variations-bench.js:41-46 | On a single character the five passes give its table entry: no pass introduces a character a later pass targets |
| Substitution.SinglePassEqualsSequential | benchmarks/variations-bench.js:37-54 | The single scan equals the five sequential `replaceAll` passes in the order `'`, `(`, `)`, `=`, `&`, on every input |
| Text.JoinExcludes | src/index.ts:30 | A character that is in no part and not in the separator is not in the join |
| Text.Count | src/index.ts:53-56 | The count of a character is at most the length, and zero exactly when the character is absent |
| Text.NatToString | src/index.ts:70-72 | Decimal digits only, with a leading `0` exactly for zero |
| Text.IntToString | src/index.ts:70-72 | Digits and a leading `-` exactly for negative numbers |
| Text.DigitsValueNatToString | src/index.ts:70-72 | The digits spell the number back |
| Text.ParseIntToString | src/index.ts:70-72 | Reading the rendering of any integer gives the integer back |
| Hex.HexValue | src/index.ts:52 | A character has a hexadecimal value exactly when it is a hex digit of either case, and the value is below 16 |
| Hex.ByteToHex | src/index.ts:65 | Two hexadecimal digits |
| Hex.ParseHexOctet | src/index.ts:52 | Two characters read as an octet exactly when both are hex digits |
| Hex.ParseByteToHex | src/index.ts:52 | Reading the two digits back gives the octet |
| Utf8.EncodeChar | src/index.ts:65 | One to four octets; one exactly below 0x80; otherwise the lead octet announces the length and the rest are continuation octets |
| Utf8.DecodeSequence | src/index.ts:52 | A sequence that decodes has only continuation octets after its lead octet |
| Utf8.DecodeEncodeChar | src/index.ts:52 | Decoding the multi-octet encoding of a character gives the character |
| Utf8.EncodeDecodeSequence | src/index.ts:52 | A sequence that decodes is exactly the encoding of its result, so no overlong or other alternative spelling is accepted |
| Percent.EscapeBytes | src/index.ts:65 | Three characters per octet, each `%` or alphanumeric |
| Percent.EncodeUriChar | src/index.ts:65 | A character is its own encoding exactly when it is unreserved; the encoding holds only `%` and unreserved characters, and is one character or a `%`-led run of three to twelve characters, three per octet |
| Percent.EncodeUriComponent | src/index.ts:65 | The output holds only `%` and unreserved characters, any non-alphanumeric character of it is from the input, and it is never shorter than the input |
| Percent.EncodeUriComponentAppend | src/index.ts:65 | Encoding distributes over concatenation |
| Percent.EncodeUnreservedText | src/index.ts:74 | Text of unreserved characters only, such as most of a timestamp, is left as it is |
| Percent.ParseEscapes | src/index.ts:52 | A run of escapes read as octets is three characters per octet |
| Percent.DecodeEscape | src/index.ts:52 | A decoded escape uses a positive multiple of three characters, and a single escape gives an ASCII character |
| Percent.DecodeUriComponent | src/index.ts:52 | A successful decode is never longer than its input |
| Percent.DecodeTokenPrefix | src/index.ts:52 | Decoding the first character reads nothing beyond the characters it uses |
| Percent.DecodeAppend | src/index.ts:52 | Decoding distributes over a concatenation whose left part decodes on its own; the first failure wins |
| Percent.DecodeEscapeChar | src/index.ts:52 | The escapes of any character's UTF-8 octets decode to that character |
| Percent.DecodeEncodeUriComponent | src/index.ts:52 | `decodeURIComponent(encodeURIComponent(s)) == s` for every string |
| Percent.DecodeWithoutEscapes | src/index.ts:52 | Text with no `%` decodes to itself |
| Percent.BadEscapeFails | src/index.ts:52 | After a prefix that decodes, a `%` not followed by two hexadecimal digits makes the decode fail |
| Percent.DecodeIsStable | src/index.ts:52 | Re-encoding and decoding a successful decode's result gives the same result |
| Json.EscapeChar | src/index.test.ts:53 | `JSON.stringify`'s escape of a character is the character itself exactly when it needs no escape |
| Json.SerializeAll | src/index.test.ts:53 | One text per element, each that element's serialization |
| Json.SerializeMembers | src/index.test.ts:53 | One text per member |
| Json.SerializeMembersAt | src/index.test.ts:53 | The text of a member is its quoted key, `:` and its value's text |
| Json.EscapeSafe | src/index.test.ts:53 | A string needing no escape is its own escape |
| Json.EscapeLength | src/index.test.ts:53 | Escaping never shortens a string, and keeps its length exactly when the string needs no escape |
| Json.EscapeIdentityIffSafe | src/index.test.ts:53 | Escaping leaves a string unchanged if and only if it needs no escape |
| Json.QuoteSafe | src/index.test.ts:53 | The literal of a safe string is the string between double quotes |
| Json.SerializeFirst | src/index.test.ts:53 | Every JSON text is non-empty, and it starts with `{` exactly for objects |
| Json.ObjectTextLength | src/index.test.ts:53 | An object with a member has a text of at least six characters |
| Json.BrokenEmptyObjectIsNotJson | src/index.ts:50-58 | `{"}`, which the decoder gives for empty input, is the text of no JSON value |
| Json.JoinShift | src/index.test.ts:53 | Prefixing every part with `p` is prefixing the join and the separator with `p` |
| Json.MemberTextAt | src/index.test.ts:53 | A member with a safe key is `"` followed by its body |
| Json.ObjectText | src/index.test.ts:53 | A non-empty object with safe keys is `{"`, the member bodies joined by `,"`, and `}`: the shape the decoder builds |
| Values.IsoTextSafe | src/index.ts:73-75 | A `toJSON()` timestamp needs no JSON escape |
| Values.Defined | src/index.ts:26 | The kept entries are never more than the object has |
| Values.DefinedAppend | src/index.ts:25-27 | The loop keeps entry order: the kept entries of a concatenation are those of the first part followed by those of the second |
| Values.DefinedSingle | src/index.ts:26-27 | A single entry is kept, with its key and value, exactly when its value is not `undefined` |
| Values.DefinedKeeps | src/index.ts:26-27 | Every entry whose value is not `undefined` is kept |
| Values.Lossy | src/index.test.ts:57-67 | Strings and dates become JSON strings and arrays become JSON arrays, at every depth, as `JSON.parse` gives them back; for top-level entries this is the conversion of `replaceLossyParams` |
| Values.LossyAll | src/index.test.ts:57-67 | One JSON value per element, each that element's lossy value |
| Values.LossyMembers | src/index.test.ts:57-67 | One member per defined entry, with its key and its lossy value |
| Values.SupportedEncodable | src/index.ts:62-83 | A supported value is one the encoder accepts |
| Values.DefinedMembers | src/index.ts:25-28 | Every defined entry is an entry of the object with that key and value |
| Values.DefinedPlain | src/index.ts:25-28 | The defined entries of a plain object have plain keys and supported values |
| Codec.QuotedNoSeparators | src/index.ts:64-75 | A quoted payload of `%` and unreserved characters holds no `&` or `=` |
| Codec.EncodeStringPayload | src/index.ts:65-68 | The string payload holds only `%` and unreserved characters other than `'`, `(` and `)` |
| Codec.EscapeMarkKeepsClean | src/index.ts:66-68 | Escaping one more mark with an escape of `%` and unreserved characters keeps the text clean and leaves none of that mark |
| Codec.EncodeValue | src/index.ts:62-83 | Succeeds exactly for values with no refused part; a success holds no `&` or `=`; a refused value fails with its own description |
| Codec.ArrayNoSeparators | src/index.ts:76-78 | Array text built from separator-free elements is separator-free |
| Codec.EncodeAll | src/index.ts:77 | Succeeds exactly when every element is accepted, with one encoding per element, in order |
| Codec.DefinedEncodableCons | src/index.ts:25-28 | A defined first entry heads the defined entries, and everything is encodable exactly when it and the rest are |
| Codec.Segments | src/index.ts:24-29 | Succeeds exactly when every defined value is accepted; the segments are `key=value` for the defined entries, in entry order |
| Codec.EncodeObject | src/index.ts:23-31 | Succeeds exactly when every defined value is accepted; an object with no defined entry encodes to `""` |
| Codec.DecodeAsString | src/index.ts:49-60 | A success starts with `{"` and ends with `}` |
| Codec.DecodeAsStringFixed | src/index.ts:49-60 | The corrected decoder gives `{}`, the text of the empty JSON object, exactly when the input is empty; it fails on exactly the inputs `decodeJsonParamsAsString` fails on, and every result is `{` … `}` |
| RoundTrip.DecodeWithoutPercent | src/index.ts:49-60 | Input without `%` always decodes, to its substitution wrapped in `{"` `}` |
| RoundTrip.DecodeEmpty | src/index.ts:49-60 | The empty input decodes to `{"}` |
| RoundTrip.DecodeFailsOnBadEscape | src/index.ts:52-56 | After a prefix that decodes, a `%` without two hexadecimal digits after it makes the decode fail |
| RoundTrip.SubstituteHead | src/index.ts:53-56 | Substitution of a non-empty text is that of its first character followed by that of the rest; a hex digit is kept, and a non-hex character gives no hex digit |
| RoundTrip.BadEscapeSurvives | src/index.ts:53-56 | Substitution keeps a malformed escape malformed |
| RoundTrip.FragmentAppend | src/index.ts:52-56 | Substituting and decoding distributes over concatenation |
| RoundTrip.FragmentWrap | src/index.ts:52-56 | Escape-free delimiters decode to their substitutions around the decoded body |
| RoundTrip.FragmentJoin | src/index.ts:52-56 | Joined parts decode to their decodings joined by the decoded separator |
| RoundTrip.StringPayloadAppend | src/index.ts:65-68 | The payload of a concatenation is the concatenation of the payloads |
| RoundTrip.PayloadMark | src/index.ts:66-68 | `'`, `(` and `)` become `%27`, `%28` and `%29` |
| RoundTrip.PayloadOther | src/index.ts:65-68 | Any other character gets just its `encodeURIComponent` form |
| RoundTrip.DecodeStringPayload | src/index.ts:65-68 | Percent-decoding a string's payload gives the string back |
| RoundTrip.AlphaNumPayload | src/index.ts:65-68 | An alphanumeric string is its own payload |
| RoundTrip.CommaEscape | src/index.ts:77 | A comma is escaped as `%2C`, the array separator |
| RoundTrip.StringPayloadClean | src/index.ts:65-68 | A payload holds none of `'`, `(`, `)`, `=`, `&` or `,` |
| RoundTrip.QuotedFragment | src/index.ts:52-56 | A quoted clean payload decodes to its decoding between double quotes |
| RoundTrip.StringRoundTrip | src/index.ts:64-69 | Every string comes back verbatim between double quotes, which is its JSON literal when it needs no escape |
| RoundTrip.UnsafeStringBreaksRoundTrip | src/index.ts:64-69 | A string holding a character JSON escapes does not come back as its JSON literal |
| RoundTrip.IsoEncodingClean | src/index.ts:73-75 | A timestamp's `encodeURIComponent` form holds no structural character |
| RoundTrip.DateRoundTrip | src/index.ts:73-75 | A date's encoding decodes to the JSON literal of its ISO text |
| RoundTrip.CommaFragment | src/index.ts:77 | `%2C` decodes to a comma |
| RoundTrip.ArrayFragment | src/index.ts:76-78 | Encoded elements in parentheses decode to their decodings in brackets, separated by commas |
| RoundTrip.ScalarValueRoundTrip | src/index.ts:70-72 | Numbers, BigInts and booleans decode to their JSON text |
| RoundTrip.ValueRoundTrip | src/index.ts:62-83 | Every supported value encodes, and its encoding decodes to `JSON.stringify` of its lossy value |
| RoundTrip.SeparatorFragments | src/index.ts:5-11 | `=` decodes to `":` and `&` to `,"` |
| RoundTrip.PlainKeyFragment | src/index.ts:27 | A plain key is written and read back verbatim |
| RoundTrip.SegmentRoundTrip | src/index.ts:27 | A `key=value` segment decodes to the JSON member body `key":value` |
| RoundTrip.SegmentsRoundTrip | src/index.ts:24-29 | Each segment decodes to the member body of its entry |
| RoundTrip.ObjectBodyRoundTrip | src/index.ts:23-31 | The joined segments decode to the member bodies joined by `,"` |
| RoundTrip.ObjectRoundTrip | src/index.test.ts:44-54 | For an object with plain keys, supported values and a defined entry, decoding the encoding gives `JSON.stringify` of the lossy object |
| RoundTrip.EmptyObjectBreaksRoundTrip | src/index.ts:49-60 | An object with no defined entry encodes to `""`, which decodes to `{"}`; `{}` is the expected text, and `{"}` is the text of no JSON value |
| RoundTrip.FixedRoundTrip | src/index.ts:49-60 | With the corrected decoder the round trip holds for every plain object, empty ones included |
| RoundTrip.DecodeJsonParamsRoundTrip | src/index.ts:39-41 | Given a `JSON.parse` that reads back `JSON.stringify`, `decodeJsonParams` returns the lossy object |
| RoundTrip.SegmentsSkipUndefined | src/index.ts:26 | An `undefined` entry, wherever it sits, adds no segment |
| RoundTrip.OmitUndefined | src/index.ts:26 | Adding an `undefined` entry anywhere leaves the encoding unchanged |
| Vectors.SegmentsCons | src/index.ts:24-29 | A defined first entry contributes its `key=value` segment ahead of the rest's segments |
| Vectors.SegmentsTwo | src/index.ts:24-29 | Two defined entries give their two segments, in order |
| Vectors.EncodeSingle | src/index.ts:23-31 | An object with one defined entry encodes to that entry's segment |
| Vectors.EncodeTwo | src/index.ts:30 | Two defined entries are joined by `&` |
| Vectors.EncodeStringVector | src/index.test.ts:14 | `{ s1: 'xyz' }` encodes to `s1='xyz'` |
| Vectors.EncodeMarksVector | src/index.test.ts:15 | `{ s1: "abc(')" }` encodes to `s1='abc%28%27%29'` |
| Vectors.EncodeIntegerVectors | src/index.test.ts:16-18 | `{ i1: 123 }` encodes to `i1=123` and `{ I1: BigInt(123) }` to `I1=123` |
| Vectors.EncodeBoolVectors | src/index.test.ts:19-20 | `{ b1: true }` and `{ b1: false }` encode to `b1=true` and `b1=false` |
| Vectors.EncodeNullVector | src/index.test.ts:21 | `{ n1: null }` encodes to `n1=null` |
| Vectors.EncodeDateVector | src/index.test.ts:22-24 | The date entry encodes to `d1='2021-01-01T00%3A00%3A00.000Z'` |
| Vectors.EncodeNumbersVector | src/index.test.ts:25 | `{ a1: [1, 2, 3] }` encodes to `a1=(1%2C2%2C3)` |
| Vectors.EncodeStringsVector | src/index.test.ts:26 | `{ a2: ['a,1', 'b,2', 'c,3'] }` encodes to `a2=('a%2C1'%2C'b%2C2'%2C'c%2C3')` |
| Vectors.EncodeEmptyArray | src/index.ts:77 | The empty array encodes to `()` |
| Vectors.EncodeEntriesVector | src/index.ts:25-30 | `{ b1: true, u: undefined, n1: null }` encodes to `b1=true&n1=null` |
| Vectors.EncodeNestedObjectFails | src/index.ts:82 | A nested object is refused with the text `[object Object]` |
| Vectors.EncodeArrayWithObjectFails | src/index.ts:76-82 | A refused element makes the array, and so the object, fail |
| Vectors.DecodeEntry | src/index.test.ts:52-53 | A single segment decodes to the one-member object text of its lossy value |
| Vectors.DecodeStringVector | src/index.test.ts:14 | `s1='xyz'` decodes to `{"s1":"xyz"}` |
| Vectors.DecodeMarksVector | src/index.test.ts:15 | `s1='abc%28%27%29'` decodes to `{"s1":"abc(')"}` |
| Vectors.DecodeIntegerVectors | src/index.test.ts:16-18 | `i1=123` and `I1=123` decode to `{"i1":123}` and `{"I1":123}` |
| Vectors.DecodeBoolVectors | src/index.test.ts:19-20 | `b1=true` and `b1=false` decode to `{"b1":true}` and `{"b1":false}` |
| Vectors.DecodeNullVector | src/index.test.ts:21 | `n1=null` decodes to `{"n1":null}` |
| Vectors.DecodeDateEntry | src/index.test.ts:22-24 | A date segment decodes to a one-member object holding its ISO text as a JSON string |
| Vectors.DecodeDateVector | src/index.test.ts:22-24 | `d1='2021-01-01T00%3A00%3A00.000Z'` decodes to `{"d1":"2021-01-01T00:00:00.000Z"}` |
| Vectors.DecodeNumbersVector | src/index.test.ts:25 | `a1=(1%2C2%2C3)` decodes to `{"a1":[1,2,3]}` |
| Vectors.DecodeStringsVector | src/index.test.ts:26 | `a2=('a%2C1'%2C'b%2C2'%2C'c%2C3')` decodes to `{"a2":["a,1","b,2","c,3"]}` |

## Left out

- Floating-point numbers: `Num` holds an integer, so `123.456` (src/index.test.ts:17), exponent notation, `NaN` and `Infinity` are not modelled. Number-to-text conversion is not a string function one can write down briefly.
- `Date.prototype.toJSON` is not modelled: a date carries its ISO text. An invalid date, whose `toJSON()` is `null`, is not modelled.
- `Number(bigint)` beyond 2^53: the round trip asks that a BigInt be at most 2^53 in magnitude, where the conversion is exact. Rounding above that bound is not modelled.
- The `URIError` that `encodeURIComponent` throws on a lone surrogate: a Dafny string holds Unicode scalar values only, so no such input exists in the model.
- `JSON.parse` is a parameter of `DecodeJsonParams`. The round trip assumes it reads back what `JSON.stringify` writes.
- `Object.entries` ordering (integer-like keys first) is not modelled: the object is the sequence of its entries in iteration order.
- `undefined` inside an array, functions, symbols and nested objects are all `Other(description)`, refused with `CannotEncode(description)`. For most of them the description is the text `${value}` gives (`undefined` inside an array reaches `encodeValue(undefined)` through `map` and is refused as `Cannot encode value: undefined`).
- Codec.EncodeValue: for a symbol the template `${value}` (src/index.ts:82) itself throws a TypeError, so the source's error is not `Cannot encode value`; the model reports it as a refusal with a description all the same.
- Holes in sparse arrays are not modelled: `map` skips a hole and `join` writes it as the empty string, so the source encodes it as an empty element without throwing.
- Codec.EncodeValue: a `Num` is written with all its digits, which matches `Number.prototype.toString` only for |n| ≤ 2^53. Above that JavaScript prints the shortest digits that read back to the same double, padded with zeros (2^60 prints as `1152921504606847000`), and that rounding is not modelled.
- The twelve-entry vector (src/index.test.ts:27-41) is not worked out literally. `RoundTrip.ObjectRoundTrip` covers it, together with `Vectors.EncodeTwo` for the `&` joins.
- The benchmark's timing, heap measurement and console output are not modelled. Only its equivalence check (benchmarks/variations-bench.js:54) is.
- RoundTrip.ObjectRoundTrip: keys of defined entries must be plain (no `'`, `(`, `)`, `=`, `&`, `%` and nothing JSON escapes), because the encoder writes keys unescaped (src/index.ts:27). String values must need no JSON escape, because the decoder adds none. `RoundTrip.UnsafeStringBreaksRoundTrip` shows that the string condition is needed.
- RoundTrip.ObjectRoundTrip: the object needs at least one defined entry; the Findings table gives the reason.

## Findings

| source | as written | input that shows it | evidently intended | confidence | as-written member | corrected member |
|---|---|---|---|---|---|---|
| src/index.ts:49-60 | `decodeJsonParamsAsString` always puts `{"` before the decoded text. An object with no defined entry encodes to `""`, and `""` decodes to `{"}`, which is not JSON, so `decodeJsonParams` throws | `encodeObjectAsJsonParams({})`, or any object whose values are all `undefined`, is `""`, and decoding `""` gives `{"}` | the empty input decodes to `{}`, so the round trip holds for empty objects too | not executed | RoundTrip.EmptyObjectBreaksRoundTrip | RoundTrip.FixedRoundTrip |
