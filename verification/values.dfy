/** The values the encoder accepts, the object it encodes, and the lossy
    mapping from those values to the JSON that decoding gives back. */
module Values {
  import opened Wrappers
  import opened Text
  import opened Json

  /** A JavaScript value as the encoder's type dispatch sees it. `Num` is an
      integral number, `Date` carries its `toJSON()` text, and `Other`
      stands for every value the encoder refuses (objects, functions,
      symbols, `undefined` inside an array) with a description of it: the
      text `${value}` gives, except for a symbol, for which that template
      itself throws a TypeError. */
  datatype Value =
    | Str(s: string)
    | Num(n: int)
    | BigInt(n: int)
    | Bool(b: bool)
    | Null
    | Date(iso: string)
    | Arr(elems: seq<Value>)
    | Other(description: string)

  /** An object's own entries in iteration order; `None` is `undefined`. */
  type Object = seq<(string, Option<Value>)>

  /** No `Other` anywhere inside the value. */
  predicate Encodable(v: Value) {
    match v
    case Other(_) => false
    case Arr(elems) => forall i | 0 <= i < |elems| :: Encodable(elems[i])
    case _ => true
  }

  /** The characters of an ISO-8601 timestamp as Date.prototype.toJSON writes it. */
  predicate IsIsoChar(c: char) {
    IsDigit(c) || c in "-+:.TZ"
  }

  /** A timestamp needs no JSON escapes. */
  lemma IsoTextSafe(iso: string)
    requires forall i | 0 <= i < |iso| :: IsIsoChar(iso[i])
    ensures JsonSafe(iso)
  {
  }

  /** The largest magnitude below which every integer is an exact double. */
  const MaxSafeMagnitude: int := 0x20_0000_0000_0000

  /** The values whose encoding decodes to their JSON text: strings with
      nothing JSON must escape (decoding adds no escapes), timestamps in
      toJSON form, and BigInts that Number() converts exactly. */
  predicate Supported(v: Value) {
    match v
    case Str(s) => JsonSafe(s)
    case Date(iso) => forall i | 0 <= i < |iso| :: IsIsoChar(iso[i])
    case BigInt(n) => -MaxSafeMagnitude <= n <= MaxSafeMagnitude
    case Arr(elems) => forall i | 0 <= i < |elems| :: Supported(elems[i])
    case Other(_) => false
    case _ => true
  }

  /** A key that survives decoding: the encoder writes keys unescaped, so a
      key must hold no structural character and no `%`, and nothing JSON
      must escape. */
  predicate PlainKey(k: string) {
    JsonSafe(k) && forall i | 0 <= i < |k| :: k[i] !in "'()=&%"
  }

  /** The entries that are not `undefined`, in order. */
  function Defined(obj: Object): (r: seq<(string, Value)>)
    ensures |r| <= |obj|
  {
    if |obj| == 0 then []
    else if obj[0].1.None? then Defined(obj[1..])
    else [(obj[0].0, obj[0].1.value)] + Defined(obj[1..])
  }

  /** Every defined entry has a plain key and a supported value; the keys
      of `undefined` entries are never written, so they are unconstrained. */
  predicate PlainObject(obj: Object) {
    forall i | 0 <= i < |obj| :: obj[i].1.Some? ==> PlainKey(obj[i].0) && Supported(obj[i].1.value)
  }

  /** What JSON.parse(decoded text) yields for an encoded value: dates come
      back as their ISO strings and BigInts as plain numbers. */
  function Lossy(v: Value): (j: Json)
    requires Encodable(v)
    ensures v.Str? || v.Date? <==> j.JString?
    ensures v.Arr? <==> j.JArray?
  {
    match v
    case Str(s) => JString(s)
    case Num(n) => JNumber(n)
    case BigInt(n) => JNumber(n)
    case Bool(b) => JBool(b)
    case Null => JNull
    case Date(iso) => JString(iso)
    case Arr(elems) => JArray(LossyAll(elems))
  }

  function LossyAll(elems: seq<Value>): (r: seq<Json>)
    requires forall i | 0 <= i < |elems| :: Encodable(elems[i])
    ensures |r| == |elems|
    ensures forall i | 0 <= i < |elems| :: r[i] == Lossy(elems[i])
  {
    if |elems| == 0 then [] else [Lossy(elems[0])] + LossyAll(elems[1..])
  }

  /** The members of the expected object, one per defined entry. */
  function LossyMembers(defs: seq<(string, Value)>): (r: seq<(string, Json)>)
    requires forall i | 0 <= i < |defs| :: Encodable(defs[i].1)
    ensures |r| == |defs|
    ensures forall i | 0 <= i < |defs| :: r[i] == (defs[i].0, Lossy(defs[i].1))
  {
    if |defs| == 0 then [] else [(defs[0].0, Lossy(defs[0].1))] + LossyMembers(defs[1..])
  }

  /** Supported values are encodable. */
  lemma {:induction false} SupportedEncodable(v: Value)
    requires Supported(v)
    ensures Encodable(v)
    decreases v
  {
    if v.Arr? {
      forall i | 0 <= i < |v.elems| ensures Encodable(v.elems[i]) {
        SupportedEncodable(v.elems[i]);
      }
    }
  }

  /** Defined entries keep their position order and their key and value. */
  lemma {:induction false} DefinedMembers(obj: Object)
    ensures forall p | p in Defined(obj) :: (p.0, Some(p.1)) in obj
    decreases |obj|
  {
    if |obj| > 0 {
      DefinedMembers(obj[1..]);
      forall p | p in Defined(obj[1..]) ensures (p.0, Some(p.1)) in obj {
        assert (p.0, Some(p.1)) in obj[1..];
      }
    }
  }

  /** The filter works entry by entry: the defined entries of a
      concatenation are those of each part, in order. */
  lemma {:induction false} DefinedAppend(a: Object, b: Object)
    ensures Defined(a + b) == Defined(a) + Defined(b)
    decreases |a|
  {
    if |a| > 0 {
      assert (a + b)[0] == a[0];
      assert (a + b)[1..] == a[1..] + b;
      DefinedAppend(a[1..], b);
      if a[0].1.Some? {
        var x := [(a[0].0, a[0].1.value)];
        assert x + (Defined(a[1..]) + Defined(b)) == (x + Defined(a[1..])) + Defined(b);
      }
    } else {
      assert a + b == b;
    }
  }

  /** A single entry is kept, as its key and value, exactly when it is defined. */
  lemma DefinedSingle(k: string, v: Option<Value>)
    ensures v.None? ==> Defined([(k, v)]) == []
    ensures v.Some? ==> Defined([(k, v)]) == [(k, v.value)]
  {
    assert [(k, v)][1..] == [];
  }

  /** Every entry whose value is not `undefined` is kept. */
  lemma {:induction false} DefinedKeeps(obj: Object)
    ensures forall i | 0 <= i < |obj| && obj[i].1.Some? :: (obj[i].0, obj[i].1.value) in Defined(obj)
    decreases |obj|
  {
    if |obj| > 0 {
      DefinedKeeps(obj[1..]);
      forall i | 0 <= i < |obj| && obj[i].1.Some? ensures (obj[i].0, obj[i].1.value) in Defined(obj) {
        if i > 0 {
          assert obj[i] == obj[1..][i - 1];
        }
      }
    }
  }

  lemma DefinedPlain(obj: Object)
    requires PlainObject(obj)
    ensures forall i | 0 <= i < |Defined(obj)| :: PlainKey(Defined(obj)[i].0) && Supported(Defined(obj)[i].1)
  {
    DefinedMembers(obj);
    forall i | 0 <= i < |Defined(obj)|
      ensures PlainKey(Defined(obj)[i].0) && Supported(Defined(obj)[i].1)
    {
      var p := Defined(obj)[i];
      assert p in Defined(obj);
      var j :| 0 <= j < |obj| && obj[j] == (p.0, Some(p.1));
    }
  }
}
