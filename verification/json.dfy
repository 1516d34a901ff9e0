/** What the model needs to know about JSON: the values a parsed reply can carry,
    and `json.loads` as an abstract partial function. The decoder itself is not
    modelled; every operation that calls it takes it as a parameter. */
module Json {
  import opened Dicts

  /** A value inside a parsed object. Numbers with a fraction keep their digit
      text (`float()` is not modelled); lists, nested objects, booleans and
      `null` are all `Nested`, which the pipeline passes through untouched. */
  datatype Value = Str(s: string) | Int(i: int) | Decimal(text: string) | Nested

  /** The top-level result of `json.loads`: an object, or anything else together
      with its Python truthiness. */
  datatype JsonValue = JObject(fields: Dict<Value>) | JOther(truthy: bool)

  datatype ParseOutcome = Malformed | Parsed(value: JsonValue)

  /** `json.loads`, supplied by the caller. */
  type Parser = string -> ParseOutcome

  /** Python truthiness of a decoded value: an object is true iff it is non-empty. */
  predicate Truthy(j: JsonValue) {
    match j
    case JObject(f) => |f| > 0
    case JOther(t) => t
  }

  /** A string-to-string dict as the object `json.loads` would give for it. */
  function AsObject(d: Dict<string>): (r: Dict<Value>)
    ensures Keys(r) == Keys(d)
    ensures forall i :: 0 <= i < |d| ==> r[i].1 == Str(d[i].1)
  {
    seq(|d|, i requires 0 <= i < |d| => (d[i].0, Str(d[i].1)))
  }
}
