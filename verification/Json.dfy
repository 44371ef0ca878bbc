/** The JavaScript view of a parsed JSON request body that the create handler
    needs: reading one property, and JavaScript truthiness. */
module Json {
  import opened Optional

  /** A value `JSON.parse` can produce. Numbers are kept as reals: only whether
      they are zero matters here. */
  datatype Json =
    | JNull
    | JBool(b: bool)
    | JNumber(n: real)
    | JString(s: string)
    | JArray(items: seq<Json>)
    | JObject(fields: map<string, Json>)

  /** The result of reading a property in JavaScript: `undefined`, or a value. */
  datatype Property = Undefined | Defined(value: Json)

  /** `v.title` on a parsed body. Reading a property of `null` throws a
      TypeError (None). An object yields its own field or `undefined`; booleans,
      numbers, strings and arrays have no `title` property, own or inherited. */
  function ReadTitle(v: Json): (r: Option<Property>)
    ensures r.None? <==> v.JNull?
    ensures r.Some? && r.value.Defined? <==> v.JObject? && "title" in v.fields
    ensures r.Some? && r.value.Defined? ==> r.value.value == v.fields["title"]
  {
    match v
    case JNull => None
    case JObject(fields) => if "title" in fields then Some(Defined(fields["title"])) else Some(Undefined)
    case _ => Some(Undefined)
  }

  /** JavaScript truthiness: `undefined`, `null`, `false`, `0` and `""` are
      falsy; every other value, including every array and object, is truthy. */
  predicate Truthy(p: Property): (b: bool)
    ensures !b <==> p == Undefined || p == Defined(JNull) || p == Defined(JBool(false))
                    || p == Defined(JNumber(0.0)) || p == Defined(JString(""))
  {
    match p
    case Undefined => false
    case Defined(v) =>
      match v
      case JNull => false
      case JBool(b) => b
      case JNumber(n) => n != 0.0
      case JString(s) => s != ""
      case JArray(_) => true
      case JObject(_) => true
  }
}
