/** Python values as `json.loads` produces them, with the few built-in
    operations the modelled code applies to them: truth value, `dict.get`,
    `or` and `str()`. */
module PyJson {

  /** A decoded JSON value. Objects are dictionaries keyed by string; a boolean
      or a number is `JOther`, given by its `str()` rendering and its truth
      value (`False`, `0` and `0.0` are false). */
  datatype Json =
    | JNull
    | JString(s: string)
    | JArray(items: seq<Json>)
    | JObject(fields: map<string, Json>)
    | JOther(text: string, truthy: bool)

  /** Python's truth value: `None`, empty strings, lists and dictionaries are false. */
  predicate Truthy(v: Json) {
    match v
    case JNull => false
    case JString(s) => s != []
    case JArray(items) => items != []
    case JObject(fields) => fields != map[]
    case JOther(_, t) => t
  }

  /** `d.get(key)`: `None` when the key is missing. */
  function Get(d: map<string, Json>, key: string): Json {
    if key in d then d[key] else JNull
  }

  /** `a or b`: the first operand when it is true, otherwise the second. */
  function Or(a: Json, b: Json): (r: Json)
    ensures r == a || r == b
    ensures Truthy(r) <==> Truthy(a) || Truthy(b)
    ensures Truthy(a) ==> r == a
    ensures !Truthy(a) ==> r == b
  {
    if Truthy(a) then a else b
  }

  /** `str(v)`. A list or dictionary is rendered by a fixed placeholder rather
      than by Python's `repr` of its contents. */
  function Str(v: Json): (r: string)
    ensures v.JString? ==> r == v.s
    ensures v.JNull? ==> r == "None"
    ensures v.JArray? || v.JObject? ==> r != [] && Truthy(JString(r))
  {
    match v
    case JNull => "None"
    case JString(s) => s
    case JOther(text, _) => text
    case JArray(_) => "[...]"
    case JObject(_) => "{...}"
  }
}
