/** The JavaScript values that flow through the pipeline: decoded JSON from the
    events API (payloads), the fields of normalized events, and the values a
    template expression produces. Numbers are integers here. */
module JsValue {
  import opened Wrappers
  import opened JsString

  datatype Value =
    | Undefined
    | Null
    | Bool(b: bool)
    | Num(n: int)
    | Str(s: string)
    | Arr(items: seq<Value>)
    | Obj(fields: map<string, Value>)

  /** The exceptions a JavaScript evaluation can raise in the modelled code, and
      one more kind for expressions outside the modelled subset. */
  datatype JsError =
    | TypeError            // property access on undefined or null, a call to a missing method
    | ReferenceError(name: string)  // a free identifier with no binding
    | Unsupported(what: string)     // valid JavaScript that this model does not evaluate

  predicate Nullish(v: Value) {
    v.Undefined? || v.Null?
  }

  /** JavaScript truthiness: `if (v)`, `v ? a : b`, `v && w`. */
  predicate Truthy(v: Value) {
    match v
    case Undefined => false
    case Null => false
    case Bool(b) => b
    case Num(n) => n != 0
    case Str(s) => s != ""
    case Arr(_) => true
    case Obj(_) => true
  }

  /** Property read `v.name` on a value that is neither undefined nor null.
      Only own properties of plain objects and `length` of strings and arrays
      are modelled; everything else reads as undefined. */
  function Get(v: Value, name: string): (r: Value)
    requires !Nullish(v)
    ensures v.Obj? && name in v.fields ==> r == v.fields[name]
    ensures v.Obj? && name !in v.fields ==> r == Undefined
  {
    match v
    case Obj(m) => if name in m then m[name] else Undefined
    case Str(s) => if name == "length" then Num(|s|) else Undefined
    case Arr(a) => if name == "length" then Num(|a|) else Undefined
    case _ => Undefined
  }

  /** Property read `v.name`: throws a TypeError on undefined and null. */
  function Member(v: Value, name: string): (r: Result<Value, JsError>)
    ensures r.Failure? <==> Nullish(v)
    ensures r.Failure? ==> r.error == TypeError
  {
    if Nullish(v) then Failure(TypeError) else Success(Get(v, name))
  }

  /** `a === b`. Two objects or arrays are equal only when they are the same
      object; the model has no object identity and refuses such comparisons. */
  function StrictEquals(a: Value, b: Value): Result<bool, JsError> {
    if (a.Arr? || a.Obj?) && (b.Arr? || b.Obj?) then Failure(Unsupported("comparison of two objects"))
    else Success(a == b)
  }

  /** String conversion as a template literal performs it: `${v}`. An array
      converts as `join(",")`, with undefined and null items as empty strings. */
  function ToStr(v: Value): string
    decreases v
  {
    match v
    case Undefined => "undefined"
    case Null => "null"
    case Bool(b) => if b then "true" else "false"
    case Num(n) => IntToString(n)
    case Str(s) => s
    case Arr(items) => JoinItems(items)
    case Obj(_) => "[object Object]"
  }

  function JoinItems(items: seq<Value>): string
    decreases items
  {
    if items == [] then ""
    else
      var head := if Nullish(items[0]) then "" else ToStr(items[0]);
      if |items| == 1 then head else head + "," + JoinItems(items[1..])
  }

  /** An absent optional string is undefined. */
  function OptStr(o: Option<string>): Value {
    match o
    case None => Undefined
    case Some(s) => Str(s)
  }

  /** Strings convert to themselves, and integers to their decimal numeral,
      which reads back as the same integer. */
  lemma ToStrFacts(s: string, n: nat)
    ensures ToStr(Str(s)) == s
    ensures ParseNat(ToStr(Num(n))) == Some(n)
  {
    ParseNatToString(n);
  }
}
