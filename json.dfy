/**
 * A JSON value as serde_json's `Value` holds it after parsing. Parsing and
 * printing are not modelled; the gateway only inspects already-parsed values.
 * Numbers are split into integers and other numbers, which is all that
 * `as_u64` needs to tell apart.
 */
module Json {
  import opened Base

  datatype Value =
    | Null
    | Bool(b: bool)
    | Int(i: int)
    | Float(text: string)
    | Str(s: string)
    | Arr(items: seq<Value>)
    | Obj(fields: map<string, Value>)

  const U64_LIMIT: int := 0x1_0000_0000_0000_0000

  /** `Value::get(key)`: the member of an object, and nothing for any other kind of value. */
  function Get(v: Value, key: string): (r: Option<Value>)
    ensures r.Some? <==> v.Obj? && key in v.fields
    ensures r.Some? ==> r.value == v.fields[key]
  {
    if v.Obj? && key in v.fields then Some(v.fields[key]) else None
  }

  /** `Value::as_str` lifted over an optional value. */
  function AsStr(v: Option<Value>): (r: Option<string>)
    ensures r.Some? <==> v.Some? && v.value.Str?
    ensures r.Some? ==> r.value == v.value.s
  {
    if v.Some? && v.value.Str? then Some(v.value.s) else None
  }

  /** `Value::as_u64` lifted over an optional value: integers in 0 .. 2^64-1 only. */
  function AsU64(v: Option<Value>): (r: Option<nat>)
    ensures r.Some? <==> v.Some? && v.value.Int? && 0 <= v.value.i < U64_LIMIT
    ensures r.Some? ==> r.value == v.value.i
  {
    if v.Some? && v.value.Int? && 0 <= v.value.i < U64_LIMIT then Some(v.value.i) else None
  }

  /** `value.get(key).and_then(Value::as_str)` */
  function GetStr(v: Value, key: string): (r: Option<string>)
    ensures r.Some? <==> v.Obj? && key in v.fields && v.fields[key].Str?
    ensures r.Some? ==> r.value == v.fields[key].s
  {
    AsStr(Get(v, key))
  }
}
