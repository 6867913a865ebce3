/** JSON values as `serde_json` holds them, with the accessors the console code uses. */
module Json {
  import opened Wrappers

  /** Integers keep their value; any other number is `Real`. */
  datatype Value =
    | Null
    | Bool(b: bool)
    | Int(n: int)
    | Real(x: real)
    | Str(s: string)
    | Arr(items: seq<Value>)
    | Obj(fields: map<string, Value>)

  function AsI64(v: Value): Option<int> {
    if v.Int? && -0x8000_0000_0000_0000 <= v.n < 0x8000_0000_0000_0000 then Some(v.n) else None
  }

  function AsStr(v: Option<Value>): Option<string> {
    match v
    case Some(Str(s)) => Some(s)
    case _ => None
  }

  /** `Value::get` on an object key. */
  function Get(v: Value, key: string): Option<Value> {
    if v.Obj? && key in v.fields then Some(v.fields[key]) else None
  }
}
