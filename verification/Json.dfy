/** JSON values as the settings files and the outbox payloads hold them. */
module JsonValue {
  import opened Wrappers

  /** `serde_json::Value`; integral and fractional numbers are different values there too. */
  datatype Json =
    | Null
    | Bool(flag: bool)
    | Int(n: int)
    | Float(x: real)
    | Str(s: string)
    | Arr(items: seq<Json>)
    | Obj(fields: Object)

  type Object = map<string, Json>

  function At(o: Object, key: string): Option<Json> { if key in o then Some(o[key]) else None }
}
