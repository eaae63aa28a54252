/** Log records: mappings from field name to value, and the files they come from. */
module Records {
  import opened Wrappers

  /** A field value: parsed text, or a number a handler converted it to. */
  datatype Value = Int(i: int) | Str(s: string)

  type Record = map<string, Value>

  /** `record.get(key)`: `None` when the field is absent. */
  function Get(r: Record, key: string): (v: Option<Value>)
    ensures v.Some? <==> key in r
    ensures v.Some? ==> v.value == r[key]
  {
    if key in r then Some(r[key]) else None
  }

  /** An opened log file: its name and what it holds. */
  datatype File = File(name: string, text: string)
}
