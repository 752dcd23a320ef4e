/** The values that Python's `json` module produces when it decodes text:
    the records that both tools pass along and inspect. */
module JsonValue {
  import opened Wrappers

  /** A decoded JSON value. Numbers are integers; objects are dictionaries
      from key to value. */
  datatype Json =
    | JNull
    | JBool(b: bool)
    | JInt(i: int)
    | JStr(s: string)
    | JArr(items: seq<Json>)
    | JObj(fields: map<string, Json>)

  /** Python's `d.get(key)`: the value under `key`, or None when it is absent. */
  function Lookup(fields: map<string, Json>, key: string): (r: Option<Json>)
    ensures r.Some? <==> key in fields
    ensures r.Some? ==> r.value == fields[key]
  {
    if key in fields then Some(fields[key]) else None
  }

  /** Whether a value can be a dictionary key in Python: lists and
      dictionaries cannot (using one raises `TypeError: unhashable type`). */
  predicate Hashable(j: Json) {
    !j.JArr? && !j.JObj?
  }
}
