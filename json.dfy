/** The part of a SwiftyJSON value the screen looks into. */
module Json {

  datatype Option<T> = None | Some(value: T)

  /** A parsed JSON document. Numbers, booleans and null are all `Other`:
      the screen only ever asks for strings, objects and arrays. */
  datatype Json =
    | Str(s: string)
    | Object(fields: map<string, Json>)
    | Array(items: seq<Json>)
    | Other

  /** `json[key].string`: the string stored under `key` when `json` is an
      object holding a string there, and nothing otherwise. */
  function StringAt(json: Json, key: string): (r: Option<string>)
    ensures r.Some? <==> json.Object? && key in json.fields && json.fields[key].Str?
    ensures r.Some? ==> r.value == json.fields[key].s
  {
    if json.Object? && key in json.fields && json.fields[key].Str?
    then Some(json.fields[key].s)
    else None
  }

  /** `json[key].stringValue`: the same string, or "" when there is none. */
  function StringValueAt(json: Json, key: string): (r: string)
    ensures json.Object? && key in json.fields && json.fields[key].Str? ==> r == json.fields[key].s
    ensures !(json.Object? && key in json.fields && json.fields[key].Str?) ==> r == ""
  {
    match StringAt(json, key)
    case Some(s) => s
    case None => ""
  }

  /** The values `for (_, value) in json` visits, in order, for an array.
      Any other value yields no elements here. */
  function Elements(json: Json): (r: seq<Json>)
    ensures json.Array? ==> r == json.items
    ensures !json.Array? ==> r == []
  {
    if json.Array? then json.items else []
  }
}
