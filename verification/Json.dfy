/**
  Decoded JSON, as the Go code holds it in an `any`: objects are unordered maps.
  Numbers keep their text, as `json.Decoder.UseNumber` leaves them.
*/
module Json {
  datatype Json =
    | Null
    | Bool(b: bool)
    | Number(text: string)
    | Str(s: string)
    | Arr(items: seq<Json>)
    | Obj(fields: Fields)

  type Fields = map<string, Json>

  /** `s, _ := m[key].(string)` */
  function StringField(m: Fields, key: string): string {
    if key in m && m[key].Str? then m[key].s else ""
  }

  predicate HasList(m: Fields, key: string) { key in m && m[key].Arr? }

  /** `l, _ := m[key].([]any)` */
  function ListField(m: Fields, key: string): seq<Json> {
    if HasList(m, key) then m[key].items else []
  }
}
