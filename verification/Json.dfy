/** A decoded JSON document. */
module Json {
  datatype Json =
    | Null
    | Bool(b: bool)
    | Num(n: real)
    | Str(s: string)
    | Arr(items: seq<Json>)
    | Obj(fields: map<string, Json>)

  /** Go's checked type assertions: the zero value when the document holds another type. */
  function AsString(v: Json): string {
    if v.Str? then v.s else ""
  }

  function AsBool(v: Json): bool {
    v.Bool? && v.b
  }

  function AsObject(v: Json): map<string, Json> {
    if v.Obj? then v.fields else map[]
  }

  /** A field of an object, null when the object does not have it. */
  function Field(fields: map<string, Json>, name: string): Json {
    if name in fields then fields[name] else Null
  }
}
