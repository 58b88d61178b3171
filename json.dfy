/** Decoded JSON values, as Python's json module produces them (floats
    are not modelled). Objects are finite maps from strings to values. */
module JsonValue {

  datatype Json =
    | JNull
    | JBool(b: bool)
    | JInt(i: int)
    | JStr(s: string)
    | JArr(items: seq<Json>)
    | JObj(fields: map<string, Json>)

  /** `isinstance(j, dict)` */
  predicate IsObject(j: Json) { j.JObj? }

  /** `isinstance(j, str)` */
  predicate IsString(j: Json) { j.JStr? }
}
