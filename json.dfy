/**
 * The JSON values (RFC 8259) that carry the JsonML wire form. A number is
 * represented by the `f32` it denotes; an object by its member map.
 */
module Json {
  import opened Markup

  datatype Json =
    | JStr(s: string)
    | JNum(n: Float32)
    | JBool(b: bool)
    | JNull
    | JArr(items: seq<Json>)
    | JObj(fields: map<string, Json>)

  /** The values an attribute may take on the wire: everything but arrays and objects. */
  predicate IsScalar(j: Json) {
    j.JStr? || j.JNum? || j.JBool? || j.JNull?
  }

  /** An object every member of which is a scalar: the shape an attributes
      map has on the wire. */
  predicate IsAttributesObject(j: Json) {
    j.JObj? && forall k | k in j.fields :: IsScalar(j.fields[k])
  }
}
