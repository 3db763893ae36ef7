/**
 The decoded request body, as the dispatcher sees it.

 The dispatcher never parses JSON itself: it calls `json_decode($data, true)`
 and looks at the result. This module stands for that result. Malformed text,
 an empty body and the literal `null` all decode to `Null`; JSON arrays become
 lists and JSON objects become string-keyed maps (the associative-array form
 requested by the second argument `true`).
 */
module JsonValue {

  datatype Option<+T> = None | Some(value: T)

  datatype Value =
    | Null
    | Bool(b: bool)
    | Int(i: int)
    | Float(f: real)
    | Str(s: string)
    | List(items: seq<Value>)
    | Object(fields: map<string, Value>)

  /** `isset($v['id'])`: `v` is an associative array holding `id` with a non-null value.
      `id` is not a numeric key, so it names no offset of a list or a string, and
      `isset` on a list, a string or any other scalar answers false. */
  predicate IdIsSet(v: Value)
  {
    v.Object? && "id" in v.fields && !v.fields["id"].Null?
  }
}
