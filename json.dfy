/** JSON values as request bodies and responses carry them, and the zod checks the schemas apply to them. */
module Json {
  import JsString

  datatype Value =
    | Null
    | Bool(b: bool)
    | Num(n: int)
    | Str(s: string)
    | Arr(items: seq<Value>)
    | Obj(fields: map<string, Value>)

  /** `z.string().min(n)`: a string of at least `n` UTF-16 code units. */
  predicate IsStringMin(v: Value, n: nat)
  {
    v.Str? && JsString.Utf16Length(v.s) >= n
  }

  /** A key that `.optional()` allows to be missing; JSON has no `undefined`, and `null` is not accepted. */
  predicate OptionalField(fields: map<string, Value>, key: string, valid: Value -> bool)
  {
    key in fields ==> valid(fields[key])
  }
}
