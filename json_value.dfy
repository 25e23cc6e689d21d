/**
 * Decoded audit events. `json.loads` turns one log line into a Python value;
 * the model takes that value as given (decoding is not part of this model).
 */
module JsonValue {

  /** A decoded JSON value. `Null` is Python's `None`. */
  datatype Json =
    | Null
    | Bool(b: bool)
    | Num(n: real)
    | Str(s: string)
    | Arr(items: seq<Json>)
    | Obj(fields: map<string, Json>)

  /** Lists and dicts cannot be hashed, so they cannot be part of a dictionary key. */
  predicate Hashable(v: Json) {
    !v.Arr? && !v.Obj?
  }

  /**
   * The representative of `v` under Python's `==` on hashable values:
   * `True == 1` and `False == 0` (and `1 == 1.0`, which `Num` already merges).
   */
  function Canon(v: Json): Json {
    match v
    case Bool(b) => Num(if b then 1.0 else 0.0)
    case _ => v
  }
}
