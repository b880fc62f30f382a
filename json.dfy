/** JSON documents as the Python core sees them after `json.loads`. */
module Json {

  /** A decoded JSON value; objects are dictionaries keyed by string. */
  datatype Value =
    | Null
    | Bool(b: bool)
    | Num(n: int)
    | Str(s: string)
    | Arr(items: seq<Value>)
    | Obj(fields: map<string, Value>)

  /** The name of the Python type a decoded value has, as error messages print it. */
  function TypeName(v: Value): string {
    match v
    case Null => "NoneType"
    case Bool(_) => "bool"
    case Num(_) => "int"
    case Str(_) => "str"
    case Arr(_) => "list"
    case Obj(_) => "dict"
  }

  /** What `json.loads` gives back: a value, or the decoder's error message. */
  datatype Decoded = Parsed(value: Value) | Malformed(message: string)

  /**
   * The JSON library the core calls into: `encode` is `json.dumps(v, indent=2,
   * ensure_ascii=False)`, `decode` is `json.loads`, and `display` is Python's
   * `str()` of a list or dictionary.
   */
  datatype Codec = Codec(encode: Value -> string, decode: string -> Decoded, display: Value -> string)
}
