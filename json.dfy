/**
 * JSON values as Python's `json` module loads them, with the few Python
 * operations the record stores apply to them: truthiness, `dict.get`,
 * `str()` and `float()`.
 */
module Json {
  import opened Wrappers
  import Text

  datatype Value =
    | Null
    | Bool(b: bool)
    | Int(i: int)
    | Float(r: real)
    | Str(s: string)
    | List(items: seq<Value>)
    | Object(fields: map<string, Value>)

  /** Python truthiness: `None`, `False`, zero, and empty strings, lists and dicts are false. */
  predicate Truthy(v: Value) {
    match v
    case Null => false
    case Bool(b) => b
    case Int(i) => i != 0
    case Float(r) => r != 0.0
    case Str(s) => s != ""
    case List(items) => items != []
    case Object(fields) => fields != map[]
  }

  /** `d.get(key, default)`. */
  function Get(d: map<string, Value>, key: string, default: Value): (v: Value)
    ensures key in d ==> v == d[key]
    ensures key !in d ==> v == default
  {
    if key in d then d[key] else default
  }

  /**
   * `str(v)` for strings, booleans, `None` and integers; the text Python
   * prints for a float, a list or a dict is not modelled and is the empty
   * string here.
   */
  function StrOf(v: Value): (s: string)
    ensures v.Str? ==> s == v.s
  {
    match v
    case Str(s) => s
    case Bool(b) => if b then "True" else "False"
    case Null => "None"
    case Int(i) => Text.IntToString(i)
    case _ => ""
  }

  /**
   * `float(v)`: numbers and booleans convert, a string is read as a decimal
   * number (a ValueError when it is not one), and `None`, lists and dicts
   * give a TypeError.
   */
  function FloatOf(v: Value): (r: Result<real>)
    ensures v.Int? ==> r == Ok(v.i as real)
    ensures v.Float? ==> r == Ok(v.r)
    ensures v.Bool? ==> r == Ok(if v.b then 1.0 else 0.0)
    ensures v.Null? || v.List? || v.Object? ==> r.Err? && r.error.TypeError?
  {
    match v
    case Int(i) => Ok(i as real)
    case Float(x) => Ok(x)
    case Bool(b) => Ok(if b then 1.0 else 0.0)
    case Str(s) =>
      var p := Text.ParseFloat(Text.Strip(s));
      if p.Some? then Ok(p.value) else Err(ValueError("could not convert string to float: " + s))
    case Null => Err(TypeError("float() argument must be a string or a real number, not 'NoneType'"))
    case List(_) => Err(TypeError("float() argument must be a string or a real number, not 'list'"))
    case Object(_) => Err(TypeError("float() argument must be a string or a real number, not 'dict'"))
  }
}
