/** The JSON values `json.loads` produces, as far as the recovery code
    inspects them. The parser itself is not modelled: callers receive it as
    a total function `Parser`, `None` standing for `JSONDecodeError`. */
module Json {

  import opened Common

  /** A number is the exact value of what the decoder produced: an integer
      literal is kept whole, a fraction or exponent is already rounded to
      the nearest double by the decoder. `NaN`, `Infinity`, `-Infinity` and
      literals beyond the double range decode to a float that is not a
      real number, `JNonFinite`. */
  datatype Json =
    | JNull
    | JBool(b: bool)
    | JNum(n: real)
    | JNonFinite
    | JStr(s: string)
    | JArr(items: seq<Json>)
    | JObj(fields: map<string, Json>)

  /** `json.loads` on a string: a document or a decode error. */
  type Parser = string -> Option<Json>

  /** Python truthiness of a decoded value, as tested by `if not data`. */
  predicate Truthy(j: Json) {
    match j
    case JNull => false
    case JBool(b) => b
    case JNum(n) => n != 0.0
    case JNonFinite => true
    case JStr(s) => |s| > 0
    case JArr(items) => |items| > 0
    case JObj(fields) => |fields| > 0
  }

  /** A decode that succeeded with a truthy value. */
  predicate Found(d: Option<Json>) {
    d.Some? && Truthy(d.value)
  }

  /** One generated file: a relative path and its full text. */
  datatype FileEntry = FileEntry(path: string, content: string)

  /** The structured result of a generation request. */
  datatype Project = Project(name: string, files: seq<FileEntry>)
}
