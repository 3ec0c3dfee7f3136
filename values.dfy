/** The JavaScript values the proxies store and hand back, with JavaScript's truthiness. */
module Values {
  import opened Base64

  datatype Value =
    | Undefined
    | Null
    | Num(n: int)
    | Str(s: string)
      /** A Node `Buffer` / `Uint8Array` (always truthy, even when empty). */
    | Buffer(bytes: seq<Byte>)
      /** The string `decodeURIComponent(escape(...))` makes of these octets: their UTF-8
          decoding, which is empty exactly when the octets are. */
    | Utf8Text(bytes: seq<Byte>)

  /** `if (v)` in JavaScript. */
  predicate Truthy(v: Value) {
    match v
    case Undefined => false
    case Null => false
    case Num(n) => n != 0
    case Str(s) => s != ""
    case Buffer(_) => true
    case Utf8Text(bytes) => bytes != []
  }
}
