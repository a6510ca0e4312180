/** Optional values: absent request fields and envelope members. */
module Options {

  /** Conventional Some/None, used for absent request fields and for a
      parse that throws. */
  datatype Option<+T> = None | Some(value: T)
}

/**
 The JSON values `JSON.parse` can produce, and the parser itself as an
 oracle.
 */
module JsonValues {
  import opened Options

  /** A JSON value (ECMA-404). Numbers are kept as mathematical reals;
      the IEEE-754 rounding of `JSON.parse` is not modelled. */
  datatype Json =
    | Null
    | Bool(b: bool)
    | Number(n: real)
    | Str(s: string)
    | Array(items: seq<Json>)
    | Object(members: seq<(string, Json)>)

  /** `JSON.parse` as an oracle: `Some(v)` when the text is JSON text
      denoting `v`, `None` when the call would throw a SyntaxError. */
  type Parser = string -> Option<Json>

  /** A fact every conforming JSON parser has: the empty text holds no
      value, so `JSON.parse("")` throws (section 2 of ECMA-404 requires a
      JSON text to contain exactly one value). */
  predicate RejectsEmpty(parse: Parser)
  {
    parse("") == None
  }
}
