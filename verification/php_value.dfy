/**
 The PHP values a block trace is made of. The classifier only ever asks one
 question of a value, whether it is an array, so every other PHP value
 (string, integer, null, object, ...) is a `Scalar` carrying a textual
 rendering of itself.
 */
module PhpValue {

  datatype Value =
    | Arr(entries: seq<(string, Value)>)
    | Scalar(repr: string)

  /** A PHP array with string keys, in iteration order. */
  type PhpArray = seq<(string, Value)>
}
