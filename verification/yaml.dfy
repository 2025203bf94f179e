/**
 The decoded YAML values the manifest engine looks at.

 The YAML decoder surfaces a mapping either as an ordered association list (`MapSlice`,
 for the top level of a document) or as an unordered Go map (`PlainMap`, for nested
 mappings), and the extractor has to handle both. A string scalar is `Str`; every other
 value (numbers, booleans, null, sequences) is never inspected and is `Other`.
 */
module Yaml {

  datatype Value =
    | Str(s: string)
    | Other
    | MapSlice(items: seq<Item>)
    | PlainMap(entries: map<string, Value>)

  /** One key/value pair of an ordered mapping; keys need not be strings. */
  datatype Item = Item(key: Value, value: Value)

  /** One result of the document decoder, in stream order; the end of the sequence is EOF. */
  datatype Decoded =
    | Document(items: seq<Item>)
    | DecodeError(cause: string)

  /** Go's checked type assertion `v.(string)`, with the empty string when it fails. */
  function StringOrEmpty(v: Value): (r: string)
  {
    if v.Str? then v.s else ""
  }
}
