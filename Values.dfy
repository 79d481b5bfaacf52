/** Parsed data documents: the tree shape a document takes once it has been
    templated and parsed, the reserved include key, and the outcome of a load. */
module Values {

  /** A parsed value. `Str` is a string scalar, `Atom` any other scalar
      (number, boolean, null) kept as its text; `Seq` is a list and `Map` a
      string-keyed mapping. */
  datatype Value =
    | Str(s: string)
    | Atom(text: string)
    | Seq(items: seq<Value>)
    | Map(entries: map<string, Value>)

  /** A mapping level of a document. */
  type Doc = map<string, Value>

  /** The reserved key that asks for other documents to be merged in. */
  const Directive: string := "_include_"

  datatype Option<+T> = None | Some(value: T)

  /** The outcome of a load: its mapping, or an exception raised somewhere on
      the way (missing file, unreadable or unparsable text, a document that is
      not a mapping, an include entry that is not a string). */
  datatype Result<+T> = Ok(value: T) | Raised

  /** No mapping reachable from `v` through mapping values alone holds the
      include directive; lists are not looked into. */
  ghost predicate DirectiveFree(v: Value)
  {
    match v
    case Map(m) =>
      Directive !in m && forall k :: k in m ==> DirectiveFree(m[k])
    case _ => true
  }
}
