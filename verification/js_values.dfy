/** The JavaScript value rules the request handler leans on. A field of a submitted form
    body is a string or `undefined` (absent), so it is an `Option<string>`. */
module JsValues {
  import opened Wrappers

  type Field = Option<string>

  /** A field counts as true in `a || b` when it is present and not the empty string. */
  predicate Truthy(f: Field) {
    f.Some? && f.value != ""
  }

  /** `f || fallback`: the field itself when it is truthy, otherwise the fallback. */
  function Or(f: Field, fallback: string): (v: string)
    ensures v == fallback || (Truthy(f) && v == f.value)
    ensures Truthy(f) ==> v == f.value
  {
    if Truthy(f) then f.value else fallback
  }

  /** The text a field turns into when it is concatenated with a string: `undefined`
      becomes the word "undefined". */
  function Str(f: Field): (s: string)
    ensures f.Some? ==> s == f.value
    ensures f.None? ==> s == "undefined"
  {
    match f
    case Some(v) => v
    case None => "undefined"
  }

  /** `f == literal` for a string literal: `undefined` equals no string. */
  predicate Is(f: Field, literal: string) {
    f == Some(literal)
  }
}
