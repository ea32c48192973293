/** The few JavaScript value rules the deck relies on: optional fields of a
    JSON record, truthiness of a text field, and what a template literal
    prints for an absent field. Also the Option/Result carriers the rest of
    the model uses for absent fields and thrown errors. */
module JsValues {

  /** A JSON field that may be absent (`undefined`). */
  datatype Option<+T> = None | Some(value: T)

  /** Either a value or the error a JavaScript statement would throw. */
  datatype Result<+T, +E> = Success(value: T) | Failure(error: E)

  /** `if (field)` on a text field: an absent field and the empty string are
      both falsy, every other string is truthy. */
  predicate Truthy(field: Option<string>)
  {
    field.Some? && |field.value| > 0
  }

  /** `field && field.length` on a list field: present and non-empty. */
  predicate NonEmptyList<T>(field: Option<seq<T>>)
  {
    field.Some? && |field.value| > 0
  }

  /** The text a template literal `${field}` splices in: the string itself,
      or the word `undefined` when the field is absent. */
  function Interpolate(field: Option<string>): string
  {
    match field
    case None => "undefined"
    case Some(s) => s
  }

  /** True when no element of `s` occurs twice. */
  predicate NoDuplicates<T(==)>(s: seq<T>)
  {
    forall i, j :: 0 <= i < j < |s| ==> s[i] != s[j]
  }
}
