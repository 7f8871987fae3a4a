/** The dynamically typed values a request carries in its body, query string or form fields,
    and the JavaScript errors a collaborator can throw. */
module JsValues {
  import opened Options

  /** A request value. Numbers are represented by an integer because only their truthiness
      matters to the controllers; a form field repeated in a multipart body arrives as a list
      of strings. */
  datatype JsValue =
    | Undefined
    | Null
    | Bool(b: bool)
    | Number(n: int)
    | Str(s: string)
    | StrList(items: seq<string>)
    | Object

  /** The values `!v` is true of: `undefined`, `null`, `false`, `0` and the empty string. */
  predicate IsFalsy(v: JsValue) {
    v.Undefined? || v.Null? || v == Bool(false) || v == Number(0) || v == Str("")
  }

  /** The test `!v || typeof v !== 'string'` the controllers apply to a required text field. */
  predicate IsMissingString(v: JsValue)
    ensures IsMissingString(v) <==> !(v.Str? && v.s != "")
  {
    IsFalsy(v) || !v.Str?
  }

  /** An error thrown by a collaborator (the store client, a parser), with its `code` and
      `field` properties when it carries them. */
  datatype Thrown = Thrown(code: Option<string>, field: Option<string>)

  /** The settled value of a call that can throw: it returned a value or threw an error. */
  datatype Attempt<+T> = Returned(value: T) | Threw(error: Thrown)
}
