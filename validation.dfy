/** The part of Laravel's validator the controller relies on: the `required` rule. */
module Validation {
  import opened Wrappers

  /** The characters PHP's `trim` strips: space, tab, newline, carriage return, NUL and vertical tab. */
  predicate Trimmed(c: char)
  {
    c == ' ' || c == '\t' || c == '\n' || c == '\r' || c == '\0' || c == '\U{B}'
  }

  /** A string that is empty once trimmed. */
  predicate Blank(s: string)
  {
    forall i :: 0 <= i < |s| ==> Trimmed(s[i])
  }

  /** The `required` rule on a request field: it is sent and not blank. */
  function Required(field: Option<string>): (ok: bool)
    ensures ok ==> field.Some? && |field.value| > 0
    ensures ok <==> field.Some? && exists i :: 0 <= i < |field.value| && !Trimmed(field.value[i])
  {
    field.Some? && !Blank(field.value)
  }
}
