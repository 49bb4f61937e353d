/**
 * The field validator the write paths and the listing use. Its source is
 * not part of this model. This model assumes the following rule for Check:
 * a false condition records its message under the field unless that field
 * already holds one, so the first failure per field is the one kept.
 */
module Validation {

  /** The error map after one Check(ok, key, message). */
  function Recorded(errors: map<string, string>, ok: bool, key: string, message: string): (r: map<string, string>)
    ensures ok || key in errors ==> r == errors
    ensures !ok ==> r.Keys == errors.Keys + {key} && r[key] == (if key in errors then errors[key] else message)
    ensures forall k :: k in errors ==> k in r && r[k] == errors[k]
  {
    if ok || key in errors then errors else errors[key := message]
  }

  /** Repeating a check changes nothing: Check is idempotent. */
  lemma RecordedIdempotent(errors: map<string, string>, ok: bool, key: string, message: string)
    ensures Recorded(Recorded(errors, ok, key, message), ok, key, message) == Recorded(errors, ok, key, message)
  {
  }

  class Validator {
    /** Field name to message. */
    var errors: map<string, string>

    /** validator.New(): no errors yet. */
    constructor ()
      ensures errors == map[]
    {
      errors := map[];
    }

    /** No field has a recorded message. */
    predicate Valid()
      reads this
    {
      errors == map[]
    }

    method Check(ok: bool, key: string, message: string)
      modifies this
      ensures errors == Recorded(old(errors), ok, key, message)
    {
      if !ok && key !in errors {
        errors := errors[key := message];
      }
    }
  }
}
