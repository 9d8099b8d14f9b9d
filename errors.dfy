/**
 * The error taxonomy of the vault (vault/errors.py and the built-in Python
 * exceptions the core raises), plus the Option and Result wrappers every
 * operation of the model returns.
 */
module Errors {

  /** Python's `x | None`. */
  datatype Option<+T> = None | Some(value: T) {
    function GetOr(default: T): T {
      match this
      case Some(v) => v
      case None => default
    }
  }

  /** The three validated attributes of a note; error messages name them. */
  datatype FieldName = Title | Content | Tags

  /** Which rule a field validator found broken. */
  datatype Violation =
    | Required              // None given to a required field
    | NotAString            // title or content of another type
    | TooLong               // over the field's maximum length
    | TooShort              // content under its minimum length
    | InvalidChar(c: char)  // first title character that is neither alphanumeric nor whitespace
    | NotStringOrList       // tags of another type
    | NonStringTag          // a tags list with a non-string element
    | TooManyTags           // more than the maximum number of tags after filtering
    | TagTooLong(tag: string) // first tag over the maximum tag length

  datatype Error =
    | ValueError(field: FieldName, violation: Violation)
    | KeyError(key: string)       // from_dict without a title
    | StorageError                // any wrapped I/O or data failure
    | NoteNotFound(key: string)   // carries the id, or the title for by-title lookups
    | DuplicateTitle(title: string)
    | OSError                     // directory creation or export file write

  /** A value or the exception that would have been raised instead. */
  datatype Result<+T> = Ok(value: T) | Err(error: Error) {
    predicate IsFailure() {
      Err?
    }

    function PropagateFailure<U>(): Result<U>
      requires Err?
    {
      Err(error)
    }

    function Extract(): T
      requires Ok?
    {
      value
    }
  }
}
