/** The error values the wiki core produces (src/error.rs) and the two
    failure-compatible wrappers used to return them. */
module Errors {

  datatype Option<+T> = None | Some(value: T)

  /** The variants of the error enum that the modelled code can produce.
      The variants carrying a foreign error (git2, askama, toml, tantivy) are
      not produced by this core; io::Error and Utf8Error payloads are dropped. */
  datatype WikiError =
    | InvalidPath
    | Io
    | BadUtf8
    | GitRepoDoesNotExist(path: seq<string>)

  datatype Result<+T> = Ok(value: T) | Err(error: WikiError) {
    predicate IsFailure() { Err? }

    function PropagateFailure<U>(): Result<U>
      requires Err?
    {
      Err(error)
    }

    function Extract(): T
      requires Ok?
    {
      value
    }
  }
}
