/** Failure-compatible wrappers and the error kinds shared by every module of the model. */
module Errors {

  /** A value that may be absent; `None` stands for Go's nil pointer or nil error. */
  datatype Option<+T> = None | Some(value: T)

  /** The `(value, error)` pair of a Go function, with exactly one side present. */
  datatype Outcome<+T> = Ok(value: T) | Fail(error: Error)

  /** The errors the core produces itself, plus those it propagates from its collaborators. */
  datatype Error =
    | NoTaskImplementation             // "No task implementation specified"
    | MoreThanOneTaskImplementation    // "More than one task implementations specified"
    | NotImplemented                   // the distinguished "not implemented" error kind
    | ExitStatus(code: int)            // an *exec.ExitError carrying the tool's exit code
    | RegexpNoMatch(regexp: string, path: string)  // "regexp '<re>' doesn't match content of '<path>'"
    | PackageNotFound(pkg: string)     // "package <pkg> not found"
    | CommentEntryNotFound             // "error entry was not found to add comment"
    | ManifestRejected(path: string)   // an error reported by the manifest library for this module path
    | External(what: string)           // any other error of the file system, a library or a subprocess
}
