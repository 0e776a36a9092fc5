/** Option and Result, the failure-carrying values used throughout the model. */
module Wrappers {

  datatype Option<+T> = None | Some(value: T) {
    function GetOr(default: T): T {
      match this
      case Some(v) => v
      case None => default
    }
  }

  /** An error as the editor reports it: only its origin matters to the model. */
  datatype Error =
    | IoError(what: string)       // a read or write of a file failed
    | TomlError(what: string)     // a manifest could not be read or parsed
    | WalkError(what: string)     // a directory walk or listing entry failed
    | PatternError(what: string)  // a glob pattern was malformed
    | ConfigError(what: string)   // the configuration could not be placed

  datatype Result<+T> = Ok(value: T) | Err(error: Error)

  /** The `Control` value an event handler returns to the event loop. */
  datatype Control = Continue | Unchanged | Changed
}
