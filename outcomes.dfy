/** Results of the loaders: a value returned or a Python exception raised. */
module Outcomes {

  datatype Option<+T> = None | Some(value: T) {
    /** The wrapped value, or `default` when there is none. */
    function GetOr(default: T): T {
      match this
      case Some(v) => v
      case None => default
    }
  }

  /** The Python exceptions the inlist loaders raise or catch. */
  datatype Exception =
    | NameError           // the run path does not follow the naming convention
    | TypeError           // caught by the inlist parser; no modelled code raises it
    | NoClosingQuotation  // ValueError of the lexer: end of input inside a quoted token
    | MalformedLiteral    // ValueError or SyntaxError of ast.literal_eval
    | InvalidInteger      // ValueError of int(): not a base-10 integer
    | FileNotFound(path: string)  // OSError of open()

  /** What a Python call does: return a value or raise an exception. */
  datatype Outcome<+T> = Returned(value: T) | Raised(exc: Exception)
}
