/** Exceptions the hub throws, and the wrappers that carry them out of an operation. */
module Faults {

  import opened Text

  /** The conventional Some/None datatype, standing in for a Java reference that may be null. */
  datatype Option<+T> = None | Some(value: T)

  /** The exceptions the modelled code throws or lets escape. */
  datatype Fault =
    | NoSuchEnvironment(environmentName: string)
    | NoSuchSession(sessionId: Option<string>)
    | IllegalState(message: string)
    | IllegalArgument(message: string)
    | NullPointer
    | IndexOutOfBounds(index: int, size: int)
    | NumberFormat(input: string)
    | CommandParsing(message: string)
    | Io(message: string)

  /** Either the value a Java method returns, or the exception it throws. */
  datatype Result<+T> = Ok(value: T) | Err(fault: Fault)

  /** Either a `void` Java method returned normally, or the exception it threw. */
  datatype Outcome = Pass | Fail(fault: Fault)

  /** Java's `"" + s` for a reference that may be null. */
  function Render(s: Option<string>): string
  {
    match s
    case Some(v) => v
    case None => "null"
  }

  /**
   * `e.getMessage()` rendered into a string, as `"ERROR: " + e.getMessage()` does.
   * A NullPointerException carries no message, which Java prints as "null".
   */
  function Message(f: Fault): string
  {
    match f
    case NoSuchEnvironment(name) => name
    case NoSuchSession(id) => Render(id)
    case IllegalState(m) => m
    case IllegalArgument(m) => m
    case NullPointer => "null"
    case IndexOutOfBounds(i, n) => "Index: " + IntText(i) + ", Size: " + IntText(n)
    case NumberFormat(s) => "For input string: \"" + s + "\""
    case CommandParsing(m) => m
    case Io(m) => m
  }
}
