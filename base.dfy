/** Shared vocabulary of the PDF format plugin: optional values, results,
    the exceptions the plugin raises, and bytes. */
module Base {

  datatype Option<+T> = None | Some(value: T)

  /** A value, or the exception that aborted the computation. */
  datatype Result<+T> = Ok(value: T) | Err(error: Error)

  /** An operation that returns nothing or raises. */
  datatype Outcome = Pass | Fail(error: Error)

  /** One 8-bit unsigned sample or byte. */
  type Byte = x: int | 0 <= x < 256

  /** Every exception the plugin's read and write paths can raise. */
  datatype Error =
    | PopplerNotInstalled              // OSError: the renderer is missing
    | UnpackMismatch(expr: string)     // ValueError: `attr, value = expr.split('=')` did not get two values
    | UnknownAttribute(attr: string)   // ValueError: key outside dpi, rotate, encapsulate
    | InvalidLiteral(text: string)     // ValueError: int() of a string that is not a decimal literal
    | MissingAttribute(name: string)   // AttributeError: the instance has no such attribute
    | NoLowerMethod(name: string)      // AttributeError: .lower() called on an int or a bool
    | RotateNotImplemented(rotate: int) // ValueError: rotate other than 0 or 90
    | NotImage                         // NotImageError from the renderer
    | NoImageData                      // ValueError: the renderer produced no pages
    | BroadcastMismatch(page: nat)     // ValueError: a page cannot be broadcast into its slot
    | IndexOutOfRange                  // IndexError: the array has fewer than two spatial axes
    | WriteNotImplemented              // WriteNotImplemented: writing PDF is not supported
}
