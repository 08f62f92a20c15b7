/** Outcomes of the writer's operations: a value, or the exception Python would raise. */
module Outcome {

  /** The failures the writer can surface, named after what the Python runtime raises. */
  datatype Error =
    | PackError           // struct.error: the value does not fit the format's width
    | EncodingError       // UnicodeEncodeError: a code point the codec cannot represent
    | NoStream            // AttributeError: the stream attribute is still None (never opened)
    | ClosedFile          // ValueError: I/O operation on a closed file
    | InvalidWhence       // ValueError: whence is not one of the three seek origins
    | NegativePosition    // OSError (EINVAL): the seek target lies before the start of the file

  datatype Result<+T> = Ok(value: T) | Err(error: Error)

  datatype Option<+T> = None | Some(value: T)
}
