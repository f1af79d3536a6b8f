/** Options, results and the exceptions raised by the modelled code. */
module Wrappers {

  /** Python's `Optional[T]`: `None` or a value. */
  datatype Option<+T> = None | Some(value: T)

  /** The exceptions the modelled functions raise, by their Python names. */
  datatype Error =
    | ValueError
    | IndexError
    | KeyError
    | StructError          // struct.error from pack or unpack
    | JpegTagNotFound
    | JpegCropError
    | NotImplementedError
    | AssertionError
    | RecursionError       // unbounded recursion in the Huffman tree insertion
    | UnboundLocalError    // a local variable read before any assignment
    | ZeroDivisionError
    | TypeError            // an operation applied to None
    | AttributeError       // an attribute looked up on None
    | NonTermination       // the source loops forever here; nothing is raised
    | ReadError            // a read past the end of a bit string

  /** A value, or the exception that was raised instead. Usable with `:-`. */
  datatype Result<+T> = Ok(value: T) | Err(error: Error) {
    predicate IsFailure() { Err? }

    function PropagateFailure<U>(): Result<U>
      requires Err?
    {
      Err(error)
    }

    function Extract(): T
      requires Ok?
    {
      value
    }
  }
}
