/** Optional values, results, and the Python exceptions the dialogue core can raise. */
module Wrappers {

  /** A value that may be absent: a missing key of a JSON record, a default-valued field. */
  datatype Option<+T> = None | Some(value: T) {

    /** The value, or `default` when absent (Python's `d.get(key, default)`). */
    function GetOr(default: T): T {
      match this
      case Some(v) => v
      case None => default
    }
  }

  /** The Python exceptions raised by the modelled code. */
  datatype Error =
    | ValueError(message: string)      // an explicit `raise ValueError`, or `min()` of an empty sequence
    | KeyError(key: string)            // `d[key]` on a missing key
    | ValidationError(field: string)   // pydantic rejected (the first offending) field
    | TypeError(message: string)       // `**x` on a non-mapping, a keyword argument given twice
    | AttributeError(message: string)  // an attribute looked up on `None`
    | GenerationError(message: string) // the language-model call failed (transport or JSON decoding)

  /** The outcome of an operation that can raise. */
  datatype Result<+T> = Ok(value: T) | Err(error: Error)
}
