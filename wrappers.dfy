/** Failure-carrying results shared by the codec modules. */
module Wrappers {

  datatype Option<+T> = None | Some(value: T)

  /** Why a decode, a load or a transform did not produce a value. */
  datatype Error =
    | BadMagic             // leading magic value does not match
    | ShortRead            // the byte stream ended before a field was complete
    | Underflow            // the rANS decoder needed a byte below the start of its buffer
    | InvalidMetadata      // width, height or channels not positive in a residual file
    | UnsupportedChannels  // channel count the operation does not accept
    | OutOfBounds          // the source would index outside a buffer here (undefined behaviour)
    | AllocationFailure    // a stored size above the max_size() of the vector it is resized to

  datatype Result<+T> = Ok(value: T) | Err(error: Error)
}
