/** Values that stand for the source's exceptions and for its "found or not" outcomes. */
module Results {

  datatype Option<+T> = None | Some(value: T)

  /** The exceptions the modelled code throws, one constructor a message. */
  datatype Error =
    | NoInstances        // "No available service instances"
    | NoHealthyInstances // "No healthy service instances"
    | InvalidArgument    // std::invalid_argument of stoi and stoull
    | OutOfRange         // std::out_of_range of stoi and stoull
    | InsufficientData   // "Buffer has insufficient data for peekInt"
    | NoPrependSpace     // "Not enough prepend space"
    | BufferTooLarge     // "Buffer size exceeds maximum limit"
    | EmptyData          // "Empty data for request parsing", and the response's
    | ParseFailed        // "Failed to parse RpcRequestProto", and the response's
    | SerializeFailed    // "Failed to serialize RpcRequestProto", and the response's
    | OutsideModel       // bytes that the modelled code hands to the protobuf library
    | PoolStopped        // "Cannot submit task to stopped thread pool"

  datatype Result<+T> = Ok(value: T) | Err(error: Error)
}
