/** Option and Result, the failure-carrying values the rest of the model returns. */
module Wrappers {

  datatype Option<+T> = None | Some(value: T)

  datatype Result<+T, +E> = Success(value: T) | Failure(error: E)
}

/** The gRPC status codes the credential service answers with. */
module Status {

  datatype Code = Internal | AlreadyExists | NotFound | InvalidArgument | Unauthenticated
}
