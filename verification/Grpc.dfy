/** The gRPC status codes the provider distinguishes. */
module Grpc {
  datatype Code = Unavailable | DeadlineExceeded | NotFound | AlreadyExists | InvalidArgument | Canceled | OtherCode

  datatype Result<+T> = Ok(value: T) | Err(code: Code)
}
