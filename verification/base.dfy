/** Types shared by every layer: Go's fixed-width integers, opaque time
    values, and the gRPC-style error values the service returns. */
module Base {

  /** Go's `int32`: every wire enum and every amount is one. */
  type int32 = x: int | -0x8000_0000 <= x < 0x8000_0000

  /** An opaque point in time. `ZeroTime` stands for Go's zero `time.Time`,
      the value gorm treats as "not set". */
  datatype Instant = ZeroTime | Time(nanos: int)

  /** A nullable value (`gorm.DeletedAt` is a nullable time). */
  datatype Option<+T> = None | Some(value: T)

  /** The gRPC status codes the core produces. */
  datatype Code = NotFound | Internal | FailedPrecondition | PermissionDenied

  /** A gRPC status error: a code and its message. */
  datatype Error = Error(code: Code, message: string)

  /** Either a value or the error that replaced it. */
  datatype Result<+T> = Ok(value: T) | Err(error: Error)
}
