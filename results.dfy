/** Failure values shared by the codecs: one constructor per condition under which the
    serializers throw, and the Option/Result/Outcome carriers used to return them. */
module Results {

  /** Why an operation stopped. */
  datatype Error =
    | MipmapsNotSupported   // a TIM2 header with more than one mipmap level
    | IllegalBitDepth       // a TIM2 depth byte outside 1..5
    | UnexpectedBpp         // a bits-per-pixel value with no depth byte, met while writing
    | DivisionByZero        // a colour size of zero, met while counting palette entries
    | NotATim2Segment       // a TIM2 operation applied to another kind of texture
    | NotAPe3Texture        // a PE3 operation applied to another kind of texture
    | NotImplemented        // an operation the codec does not provide
    | UnexpectedMetadata    // a metadata entry other than the one asked for

  datatype Option<+T> = None | Some(value: T)

  datatype Result<+T> = Success(value: T) | Failure(error: Error) {
    predicate IsFailure() { Failure? }

    function PropagateFailure<U>(): Result<U>
      requires Failure?
    {
      Failure(error)
    }

    function Extract(): T
      requires Success?
    {
      value
    }
  }

  /** The result of an operation that returns nothing but may fail. */
  datatype Outcome = Pass | Fail(error: Error)
}
