/**
 * The Python exceptions the modelled code can raise, and a result that is
 * either a value or one of them.
 */
module Outcome {

  datatype Error =
    | ZeroDivisionError
    | ValueError(message: string)
    | KeyError(key: string)
    | AttributeError(attribute: string)

  datatype Result<T> = Success(value: T) | Failure(error: Error)
}
