/** Results of operations that may fail, in place of exceptions. */
module Wrappers {
  datatype Option<+T> = None | Some(value: T)

  datatype Error =
    | NegativeVertexCount
    | NegativeDistance
    | NegativeDimension
    | LengthMismatch
    | EdgeOutOfBounds
    | InvalidSimplex
    | BadGraphFile
    | MissingNode
    | GradientShape
    | BadResolution
    | BadLayerCount
    | DeathBeforeBirth

  datatype Result<+T> = Success(value: T) | Failure(error: Error)
}
