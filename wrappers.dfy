/** Optional values and results shared by every module of the model. */
module Wrappers {

  /** An absent C# reference (`null`) is `None`. */
  datatype Option<+T> = None | Some(value: T)

  /** The .NET exceptions that the library throws or lets the framework throw. */
  datatype Error =
    | ArgumentNullException(paramName: string)
    | ArgumentException
    | IndexOutOfRangeException
    | NullReferenceException

  /** A call either returns a value or ends with an exception. */
  datatype Result<+R> = Ok(value: R) | Err(error: Error)
}
