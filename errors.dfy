/** The exceptions that can escape the service, as values. */
module Errors {

  datatype Error =
      /** `EnsureSuccessStatusCode` on a status outside 200-299. */
    | HttpRequestError(statusCode: int)
      /** Text that is not JSON, or JSON of the wrong shape for the target type. */
    | JsonException
      /** A JSON element used as the wrong kind (an object as an array, a number as a string, ...). */
    | InvalidOperation
      /** `GetProperty` on an object without that property. */
    | KeyNotFound(key: string)
      /** An array index past the end. */
    | IndexOutOfRange(index: nat)
      /** A library call handed `null` for the named parameter. */
    | ArgumentNull(paramName: string)
      /** A member read through a `null` reference. */
    | NullReference
}
