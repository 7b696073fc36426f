/** Error kinds and result wrappers shared by the document-store model. */
module Errors {

  /** The errors the driver can return. EmptyCollection and EmptyResource are
      the two argument checks; IOError stands for any failure of the
      operating system; EncodeError and DecodeError are the JSON library's. */
  datatype Error =
    | EmptyCollection
    | EmptyResource
    | NotFound
    | IOError
    | EncodeError
    | DecodeError

  datatype Option<+T> = None | Some(value: T)

  /** A value or the error that prevented it. */
  datatype Result<+T> = Ok(value: T) | Err(error: Error)

  /** The outcome of an operation that returns only an error (nil on success). */
  datatype Status = Done | Failed(error: Error)
}
