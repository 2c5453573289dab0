/** Option and Result, the failure-carrying values used throughout the model. */
module Wrappers {

  datatype Option<+T> = None | Some(value: T)

  /** The exceptions the modelled Java code raises, by kind. */
  datatype Error =
    | Eof                 // EOFException: the stream ended inside a record
    | MalformedUtf        // UTFDataFormatException raised by readUTF
    | UtfTooLong          // UTFDataFormatException raised by writeUTF (over 65535 bytes)
    | Unrepresentable     // readUTF produced an unpaired surrogate
    | BadHeader           // IOException("Bad Header") in loadIfRequired
    | IllegalArgument     // IllegalArgumentException in persistRelation

  datatype Result<+T> = Ok(value: T) | Err(error: Error)
}
