/** The ways de-obfuscation can stop. In the original each of these is an
    exception thrown before the metadata buffer is written. */
module Errors {

  datatype DecryptError =
    | ShortBuffer          // fewer than 0x4000 bytes: the footer copy cannot be taken
    | FormatMismatch       // the footer magic 2E FC FE 2C is absent
    | CorruptFooterLayout  // the key-material offset points past the footer

  datatype Result<T> = Ok(value: T) | Err(error: DecryptError)
}
