/** Error values and the result type shared by every generator.

    Go returns a pair `(value, error)`; on failure the value is the zero value
    of its type and callers ignore it. The model keeps only the error. */
module Errors {

  datatype Error =
    | InvalidPatternIdentifier   // GetRandomStr: `?` followed by a byte other than d, l, u
    | InvalidRange               // RandNumInRange: min > max
    | NonPositiveLength          // GetRandInt: length <= 0
    | InvalidUuidLength          // parseUUID: input is not 36 bytes long
    | InvalidHexByte(c: char)    // hex.DecodeString: the first byte that is not a hex digit
    | OddHexLength               // hex.DecodeString: odd number of hex digits
    | RandomSourceFailure        // the `crypto/rand` read failed

  datatype Result<+T> = Ok(value: T) | Err(error: Error)

  datatype Option<+T> = None | Some(value: T)
}
