/** The ways a prediction request ends without a score. */
module Errors {

  datatype Error =
    | EmptyDescription            // the description is empty or all whitespace
    | UnknownClass(name: string) // `CLASS_RANGES[cls]` raises `KeyError`
    | DigitLimitExceeded          // `int(n)` raises `ValueError` on a too-long run
    | NumberTooLarge              // `np.log1p` raises `TypeError` beyond `uint64`

  datatype Result<T> = Ok(value: T) | Err(error: Error)
}
