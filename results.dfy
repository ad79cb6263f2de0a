/** How the library's operations fail: the error returns of GeneratePage and, as
    explicit failures, the panics of the Go code. */
module Results {

  datatype Error =
    | WallOutOfRange        // "wall number must be between 0 and 3"
    | ShelfOutOfRange       // "shelf number must be between 0 and 4"
    | VolumeOutOfRange      // "volume number must be between 0 and 31"
    | PageOutOfRange        // "page number must be between 0 and 409"
    | HexTooLong            // "hex address must be at most 3260 characters"
    | InvalidSymbol(symbol: char)  // FromHex panics on a rune outside the hex alphabet
    | DivisionByZero        // big.Int.Mod by a zero bit length, when the digest is 0
    | EmptyOffsetRange      // crypto/rand.Int panics when its bound is not positive

  datatype Result<T> = Ok(value: T) | Err(error: Error)

  datatype Option<T> = None | Some(value: T)
}
