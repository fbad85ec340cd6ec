/** Basic types shared by every part of the codec. */
module Types {

  /** An octet of the wire format. */
  type byte = b: int | 0 <= b < 0x100

  /** An unsigned 16-bit integer: a packet identifier or a length prefix. */
  type u16 = n: int | 0 <= n < 0x1_0000

  datatype Option<+T> = None | Some(value: T)

  /** The decode, encode and parse errors of the codec, collapsed into one type. */
  datatype Error =
    | InvalidUtf8           // a string field is not well-formed UTF-8
    | MalformedPacket       // the lengths inside a packet contradict each other
    | LengthOverflow        // a field is too long for its 16-bit length prefix
    | InsufficientCapacity  // the destination buffer is too small for a field

  /** Rust's `Result<T, E>` with the error type fixed to `Error`. */
  datatype Result<+T> = Ok(value: T) | Err(error: Error)
}
