/** What a call of the client can end in: a value, one of the errors
    client.go returns, or one of the Go runtime panics client.go can reach. */
module Outcomes {

  /** The error returns of the client, by kind. */
  datatype Error =
    | ReadFailed        // the reader failed (EOF included) before a Varint was complete
    | VarintTooLong     // ToInt: ten bytes, all with the continuation bit set
    | TooMuchData       // getStatus: more bytes buffered than the packet length announces
    | UnexpectedId      // getStatus: the packet ID is not 0
    | LengthMismatch    // getStatus: the string length disagrees with the packet length
    | TimedOut          // getStatus: the deadline passed before the payload arrived
    | HandshakeNotSent  // connect: writing the handshake packet failed
    | RequestNotSent    // connect: writing the request packet failed
    | CloseFailed       // getStatus: closing the connection failed

  /** Runtime panics: these are not error returns of client.go. */
  datatype Crash =
    | SliceOutOfRange   // ReadVarint: buf[0:6] on a [5]byte after five continuation bytes
    | IndexOutOfRange   // ToInt: v.value[n] past the end of the slice
    | NegativeLength    // getStatus: make([]byte, length) with a negative length

  datatype Outcome<T> = Ok(value: T) | Fail(error: Error) | Panic(crash: Crash)
  {
    predicate IsFailure() {
      !Ok?
    }

    function PropagateFailure<U>(): Outcome<U>
      requires !Ok?
    {
      if Fail? then Fail(error) else Panic(crash)
    }

    function Extract(): T
      requires Ok?
    {
      value
    }
  }
}
