/**
  The types the application layer borrows from the transport and generic
  Ledger crates: command and answer frames, the error type, and the two
  numeric codes whose values those crates fix.
 */
module LedgerTypes {
  import opened BoundedInts

  /**
    A command APDU in the shape of section 5.1 of ISO/IEC 7816-4: class,
    instruction, two parameter bytes and a data field.
   */
  datatype ApduCommand = ApduCommand(cla: uint8, ins: uint8, p1: uint8, p2: uint8, data: seq<uint8>)

  /** A response APDU: the status word and the response data before it. */
  datatype ApduAnswer = ApduAnswer(retcode: uint16, data: seq<uint8>)

  /** A failure reported by the transport below the application layer. */
  datatype TransportError = TransportError(description: string)

  /**
    The application's error kinds. `Transport` wraps a failure of the
    exchange; `InvalidEmptyMessage` is raised by the chunked sender, not by
    the application code itself.
   */
  datatype LedgerError =
    | Transport(cause: TransportError)
    | InvalidEmptyMessage
    | InvalidPK
    | Utf8
    | NoSignature
    | InvalidSignature

  /** The status word meaning success; its value is fixed by the transport crate. */
  const NO_ERROR: uint16

  /** The `p1` marker of the first frame of a chunked payload; its value is fixed by the generic crate. */
  const CHUNK_INIT: uint8
}
