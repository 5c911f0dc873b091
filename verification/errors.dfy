/** The exceptions the protocol layer can raise; as intended, every one of them ends as
    `None` at the public operations (see `HandlerAsWritten` for the code as written). */
module Errors {

  datatype Error =
    | ByteRange        // bytes() given a value outside 0..255 (ValueError)
    | EmptyFrame       // the read returned nothing, so indexing its last byte fails (IndexError)
    | ChecksumMismatch // the trailing byte is not the checksum of the others (AssertionError)
    | PairExpected     // the decoded slice does not unpack into two values (ValueError)
    | UnknownCommand   // control() was given a command outside the Command constants
    | PortFault        // the serial port raised while writing
}
