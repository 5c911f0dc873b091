# Claw-machine serial protocol — Dafny model

This project models the serial protocol layer of an online claw machine's controller board, as implemented in `utils/serial_utils.py`. The host sends fixed 12-byte command frames: `0xFF 0x55`, an order code (`0xC0` status, `0xC1` load configuration, `0xC2` control), eight parameter bytes, and a checksum. The checksum is the sum of all preceding bytes modulo 256. The board answers with a 6-byte frame, and the host checks its trailing checksum and keeps bytes 3 and 4. On top of one write-then-read transaction the module offers three operations:

- `get_status_and_gift_num`
- `load_conf`, with two parameter layouts chosen by `catch`
- `control`, with one layout for each of FORWARD, BACK, LEFT, RIGHT and CATCH

Each operation is meant to log any exception and return `None`. As written, only a serial timeout does so (see "## Findings").

Modules:

- `Wrappers` (`wrappers.dfy`): `Option` and `Result`.
- `Errors` (`errors.dfy`): the kinds of exception the layer raises.
- `Bytes` (`bytes.dfy`): a `byte` newtype, Python's `sum`, the checksum (`get_validate_num`), `int_to_bytes`/`bytes_to_int` and Python slicing.
- `FrameCodec` (`frame_codec.dfy`): the order codes, the `Status` codes (named only, never read), `prefix_send_data` (`Encode`) and `prefix_receive_data` (`Decode`).
- `Transport` (`transport.dfy`): the serial port as a value. It holds the frames written, the bytes the board has put on the line, and whether a write raises.
- `Commands` (`commands.dfy`): the `Command` constants, `get_negative`, and the `control` and `load_conf` parameter layouts.
- `SerialOps` (`serial_ops.dfy`): `serial_actiong` and the three operations.

Python integers are unbounded, so parameter lists are `seq<int>`. The range check that Python's `bytes()` performs is modelled explicitly. Python's `%` floors, and with the positive divisor 256 it agrees with Dafny's `%`.

The model follows the code, not a stricter protocol:

- The decoder checks neither the frame length nor the header nor the echoed order code.
  - A read of 1 to 4 bytes that passes the checksum yields fewer than two values, so the caller's unpacking fails.
  - A 5-byte read passes whenever its last byte is the checksum of the other four. That checksum byte is then returned as the second value (`TruncatedReplyAccepted`, `TruncatedStatusReply`).
- The parameter count is never checked.
- Status bytes are returned as read, not classified.

## Model

| member | source | states |
|---|---|---|
| Bytes.Checksum | utils/serial_utils.py:34-40 | the checksum is a byte (0..255) congruent to the sum of the inputs modulo 256 |
| Bytes.ChecksumStep | utils/serial_utils.py:34-40 | appending a value adds it to the checksum and wraps at 256 (8-bit accumulation, no saturation) |
| Bytes.TwentyMaxBytesWrap | utils/serial_utils.py:34-40 | twenty bytes of 255 give checksum 236: the sum wraps instead of saturating |
| Bytes.AccumulateChecksum | utils/serial_utils.py:34-40 | a byte-wide running accumulator that wraps after every addition computes exactly the checksum |
| Bytes.IntToBytes | utils/serial_utils.py:43-48 | `bytes(list)` succeeds exactly when every value is in 0..255 (otherwise the range error) and then keeps length and every value |
| Bytes.BytesToInt | utils/serial_utils.py:51-56 | converting bytes to integers keeps length and values, all in 0..255 |
| Bytes.BytesRoundTrip | utils/serial_utils.py:43-56 | `int_to_bytes(bytes_to_int(b)) == b` for every byte string |
| Bytes.IntsRoundTrip | utils/serial_utils.py:43-56 | `bytes_to_int(int_to_bytes(xs)) == xs` for every list of byte values |
| Bytes.Slice | utils/serial_utils.py:86 | Python's `xs[lo:hi]` clamps both bounds to the length; each element is the one at offset `lo` |
| FrameCodec.Frame | utils/serial_utils.py:59-71 | the outbound list is `0xFF, 0x55, order`, the parameters unchanged at indices 3.., then a last byte that is the checksum of all before it; length is parameters + 4 |
| FrameCodec.Encode | utils/serial_utils.py:59-72 | encoding fails (range error) exactly when the order or a parameter is outside 0..255; otherwise its bytes are the outbound list |
| FrameCodec.Decode | utils/serial_utils.py:75-86 | an empty read fails; a read whose last byte is not the checksum of the others fails with a mismatch; otherwise the result is the up to two bytes at indices 3 and 4; no length or header check |
| FrameCodec.BoardReply | utils/serial_utils.py:78-80 | a conforming 6-byte reply has the header, the order, the two parameters and a valid checksum |
| FrameCodec.DecodeEncode | utils/serial_utils.py:59-86 | any frame built by the encoder with at least two parameters passes the decoder, which returns the parameters at indices 3 and 4 |
| FrameCodec.DecodeBoardReply | utils/serial_utils.py:75-86 | a conforming reply decodes to exactly its two parameter bytes |
| FrameCodec.StatusQueryFrame | utils/serial_utils.py:43-47 | a status order with eight zero parameters encodes to `255,85,192,0,0,0,0,0,0,0,0,20` |
| FrameCodec.StatusReplyExamples | utils/serial_utils.py:84-86 | `FF 55 C0 00 00 14` decodes to `(0,0)`; `FF 55 C0 00 00 15` fails the checksum |
| FrameCodec.HeaderNotChecked | utils/serial_utils.py:84-86 | a reply with a zero header and zero order code is accepted when its checksum holds |
| FrameCodec.TruncatedReplyAccepted | utils/serial_utils.py:84-86 | a 5-byte read whose last byte sums the other four is accepted and returns that checksum byte as second value |
| FrameCodec.ShortReplySlice | utils/serial_utils.py:84-86 | a 1- to 4-byte read that passes the checksum yields fewer than two values |
| Transport.Write | utils/serial_utils.py:91 | a write appends the frame to the port's output, or raises and changes nothing |
| Transport.Read | utils/serial_utils.py:92 | `read(n)` returns the first `min(n, pending)` bytes and leaves the rest pending |
| Commands.Negative | utils/serial_utils.py:157-160 | `get_negative(n)` is a byte exactly when `n` is |
| Commands.NegativeComplements | utils/serial_utils.py:157-160 | `n + get_negative(n) == 255`, and negating twice gives `n` back |
| Commands.ControlParams | utils/serial_utils.py:171-183 | known commands give eight parameters: FORWARD slot0 = t, BACK slot0 = 255 − t, LEFT slot1 = t, RIGHT slot1 = 255 − t, CATCH slot2 = 1, all other slots 0; any other command fails with the unknown-command error |
| Commands.ControlParamsAreBytes | utils/serial_utils.py:171-184 | for a known command, the control layout fits in bytes exactly when the command is CATCH or the move time is in 0..255 |
| Commands.ReverseIsMirroredForward | utils/serial_utils.py:172-179 | BACK for t sends the same parameters as FORWARD for 255 − t, and RIGHT for t the same as LEFT for 255 − t |
| Commands.ForwardAndBackDiffer | utils/serial_utils.py:172-175 | FORWARD and BACK with the same t have slot0 values summing to 255, so their layouts always differ |
| Commands.StillRequestsCoincide | utils/serial_utils.py:172-179 | FORWARD 0, BACK 255, LEFT 0 and RIGHT 255 all send the all-zero layout |
| Commands.LoadConfParams | utils/serial_utils.py:126-129 | the configuration is eight values: filler 100 in slots 0,1,2,5, game time in slot 6, 0 in slot 7, and slots 3,4 the small/big power, or 100 when `catch` |
| Commands.LoadConfParamsAreBytes | utils/serial_utils.py:126-130 | the configuration fits in bytes exactly when the game time does and, unless `catch`, both powers do; with `catch` the powers are ignored |
| SerialOps.SerialAction | utils/serial_utils.py:89-93 | a transaction writes the frame once, consumes at most six pending bytes and decodes exactly those; a failing port changes nothing |
| SerialOps.UnpackPair | utils/serial_utils.py:105 | two-name unpacking succeeds exactly on two values |
| SerialOps.Request | utils/serial_utils.py:102-106 | a bad byte value raises before anything is written; otherwise the frame is written and six bytes are read; the result is the reply's bytes 3 and 4 exactly when the port works, the read has at least five bytes and its checksum holds |
| SerialOps.Caught | utils/serial_utils.py:107-111 | the intended handler turns every exception into `None` and keeps what was written |
| SerialOps.GetStatusAndGiftNum | utils/serial_utils.py:96-111 | on a working port, writes `255,85,192,0,0,0,0,0,0,0,0,20`, consumes the six-byte read and changes nothing else; on a failing port changes nothing; answers bytes 3 and 4 of the reply exactly when it is accepted, otherwise `None`; the status is not classified |
| SerialOps.LoadConf | utils/serial_utils.py:123-137 | answers the reply's bytes 3 and 4 exactly when the values fit in bytes, the port works and the reply is accepted; an out-of-range value or a failing port changes nothing; otherwise the configuration frame is written, the six-byte read consumed, and nothing else changes |
| SerialOps.ControlStep | utils/serial_utils.py:171-185 | an unknown command fails before anything is written |
| SerialOps.Control | utils/serial_utils.py:163-191 | an unknown command, an out-of-range move time or a failing port answers `None` and changes nothing; otherwise the command's frame is written, the six-byte read consumed, nothing else changes, and the call answers the reply's bytes 3 and 4 exactly when the move time fits (or the command is CATCH) and the reply is accepted |
| SerialOps.StatusAgainstBoard | utils/serial_utils.py:96-111 | against a conforming board, the status query writes the documented frame, consumes exactly the reply and returns its two bytes |
| SerialOps.LoadConfAgainstBoard | utils/serial_utils.py:123-137 | end to end for load_conf with byte values and a conforming board |
| SerialOps.ControlAgainstBoard | utils/serial_utils.py:163-191 | end to end for control with a known command and a conforming board |
| SerialOps.BoardExchange | utils/serial_utils.py:89-93 | a conforming reply at the head of the line is exactly what `read(6)` returns, and it is accepted |
| SerialOps.SilenceGivesNone | utils/serial_utils.py:89-111 | when fewer than five bytes arrive, every operation answers `None` |
| SerialOps.TruncatedStatusReply | utils/serial_utils.py:96-106 | the 5-byte read `255,85,192,0,20` gives a status answer `(0, 20)` |
| SerialOps.HandlerAsWritten | utils/serial_utils.py:109-111 | the literal handler returns only on success; on every failure the handler's own TypeError escapes, raised while handling that failure; on both exits the port is left as the `try` body left it |
| SerialOps.GetStatusAndGiftNumAsWritten | utils/serial_utils.py:96-111 | as written, the status query returns only real answers, never `None`, and leaves the port exactly as the intended query does |
| SerialOps.LoadConfAsWritten | utils/serial_utils.py:123-137 | as written, load_conf returns only real answers, never `None`, and leaves the port exactly as the intended load_conf does |
| SerialOps.ControlAsWritten | utils/serial_utils.py:163-191 | as written, control returns only real answers, never `None`, and leaves the port exactly as the intended control does |
| SerialOps.StatusMismatchEscapes | utils/serial_utils.py:109-111 | as written, handling a corrupted status reply raises a TypeError that escapes after the query frame went out and the reply was read; it gives `None` as intended |
| SerialOps.LoadConfRangeEscapes | utils/serial_utils.py:135-137 | as written, handling the range error of a game time of 256 raises a TypeError that escapes with the port untouched; it gives `None` with the port untouched as intended |
| SerialOps.UnknownCommandEscapes | utils/serial_utils.py:182-191 | as written, handling an unknown command raises a TypeError that escapes with the port untouched; it gives `None` with the port untouched as intended |
| SerialOps.ControlMismatchEscapes | utils/serial_utils.py:184-191 | as written, a known command with a corrupted reply has already sent its motion frame and consumed the reply when the handler's TypeError escapes |

## Findings

| source | as written | input that shows it | evidently intended | confidence | as-written member | corrected member |
|---|---|---|---|---|---|---|
| utils/serial_utils.py:109-111 | `traceback.format_exc(e)` passes the exception as the `limit` argument. The standard library compares `limit` with 0, which raises TypeError inside the handler, and that TypeError, not the original failure, escapes from `get_status_and_gift_num` | a reply `FF 55 C0 00 00 15` (checksum mismatch) | log the error and return `None` | high (from the documented `format_exc(limit, chain)` signature); not executed | SerialOps.GetStatusAndGiftNumAsWritten, SerialOps.StatusMismatchEscapes | SerialOps.GetStatusAndGiftNum |
| utils/serial_utils.py:135-137 | the same handler in `load_conf` lets a TypeError escape in place of the failure | `game_time = 256` | log the error and return `None` | high; not executed | SerialOps.LoadConfAsWritten, SerialOps.LoadConfRangeEscapes | SerialOps.LoadConf |
| utils/serial_utils.py:189-191 | the same handler in `control` lets a TypeError escape in place of the failure | any command outside 1..5 | log the error and return `None` | high; not executed | SerialOps.ControlAsWritten, SerialOps.UnknownCommandEscapes, SerialOps.ControlMismatchEscapes | SerialOps.Control |

## Left out

- The `*_with_open_and_close` wrappers, `init_serial` and `main` (lines 114-120, 140-146, 194-231): they only open and close the port and print.
- `serial.Serial` itself, the baud rate and the timeouts. A read timeout shows up as fewer pending bytes. Blocking and real timing are not modelled.
- Read-side port exceptions. Only a write that raises is modelled (`Link.faulty`).
- The `SerialTimeoutException` branch. The port is built without a write timeout, so the model has no write timeout. A port fault is a generic exception, which takes the `except Exception` branch.
- Logging and `traceback`. They are side effects. The model keeps only their outcome (`None`, or an escaping exception in the as-written members).
- `time.sleep` and the commented-out loop in `main`.
- The default arguments of `load_conf` (30, 15, 60, `False`). Callers of the model pass every argument.
- Non-integer arguments: the model takes integers only. In the source, a non-integer that reaches the parameter list makes `sum()` (line 40), `255 - n` (line 160) or `bytes()` (line 48) raise TypeError. One that `catch` or CATCH ignores has no effect.
- Python's `assert` is modelled as enabled. Under `python -O` the checksum check would disappear.
- The meaning of the `Status` values. The code never checks them.
- Separate errors for a short reply or a wrong parameter count, and a strict 6-byte reply length. The code has none of them, and the model follows the code.
