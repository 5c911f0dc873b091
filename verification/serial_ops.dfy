/** One write-then-read transaction (serial_actiong) and the three operations built on
    it: get_status_and_gift_num, load_conf and control. As intended, every exception those
    operations meet is caught and turned into `None` (`Caught`); see `HandlerAsWritten` for
    the handlers as written. The port is a `Link` value passed in and out. */
module SerialOps {
  import opened Wrappers
  import opened Errors
  import opened Bytes
  import opened FrameCodec
  import opened Transport
  import opened Commands

  /** serial_actiong reads at most one reply frame's worth of bytes. */
  const REPLY_LENGTH: nat := 6

  const NO_PARAMS: seq<int> := [0, 0, 0, 0, 0, 0, 0, 0]

  /** A computation that may raise, together with the port as it is afterwards. */
  datatype Step<T> = Step(result: Result<T, Error>, link: Link)

  /** What an operation returns (`None` for any exception), with the port afterwards. */
  datatype Reply = Reply(answer: Option<(int, int)>, link: Link)

  /** The bytes the next `read(6)` returns. */
  function PendingReply(link: Link): seq<byte> {
    link.incoming[..Min(REPLY_LENGTH, |link.incoming|)]
  }

  /** The incoming bytes left once `read(6)` has run. */
  function AfterReply(link: Link): seq<byte> {
    link.incoming[Min(REPLY_LENGTH, |link.incoming|)..]
  }

  /** A reply the operations accept: its checksum holds and `raw[3:5]` holds two values. */
  predicate Answerable(raw: seq<byte>) {
    |raw| >= 5 && WellSummed(BytesToInt(raw))
  }

  /** The pair an accepted reply carries: the bytes at indices 3 and 4. */
  function Payload(raw: seq<byte>): (int, int)
    requires |raw| >= 5
  {
    (raw[3] as int, raw[4] as int)
  }

  /** serial_actiong: write the frame, read up to six bytes, decode them. */
  function SerialAction(link: Link, data: seq<byte>): (s: Step<seq<int>>)
    ensures link.faulty ==> s == Step(Failure(PortFault), link)
    ensures !link.faulty ==> s.link == Link(link.sent + [data], AfterReply(link), false)
    ensures !link.faulty ==> s.result == Decode(PendingReply(link))
  {
    match Write(link, data)
    case Failure(e) => Step(Failure(e), link)
    case Success(written) =>
      var (raw, rest) := Read(written, REPLY_LENGTH);
      assert raw == PendingReply(link) by {
        assert raw == (raw + rest.incoming)[..|raw|];
      }
      assert rest.incoming == AfterReply(link) by {
        assert rest.incoming == (raw + rest.incoming)[|raw|..];
      }
      Step(Decode(raw), rest)
  }

  /** The two-name unpacking `a, b = values` of the callers. */
  function UnpackPair(values: seq<int>): (r: Result<(int, int), Error>)
    ensures r.Success? <==> |values| == 2
    ensures r.Failure? ==> r.error == PairExpected
    ensures r.Success? ==> r.value.0 == values[0] && r.value.1 == values[1]
  {
    if |values| == 2 then Success((values[0], values[1])) else Failure(PairExpected)
  }

  /** The body the three operations share: encode the frame, run the transaction,
      unpack the two values. An encoding failure raises before anything is written. */
  function Request(link: Link, order: int, params: seq<int>): (s: Step<(int, int)>)
    ensures !(IsByte(order) && AllBytes(params)) ==> s == Step(Failure(ByteRange), link)
    ensures link.faulty ==> s.link == link && s.result.Failure?
    ensures IsByte(order) && AllBytes(params) && !link.faulty ==>
      s.link == Link(link.sent + [Encode(order, params).value], AfterReply(link), false)
    ensures s.result.Success? <==>
      IsByte(order) && AllBytes(params) && !link.faulty && Answerable(PendingReply(link))
    ensures s.result.Success? ==> s.result.value == Payload(PendingReply(link))
  {
    match Encode(order, params)
    case Failure(e) => Step(Failure(e), link)
    case Success(frame) =>
      var t := SerialAction(link, frame);
      match t.result
      case Failure(e) => Step(Failure(e), t.link)
      case Success(values) => Step(UnpackPair(values), t.link)
  }

  /** The catch-all handlers as intended: any exception of the `try` body is logged and
      the operation returns `None`; whatever the body wrote stays written. */
  function Caught(s: Step<(int, int)>): (r: Reply)
    ensures r.answer.Some? <==> s.result.Success?
    ensures r.answer.Some? ==> r.answer.value == s.result.value
    ensures r.link == s.link
  {
    Reply(s.result.ToOption(), s.link)
  }

  /** How a call of an operation ends when its handler is read literally: it returns, or
      an exception escapes to the caller; either way with the port as the `try` body left it. The only exception that can escape is the
      TypeError a handler raises; `during` is the exception it was handling, which Python
      keeps only as that TypeError's context, so a caller's `except` for the original
      kind does not catch it. */
  datatype Exit =
    | Returned(answer: Option<(int, int)>, link: Link)
    | TypeErrorEscapes(during: Error, link: Link)

  /** The `except Exception` handlers as written: `traceback.format_exc(e)` passes the
      exception object as the `limit` argument, whose comparison with 0 inside the
      standard library raises TypeError. So an exception other than a serial timeout is
      not turned into `None`: after one log line a TypeError escapes from the handler
      in its place. Whatever the body wrote or read stays written or read. */
  function HandlerAsWritten(s: Step<(int, int)>): (x: Exit)
    ensures x.Returned? <==> s.result.Success?
    ensures x.Returned? ==> x.answer == Some(s.result.value)
    ensures s.result.Failure? ==> x.during == s.result.error
    ensures x.link == s.link
  {
    match s.result
    case Success(v) => Returned(Some(v), s.link)
    case Failure(e) => TypeErrorEscapes(e, s.link)
  }

  function GetStatusAndGiftNumAsWritten(link: Link): (x: Exit)
    ensures x.Returned? <==> GetStatusAndGiftNum(link).answer.Some?
    ensures x.Returned? ==> x.answer == GetStatusAndGiftNum(link).answer
    ensures x.link == GetStatusAndGiftNum(link).link
  {
    HandlerAsWritten(Request(link, ORDER_STATUS, NO_PARAMS))
  }

  function LoadConfAsWritten(link: Link, gameTime: int, smallPower: int, bigPower: int, catch: bool): (x: Exit)
    ensures x.Returned? <==> LoadConf(link, gameTime, smallPower, bigPower, catch).answer.Some?
    ensures x.Returned? ==> x.answer == LoadConf(link, gameTime, smallPower, bigPower, catch).answer
    ensures x.link == LoadConf(link, gameTime, smallPower, bigPower, catch).link
  {
    HandlerAsWritten(Request(link, ORDER_LOAD_CONF, LoadConfParams(gameTime, smallPower, bigPower, catch)))
  }

  function ControlAsWritten(link: Link, command: int, moveTime: int): (x: Exit)
    ensures x.Returned? <==> Control(link, command, moveTime).answer.Some?
    ensures x.Returned? ==> x.answer == Control(link, command, moveTime).answer
    ensures x.link == Control(link, command, moveTime).link
  {
    HandlerAsWritten(ControlStep(link, command, moveTime))
  }

  /** As written, handling a corrupted status reply raises a TypeError that escapes, after
      the query frame went out and the reply was read; as intended, the status query
      returns `None`. */
  lemma StatusMismatchEscapes(sent: seq<seq<byte>>)
    ensures GetStatusAndGiftNumAsWritten(Link(sent, [0xFF, 0x55, 0xC0, 0, 0, 0x15], false))
         == TypeErrorEscapes(ChecksumMismatch,
                             Link(sent + [[255, 85, 192, 0, 0, 0, 0, 0, 0, 0, 0, 20]], [], false))
    ensures GetStatusAndGiftNum(Link(sent, [0xFF, 0x55, 0xC0, 0, 0, 0x15], false)).answer == None
  {
    var link := Link(sent, [0xFF, 0x55, 0xC0, 0, 0, 0x15], false);
    assert PendingReply(link) == [0xFF, 0x55, 0xC0, 0, 0, 0x15];
    StatusReplyExamples();
  }

  /** As written, handling the range error of a game time of 256 raises a TypeError that
      escapes from load_conf with the port untouched; as intended, load_conf returns `None`,
      also with the port untouched. */
  lemma LoadConfRangeEscapes(link: Link, catch: bool)
    ensures LoadConfAsWritten(link, 256, 15, 60, catch) == TypeErrorEscapes(ByteRange, link)
    ensures LoadConf(link, 256, 15, 60, catch) == Reply(None, link)
  {
    assert !AllBytes(LoadConfParams(256, 15, 60, catch)) by {
      assert !IsByte(LoadConfParams(256, 15, 60, catch)[6]);
    }
  }

  /** As written, handling an unknown command raises a TypeError that escapes from control;
      as intended, control returns `None`. Either way the port is untouched. */
  lemma UnknownCommandEscapes(link: Link, command: int, moveTime: int)
    requires !IsCommand(command)
    ensures ControlAsWritten(link, command, moveTime) == TypeErrorEscapes(UnknownCommand, link)
    ensures Control(link, command, moveTime) == Reply(None, link)
  {
  }

  /** As written, a control command whose reply is corrupted has already sent its motion
      frame and consumed the reply when the handler's TypeError escapes. */
  lemma {:induction false} ControlMismatchEscapes(link: Link, command: int, moveTime: int)
    requires !link.faulty && IsCommand(command) && (command == CATCH || IsByte(moveTime))
    requires |PendingReply(link)| > 0 && !WellSummed(BytesToInt(PendingReply(link)))
    ensures ControlAsWritten(link, command, moveTime) == TypeErrorEscapes(
      ChecksumMismatch,
      Link(link.sent + [Encode(ORDER_CONTROL, ControlParams(command, moveTime).value).value],
           AfterReply(link), false))
  {
    ControlParamsAreBytes(command, moveTime);
  }

  /** get_status_and_gift_num: query with eight zero parameters; the status byte is
      returned as read, whatever its value. */
  function GetStatusAndGiftNum(link: Link): (r: Reply)
    ensures r.answer.Some? <==> !link.faulty && Answerable(PendingReply(link))
    ensures r.answer.Some? ==> r.answer.value == Payload(PendingReply(link))
    ensures link.faulty ==> r.link == link
    ensures !link.faulty ==>
      r.link == Link(link.sent + [[255, 85, 192, 0, 0, 0, 0, 0, 0, 0, 0, 20]], AfterReply(link), false)
  {
    StatusQueryFrame();
    Caught(Request(link, ORDER_STATUS, NO_PARAMS))
  }

  /** load_conf: push game time and claw powers; a value outside 0..255 that reaches the
      frame raises before anything is written. */
  function LoadConf(link: Link, gameTime: int, smallPower: int, bigPower: int, catch: bool): (r: Reply)
    ensures r.answer.Some? <==>
      IsByte(gameTime) && (catch || (IsByte(smallPower) && IsByte(bigPower)))
      && !link.faulty && Answerable(PendingReply(link))
    ensures r.answer.Some? ==> r.answer.value == Payload(PendingReply(link))
    ensures !IsByte(gameTime) || (!catch && !(IsByte(smallPower) && IsByte(bigPower))) || link.faulty ==>
      r.link == link
    ensures IsByte(gameTime) && (catch || (IsByte(smallPower) && IsByte(bigPower))) && !link.faulty ==>
      r.link == Link(link.sent
        + [Encode(ORDER_LOAD_CONF, LoadConfParams(gameTime, smallPower, bigPower, catch)).value],
        AfterReply(link), false)
  {
    LoadConfParamsAreBytes(gameTime, smallPower, bigPower, catch);
    Caught(Request(link, ORDER_LOAD_CONF, LoadConfParams(gameTime, smallPower, bigPower, catch)))
  }

  /** The `try` body of control(): an unknown command raises before a frame is built. */
  function ControlStep(link: Link, command: int, moveTime: int): (s: Step<(int, int)>)
    ensures !IsCommand(command) ==> s == Step(Failure(UnknownCommand), link)
  {
    match ControlParams(command, moveTime)
    case Failure(e) => Step(Failure(e), link)
    case Success(params) => Request(link, ORDER_CONTROL, params)
  }

  /** control: an unknown command raises before a frame is built, so nothing is written;
      forward/back/left/right also need a move time in 0..255, the claw command does not. */
  function Control(link: Link, command: int, moveTime: int): (r: Reply)
    ensures !IsCommand(command) ==> r == Reply(None, link)
    ensures r.answer.Some? <==>
      IsCommand(command) && (command == CATCH || IsByte(moveTime))
      && !link.faulty && Answerable(PendingReply(link))
    ensures r.answer.Some? ==> r.answer.value == Payload(PendingReply(link))
    ensures (command != CATCH && !IsByte(moveTime)) || link.faulty ==> r.link == link
    ensures IsCommand(command) && (command == CATCH || IsByte(moveTime)) && !link.faulty ==>
      r.link == Link(link.sent + [Encode(ORDER_CONTROL, ControlParams(command, moveTime).value).value],
                     AfterReply(link), false)
  {
    ControlParamsAreBytes(command, moveTime);
    Caught(ControlStep(link, command, moveTime))
  }

  /** End to end: against a board that answers with a conforming reply, the status query
      writes the documented frame, consumes exactly that reply and returns its two bytes. */
  lemma {:induction false} StatusAgainstBoard(link: Link, status: byte, gifts: byte, rest: seq<byte>)
    requires !link.faulty
    requires link.incoming == BoardReply(ORDER_STATUS as byte, status, gifts) + rest
    ensures GetStatusAndGiftNum(link) == Reply(
      Some((status as int, gifts as int)),
      Link(link.sent + [[255, 85, 192, 0, 0, 0, 0, 0, 0, 0, 0, 20]], rest, false))
  {
    BoardExchange(link, ORDER_STATUS as byte, status, gifts, rest);
  }

  /** End to end for load_conf with in-range values and a conforming board. */
  lemma {:induction false} LoadConfAgainstBoard(link: Link, gameTime: byte, smallPower: byte,
                                                bigPower: byte, catch: bool, ok: byte, spare: byte,
                                                rest: seq<byte>)
    requires !link.faulty
    requires link.incoming == BoardReply(ORDER_LOAD_CONF as byte, ok, spare) + rest
    ensures LoadConf(link, gameTime as int, smallPower as int, bigPower as int, catch) == Reply(
      Some((ok as int, spare as int)),
      Link(link.sent + [Encode(ORDER_LOAD_CONF,
                               LoadConfParams(gameTime as int, smallPower as int, bigPower as int, catch)).value],
           rest, false))
  {
    BoardExchange(link, ORDER_LOAD_CONF as byte, ok, spare, rest);
  }

  /** End to end for control with a known command and a conforming board. */
  lemma {:induction false} ControlAgainstBoard(link: Link, command: int, moveTime: int,
                                               ok: byte, spare: byte, rest: seq<byte>)
    requires !link.faulty && IsCommand(command) && (command == CATCH || IsByte(moveTime))
    requires link.incoming == BoardReply(ORDER_CONTROL as byte, ok, spare) + rest
    ensures Control(link, command, moveTime) == Reply(
      Some((ok as int, spare as int)),
      Link(link.sent + [Encode(ORDER_CONTROL, ControlParams(command, moveTime).value).value], rest, false))
  {
    BoardExchange(link, ORDER_CONTROL as byte, ok, spare, rest);
  }

  /** A conforming reply at the head of the line is exactly what the next read returns,
      and it is accepted. */
  lemma {:induction false} BoardExchange(link: Link, order: byte, p1: byte, p2: byte, rest: seq<byte>)
    requires link.incoming == BoardReply(order, p1, p2) + rest
    ensures PendingReply(link) == BoardReply(order, p1, p2)
    ensures AfterReply(link) == rest
    ensures Answerable(PendingReply(link))
    ensures Payload(PendingReply(link)) == (p1 as int, p2 as int)
  {
    var reply := BoardReply(order, p1, p2);
    assert PendingReply(link) == (reply + rest)[..6] == reply;
    assert AfterReply(link) == (reply + rest)[6..] == rest;
  }

  /** When fewer than five bytes arrive before the read times out, every operation
      answers `None`, though its frame has gone out. */
  lemma {:induction false} SilenceGivesNone(link: Link, command: int, moveTime: int)
    requires |link.incoming| < 5
    ensures GetStatusAndGiftNum(link).answer == None
    ensures Control(link, command, moveTime).answer == None
    ensures forall t: int, s: int, b: int, c: bool :: LoadConf(link, t, s, b, c).answer == None
  {
    assert |PendingReply(link)| < 5;
  }

  /** The read length is not checked: a board that stops after five bytes whose last is
      the checksum of the first four yields a status answer whose gift count is that
      checksum. */
  lemma TruncatedStatusReply(sent: seq<seq<byte>>)
    ensures GetStatusAndGiftNum(Link(sent, [255, 85, 192, 0, 20], false)).answer == Some((0, 20))
  {
    var link := Link(sent, [255, 85, 192, 0, 20], false);
    assert PendingReply(link) == [255, 85, 192, 0, 20];
    var ints := BytesToInt(PendingReply(link));
    assert ints[..4] == [255, 85, 192, 0];
    assert Sum([0]) == 0;
    assert Sum([192, 0]) == 192;
    assert Sum([85, 192, 0]) == 277;
    assert Sum([255, 85, 192, 0]) == 532;
  }
}
