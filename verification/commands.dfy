/** The eight-parameter layouts of load_conf and control in utils/serial_utils.py. */
module Commands {
  import opened Wrappers
  import opened Errors
  import opened Bytes

  /** Command */
  const FORWARD: int := 1
  const BACK: int := 2
  const LEFT: int := 3
  const RIGHT: int := 4
  const CATCH: int := 5

  /** The filler value of load_conf's unused channels. */
  const FILLER: int := 100

  predicate IsCommand(command: int) {
    FORWARD <= command <= CATCH
  }

  /** get_negative: a movement along the reverse direction is sent as 255 minus its time. */
  function Negative(n: int): (r: int)
    ensures IsByte(r) <==> IsByte(n)
  {
    255 - n
  }

  /** A time and its negative add up to 255, and negating twice gives the time back. */
  lemma NegativeComplements(n: int)
    ensures n + Negative(n) == 255
    ensures Negative(Negative(n)) == n
  {
  }

  /** The parameters of control(): the only non-zero slot is the command's own —
      slot 0 for the forward/back axis, slot 1 for left/right, slot 2 for the claw. */
  function ControlParams(command: int, moveTime: int): (r: Result<seq<int>, Error>)
    ensures r.Success? <==> IsCommand(command)
    ensures r.Failure? ==> r.error == UnknownCommand
    ensures r.Success? ==> |r.value| == 8
    ensures r.Success? ==> forall i :: 3 <= i < 8 ==> r.value[i] == 0
    ensures command == FORWARD ==> r.value[0] == moveTime && r.value[1] == 0 && r.value[2] == 0
    ensures command == BACK ==> r.value[0] + moveTime == 255 && r.value[1] == 0 && r.value[2] == 0
    ensures command == LEFT ==> r.value[0] == 0 && r.value[1] == moveTime && r.value[2] == 0
    ensures command == RIGHT ==> r.value[0] == 0 && r.value[1] + moveTime == 255 && r.value[2] == 0
    ensures command == CATCH ==> r.value[0] == 0 && r.value[1] == 0 && r.value[2] == 1
  {
    if command == FORWARD then Success([moveTime, 0, 0, 0, 0, 0, 0, 0])
    else if command == BACK then Success([Negative(moveTime), 0, 0, 0, 0, 0, 0, 0])
    else if command == LEFT then Success([0, moveTime, 0, 0, 0, 0, 0, 0])
    else if command == RIGHT then Success([0, Negative(moveTime), 0, 0, 0, 0, 0, 0])
    else if command == CATCH then Success([0, 0, 1, 0, 0, 0, 0, 0])
    else Failure(UnknownCommand)
  }

  /** The layout of a control command fits in bytes exactly when its move time does;
      the claw command ignores the move time altogether. */
  lemma ControlParamsAreBytes(command: int, moveTime: int)
    ensures IsCommand(command) ==>
      (AllBytes(ControlParams(command, moveTime).value) <==> command == CATCH || IsByte(moveTime))
  {
    if IsCommand(command) && command != CATCH {
      var p := ControlParams(command, moveTime).value;
      if AllBytes(p) {
        assert IsByte(p[0]) && IsByte(p[1]);
      }
    }
  }

  /** Going back for `t` sends the very parameters of going forward for `255 - t`, and
      likewise right against left: the direction is not carried separately. */
  lemma ReverseIsMirroredForward(t: int)
    ensures ControlParams(BACK, t) == ControlParams(FORWARD, Negative(t))
    ensures ControlParams(RIGHT, t) == ControlParams(LEFT, Negative(t))
  {
  }

  /** The move times of forward and back for the same `t` are complements relative to 255,
      so the two frames always differ. */
  lemma ForwardAndBackDiffer(t: int)
    ensures ControlParams(FORWARD, t).value[0] + ControlParams(BACK, t).value[0] == 255
    ensures ControlParams(FORWARD, t) != ControlParams(BACK, t)
  {
    assert ControlParams(FORWARD, t).value[0] != ControlParams(BACK, t).value[0];
  }

  /** Four different requests reach the board as the all-zero layout. */
  lemma StillRequestsCoincide()
    ensures ControlParams(FORWARD, 0) == ControlParams(BACK, 255)
         == ControlParams(LEFT, 0) == ControlParams(RIGHT, 255)
         == Success([0, 0, 0, 0, 0, 0, 0, 0])
  {
  }

  /** The parameters of load_conf: six filler channels around the game time; when the
      claw is not in catch mode, slots 3 and 4 carry the small and big claw power. */
  function LoadConfParams(gameTime: int, smallPower: int, bigPower: int, catch: bool): (r: seq<int>)
    ensures |r| == 8
    ensures r[0] == r[1] == r[2] == r[5] == FILLER
    ensures r[6] == gameTime && r[7] == 0
    ensures r[3] == (if catch then FILLER else smallPower)
    ensures r[4] == (if catch then FILLER else bigPower)
  {
    if catch then [FILLER, FILLER, FILLER, FILLER, FILLER, FILLER, gameTime, 0]
    else [FILLER, FILLER, FILLER, smallPower, bigPower, FILLER, gameTime, 0]
  }

  /** The configuration fits in bytes exactly when the game time does and, outside catch
      mode, both powers do; in catch mode the powers are ignored. */
  lemma LoadConfParamsAreBytes(gameTime: int, smallPower: int, bigPower: int, catch: bool)
    ensures AllBytes(LoadConfParams(gameTime, smallPower, bigPower, catch))
        <==> IsByte(gameTime) && (catch || (IsByte(smallPower) && IsByte(bigPower)))
    ensures catch ==> (LoadConfParams(gameTime, smallPower, bigPower, catch)
                       == LoadConfParams(gameTime, FILLER, FILLER, false))
  {
    var p := LoadConfParams(gameTime, smallPower, bigPower, catch);
    if AllBytes(p) {
      assert IsByte(p[3]) && IsByte(p[4]) && IsByte(p[6]);
    }
  }
}
