/** The frame codec of utils/serial_utils.py: prefix_send_data builds the outbound
    12-byte frame, prefix_receive_data checks and slices the inbound 6-byte frame. */
module FrameCodec {
  import opened Wrappers
  import opened Errors
  import opened Bytes

  /** The two header bytes every frame starts with. */
  const HEADER_HIGH: int := 0xFF
  const HEADER_LOW: int := 0x55

  /** OrderCode */
  const ORDER_STATUS: int := 0xC0
  const ORDER_LOAD_CONF: int := 0xC1
  const ORDER_CONTROL: int := 0xC2

  /** Status: the codes a board may report in the first byte of a status reply. The
      model names them only; no operation reads, checks or classifies the status byte. */
  const STATUS_IDLE: int := 1
  const STATUS_BUSY: int := 2
  const STATUS_FIXING: int := 3
  const STATUS_ERROR: int := 4

  /** A frame is well summed when its last byte is the checksum of all bytes before it. */
  predicate WellSummed(f: seq<int>) {
    |f| > 0 && f[|f| - 1] == Checksum(f[..|f| - 1])
  }

  /** The integer list prefix_send_data hands to `bytes()`: header, order, the parameters
      unchanged, and the checksum of all of these. The parameter count is not checked. */
  function Frame(order: int, params: seq<int>): (f: seq<int>)
    ensures |f| == |params| + 4
    ensures f[0] == HEADER_HIGH && f[1] == HEADER_LOW && f[2] == order
    ensures f[3..|f| - 1] == params
    ensures WellSummed(f)
  {
    var head := [HEADER_HIGH, HEADER_LOW, order] + params;
    assert (head + [Checksum(head)])[..|head|] == head;
    head + [Checksum(head)]
  }

  /** prefix_send_data: fails exactly when `bytes()` rejects a value, i.e. when the order
      code or some parameter lies outside 0..255 (the checksum always fits). */
  function Encode(order: int, params: seq<int>): (r: Result<seq<byte>, Error>)
    ensures r.Success? <==> IsByte(order) && AllBytes(params)
    ensures r.Failure? ==> r.error == ByteRange
    ensures r.Success? ==> |r.value| == |params| + 4
    ensures r.Success? ==> BytesToInt(r.value) == Frame(order, params)
  {
    var f := Frame(order, params);
    assert AllBytes(f) <==> IsByte(order) && AllBytes(params) by {
      if AllBytes(f) {
        forall i | 0 <= i < |params| ensures IsByte(params[i]) {
          assert params[i] == f[3..|f| - 1][i] == f[3 + i];
        }
      }
    }
    assert AllBytes(f) ==> BytesToInt(IntToBytes(f).value) == f by {
      if AllBytes(f) { IntsRoundTrip(f); }
    }
    IntToBytes(f)
  }

  /** prefix_receive_data: the last byte must be the checksum of the others (an empty read
      has no last byte and raises); otherwise the result is Python's `raw[3:5]`. Neither the
      length, nor the header, nor the echoed order code is checked. */
  function Decode(raw: seq<byte>): (r: Result<seq<int>, Error>)
    ensures r == Failure(EmptyFrame) <==> |raw| == 0
    ensures r == Failure(ChecksumMismatch) <==> |raw| > 0 && !WellSummed(BytesToInt(raw))
    ensures r.Success? <==> WellSummed(BytesToInt(raw))
    ensures r.Success? ==> |r.value| == (if |raw| >= 5 then 2 else if |raw| >= 3 then |raw| - 3 else 0)
    ensures r.Success? ==> forall i :: 0 <= i < |r.value| ==> r.value[i] == raw[3 + i] as int
  {
    var ints := BytesToInt(raw);
    if |ints| == 0 then Failure(EmptyFrame)
    else if Checksum(ints[..|ints| - 1]) != ints[|ints| - 1] then Failure(ChecksumMismatch)
    else Success(Slice(ints, 3, 5))
  }

  /** The 6-byte reply a conforming board sends: the response framing with two parameters. */
  function BoardReply(order: byte, p1: byte, p2: byte): (raw: seq<byte>)
    ensures |raw| == 6
    ensures raw[0] as int == HEADER_HIGH && raw[1] as int == HEADER_LOW && raw[2] == order
    ensures raw[3] == p1 && raw[4] == p2
    ensures WellSummed(BytesToInt(raw))
  {
    Encode(order as int, [p1 as int, p2 as int]).value
  }

  /** Round trip: whatever prefix_send_data produces passes the decoder's checksum
      assertion, and the decoder returns the parameters at frame indices 3 and 4. */
  lemma {:induction false} DecodeEncode(order: int, params: seq<int>)
    requires IsByte(order) && AllBytes(params)
    requires |params| >= 2
    ensures Decode(Encode(order, params).value) == Success(params[..2])
  {
    var raw := Encode(order, params).value;
    var f := Frame(order, params);
    assert BytesToInt(raw) == f;
    assert Decode(raw).Success?;
    var got := Decode(raw).value;
    assert |got| == 2;
    forall i | 0 <= i < |got| ensures got[i] == params[i] {
      assert got[i] == f[3 + i] == f[3..|f| - 1][i];
    }
    assert got == params[..2];
  }

  /** A conforming board's reply decodes to exactly the two parameter bytes it carries. */
  lemma DecodeBoardReply(order: byte, p1: byte, p2: byte)
    ensures Decode(BoardReply(order, p1, p2)) == Success([p1 as int, p2 as int])
  {
    DecodeEncode(order as int, [p1 as int, p2 as int]);
  }

  /** The worked example of the source: a status query with eight zero parameters. */
  lemma StatusQueryFrame()
    ensures Encode(ORDER_STATUS, [0, 0, 0, 0, 0, 0, 0, 0])
         == Success([255, 85, 192, 0, 0, 0, 0, 0, 0, 0, 0, 20])
  {
    var zeros := [0, 0, 0, 0, 0, 0, 0, 0];
    assert zeros == seq(8, _ => 0);
    SumRepeated(8, 0);
    SumAppend([HEADER_HIGH, HEADER_LOW, ORDER_STATUS], zeros);
    assert Sum([HEADER_HIGH, HEADER_LOW, ORDER_STATUS]) == 532 by {
      assert [HEADER_HIGH, HEADER_LOW, ORDER_STATUS][1..] == [HEADER_LOW, ORDER_STATUS];
      assert [HEADER_LOW, ORDER_STATUS][1..] == [ORDER_STATUS];
      assert [ORDER_STATUS][1..] == [];
      assert Sum([ORDER_STATUS]) == 192;
      assert Sum([HEADER_LOW, ORDER_STATUS]) == 277;
    }
    var f: seq<int> := [255, 85, 192, 0, 0, 0, 0, 0, 0, 0, 0, 20];
    assert Frame(ORDER_STATUS, zeros) == f;
    var wire: seq<byte> := [255, 85, 192, 0, 0, 0, 0, 0, 0, 0, 0, 20];
    var r := Encode(ORDER_STATUS, zeros);
    assert |r.value| == 12;
    forall i | 0 <= i < 12 ensures r.value[i] == wire[i] {
      assert r.value[i] as int == BytesToInt(r.value)[i] == f[i];
    }
    assert r.value == wire;
  }

  /** A correct status reply decodes to (0, 0); one checksum off is rejected. */
  lemma StatusReplyExamples()
    ensures Decode([0xFF, 0x55, 0xC0, 0, 0, 0x14]) == Success([0, 0])
    ensures Decode([0xFF, 0x55, 0xC0, 0, 0, 0x15]) == Failure(ChecksumMismatch)
  {
    assert [0xFF, 0x55, 0xC0, 0, 0, 0x14][..5] == [0xFF, 0x55, 0xC0, 0, 0];
    assert BytesToInt([0xFF, 0x55, 0xC0, 0, 0, 0x14])[..5] == [0xFF, 0x55, 0xC0, 0, 0];
    assert BytesToInt([0xFF, 0x55, 0xC0, 0, 0, 0x15])[..5] == [0xFF, 0x55, 0xC0, 0, 0];
    assert Sum([0xFF, 0x55, 0xC0, 0, 0]) == 532;
  }

  /** The header and the echoed order code are not inspected: any frame whose last byte
      sums up the others is accepted. */
  lemma HeaderNotChecked()
    ensures Decode([0, 0, 0, 7, 9, 16]) == Success([7, 9])
  {
    assert BytesToInt([0, 0, 0, 7, 9, 16])[..5] == [0, 0, 0, 7, 9];
    assert Sum([0, 0, 0, 7, 9]) == 16;
  }

  /** No length check: a read cut short after five bytes still passes when its fifth byte
      sums up the first four, and that checksum byte comes back as the second value. */
  lemma {:induction false} TruncatedReplyAccepted(raw: seq<byte>)
    requires |raw| == 5
    requires raw[4] as int == Checksum(BytesToInt(raw[..4]))
    ensures Decode(raw) == Success([raw[3] as int, raw[4] as int])
  {
    assert BytesToInt(raw)[..4] == BytesToInt(raw[..4]);
    assert Decode(raw).Success?;
    assert Decode(raw).value == [raw[3] as int, raw[4] as int];
  }

  /** Reads of one to four bytes that pass the checksum give fewer than two values. */
  lemma {:induction false} ShortReplySlice(raw: seq<byte>)
    requires 0 < |raw| < 5
    requires WellSummed(BytesToInt(raw))
    ensures Decode(raw).Success? && |Decode(raw).value| < 2
  {
  }
}
