/** The serial port seen as a value: the frames written so far, the bytes the board has
    put on the line and not yet read, and whether a write raises. A read never blocks;
    a timeout shows up as fewer bytes than asked for. */
module Transport {
  import opened Wrappers
  import opened Errors
  import opened Bytes

  datatype Link = Link(sent: seq<seq<byte>>, incoming: seq<byte>, faulty: bool)

  /** `ser.write(data)`: the frame goes out as one write, or the port raises and nothing changes. */
  function Write(link: Link, data: seq<byte>): (r: Result<Link, Error>)
    ensures r.Failure? <==> link.faulty
    ensures r.Failure? ==> r.error == PortFault
    ensures r.Success? ==> r.value.sent == link.sent + [data]
    ensures r.Success? ==> r.value.incoming == link.incoming && r.value.faulty == link.faulty
  {
    if link.faulty then Failure(PortFault) else Success(link.(sent := link.sent + [data]))
  }

  /** `ser.read(n)`: up to `n` pending bytes, fewer when the line falls silent. */
  function Read(link: Link, n: nat): (r: (seq<byte>, Link))
    ensures |r.0| == Min(n, |link.incoming|)
    ensures r.0 + r.1.incoming == link.incoming
    ensures r.1.sent == link.sent && r.1.faulty == link.faulty
  {
    var k := Min(n, |link.incoming|);
    assert link.incoming[..k] + link.incoming[k..] == link.incoming;
    (link.incoming[..k], link.(incoming := link.incoming[k..]))
  }
}
