/** Integers, bytes and the modulo-256 checksum of utils/serial_utils.py.
    Python integers are unbounded, so lists of values are `seq<int>`; a `bytes`
    object is a `seq<byte>`. */
module Bytes {
  import opened Wrappers
  import opened Errors

  newtype byte = x: int | 0 <= x < 256

  predicate IsByte(x: int) {
    0 <= x < 256
  }

  predicate AllBytes(xs: seq<int>) {
    forall i :: 0 <= i < |xs| ==> IsByte(xs[i])
  }

  /** Python's built-in `sum` over a list of integers. */
  function Sum(xs: seq<int>): int {
    if xs == [] then 0 else xs[0] + Sum(xs[1..])
  }

  lemma {:induction false} SumAppend(xs: seq<int>, ys: seq<int>)
    ensures Sum(xs + ys) == Sum(xs) + Sum(ys)
  {
    if xs == [] {
      assert xs + ys == ys;
    } else {
      assert (xs + ys)[1..] == xs[1..] + ys;
      SumAppend(xs[1..], ys);
    }
  }

  /** A list of `n` copies of `v` sums to `n * v`. */
  lemma {:induction false} SumRepeated(n: nat, v: int)
    ensures Sum(seq(n, _ => v)) == n * v
  {
    if n > 0 {
      assert seq(n, _ => v)[1..] == seq(n - 1, _ => v);
      SumRepeated(n - 1, v);
    }
  }

  /** get_validate_num: the byte congruent to the sum of the values modulo 256. */
  function Checksum(xs: seq<int>): (r: int)
    ensures IsByte(r)
    ensures (Sum(xs) - r) % 256 == 0
  {
    Sum(xs) % 256
  }

  /** The checksum is an 8-bit accumulator: appending one value adds it and wraps at 256. */
  lemma {:induction false} ChecksumStep(xs: seq<int>, x: int)
    ensures Checksum(xs + [x]) == (Checksum(xs) + x) % 256
  {
    SumAppend(xs, [x]);
    assert Sum([x]) == x + Sum([]);
  }

  /** The checksum wraps rather than saturates: twenty bytes of 255 give 236, not 255. */
  lemma TwentyMaxBytesWrap()
    ensures Checksum(seq(20, _ => 255)) == 236
  {
    SumRepeated(20, 255);
  }

  /** The board's way of computing the checksum: one byte-wide accumulator that wraps
      after every addition. It agrees with get_validate_num. */
  method AccumulateChecksum(xs: seq<int>) returns (acc: int)
    ensures IsByte(acc)
    ensures acc == Checksum(xs)
  {
    acc := 0;
    var i := 0;
    while i < |xs|
      invariant 0 <= i <= |xs|
      invariant acc == Checksum(xs[..i])
    {
      assert xs[..i + 1] == xs[..i] + [xs[i]];
      ChecksumStep(xs[..i], xs[i]);
      acc := (acc + xs[i]) % 256;
      i := i + 1;
    }
    assert xs[..i] == xs;
  }

  /** int_to_bytes: Python's `bytes(list)`, which raises on any value outside 0..255. */
  function IntToBytes(xs: seq<int>): (r: Result<seq<byte>, Error>)
    ensures r.Success? <==> AllBytes(xs)
    ensures r.Failure? ==> r.error == ByteRange
    ensures r.Success? ==> |r.value| == |xs|
    ensures r.Success? ==> forall i :: 0 <= i < |xs| ==> r.value[i] as int == xs[i]
  {
    if AllBytes(xs) then Success(seq(|xs|, i requires 0 <= i < |xs| => xs[i] as byte))
    else Failure(ByteRange)
  }

  /** bytes_to_int: iterating a `bytes` object yields its values as integers. */
  function BytesToInt(bs: seq<byte>): (r: seq<int>)
    ensures |r| == |bs|
    ensures AllBytes(r)
    ensures forall i :: 0 <= i < |bs| ==> r[i] == bs[i] as int
  {
    seq(|bs|, i requires 0 <= i < |bs| => bs[i] as int)
  }

  lemma BytesRoundTrip(bs: seq<byte>)
    ensures IntToBytes(BytesToInt(bs)) == Success(bs)
  {
    assert IntToBytes(BytesToInt(bs)).value == bs;
  }

  lemma IntsRoundTrip(xs: seq<int>)
    requires AllBytes(xs)
    ensures IntToBytes(xs).Success?
    ensures BytesToInt(IntToBytes(xs).value) == xs
  {
  }

  /** Python's `xs[lo:hi]` for non-negative bounds: both bounds are clamped to the length. */
  function Slice(xs: seq<int>, lo: nat, hi: nat): (r: seq<int>)
    ensures |r| == if hi <= lo || |xs| <= lo then 0 else Min(hi, |xs|) - lo
    ensures forall i :: 0 <= i < |r| ==> r[i] == xs[lo + i]
  {
    var l := Min(lo, |xs|);
    var h := Min(hi, |xs|);
    if l <= h then xs[l..h] else []
  }

  function Min(a: int, b: int): int {
    if a <= b then a else b
  }
}
