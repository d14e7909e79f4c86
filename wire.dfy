/** Byte-level framing of the link between the client and the board:
    the length prefix every command carries, the reader that splits an
    inbound stream back into packets, and the 16-bit big-endian split that
    commands and reports use for wide values. */
module Wire {

  datatype Option<T> = None | Some(value: T)

  /** A value that Python's `bytes()` accepts as one element. */
  predicate IsByte(x: int) {
    0 <= x < 256
  }

  type Byte = x: int | 0 <= x < 256

  predicate AllBytes(s: seq<int>) {
    forall i :: 0 <= i < |s| ==> IsByte(s[i])
  }

  lemma AllBytesPair(a: int, b: int)
    ensures AllBytes([a, b]) <==> IsByte(a) && IsByte(b)
  {
    assert [a, b][0] == a && [a, b][1] == b;
  }

  /** A frame whose first byte counts the bytes that follow it. */
  predicate WellFormed(frame: seq<Byte>) {
    |frame| >= 1 && frame[0] == |frame| - 1
  }

  /** `_send_command`: the length of the command list is inserted at its
      head and the list is converted with `bytes()`, which fails (ValueError)
      unless every element, the length included, lies in 0..255. */
  function Encode(command: seq<int>): (r: Option<seq<Byte>>)
    ensures r.Some? <==> |command| < 256 && AllBytes(command)
    ensures r.Some? ==> WellFormed(r.value) && r.value[1..] == command
  {
    if |command| < 256 && AllBytes(command) then
      var body: seq<Byte> := command;
      Some([|command|] + body)
    else
      None
  }

  /** The bytes on the wire for a log of frames, in the order they were written. */
  function Flatten(frames: seq<seq<Byte>>): seq<Byte>
  {
    if frames == [] then [] else frames[0] + Flatten(frames[1..])
  }

  /** Outcome of one read of the report dispatcher on the remaining stream. */
  datatype Next = Incomplete | Packet(body: seq<Byte>, rest: seq<Byte>)

  /** One iteration of the dispatcher's reads: a length byte L, then L more
      bytes. With fewer bytes than that available the read would wait. */
  function NextFrame(stream: seq<Byte>): (r: Next)
    ensures r.Packet? <==> |stream| >= 1 && |stream| > stream[0]
    ensures r.Packet? ==> stream == [|r.body|] + r.body + r.rest
  {
    if |stream| == 0 || |stream| <= stream[0] then Incomplete
    else
      var body := stream[1..1 + stream[0]];
      assert stream == [stream[0]] + body + stream[1 + stream[0]..];
      Packet(body, stream[1 + stream[0]..])
  }

  /** Every complete packet of a stream, in arrival order. */
  function Deframe(stream: seq<Byte>): seq<seq<Byte>>
    decreases |stream|
  {
    match NextFrame(stream)
    case Incomplete => []
    case Packet(body, rest) => [body] + Deframe(rest)
  }

  /** Deframing inverts framing: a stream made of well-formed frames is read
      back as exactly the bodies of those frames, in order. */
  lemma {:induction false} DeframeFlatten(frames: seq<seq<Byte>>)
    requires forall i :: 0 <= i < |frames| ==> WellFormed(frames[i])
    ensures |Deframe(Flatten(frames))| == |frames|
    ensures forall i :: 0 <= i < |frames| ==> |frames[i]| >= 1 && Deframe(Flatten(frames))[i] == frames[i][1..]
  {
    if frames != [] {
      var f := frames[0];
      var tail := Flatten(frames[1..]);
      assert f == [f[0]] + f[1..];
      assert Flatten(frames) == [f[0]] + f[1..] + tail;
      var next := NextFrame(Flatten(frames));
      assert next == Packet(f[1..], tail) by {
        assert |Flatten(frames)| > Flatten(frames)[0];
        assert |next.body| == f[0];
      }
      DeframeFlatten(frames[1..]);
      assert Deframe(Flatten(frames)) == [f[1..]] + Deframe(tail);
    }
  }

  /** `v >> 8` and `v & 0xff` in Python: an arithmetic shift is a floor
      division and the mask is the non-negative remainder, which are Dafny's
      `/` and `%` for the positive divisor 256. */
  function Split16(v: int): (r: (int, int))
    ensures Join16(r.0, r.1) == v
    ensures IsByte(r.1)
    ensures IsByte(r.0) <==> 0 <= v < 65536
  {
    (v / 256, v % 256)
  }

  /** `(hi << 8) + lo`, the reconstruction used by the report handlers. */
  function Join16(hi: int, lo: int): (v: int)
    ensures IsByte(hi) && IsByte(lo) ==> 0 <= v < 65536 && v / 256 == hi && v % 256 == lo
  {
    hi * 256 + lo
  }

  /** `int.to_bytes(2, byteorder="big")`: OverflowError outside 0..65535. */
  function ToBytes2Big(v: int): (r: Option<(Byte, Byte)>)
    ensures r.Some? <==> 0 <= v < 65536
    ensures r.Some? ==> Join16(r.value.0, r.value.1) == v
  {
    if 0 <= v < 65536 then Some((v / 256, v % 256)) else None
  }
}
