/**
 The message on the wire (freertos/include/wire_protocol.h and its copy under
 linux/include): a packed structure of eleven bytes that the firmware sends as it
 lies in memory and the Linux side receives into the same structure. Both
 processors are little-endian.
 */
module WireProtocol {
  import opened Machine
  import opened Numbers

  const WIRE_MAGIC0: Byte := 0xAA
  const WIRE_MAGIC1: Byte := 0xBB
  const WIRE_TYPE_WHEEL_SPEED: Byte := 0xF0
  const WIRE_MSG_SIZE := 11

  datatype WireMsg = WireMsg(magic0: Byte, magic1: Byte, kind: Byte, seqnum: U32, wheelSpeed: I32)

  function Encode32(u: U32): (bytes: seq<Byte>)
    ensures |bytes| == 4
  {
    [u % 0x100, u / 0x100 % 0x100, u / 0x100 / 0x100 % 0x100, u / 0x100 / 0x100 / 0x100]
  }

  function Decode32(bytes: seq<Byte>): U32
    requires |bytes| == 4
  {
    var b0: int, b1: int, b2: int, b3: int := bytes[0], bytes[1], bytes[2], bytes[3];
    b0 + 0x100 * (b1 + 0x100 * (b2 + 0x100 * b3))
  }

  function Encode(m: WireMsg): (bytes: seq<Byte>)
    ensures |bytes| == WIRE_MSG_SIZE
  {
    [m.magic0, m.magic1, m.kind] + Encode32(m.seqnum) + Encode32(Unsigned(m.wheelSpeed))
  }

  function Decode(bytes: seq<Byte>): WireMsg
    requires |bytes| == WIRE_MSG_SIZE
  {
    WireMsg(bytes[0], bytes[1], bytes[2], Decode32(bytes[3..7]), Signed(Decode32(bytes[7..11])))
  }

  lemma RoundTrip32(u: U32)
    ensures Decode32(Encode32(u)) == u
  {
  }

  lemma RoundTripBytes32(bytes: seq<Byte>)
    requires |bytes| == 4
    ensures Encode32(Decode32(bytes)) == bytes
  {
    var high := bytes[2] as int + 0x100 * bytes[3] as int;
    var middle := bytes[1] as int + 0x100 * high;
    DivModUnique(0x100, middle, bytes[0]);
    DivModUnique(0x100, high, bytes[1]);
    DivModUnique(0x100, bytes[3], bytes[2]);
  }

  /** What is sent is what is read, for every content. */
  lemma RoundTrip(m: WireMsg)
    ensures Decode(Encode(m)) == m
  {
    var bytes := Encode(m);
    RoundTrip32(m.seqnum);
    RoundTrip32(Unsigned(m.wheelSpeed));
    assert bytes[3..7] == Encode32(m.seqnum);
    assert bytes[7..11] == Encode32(Unsigned(m.wheelSpeed));
  }

  /** And every eleven bytes are some message: nothing on the wire is lost in decoding. */
  lemma RoundTripBytes(bytes: seq<Byte>)
    requires |bytes| == WIRE_MSG_SIZE
    ensures Encode(Decode(bytes)) == bytes
  {
    RoundTripBytes32(bytes[3..7]);
    RoundTripBytes32(bytes[7..11]);
    assert bytes == [bytes[0], bytes[1], bytes[2]] + bytes[3..7] + bytes[7..11];
  }

  /** The eleven bytes at their places: three header bytes, then two numbers with the low byte first. */
  lemma Layout(m: WireMsg)
    ensures var b := Encode(m);
      && |b| == 11
      && b[0] == m.magic0 && b[1] == m.magic1 && b[2] == m.kind
      && m.seqnum == LowByteFirst(b[3], b[4], b[5], b[6])
      && m.wheelSpeed == LowByteFirst(b[7], b[8], b[9], b[10]) - (if m.wheelSpeed < 0 then 0x1_0000_0000 else 0)
  {
    RoundTrip32(m.seqnum);
    RoundTrip32(Unsigned(m.wheelSpeed));
    var b, s, w := Encode(m), Encode32(m.seqnum), Encode32(Unsigned(m.wheelSpeed));
    assert [b[3], b[4], b[5], b[6]] == s;
    assert [b[7], b[8], b[9], b[10]] == w;
  }

  function LowByteFirst(b0: int, b1: int, b2: int, b3: int): int {
    b0 + 0x100 * b1 + 0x1_0000 * b2 + 0x100_0000 * b3
  }
}
