// Wire constants and the packet record shared by the receiver and the
// builders (digimesh.h).

module Packets {

  /** An unsigned 8-bit value (`uint8_t`). */
  newtype byte = b: int | 0 <= b < 256

  /** Capacity of a packet buffer in bytes (XBEE_BUFFER_SIZE). */
  const BufferSize: nat := 100

  /** Start delimiter of every API frame. */
  const Start: byte := 0x7E

  /** Destination used when the caller passes address 0. */
  const BroadcastAddress: nat := 0x0000_0000_0000_FFFF

  // Frame types; only the first and third are produced by this code.
  const FrameTransmitRequest: byte := 0x10
  const FrameTransmitStatus: byte := 0x8B
  const FrameAtCommand: byte := 0x08
  const FrameAtCommandResponse: byte := 0x88
  const FrameReceivePacket: byte := 0x90
  const FrameModemStatus: byte := 0x8A

  /** `x++` on a `uint8_t`: wraps from 255 to 0. */
  function Inc8(x: byte): (r: byte)
    ensures r as int == (x as int + 1) % 256
  {
    if x == 255 then 0 else x + 1
  }

  /** The unsigned number a big-endian byte string denotes. */
  function BeValue(s: seq<byte>): nat
  {
    if s == [] then 0 else BeValue(s[..|s| - 1]) * 256 + s[|s| - 1] as nat
  }

  /** `(uint8_t)(x >> shift)`: the byte of `x` that starts at bit `shift`. */
  function ShiftByte(x: nat, divisor: nat): byte
    requires divisor > 0
  {
    ((x / divisor) % 256) as byte
  }

  /** The two length bytes of a frame header: `(uint8_t)(n >> 8)`, `(uint8_t)n`. */
  function LengthField(n: nat): seq<byte>
  {
    [ShiftByte(n, 0x100), ShiftByte(n, 1)]
  }

  lemma LengthFieldDecodes(n: nat)
    requires n < 0x1_0000
    ensures BeValue(LengthField(n)) == n
  {
    var s := LengthField(n);
    assert s[..1] == [s[0]];
    assert BeValue([s[0]]) == s[0] as nat by {
      assert [s[0]][..0] == [];
    }
  }

  /** `s` with the bytes from `at` on replaced by `x`: what a run of stores leaves. */
  function Splice(s: seq<byte>, at: nat, x: seq<byte>): (r: seq<byte>)
    requires at + |x| <= |s|
    ensures |r| == |s|
  {
    s[..at] + x + s[at + |x|..]
  }

  /** Two adjacent runs of stores are one run. */
  lemma SpliceTwice(s: seq<byte>, at: nat, x: seq<byte>, y: seq<byte>)
    requires at + |x| + |y| <= |s|
    ensures Splice(Splice(s, at, x), at + |x|, y) == Splice(s, at, x + y)
  {
    var t := Splice(s, at, x);
    assert t[..at + |x|] == s[..at] + x;
    assert t[at + |x| + |y|..] == s[at + |x| + |y|..];
  }

  /**
   * `struct xbee_packet`: a fixed buffer and the length of the frame held in
   * it (the whole frame, not only its payload).
   */
  class Packet {
    const buf: array<byte>
    var len: nat

    /** A packet in static storage: all bytes and the length are zero. */
    constructor ()
      ensures fresh(buf) && buf.Length == BufferSize
      ensures buf[..] == seq(BufferSize, _ => 0) && len == 0
    {
      buf := new byte[BufferSize](_ => 0);
      len := 0;
    }
  }
}
