// The frame checksum of digimesh.c (calc_checksum).
//
// As written, the loop adds buf[i] for 3 <= i < len - 4, so the last four
// bytes of the frame, and with them the checksum byte, are never part of the
// sum. Both builders and the receiver use this same range.

module Checksums {
  import opened Packets

  /** Plain integer sum of a byte string: the reference for ByteSum. */
  function Sum(s: seq<byte>): nat
  {
    if s == [] then 0 else Sum(s[..|s| - 1]) + s[|s| - 1] as nat
  }

  /** The `uint8_t` accumulator of the loop after adding `s` left to right. */
  function ByteSum(s: seq<byte>): byte
  {
    if s == [] then 0 else ((ByteSum(s[..|s| - 1]) as int + s[|s| - 1] as int) % 256) as byte
  }

  lemma {:induction false} ByteSumIsSumMod256(s: seq<byte>)
    ensures ByteSum(s) as int == Sum(s) % 256
  {
    if s != [] {
      ByteSumIsSumMod256(s[..|s| - 1]);
    }
  }

  /** The bytes calc_checksum adds for a frame of length `len`. */
  function Summed(buf: seq<byte>, len: int): (r: seq<byte>)
    requires len - 4 <= |buf|
    ensures |r| == if len - 4 <= 3 then 0 else len - 7
  {
    if len - 4 <= 3 then [] else buf[3..len - 4]
  }

  /** calc_checksum: 0xFF minus the mod-256 sum of buf[3 .. len-4). */
  function Checksum(buf: seq<byte>, len: int): (r: byte)
    requires len - 4 <= |buf|
    ensures len <= 7 ==> r == 0xFF
  {
    (0xFF - ByteSum(Summed(buf, len)) as int) as byte
  }

  /** The counted bytes and the checksum add up to 0xFF modulo 256. */
  lemma ChecksumCompletesSum(buf: seq<byte>, len: int)
    requires len - 4 <= |buf|
    ensures (Sum(Summed(buf, len)) + Checksum(buf, len) as int) % 256 == 0xFF
  {
    ByteSumIsSumMod256(Summed(buf, len));
  }

  /** Checksum reads only indices 3 .. len-5: bytes elsewhere do not matter. */
  lemma ChecksumReadsOnly(a: seq<byte>, b: seq<byte>, len: int)
    requires len - 4 <= |a| && len - 4 <= |b|
    requires forall i :: 3 <= i < len - 4 ==> a[i] == b[i]
    ensures Checksum(a, len) == Checksum(b, len)
  {
    assert Summed(a, len) == Summed(b, len);
  }

  /** In particular the byte at len-1, where the builders store it, is not read. */
  lemma ChecksumIgnoresLastByte(buf: seq<byte>, len: int, x: byte)
    requires 1 <= len <= |buf|
    ensures Checksum(buf[len - 1 := x], len) == Checksum(buf, len)
  {
    ChecksumReadsOnly(buf[len - 1 := x], buf, len);
  }

  /**
   * The receiver's test `!calc_checksum(p)` accepts a frame exactly when the
   * counted bytes add up to 0xFF modulo 256.
   */
  lemma AcceptedIffSumIsFF(buf: seq<byte>, len: int)
    requires len - 4 <= |buf|
    ensures Checksum(buf, len) == 0 <==> Sum(Summed(buf, len)) % 256 == 0xFF
  {
    ChecksumCompletesSum(buf, len);
  }

  /**
   * The AT-command frame from the datasheet (7E 00 04 08 52 4E 48 0F): the
   * code sums only its byte 3 and computes 0xF7, not the 0x0F it carries.
   */
  lemma DatasheetFrameAsWritten()
    ensures Checksum([0x7E, 0x00, 0x04, 0x08, 0x52, 0x4E, 0x48, 0x0F], 8) == 0xF7
  {
    var f: seq<byte> := [0x7E, 0x00, 0x04, 0x08, 0x52, 0x4E, 0x48, 0x0F];
    assert Summed(f, 8) == [0x08];
  }

  /** calc_checksum: the loop over a packet, which it only reads. */
  method CalcChecksum(p: Packet) returns (r: byte)
    requires p.len - 4 <= p.buf.Length
    ensures r == Checksum(p.buf[..], p.len)
  {
    var chksum: byte := 0;
    var i := 3;
    while i < p.len - 4
      invariant 3 <= i && (p.len - 4 > 3 ==> i <= p.len - 4)
      invariant p.len - 4 <= 3 ==> i == 3 && chksum == 0
      invariant p.len - 4 > 3 ==> chksum == ByteSum(p.buf[3..i])
    {
      assert p.buf[3..i + 1][..i - 3] == p.buf[3..i];
      chksum := ((chksum as int + p.buf[i] as int) % 256) as byte;
      i := i + 1;
    }
    r := (0xFF - chksum as int) as byte;
  }
}
