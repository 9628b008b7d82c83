// The two frame builders of digimesh.c: xbee_build_command_packet and
// xbee_tx_data. Each lays a frame out in place in a caller-owned packet and
// draws one frame id from the sequencer. Neither checks the capacity of the
// buffer, so the capacity is a precondition here.

module Builders {
  import opened Packets
  import opened Checksums
  import opened FrameIds

  /** The eight address bytes `addr>>56`, ..., `addr>>8`, `addr`, as `uint8_t`. */
  function AddressBytes(a: nat): (r: seq<byte>)
    ensures |r| == 8
  {
    [ ShiftByte(a, 0x100_0000_0000_0000), ShiftByte(a, 0x1_0000_0000_0000)
    , ShiftByte(a, 0x100_0000_0000), ShiftByte(a, 0x1_0000_0000)
    , ShiftByte(a, 0x100_0000), ShiftByte(a, 0x1_0000)
    , ShiftByte(a, 0x100), ShiftByte(a, 1) ]
  }

  /** One more byte of a big-endian prefix: from `a / (256 d)` to `a / d`. */
  lemma ShiftStep(a: nat, d: nat)
    requires d > 0
    ensures (a / (d * 256)) * 256 + ShiftByte(a, d) as nat == a / d
  {
    var q, r0 := a / d, a % d;
    var t, r1 := q / 256, q % 256;
    var r := r1 * d + r0;
    assert a == t * (d * 256) + r by {
      assert a == q * d + r0;
      assert q * d == (t * 256 + r1) * d == t * (d * 256) + r1 * d;
    }
    assert r < d * 256 by {
      MulLe(r1, 255, d);
    }
    DivUnique(a, d * 256, t, r);
  }

  lemma MulLe(x: nat, y: nat, m: nat)
    requires x <= y
    ensures x * m <= y * m
  {
    var k := y - x;
    assert y * m == x * m + k * m;
  }

  lemma DivUnique(a: nat, m: nat, t: nat, r: nat)
    requires m > 0 && a == t * m + r && r < m
    ensures a / m == t
  {
    var q, rem := a / m, a % m;
    assert a == q * m + rem;
    if q < t {
      assert (q + 1) * m == q * m + m;
      MulLe(q + 1, t, m);
    } else if q > t {
      MulLe(t + 1, q, m);
    }
  }

  /** The address bytes of a 64-bit address decode back to the address. */
  lemma AddressRoundTrip(a: nat)
    requires a < 0x1_0000_0000_0000_0000
    ensures BeValue(AddressBytes(a)) == a
  {
    var s := AddressBytes(a);
    assert s[..0] == [];
    ShiftStep(a, 0x100_0000_0000_0000);
    assert BeValue(s[..1]) == a / 0x100_0000_0000_0000 by {
      assert s[..1][..0] == s[..0];
    }
    ShiftStep(a, 0x1_0000_0000_0000);
    assert BeValue(s[..2]) == a / 0x1_0000_0000_0000 by {
      assert s[..2][..1] == s[..1];
    }
    ShiftStep(a, 0x100_0000_0000);
    assert BeValue(s[..3]) == a / 0x100_0000_0000 by {
      assert s[..3][..2] == s[..2];
    }
    ShiftStep(a, 0x1_0000_0000);
    assert BeValue(s[..4]) == a / 0x1_0000_0000 by {
      assert s[..4][..3] == s[..3];
    }
    ShiftStep(a, 0x100_0000);
    assert BeValue(s[..5]) == a / 0x100_0000 by {
      assert s[..5][..4] == s[..4];
    }
    ShiftStep(a, 0x1_0000);
    assert BeValue(s[..6]) == a / 0x1_0000 by {
      assert s[..6][..5] == s[..5];
    }
    ShiftStep(a, 0x100);
    assert BeValue(s[..7]) == a / 0x100 by {
      assert s[..7][..6] == s[..6];
    }
    ShiftStep(a, 1);
    assert s[..8] == s;
  }

  /** xbee_tx_data sends to the broadcast address when given address 0. */
  function Destination(addr: nat): (d: nat)
    ensures d != 0
    ensures addr != 0 ==> d == addr
    ensures addr == 0 ==> d == BroadcastAddress
  {
    if addr == 0 then BroadcastAddress else addr
  }

  /** `p->buf[p->len-1] = calc_checksum(p);`, the last line of both builders. */
  method StoreChecksum(p: Packet)
    requires 1 <= p.len <= p.buf.Length
    modifies p.buf
    ensures p.buf[..] == old(p.buf[..])[p.len - 1 := Checksum(old(p.buf[..]), p.len)]
    ensures p.buf[p.len - 1] == Checksum(p.buf[..], p.len)
  {
    var ck := CalcChecksum(p);
    ghost var before := p.buf[..];
    p.buf[p.len - 1] := ck;
    assert p.buf[..] == before[p.len - 1 := ck];
    ChecksumIgnoresLastByte(before, p.len, ck);
  }

  /**
   * The first five stores of both builders: start delimiter, the length
   * field `len - 4` (big-endian), the frame type and a fresh frame id.
   */
  method PutFrameStart(p: Packet, frameType: byte, ids: Sequencer) returns (id: byte)
    requires p.buf.Length >= 5 && p.len >= 4
    modifies p.buf, ids
    ensures id == ids.frameId == NextId(old(ids.frameId))
    ensures p.buf[..] == Splice(old(p.buf[..]), 0, [Start] + LengthField(p.len - 4) + [frameType, id])
  {
    p.buf[0] := Start;
    p.buf[1] := ShiftByte(p.len - 4, 0x100);
    p.buf[2] := ShiftByte(p.len - 4, 1);
    p.buf[3] := frameType;
    id := ids.GetFrameId();
    p.buf[4] := id;
  }

  /** memcpy(buf + at, data, bytes). */
  method CopyPayload(buf: array<byte>, at: nat, data: seq<byte>, bytes: nat)
    requires bytes <= |data| && at + bytes <= buf.Length
    modifies buf
    ensures buf[..] == Splice(old(buf[..]), at, data[..bytes])
  {
    forall k | 0 <= k < bytes {
      buf[at + k] := data[k];
    }
  }

  // ---------------------------------------------------------------------------
  // xbee_build_command_packet

  /** The frame xbee_build_command_packet leaves in buf[0 .. len). */
  function CommandFrame(id: byte, payload: seq<byte>): seq<byte>
  {
    var body := [Start] + LengthField(|payload| + 2) + [FrameAtCommand, id] + payload;
    body + [Checksum(body, |payload| + 6)]
  }

  /**
   * Command frame layout: 0x7E, the big-endian length len - 4, type 0x08, the
   * frame id, the payload, and as last byte the value calc_checksum computes
   * for the finished frame.
   */
  lemma CommandFrameLayout(id: byte, payload: seq<byte>)
    requires |payload| + 6 <= BufferSize
    ensures var f := CommandFrame(id, payload);
      && |f| == |payload| + 6
      && f[0] == Start
      && BeValue(f[1..3]) == |f| - 4
      && f[3] == FrameAtCommand
      && f[4] == id
      && f[5..|f| - 1] == payload
      && f[|f| - 1] == Checksum(f, |f|)
  {
    var body := [Start] + LengthField(|payload| + 2) + [FrameAtCommand, id] + payload;
    var f := CommandFrame(id, payload);
    assert f[1..3] == LengthField(|payload| + 2);
    LengthFieldDecodes(|payload| + 2);
    assert f[5..|f| - 1] == payload;
    ChecksumReadsOnly(f, body, |f|);
  }

  /** The buffer after the stores of xbee_build_command_packet. */
  lemma CommandStores(b0: seq<byte>, header: seq<byte>, payload: seq<byte>, b1: seq<byte>, b2: seq<byte>)
    requires |header| == 5 && |payload| + 6 <= |b0|
    requires b1 == Splice(Splice(b0, 0, header), 5, payload)
    requires b2 == b1[|payload| + 5 := Checksum(b1, |payload| + 6)]
    ensures b2 == header + payload + [Checksum(header + payload, |payload| + 6)] + b0[|payload| + 6..]
    ensures b2[|payload| + 5] == Checksum(b2, |payload| + 6)
  {
    var len := |payload| + 6;
    var body := header + payload;
    SpliceTwice(b0, 0, header, payload);
    assert b1 == Splice(b0, 0, body);
    assert b1 == body + b0[len - 1..] by {
      assert b0[..0] == [];
    }
    ChecksumReadsOnly(b1, body, len);
    var ck := Checksum(b1, len);
    assert b2 == body + [ck] + b0[len..] by {
      assert b0[len - 1..] == [b0[len - 1]] + b0[len..];
    }
    ChecksumIgnoresLastByte(b1, len, ck);
  }

  /**
   * xbee_build_command_packet: writes the command frame into `p` in place
   * and draws the next frame id; bytes past the frame are left alone.
   */
  method BuildCommandPacket(p: Packet, ids: Sequencer, data: seq<byte>, bytes: nat)
    requires p.buf.Length == BufferSize
    requires bytes <= |data| && bytes + 6 <= BufferSize
    modifies p, p.buf, ids
    ensures ids.frameId == NextId(old(ids.frameId))
    ensures p.len == bytes + 6
    ensures p.buf[..] == CommandFrame(ids.frameId, data[..bytes]) + old(p.buf[bytes + 6..])
    ensures p.buf[p.len - 1] == Checksum(p.buf[..], p.len)
  {
    ghost var b0 := p.buf[..];
    p.len := bytes + 6;
    var id := PutFrameStart(p, FrameAtCommand, ids);
    ghost var header := [Start] + LengthField(bytes + 2) + [FrameAtCommand, id];
    CopyPayload(p.buf, 5, data, bytes);
    ghost var b1 := p.buf[..];
    StoreChecksum(p);
    CommandStores(b0, header, data[..bytes], b1, p.buf[..]);
  }

  // ---------------------------------------------------------------------------
  // xbee_tx_data

  /**
   * The 17 header bytes xbee_tx_data writes before the payload, followed by
   * the payload: 0x7E, the length field, type 0x10, the frame id, the
   * destination, reserved 0xFF 0xFE, hop limit 0 and options 0.
   */
  function DataLayout(id: byte, dest: nat, payload: seq<byte>): seq<byte>
  {
    [Start] + LengthField(|payload| + 10) + [FrameTransmitRequest, id]
      + AddressBytes(dest) + [0xFF, 0xFE, 0x00, 0x00] + payload
  }

  /**
   * What xbee_tx_data leaves in buf[0 .. |payload| + 17): the layout with the
   * checksum stored over index len - 1, where len = |payload| + 14.
   */
  function DataImage(id: byte, addr: nat, payload: seq<byte>): seq<byte>
  {
    var layout := DataLayout(id, Destination(addr), payload);
    var len := |payload| + 14;
    layout[len - 1 := Checksum(layout, len)]
  }

  /**
   * Data frame layout as written: 0x7E, length len - 4, type 0x10, the frame
   * id and the destination address are intact; the checksum, stored at
   * len - 1 = |payload| + 13, replaces a reserved, hop or option byte when the
   * payload is shorter than 4 bytes and payload byte |payload| - 4 otherwise.
   */
  lemma DataImageLayout(id: byte, addr: nat, payload: seq<byte>)
    requires addr < 0x1_0000_0000_0000_0000
    requires |payload| + 17 <= BufferSize
    ensures var f, len := DataImage(id, addr, payload), |payload| + 14;
      && |f| == |payload| + 17
      && f[0] == Start
      && BeValue(f[1..3]) == len - 4
      && f[3] == FrameTransmitRequest
      && f[4] == id
      && BeValue(f[5..13]) == Destination(addr)
      && f[len - 1] == Checksum(f, len)
      && (|payload| < 4 ==>
            f[13..17] == [0xFF, 0xFE, 0x00, 0x00][|payload| := f[len - 1]] && f[17..] == payload)
      && (|payload| >= 4 ==>
            f[13..17] == [0xFF, 0xFE, 0x00, 0x00] && f[17..] == payload[|payload| - 4 := f[len - 1]])
  {
    var len := |payload| + 14;
    var layout := DataLayout(id, Destination(addr), payload);
    var f := DataImage(id, addr, payload);
    assert layout[1..3] == LengthField(|payload| + 10);
    assert f[1..3] == layout[1..3];
    LengthFieldDecodes(|payload| + 10);
    assert f[5..13] == layout[5..13] == AddressBytes(Destination(addr));
    AddressRoundTrip(Destination(addr));
    ChecksumReadsOnly(f, layout, len);
    assert layout[13..17] == [0xFF, 0xFE, 0x00, 0x00];
    assert layout[17..] == payload;
  }

  /** The eight stores of the destination address, most significant byte first, at 5 .. 12. */
  method PutAddress(buf: array<byte>, a: nat)
    requires buf.Length >= 13
    modifies buf
    ensures buf[..] == Splice(old(buf[..]), 5, AddressBytes(a))
  {
    buf[5] := ShiftByte(a, 0x100_0000_0000_0000);
    buf[6] := ShiftByte(a, 0x1_0000_0000_0000);
    buf[7] := ShiftByte(a, 0x100_0000_0000);
    buf[8] := ShiftByte(a, 0x1_0000_0000);
    buf[9] := ShiftByte(a, 0x100_0000);
    buf[10] := ShiftByte(a, 0x1_0000);
    buf[11] := ShiftByte(a, 0x100);
    buf[12] := ShiftByte(a, 1);
    assert buf[5..13] == AddressBytes(a);
    assert buf[..5] == old(buf[..5]);
    assert buf[13..] == old(buf[13..]);
  }

  /** The reserved bytes 0xFF 0xFE, hop limit 0 and options 0, at 13 .. 16. */
  method PutOptions(buf: array<byte>)
    requires buf.Length >= 17
    modifies buf
    ensures buf[..] == Splice(old(buf[..]), 13, [0xFF, 0xFE, 0x00, 0x00])
  {
    buf[13] := 0xFF;
    buf[14] := 0xFE;
    buf[15] := 0x00;
    buf[16] := 0x00;
  }

  /** The buffer after the stores of xbee_tx_data. */
  lemma DataStores(b0: seq<byte>, header: seq<byte>, address: seq<byte>, payload: seq<byte>,
                   b1: seq<byte>, b2: seq<byte>)
    requires |header| == 5 && |address| == 8 && |payload| + 17 <= |b0|
    requires b1 == Splice(Splice(Splice(Splice(b0, 0, header), 5, address), 13, [0xFF, 0xFE, 0x00, 0x00]), 17, payload)
    requires b2 == b1[|payload| + 13 := Checksum(b1, |payload| + 14)]
    ensures var layout := header + address + [0xFF, 0xFE, 0x00, 0x00] + payload;
      b2 == layout[|payload| + 13 := Checksum(layout, |payload| + 14)] + b0[|payload| + 17..]
    ensures b2[|payload| + 13] == Checksum(b2, |payload| + 14)
  {
    var len := |payload| + 14;
    var options: seq<byte> := [0xFF, 0xFE, 0x00, 0x00];
    var layout := header + address + options + payload;
    SpliceTwice(b0, 0, header, address);
    SpliceTwice(b0, 0, header + address, options);
    SpliceTwice(b0, 0, header + address + options, payload);
    assert b1 == Splice(b0, 0, layout);
    assert b1 == layout + b0[|payload| + 17..] by {
      assert b0[..0] == [];
    }
    ChecksumReadsOnly(b1, layout, len);
    var ck := Checksum(b1, len);
    assert b2 == layout[len - 1 := ck] + b0[|payload| + 17..];
    ChecksumIgnoresLastByte(b1, len, ck);
  }

  /**
   * xbee_tx_data: writes the data frame into `p` in place, draws the next
   * frame id and returns `p`; bytes past the 17 + bytes written are left alone.
   */
  method TxData(p: Packet, ids: Sequencer, addr: nat, data: seq<byte>, bytes: nat)
      returns (r: Packet)
    requires p.buf.Length == BufferSize
    requires addr < 0x1_0000_0000_0000_0000
    requires bytes <= |data| && bytes + 17 <= BufferSize
    modifies p, p.buf, ids
    ensures r == p
    ensures ids.frameId == NextId(old(ids.frameId))
    ensures p.len == bytes + 14
    ensures p.buf[..] == DataImage(ids.frameId, addr, data[..bytes]) + old(p.buf[bytes + 17..])
    ensures p.buf[p.len - 1] == Checksum(p.buf[..], p.len)
  {
    ghost var b0 := p.buf[..];
    p.len := bytes + 14;
    var a := addr;
    if a == 0 {
      a := BroadcastAddress;
    }
    var id := PutFrameStart(p, FrameTransmitRequest, ids);
    ghost var header := [Start] + LengthField(bytes + 10) + [FrameTransmitRequest, id];
    PutAddress(p.buf, a);
    PutOptions(p.buf);
    CopyPayload(p.buf, 17, data, bytes);
    ghost var b1 := p.buf[..];
    StoreChecksum(p);
    DataStores(b0, header, AddressBytes(a), data[..bytes], b1, p.buf[..]);
    r := p;
  }
}
