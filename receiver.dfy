// The byte-at-a-time frame receiver of digimesh.c (xbee_add_byte).
//
// The receiver keeps two packets in static storage and receives into the one
// `p` points at. When a frame completes with a good checksum it points `p` at
// the other packet and hands the filled one to the caller, which gives
// double buffering without a copy. Its state is the two packets, the choice of
// active packet, the payload length taken from the frame header, and the
// global error counter.
//
// `Step` states what one call does to that state; the class `Receiver` is the
// in-place implementation and is proved to follow `Step`.

module FrameReceiver {
  import opened Packets
  import opened Checksums

  datatype Option<T> = None | Some(value: T)

  /** One of the two static packets: p1 or p2. */
  datatype Slot = First | Second {
    function Other(): (o: Slot)
      ensures o != this
    {
      if this == First then Second else First
    }
  }

  /** A packet as a value: buffer contents and the frame length `len`. */
  datatype Frame = Frame(buf: seq<byte>, len: nat)

  /**
   * The receiver's state: packets p1 and p2, which of them `p` points at,
   * the payload length `len` read from the header, and xbee_comm_err_count.
   */
  datatype RxState = RxState(p1: Frame, p2: Frame, active: Slot, payloadLen: nat, errCount: byte)

  /** The state after one byte, and the packet returned (None for NULL). */
  datatype StepResult = StepResult(next: RxState, out: Option<Slot>)

  /** Both buffers have the capacity and no length exceeds it. */
  predicate Wf(s: RxState)
  {
    && |s.p1.buf| == BufferSize && |s.p2.buf| == BufferSize
    && s.p1.len <= BufferSize && s.p2.len <= BufferSize
    && s.payloadLen < 0x1_0000
  }

  function Get(s: RxState, slot: Slot): Frame
  {
    if slot == First then s.p1 else s.p2
  }

  function Set(s: RxState, slot: Slot, f: Frame): RxState
  {
    if slot == First then s.(p1 := f) else s.(p2 := f)
  }

  /** The packet `p` points at. */
  function Active(s: RxState): Frame
  {
    Get(s, s.active)
  }

  function SetActive(s: RxState, f: Frame): RxState
  {
    Set(s, s.active, f)
  }

  /** Static storage starts zeroed and `p` starts at p1. */
  const Zeros: seq<byte> := seq(BufferSize, _ => 0)
  const Initial: RxState := RxState(Frame(Zeros, 0), Frame(Zeros, 0), First, 0, 0)

  /** A full buffer is dropped before the store, at the cost of one error. */
  function DropIfFull(s: RxState): (r: RxState)
    requires Wf(s)
    ensures Wf(r) && r.active == s.active
  {
    if Active(s).len >= BufferSize
    then SetActive(s, Active(s).(len := 0)).(payloadLen := 0, errCount := Inc8(s.errCount))
    else s
  }

  /**
   * One call of xbee_add_byte with byte `c`. Every buffer length stays at most
   * the capacity, the active packet changes exactly when a packet is returned,
   * and the packet returned is the one that was active.
   */
  function Step(s: RxState, c: byte): (r: StepResult)
    requires Wf(s)
    ensures Wf(r.next)
    ensures r.next.active == if r.out.Some? then s.active.Other() else s.active
    ensures r.out.Some? ==> r.out.value == s.active
  {
    var s1 := DropIfFull(s);
    var q := Active(s1);
    if q.len == 0 && c != Start then
      // an empty buffer only takes a start delimiter
      StepResult(s1.(errCount := Inc8(s1.errCount)), None)
    else
      var f := Frame(q.buf[q.len := c], q.len + 1);
      var s2 := SetActive(s1, f);
      if f.len == 3 then
        StepResult(s2.(payloadLen := f.buf[1] as nat * 256 + f.buf[2] as nat), None)
      else if s2.payloadLen != 0 && f.len == s2.payloadLen + 4 then
        if Checksum(f.buf, f.len) == 0 then
          StepResult(s2.(active := s2.active.Other(), payloadLen := 0), Some(s2.active))
        else
          StepResult(SetActive(s2, f.(len := 0)).(payloadLen := 0, errCount := Inc8(s2.errCount)), None)
      else
        StepResult(s2, None)
  }

  // ---------------------------------------------------------------------------
  // One byte

  /** A byte other than 0x7E on an empty buffer costs one error and nothing else. */
  lemma DesyncDropsByte(s: RxState, c: byte)
    requires Wf(s) && Active(s).len == 0 && c != Start
    ensures Step(s, c) == StepResult(s.(errCount := Inc8(s.errCount)), None)
  {
  }

  /**
   * A byte arriving on a full buffer drops the frame in progress (one error)
   * and is then handled as the first byte of a frame: a 0x7E starts a new
   * frame, anything else is a desync and costs a second error.
   */
  lemma OverflowRestarts(s: RxState, c: byte)
    requires Wf(s) && Active(s).len >= BufferSize
    ensures var r := Step(s, c); var q := Active(s);
      && r.out == None
      && r.next.active == s.active
      && r.next.payloadLen == 0
      && Get(r.next, s.active.Other()) == Get(s, s.active.Other())
      && (c == Start ==>
            Active(r.next) == Frame(q.buf[0 := c], 1) && r.next.errCount == Inc8(s.errCount))
      && (c != Start ==>
            Active(r.next) == Frame(q.buf, 0) && r.next.errCount == Inc8(Inc8(s.errCount)))
  {
  }

  /**
   * The third stored byte completes the header: the payload length becomes
   * buf[1] * 256 + buf[2] and nothing is returned.
   */
  lemma LengthCaptured(s: RxState, c: byte)
    requires Wf(s) && Active(s).len == 2
    ensures var r := Step(s, c);
      && r.out == None
      && Active(r.next) == Frame(Active(s).buf[2 := c], 3)
      && r.next.payloadLen == Active(s).buf[1] as nat * 256 + c as nat
      && r.next.errCount == s.errCount
      && r.next.active == s.active
      && Get(r.next, s.active.Other()) == Get(s, s.active.Other())
  {
  }

  /**
   * A packet is returned exactly when the buffer was not full, a nonzero
   * payload length is known, the new byte brings the buffer to that length
   * plus 4, and calc_checksum of the result is 0. A declared length of 0
   * therefore never completes.
   */
  lemma ReturnsIff(s: RxState, c: byte)
    requires Wf(s)
    ensures var q := Active(s);
      Step(s, c).out.Some? <==>
        && q.len < BufferSize
        && s.payloadLen != 0
        && q.len + 1 == s.payloadLen + 4
        && Checksum(q.buf[q.len := c], q.len + 1) == 0
  {
  }

  /**
   * On a good checksum the filled packet is returned with its length intact,
   * the other packet becomes active exactly as it was (its length is not
   * reset), the payload length is cleared and the error count is unchanged.
   */
  lemma GoodFrameSwaps(s: RxState, c: byte)
    requires Wf(s) && Step(s, c).out.Some?
    ensures var r, q := Step(s, c), Active(s);
      && r.out == Some(s.active)
      && Get(r.next, s.active) == Frame(q.buf[q.len := c], q.len + 1)
      && r.next.active == s.active.Other()
      && Active(r.next) == Get(s, s.active.Other())
      && r.next.payloadLen == 0
      && r.next.errCount == s.errCount
  {
    ReturnsIff(s, c);
  }

  /**
   * A completed frame with a nonzero checksum is dropped: the active length
   * and the payload length become 0, no swap happens, one error is counted.
   */
  lemma BadFrameDropped(s: RxState, c: byte)
    requires Wf(s)
    requires var q := Active(s);
      && q.len < BufferSize
      && s.payloadLen != 0
      && q.len + 1 == s.payloadLen + 4
      && Checksum(q.buf[q.len := c], q.len + 1) != 0
    ensures var r, q := Step(s, c), Active(s);
      && r.out == None
      && r.next.active == s.active
      && Active(r.next) == Frame(q.buf[q.len := c], 0)
      && r.next.payloadLen == 0
      && r.next.errCount == Inc8(s.errCount)
      && Get(r.next, s.active.Other()) == Get(s, s.active.Other())
  {
  }

  /**
   * Any other byte is appended to the active buffer; nothing else changes.
   */
  lemma ByteAppended(s: RxState, c: byte)
    requires Wf(s)
    requires var q := Active(s);
      && q.len < BufferSize
      && (q.len > 0 || c == Start)
      && q.len != 2
      && !(s.payloadLen != 0 && q.len + 1 == s.payloadLen + 4)
    ensures var q := Active(s);
      Step(s, c) == StepResult(SetActive(s, Frame(q.buf[q.len := c], q.len + 1)), None)
  {
  }

  // ---------------------------------------------------------------------------
  // A stream of bytes

  /** The state after feeding `cs` one byte at a time, and the packets returned, in order. */
  function Run(s: RxState, cs: seq<byte>): (r: (RxState, seq<Slot>))
    requires Wf(s)
    ensures Wf(r.0)
    decreases |cs|
  {
    if cs == [] then (s, [])
    else
      var st := Step(s, cs[0]);
      var rest := Run(st.next, cs[1..]);
      (rest.0, (if st.out.Some? then [st.out.value] else []) + rest.1)
  }

  /**
   * Successive returned packets alternate between p1 and p2: the first is the
   * packet active at the start, each next one is the other packet, and the
   * packet active at the end is the one not returned last.
   */
  lemma {:induction false} ReturnsAlternate(s: RxState, cs: seq<byte>)
    requires Wf(s)
    ensures var (t, outs) := Run(s, cs);
      && (forall i :: 0 <= i < |outs| - 1 ==> outs[i + 1] == outs[i].Other())
      && (outs != [] ==> outs[0] == s.active && t.active == outs[|outs| - 1].Other())
      && (outs == [] ==> t.active == s.active)
    decreases |cs|
  {
    if cs != [] {
      var st := Step(s, cs[0]);
      ReturnsAlternate(st.next, cs[1..]);
    }
  }

  /**
   * Three returned packets: the first and second differ and the third is the
   * first again (the double-buffering shape).
   */
  lemma ThirdReturnReusesFirst(s: RxState, cs: seq<byte>)
    requires Wf(s) && |Run(s, cs).1| >= 3
    ensures var outs := Run(s, cs).1;
      outs[0] != outs[1] && outs[2] == outs[0]
  {
    ReturnsAlternate(s, cs);
    var outs := Run(s, cs).1;
    assert outs[1] == outs[0].Other() && outs[2] == outs[1].Other();
  }

  /**
   * A buffer made active again by a swap keeps the length of the frame it
   * held. With no payload length pending and at least three bytes already
   * held, every following byte is appended behind the old frame, up to the
   * capacity, and none of them can complete a frame: a frame sent into it is
   * lost.
   */
  lemma {:induction false} StaleBufferSwallowsBytes(s: RxState, cs: seq<byte>)
    requires Wf(s) && s.payloadLen == 0
    requires Active(s).len >= 3 && Active(s).len + |cs| <= BufferSize
    ensures var (t, outs) := Run(s, cs); var q := Active(s);
      && outs == []
      && t.active == s.active
      && Active(t).len == q.len + |cs|
      && Active(t).buf[..q.len] == q.buf[..q.len]
      && Active(t).buf[q.len..Active(t).len] == cs
      && t.payloadLen == 0
      && t.errCount == s.errCount
      && Get(t, s.active.Other()) == Get(s, s.active.Other())
    decreases |cs|
  {
    if cs != [] {
      var q := Active(s);
      ByteAppended(s, cs[0]);
      var s' := Step(s, cs[0]).next;
      StaleBufferSwallowsBytes(s', cs[1..]);
      var t := Run(s', cs[1..]).0;
      assert Active(t).buf[q.len] == cs[0];
      assert Active(t).buf[q.len + 1..Active(t).len] == cs[1..];
    }
  }

  /**
   * The first three bytes of a frame, fed to an empty active buffer, are
   * stored as they come and set the payload length from bytes 1 and 2;
   * nothing is returned and no error is counted, so the run goes on from
   * that state with the rest of the frame.
   */
  lemma Header(s: RxState, f: seq<byte>) returns (s3: RxState)
    requires Wf(s) && Active(s).len == 0
    requires 3 <= |f| && f[0] == Start
    ensures Wf(s3) && Run(s, f) == Run(s3, f[3..])
    ensures && s3.active == s.active
            && Active(s3).len == 3 && Active(s3).buf[..3] == f[..3]
            && s3.payloadLen == f[1] as nat * 256 + f[2] as nat
            && s3.errCount == s.errCount
            && Get(s3, s.active.Other()) == Get(s, s.active.Other())
  {
    ByteAppended(s, f[0]);
    var s1 := Step(s, f[0]).next;
    ByteAppended(s1, f[1]);
    var s2 := Step(s1, f[1]).next;
    LengthCaptured(s2, f[2]);
    s3 := Step(s2, f[2]).next;
    assert Active(s3).buf[..3] == f[..3];
    assert f[2..] == [f[2]] + f[3..];
    QuietStep(s2, f[2], f[3..]);
    assert f[1..] == [f[1]] + f[2..];
    QuietStep(s1, f[1], f[2..]);
    assert f == [f[0]] + f[1..];
    QuietStep(s, f[0], f[1..]);
  }

  /**
   * The last byte of frame `f`, on a buffer holding all the others with the
   * payload length of `f` captured, returns that buffer holding exactly `f`
   * when the checksum of `f` is 0.
   */
  lemma LastByte(s: RxState, f: seq<byte>)
    requires Wf(s) && 4 <= |f| <= BufferSize
    requires Active(s).len == |f| - 1 && Active(s).buf[..|f| - 1] == f[..|f| - 1]
    requires s.payloadLen == |f| - 4 && s.payloadLen != 0
    requires Checksum(f, |f|) == 0
    ensures var (t, outs) := Run(s, [f[|f| - 1]]);
      && outs == [s.active]
      && t.active == s.active.Other()
      && Get(t, s.active).len == |f| && Get(t, s.active).buf[..|f|] == f
      && t.payloadLen == 0
      && t.errCount == s.errCount
      && Get(t, s.active.Other()) == Get(s, s.active.Other())
  {
    var q := Active(s);
    var k := |f| - 1;
    var c := f[k];
    var b := q.buf[k := c];
    assert b[..|f|] == f by {
      assert b[..k] == q.buf[..k];
    }
    ChecksumReadsOnly(b, f, |f|);
    ReturnsIff(s, c);
    GoodFrameSwaps(s, c);
    var st := Step(s, c);
    assert [c][1..] == [];
    assert Run(st.next, []) == (st.next, []);
    assert Run(s, [c]) == (st.next, [s.active] + []);
  }

  /**
   * A buffer holding the first k >= 3 bytes of frame `f`, with the payload
   * length of `f` captured, takes the rest of `f` and then returns itself
   * holding exactly `f`, when the checksum of `f` is 0.
   */
  lemma {:induction false} FeedRest(s: RxState, f: seq<byte>, k: nat)
    requires Wf(s) && 3 <= k < |f| <= BufferSize
    requires Active(s).len == k && Active(s).buf[..k] == f[..k]
    requires s.payloadLen == |f| - 4 && s.payloadLen != 0
    requires Checksum(f, |f|) == 0
    ensures var (t, outs) := Run(s, f[k..]);
      && outs == [s.active]
      && t.active == s.active.Other()
      && Get(t, s.active).len == |f| && Get(t, s.active).buf[..|f|] == f
      && t.payloadLen == 0
      && t.errCount == s.errCount
      && Get(t, s.active.Other()) == Get(s, s.active.Other())
    decreases |f| - k
  {
    if k + 1 == |f| {
      assert f[k..] == [f[k]];
      LastByte(s, f);
    } else {
      var q := Active(s);
      var c := f[k];
      ByteAppended(s, c);
      var s' := Step(s, c).next;
      assert Active(s').buf[..k + 1] == f[..k + 1] by {
        assert q.buf[k := c][..k] == q.buf[..k];
      }
      assert f[k..] == [c] + f[k + 1..];
      QuietStep(s, c, f[k + 1..]);
      FeedRest(s', f, k + 1);
    }
  }

  /**
   * A whole frame fed to an empty active buffer comes back intact: when its
   * declared length matches and its checksum (as computed by the code) is 0,
   * exactly the active packet is returned, holding the frame bytes with the
   * frame's length; the other packet becomes active unchanged and no error
   * is counted. With DesyncDropsByte this is also how the receiver recovers
   * after stray bytes.
   */
  lemma FrameAccepted(s: RxState, f: seq<byte>)
    requires Wf(s) && Active(s).len == 0
    requires 5 <= |f| <= BufferSize && f[0] == Start
    requires |f| == f[1] as nat * 256 + f[2] as nat + 4
    requires Checksum(f, |f|) == 0
    ensures var (t, outs) := Run(s, f);
      && outs == [s.active]
      && Get(t, s.active).len == |f| && Get(t, s.active).buf[..|f|] == f
      && t.active == s.active.Other()
      && t.payloadLen == 0
      && t.errCount == s.errCount
      && Get(t, s.active.Other()) == Get(s, s.active.Other())
  {
    var s3 := Header(s, f);
    FeedRest(s3, f, 3);
  }

  /**
   * The datasheet modem-status frame 7E 00 02 8A 00 75, fed to a fresh
   * receiver, is not returned: for a frame of length 6 calc_checksum sums
   * nothing and yields 0xFF, so the frame counts as one checksum error.
   */
  lemma ModemStatusFrameRejected()
    ensures var (t, outs) := Run(Initial, [0x7E, 0x00, 0x02, 0x8A, 0x00, 0x75]);
      outs == [] && t.errCount == 1 && t.active == First && t.p1.len == 0 && t.payloadLen == 0
  {
    var f: seq<byte> := [0x7E, 0x00, 0x02, 0x8A, 0x00, 0x75];
    var s3 := Header(Initial, f);
    assert f[3..] == [0x8A] + [0x00, 0x75];
    ByteAppended(s3, 0x8A);
    var s4 := Step(s3, 0x8A).next;
    QuietStep(s3, 0x8A, [0x00, 0x75]);
    ByteAppended(s4, 0x00);
    var s5 := Step(s4, 0x00).next;
    QuietStep(s4, 0x00, [0x75]);
    assert Active(s5).len == 5 && s5.payloadLen == 2;
    BadFrameDropped(s5, 0x75);
    var s6 := Step(s5, 0x75).next;
    QuietStep(s5, 0x75, []);
    assert Run(s6, []) == (s6, []);
  }

  /** A byte that returns nothing leaves the rest of the run to the next state. */
  lemma QuietStep(s: RxState, c: byte, rest: seq<byte>)
    requires Wf(s) && Step(s, c).out == None
    ensures Run(s, [c] + rest) == Run(Step(s, c).next, rest)
  {
    var cs := [c] + rest;
    assert cs[0] == c && cs[1..] == rest;
    var st := Step(s, c);
    var r := Run(st.next, rest);
    assert [] + r.1 == r.1;
    assert Run(s, cs) == (r.0, [] + r.1);
  }

  // ---------------------------------------------------------------------------
  // The receiver in place

  /** The static state of xbee_add_byte and the global error counter. */
  class Receiver {
    const p1: Packet
    const p2: Packet
    /** `p`: the packet being received into. */
    var active: Packet
    /** The static `len`: payload length from the header, 0 while unknown. */
    var payloadLen: nat
    /** xbee_comm_err_count. */
    var commErrCount: byte

    ghost predicate Valid()
      reads this, p1, p2
    {
      && p1 != p2 && p1.buf != p2.buf
      && (active == p1 || active == p2)
      && p1.buf.Length == BufferSize && p2.buf.Length == BufferSize
      && p1.len <= BufferSize && p2.len <= BufferSize
      && payloadLen < 0x1_0000
    }

    /** The state as a value. */
    ghost function State(): (s: RxState)
      reads this, p1, p2, p1.buf, p2.buf
      requires Valid()
      ensures Wf(s)
    {
      RxState(Frame(p1.buf[..], p1.len), Frame(p2.buf[..], p2.len),
              if active == p1 then First else Second, payloadLen, commErrCount)
    }

    /** The packet object a slot names. */
    function Ref(slot: Slot): Packet
    {
      if slot == First then p1 else p2
    }

    constructor ()
      ensures Valid() && State() == Initial
      ensures fresh(p1) && fresh(p2) && fresh(p1.buf) && fresh(p2.buf)
    {
      p1 := new Packet();
      p2 := new Packet();
      active := p1;
      payloadLen := 0;
      commErrCount := 0;
    }

    /**
     * xbee_add_byte: takes one byte, updates the state as Step does and
     * returns p1, p2 or null as Step's result says.
     */
    method AddByte(c: byte) returns (r: Packet?)
      requires Valid()
      modifies this, p1, p2, p1.buf, p2.buf
      ensures Valid()
      ensures State() == Step(old(State()), c).next
      ensures r == match Step(old(State()), c).out
                   case None => null
                   case Some(slot) => Ref(slot)
    {
      ghost var s0 := State();
      var p := active;
      // a full buffer is dropped before the store
      if p.len >= BufferSize {
        p.len := 0;
        payloadLen := 0;
        commErrCount := Inc8(commErrCount);
      }
      ghost var s1 := DropIfFull(s0);
      assert State() == s1;
      // an empty buffer only takes a start delimiter
      if p.len == 0 && c != Start {
        commErrCount := Inc8(commErrCount);
        return null;
      }
      p.buf[p.len] := c;
      p.len := p.len + 1;
      assert State() == SetActive(s1, Frame(Active(s1).buf[Active(s1).len := c], Active(s1).len + 1));
      if p.len == 3 {
        // `buf[1] << 8 | buf[2]`: the two bytes do not overlap
        payloadLen := p.buf[1] as nat * 256 + p.buf[2] as nat;
        return null;
      }
      if payloadLen != 0 && p.len == payloadLen + 4 {
        var ck := CalcChecksum(p);
        if ck == 0 {
          payloadLen := 0;
          if p == p1 {
            active := p2;
            return p1;
          } else {
            active := p1;
            return p2;
          }
        } else {
          p.len := 0;
          payloadLen := 0;
          commErrCount := Inc8(commErrCount);
        }
      }
      return null;
    }
  }
}
