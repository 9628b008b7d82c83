// The frame-id sequencer of digimesh.c (get_frame_id): a counter in static
// storage, starting at 0, that hands out 1, 2, ..., 255, 1, ... and never 0
// (frame id 0 asks the radio for no acknowledgement).

module FrameIds {
  import opened Packets

  /** The id handed out when the counter holds `x`. */
  function NextId(x: byte): (r: byte)
    ensures r != 0
    ensures r as int == x as int % 255 + 1
  {
    var base := if x == 255 then 0 else x;
    base + 1
  }

  /** The counter after `k` further calls, starting from `x`. */
  function IdsAfter(x: byte, k: nat): byte
  {
    if k == 0 then x else NextId(IdsAfter(x, k - 1))
  }

  lemma {:induction false} IdsAfterClosedForm(x: byte, k: nat)
    requires k >= 1
    ensures IdsAfter(x, k) as int == (x as int + k - 1) % 255 + 1
  {
    if k > 1 {
      IdsAfterClosedForm(x, k - 1);
    }
  }

  /**
   * From a fresh counter the k-th call (k >= 1) returns ((k - 1) mod 255) + 1:
   * the ids 1, 2, ..., 255 and then 1 again; 0 is never returned.
   */
  lemma FreshSequence(k: nat)
    requires k >= 1
    ensures IdsAfter(0, k) as int == (k - 1) % 255 + 1
    ensures IdsAfter(0, k) != 0
  {
    IdsAfterClosedForm(0, k);
  }

  /** Every nonzero id comes back after exactly 255 calls ... */
  lemma PeriodIs255(x: byte)
    requires x != 0
    ensures IdsAfter(x, 255) == x
  {
    IdsAfterClosedForm(x, 255);
    assert (x as int + 254) % 255 == x as int - 1;
  }

  /** ... and not before. */
  lemma NoShorterPeriod(x: byte, k: nat)
    requires x != 0 && 0 < k < 255
    ensures IdsAfter(x, k) != x
  {
    IdsAfterClosedForm(x, k);
    var n := x as int + k - 1;
    if n < 255 {
      assert n % 255 == n;
    } else {
      assert n % 255 == n - 255;
    }
  }

  /** The static counter behind get_frame_id. */
  class Sequencer {
    var frameId: byte

    constructor ()
      ensures frameId == 0
    {
      frameId := 0;
    }

    /** get_frame_id: skip 0 by wrapping 255 to 0 before the increment. */
    method GetFrameId() returns (id: byte)
      modifies this
      ensures id == NextId(old(frameId)) && frameId == id
    {
      if frameId == 255 {
        frameId := 0;
      }
      frameId := frameId + 1;
      id := frameId;
    }
  }
}
