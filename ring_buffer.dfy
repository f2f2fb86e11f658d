/**
 * The bounded FIFO that backs every connection (`InterruptSafeRingBuffer<char, N>`) and its
 * watermark extension (`FlowControlRingBuffer<char, N>`). The circular-array layout and the
 * interrupt masking of the real buffer are replaced by a sequence in arrival order: one
 * producer and one consumer are interleaved step by step.
 */
module RingBuffers {
  import opened Bytes

  /** A bounded byte FIFO: `put` refuses when full, `get` refuses when empty. */
  class RingBuffer {
    const capacity: nat
    /** Buffered bytes, oldest first. */
    var items: seq<Byte>

    ghost predicate Valid()
      reads this
    {
      |items| <= capacity
    }

    constructor (capacity: nat)
      ensures Valid() && this.capacity == capacity && items == []
    {
      this.capacity := capacity;
      items := [];
    }

    /** Appends `b` unless the buffer is full; never overwrites. */
    method Put(b: Byte) returns (ok: bool)
      requires Valid()
      modifies this
      ensures Valid()
      ensures ok <==> |old(items)| < capacity
      ensures items == if ok then old(items) + [b] else old(items)
    {
      ok := |items| < capacity;
      if ok {
        items := items + [b];
      }
    }

    /** Removes and returns the oldest byte, or reports that the buffer is empty. */
    method Get() returns (r: Option<Byte>)
      requires Valid()
      modifies this
      ensures Valid()
      ensures old(items) == [] ==> r == None && items == old(items)
      ensures old(items) != [] ==> r == Some(old(items)[0]) && items == old(items)[1..]
    {
      if items == [] {
        r := None;
      } else {
        r := Some(items[0]);
        items := items[1..];
      }
    }

    /** Occupancy: never above the capacity, zero exactly when nothing is buffered. */
    function Count(): (n: nat)
      reads this
      requires Valid()
      ensures n <= capacity
      ensures n == 0 <==> items == []
    {
      |items|
    }

    /** Room left for `put`: it and the occupancy add up to the capacity. */
    function Free(): (n: nat)
      reads this
      requires Valid()
      ensures n + Count() == capacity
      ensures n == 0 <==> |items| == capacity
    {
      capacity - |items|
    }
  }

  /** The watermark level a percentage of `capacity` stands for. */
  function Level(capacity: nat, percent: nat): nat
  {
    capacity * percent / 100
  }

  /**
   * A ring buffer with a high and a low occupancy level. The buffer only answers threshold
   * questions; whether XOFF has already been sent ("paused") belongs to the adapter.
   */
  class FlowControlRingBuffer {
    const fifo: RingBuffer
    const highWatermark: nat
    const lowWatermark: nat

    ghost predicate Valid()
      reads this, fifo
    {
      fifo.Valid()
    }

    /** `FlowControlRingBuffer<char, capacity>(highPercent, lowPercent)`. */
    constructor (capacity: nat, highPercent: nat, lowPercent: nat)
      ensures Valid() && fresh(fifo)
      ensures fifo.capacity == capacity && fifo.items == []
      ensures highWatermark == Level(capacity, highPercent)
      ensures lowWatermark == Level(capacity, lowPercent)
    {
      fifo := new RingBuffer(capacity);
      highWatermark := Level(capacity, highPercent);
      lowWatermark := Level(capacity, lowPercent);
    }

    /** Level-triggered: true on every call while occupancy is at or above the high level. */
    predicate ShouldSendXOFF()
      reads fifo
    {
      |fifo.items| >= highWatermark
    }

    /** Level-triggered: true on every call while occupancy is at or below the low level. */
    predicate ShouldSendXON()
      reads fifo
    {
      |fifo.items| <= lowWatermark
    }

    method Put(b: Byte) returns (ok: bool)
      requires Valid()
      modifies fifo
      ensures Valid()
      ensures ok <==> |old(fifo.items)| < fifo.capacity
      ensures fifo.items == if ok then old(fifo.items) + [b] else old(fifo.items)
    {
      ok := fifo.Put(b);
    }

    method Get() returns (r: Option<Byte>)
      requires Valid()
      modifies fifo
      ensures Valid()
      ensures old(fifo.items) == [] ==> r == None && fifo.items == old(fifo.items)
      ensures old(fifo.items) != [] ==> r == Some(old(fifo.items)[0]) && fifo.items == old(fifo.items)[1..]
    {
      r := fifo.Get();
    }
  }

  /**
   * With the reference sizing (capacity 4096, levels 75 % and 25 %) the high level lies strictly
   * above the low one, so no ring built that way ever has XOFF and XON due at once.
   */
  lemma ReferenceWatermarksNeverOverlap(r: FlowControlRingBuffer)
    requires r.highWatermark == Level(4096, 75) && r.lowWatermark == Level(4096, 25)
    ensures r.highWatermark == 3072 && r.lowWatermark == 1024
    ensures !(r.ShouldSendXOFF() && r.ShouldSendXON())
  {
  }
}
