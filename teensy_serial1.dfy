/**
 * The Teensy 4.1 Serial1 adapter: `serialEvent1` moves every received byte into the
 * flow-control ring and checks XOFF after each one; the application drains the ring. Unlike
 * the other adapters, the producer and `read()` send XOFF and XON without consulting
 * `xonXoffEnabled`; only `begin` does.
 */
module TeensySerial1Adapter {
  import opened Bytes
  import opened RingBuffers
  import opened FlowControl

  const MaxBufferSize: nat := 4096
  /** The bound `read()` uses (the header's `maxReadSize` of 32 is not used by `read()`). */
  const ReadCap: int := 128

  class ReliableConnectionSerial1 {
    const ring: FlowControlRingBuffer
    var xonXoffEnabled: bool
    var paused: bool
    var bufferFull: bool
    /** Bytes received by Serial1 and not yet read, oldest first. */
    var serialRx: seq<Byte>
    /** Control bytes written to Serial1, oldest first. */
    var log: seq<Byte>
    /** Length of `log` when `begin` last ran: the handshake restarts there. */
    ghost var sessionStart: nat

    ghost function State(): Flow
      reads this, ring.fifo
    {
      Flow(ring.fifo.items, paused, bufferFull, log)
    }

    ghost predicate Valid()
      reads this, ring, ring.fifo
    {
      ring.Valid() && ring.fifo.capacity == MaxBufferSize &&
      sessionStart <= |log| && Alternating(log[sessionStart..], paused)
    }

    /**
     * The ring is default-constructed; its default watermark percentages live in
     * ring_buffer.h and are parameters here.
     */
    constructor (highPercent: nat, lowPercent: nat)
      ensures Valid() && fresh(ring) && fresh(ring.fifo)
      ensures ring.highWatermark == Level(MaxBufferSize, highPercent)
      ensures ring.lowWatermark == Level(MaxBufferSize, lowPercent)
      ensures !xonXoffEnabled && serialRx == [] && State() == Flow([], false, false, [])
    {
      ring := new FlowControlRingBuffer(MaxBufferSize, highPercent, lowPercent);
      xonXoffEnabled := false;
      paused := false;
      bufferFull := false;
      serialRx := [];
      log := [];
      sessionStart := 0;
    }

    /**
     * Discards pending Serial1 input, clears `paused` and `bufferFull`, and sends XON iff
     * XON/XOFF is enabled; the ring keeps its contents.
     */
    method Begin()
      requires Valid()
      modifies this
      ensures Valid() && xonXoffEnabled == old(xonXoffEnabled) && serialRx == []
      ensures ring.fifo.items == old(ring.fifo.items) && !paused && !bufferFull
      ensures log == if xonXoffEnabled then old(log) + [XON] else old(log)
    {
      serialRx := [];
      paused := false;
      bufferFull := false;
      if xonXoffEnabled {
        log := log + [XON];
      }
      sessionStart := |log|;
    }

    method EnableXonXoff()
      requires Valid()
      modifies this
      ensures Valid() && xonXoffEnabled
      ensures State() == old(State()) && serialRx == old(serialRx)
    {
      xonXoffEnabled := true;
    }

    method DisableXonXoff()
      requires Valid()
      modifies this
      ensures Valid() && !xonXoffEnabled
      ensures State() == old(State()) && serialRx == old(serialRx)
    {
      xonXoffEnabled := false;
    }

    /**
     * `serialEvent1`: for each received byte, put it (a failed put sets `bufferFull`, later
     * bytes are still tried), then send XOFF if not paused and the ring is at the high level.
     */
    method SerialEvent1()
      requires Valid()
      modifies this, ring.fifo
      ensures Valid() && xonXoffEnabled == old(xonXoffEnabled) && serialRx == []
      ensures State() == ProducePerByte(old(State()), MaxBufferSize, ring.highWatermark, true, old(serialRx))
      ensures State() == ProduceBatch(old(State()), MaxBufferSize, ring.highWatermark, true, old(serialRx))
    {
      ghost var f0 := State();
      ghost var rx0 := serialRx;
      ghost var i := 0;
      while |serialRx| > 0
        invariant Valid() && 0 <= i <= |rx0| && serialRx == rx0[i..]
        invariant xonXoffEnabled == old(xonXoffEnabled)
        invariant State() == ProducePerByte(f0, MaxBufferSize, ring.highWatermark, true, rx0[..i])
        decreases |serialRx|
      {
        var data := serialRx[0];
        serialRx := serialRx[1..];
        ReceiveByte(data);
        assert rx0[..i + 1][..i] == rx0[..i];
        i := i + 1;
      }
      assert rx0[..i] == rx0;
      PerByteMatchesBatch(f0, MaxBufferSize, ring.highWatermark, true, rx0);
    }

    /** One iteration of `serialEvent1`'s loop, for the byte just read from Serial1. */
    method ReceiveByte(data: Byte)
      requires Valid()
      modifies this, ring.fifo
      ensures Valid() && xonXoffEnabled == old(xonXoffEnabled) && serialRx == old(serialRx)
      ensures State() == XoffCheck(PutByte(old(State()), MaxBufferSize, data), true, ring.highWatermark)
    {
      var ok := ring.Put(data);
      if !ok {
        bufferFull := true;
      }
      if !paused && ring.ShouldSendXOFF() {
        assert (log + [XOFF])[sessionStart..] == log[sessionStart..] + [XOFF];
        log := log + [XOFF];
        paused := true;
      }
    }

    /** The oldest byte, or -1 with nothing changed. */
    method TryReadOne() returns (r: int)
      requires Valid()
      modifies ring.fifo
      ensures Valid() && -1 <= r < 256
      ensures old(ring.fifo.items) == [] ==> r == -1 && State() == old(State())
      ensures old(ring.fifo.items) != [] ==>
        r == old(ring.fifo.items)[0] && State() == old(State()).(items := old(ring.fifo.items)[1..])
    {
      var c := ring.Get();
      if c.Some? {
        return c.value;
      }
      return -1;
    }

    /** The oldest byte, or 0 with nothing changed. */
    method ReadOne() returns (r: Byte)
      requires Valid()
      modifies ring.fifo
      ensures Valid()
      ensures old(ring.fifo.items) == [] ==> r == 0 && State() == old(State())
      ensures old(ring.fifo.items) != [] ==>
        r == old(ring.fifo.items)[0] && State() == old(State()).(items := old(ring.fifo.items)[1..])
    {
      var c := ring.Get();
      if c.Some? {
        return c.value;
      }
      return 0;
    }

    /** Drain at most 128 bytes, then send XON if paused and at the low level. */
    method Read() returns (results: seq<Byte>)
      requires Valid()
      modifies this, ring.fifo
      ensures Valid() && xonXoffEnabled == old(xonXoffEnabled) && serialRx == old(serialRx)
      ensures results == Returned(old(ring.fifo.items), ReadCap)
      ensures State() == XonCheck(old(State()).(items := Remaining(old(ring.fifo.items), ReadCap)),
                                  true, ring.lowWatermark)
    {
      results := DrainUpTo(ring, ReadCap);
      if paused && ring.ShouldSendXON() {
        assert (log + [XON])[sessionStart..] == log[sessionStart..] + [XON];
        log := log + [XON];
        paused := false;
      }
    }

    /** Drain bounded by `size`; never sends XON and never touches `paused`. */
    method ReadSized(size: int) returns (results: seq<Byte>)
      requires Valid()
      modifies ring.fifo
      ensures Valid()
      ensures results == Returned(old(ring.fifo.items), size)
      ensures State() == old(State()).(items := Remaining(old(ring.fifo.items), size))
    {
      results := DrainUpTo(ring, size);
    }
  }
}
