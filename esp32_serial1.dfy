/**
 * The ESP32-S3 UART adapter: the UART event task calls the handler, which moves every byte
 * waiting in the UART driver into the flow-control ring, checking XOFF after each byte; the
 * application drains the ring and checks XON after every bulk read.
 */
module Esp32Serial1Adapter {
  import opened Bytes
  import opened RingBuffers
  import opened FlowControl

  const MaxBufferSize: nat := 4096
  const MaxReadSize: int := 32

  class ReliableConnectionSerial1 {
    const ring: FlowControlRingBuffer
    var xonXoffEnabled: bool
    var paused: bool
    var bufferFull: bool
    /** Bytes waiting in the UART driver's receive buffer, oldest first. */
    var uartRx: seq<Byte>
    /** Control bytes written with `uart_write_bytes`, oldest first. */
    var log: seq<Byte>

    ghost function State(): Flow
      reads this, ring.fifo
    {
      Flow(ring.fifo.items, paused, bufferFull, log)
    }

    ghost predicate Valid()
      reads this, ring, ring.fifo
    {
      ring.Valid() && ring.fifo.capacity == MaxBufferSize && Alternating(log, paused)
    }

    /** The ring is built with watermarks (75, 25); flags start false; no UART data yet. */
    constructor ()
      ensures Valid() && fresh(ring) && fresh(ring.fifo)
      ensures ring.highWatermark == Level(MaxBufferSize, 75) && ring.lowWatermark == Level(MaxBufferSize, 25)
      ensures !xonXoffEnabled && uartRx == [] && State() == Flow([], false, false, [])
    {
      ring := new FlowControlRingBuffer(MaxBufferSize, 75, 25);
      xonXoffEnabled := false;
      paused := false;
      bufferFull := false;
      uartRx := [];
      log := [];
    }

    /** Changes the flag and nothing else. */
    method EnableXonXoff()
      requires Valid()
      modifies this
      ensures Valid() && xonXoffEnabled
      ensures State() == old(State()) && uartRx == old(uartRx)
    {
      xonXoffEnabled := true;
    }

    /** Changes the flag and nothing else. */
    method DisableXonXoff()
      requires Valid()
      modifies this
      ensures Valid() && !xonXoffEnabled
      ensures State() == old(State()) && uartRx == old(uartRx)
    {
      xonXoffEnabled := false;
    }

    /**
     * `uart0_handler`: while the driver holds data, read one byte, put it (a failed put sets
     * `bufferFull` and the loop goes on), then check XOFF.
     */
    method UartHandler()
      requires Valid()
      modifies this, ring.fifo
      ensures Valid() && xonXoffEnabled == old(xonXoffEnabled) && uartRx == []
      ensures State() == ProducePerByte(old(State()), MaxBufferSize, ring.highWatermark, xonXoffEnabled, old(uartRx))
      ensures State() == ProduceBatch(old(State()), MaxBufferSize, ring.highWatermark, xonXoffEnabled, old(uartRx))
    {
      ghost var f0 := State();
      ghost var rx0 := uartRx;
      ghost var i := 0;
      while |uartRx| > 0
        invariant Valid() && 0 <= i <= |rx0| && uartRx == rx0[i..]
        invariant xonXoffEnabled == old(xonXoffEnabled)
        invariant State() == ProducePerByte(f0, MaxBufferSize, ring.highWatermark, xonXoffEnabled, rx0[..i])
        decreases |uartRx|
      {
        var data := uartRx[0];
        uartRx := uartRx[1..];
        ReceiveByte(data);
        assert rx0[..i + 1][..i] == rx0[..i];
        i := i + 1;
      }
      assert rx0[..i] == rx0;
      PerByteMatchesBatch(f0, MaxBufferSize, ring.highWatermark, xonXoffEnabled, rx0);
    }

    /** One iteration of the handler's loop, for the byte just read from the driver. */
    method ReceiveByte(data: Byte)
      requires Valid()
      modifies this, ring.fifo
      ensures Valid() && xonXoffEnabled == old(xonXoffEnabled) && uartRx == old(uartRx)
      ensures State() == XoffCheck(PutByte(old(State()), MaxBufferSize, data), xonXoffEnabled, ring.highWatermark)
    {
      var ok := ring.Put(data);
      if !ok {
        bufferFull := true;
      }
      if !paused && xonXoffEnabled && ring.ShouldSendXOFF() {
        log := log + [XOFF];
        paused := true;
      }
    }

    /** The oldest byte as 0..255, or -1 with nothing changed. */
    method TryReadOne() returns (r: int)
      requires Valid()
      modifies ring.fifo
      ensures Valid() && -1 <= r < 256
      ensures old(ring.fifo.items) == [] ==> r == -1 && State() == old(State())
      ensures old(ring.fifo.items) != [] ==>
        r == old(ring.fifo.items)[0] && State() == old(State()).(items := old(ring.fifo.items)[1..])
    {
      var c := ring.Get();
      if c.Some? {
        return c.value;
      }
      return -1;
    }

    /** The oldest byte, or 0 when nothing is buffered. */
    method ReadOne() returns (r: Byte)
      requires Valid()
      modifies ring.fifo
      ensures Valid()
      ensures old(ring.fifo.items) == [] ==> r == 0 && State() == old(State())
      ensures old(ring.fifo.items) != [] ==>
        r == old(ring.fifo.items)[0] && State() == old(State()).(items := old(ring.fifo.items)[1..])
    {
      var c := ring.Get();
      if c.Some? {
        return c.value;
      }
      return 0;
    }

    /** Drain at most `MaxReadSize` bytes, then resume the peer if paused and drained enough. */
    method Read() returns (results: seq<Byte>)
      requires Valid()
      modifies this, ring.fifo
      ensures Valid() && xonXoffEnabled == old(xonXoffEnabled) && uartRx == old(uartRx)
      ensures results == Returned(old(ring.fifo.items), MaxReadSize)
      ensures State() == XonCheck(old(State()).(items := Remaining(old(ring.fifo.items), MaxReadSize)),
                                  xonXoffEnabled, ring.lowWatermark)
    {
      results := DrainUpTo(ring, MaxReadSize);
      if paused && xonXoffEnabled && ring.ShouldSendXON() {
        log := log + [XON];
        paused := false;
      }
    }

    /** As `Read`, bounded by `size`; a negative size throws before anything changes. */
    method ReadSized(size: int) returns (r: SizedRead)
      requires Valid()
      modifies this, ring.fifo
      ensures Valid() && xonXoffEnabled == old(xonXoffEnabled) && uartRx == old(uartRx)
      ensures size < 0 ==> r == LengthError && State() == old(State())
      ensures size >= 0 ==>
        r == Delivered(Returned(old(ring.fifo.items), size)) &&
        State() == XonCheck(old(State()).(items := Remaining(old(ring.fifo.items), size)),
                            xonXoffEnabled, ring.lowWatermark)
    {
      if size < 0 {
        return LengthError;
      }
      var results := DrainUpTo(ring, size);
      if paused && xonXoffEnabled && ring.ShouldSendXON() {
        log := log + [XON];
        paused := false;
      }
      return Delivered(results);
    }

    /** True iff a byte is buffered; reads nothing from the UART and changes nothing. */
    method AvailableForReading() returns (r: bool)
      requires Valid()
      ensures r <==> ring.fifo.items != []
    {
      r := ring.fifo.Count() > 0;
    }
  }
}
