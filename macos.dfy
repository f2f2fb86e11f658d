/**
 * The macOS serial adapter: a reader thread moves each chunk returned by `::read` into the
 * flow-control ring and checks XOFF once per chunk; the application drains the ring and
 * checks XON after every bulk read.
 */
module MacOSAdapter {
  import opened Bytes
  import opened RingBuffers
  import opened FlowControl

  const MaxBufferSize: nat := 4096
  const MaxReadSize: int := 32
  /** Size of the reader thread's `char buffer[256]`: no chunk is longer. */
  const ChunkSize: nat := 256

  class ReliableConnectionMacOS {
    const ring: FlowControlRingBuffer
    var xonXoffEnabled: bool
    var paused: bool
    var bufferFull: bool
    /** Control bytes sent through `sendFlowControlChar`, oldest first. */
    var log: seq<Byte>

    ghost function State(): Flow
      reads this, ring.fifo
    {
      Flow(ring.fifo.items, paused, bufferFull, log)
    }

    ghost predicate Valid()
      reads this, ring, ring.fifo
    {
      ring.Valid() && ring.fifo.capacity == MaxBufferSize && Alternating(log, paused)
    }

    /** The ring is built with watermarks (75, 25); every flag starts false. */
    constructor ()
      ensures Valid() && fresh(ring) && fresh(ring.fifo)
      ensures ring.highWatermark == Level(MaxBufferSize, 75) && ring.lowWatermark == Level(MaxBufferSize, 25)
      ensures !xonXoffEnabled && State() == Flow([], false, false, [])
    {
      ring := new FlowControlRingBuffer(MaxBufferSize, 75, 25);
      xonXoffEnabled := false;
      paused := false;
      bufferFull := false;
      log := [];
    }

    method EnableXonXoff()
      requires Valid()
      modifies this
      ensures Valid() && xonXoffEnabled && State() == old(State())
    {
      xonXoffEnabled := true;
    }

    method DisableXonXoff()
      requires Valid()
      modifies this
      ensures Valid() && !xonXoffEnabled && State() == old(State())
    {
      xonXoffEnabled := false;
    }

    /**
     * One pass of the reader thread that got `chunk` from `::read`: put the bytes in order,
     * stop at the first failed put (flagging `bufferFull` and dropping the rest of the chunk),
     * then check XOFF once. An empty chunk (nothing read) changes nothing.
     */
    method ReceiveChunk(chunk: seq<Byte>)
      requires Valid() && |chunk| <= ChunkSize
      modifies this, ring.fifo
      ensures Valid() && xonXoffEnabled == old(xonXoffEnabled)
      ensures State() == ProduceBatch(old(State()), MaxBufferSize, ring.highWatermark, xonXoffEnabled, chunk)
    {
      if |chunk| > 0 {
        ghost var q := ring.fifo.items;
        var i := 0;
        while i < |chunk|
          invariant ring.Valid() && 0 <= i <= |chunk| && |q| + i <= MaxBufferSize
          invariant ring.fifo.items == q + chunk[..i]
          invariant paused == old(paused) && log == old(log) && bufferFull == old(bufferFull)
          invariant xonXoffEnabled == old(xonXoffEnabled)
        {
          var ok := ring.Put(chunk[i]);
          if !ok {
            bufferFull := true;
            break;
          }
          i := i + 1;
        }
        assert i == Min(|chunk|, Max(MaxBufferSize - |q|, 0));
        assert bufferFull <==> old(bufferFull) || i < |chunk|;
        if !paused && xonXoffEnabled && ring.ShouldSendXOFF() {
          log := log + [XOFF];
          paused := true;
        }
      }
    }

    /** The oldest byte as 0..255, or -1; never sends XON. */
    method TryReadOne() returns (r: int)
      requires Valid()
      modifies ring.fifo
      ensures Valid() && -1 <= r < 256
      ensures old(ring.fifo.items) == [] ==> r == -1 && State() == old(State())
      ensures old(ring.fifo.items) != [] ==>
        r == old(ring.fifo.items)[0] && State() == old(State()).(items := old(ring.fifo.items)[1..])
    {
      var c := ring.Get();
      if c.Some? {
        return c.value;
      }
      return -1;
    }

    /** The oldest byte, or 0 when nothing is buffered; never sends XON. */
    method ReadOne() returns (r: Byte)
      requires Valid()
      modifies ring.fifo
      ensures Valid()
      ensures old(ring.fifo.items) == [] ==> r == 0 && State() == old(State())
      ensures old(ring.fifo.items) != [] ==>
        r == old(ring.fifo.items)[0] && State() == old(State()).(items := old(ring.fifo.items)[1..])
    {
      var c := ring.Get();
      if c.Some? {
        return c.value;
      }
      return 0;
    }

    /** Drain at most `MaxReadSize` bytes, then resume the peer if paused and drained enough. */
    method Read() returns (results: seq<Byte>)
      requires Valid()
      modifies this, ring.fifo
      ensures Valid() && xonXoffEnabled == old(xonXoffEnabled)
      ensures results == Returned(old(ring.fifo.items), MaxReadSize)
      ensures State() == XonCheck(old(State()).(items := Remaining(old(ring.fifo.items), MaxReadSize)),
                                  xonXoffEnabled, ring.lowWatermark)
    {
      results := DrainUpTo(ring, MaxReadSize);
      if paused && xonXoffEnabled && ring.ShouldSendXON() {
        log := log + [XON];
        paused := false;
      }
    }

    /** As `Read`, bounded by `size`; a negative size throws before anything changes. */
    method ReadSized(size: int) returns (r: SizedRead)
      requires Valid()
      modifies this, ring.fifo
      ensures Valid() && xonXoffEnabled == old(xonXoffEnabled)
      ensures size < 0 ==> r == LengthError && State() == old(State())
      ensures size >= 0 ==>
        r == Delivered(Returned(old(ring.fifo.items), size)) &&
        State() == XonCheck(old(State()).(items := Remaining(old(ring.fifo.items), size)),
                            xonXoffEnabled, ring.lowWatermark)
    {
      if size < 0 {
        return LengthError;
      }
      var results := DrainUpTo(ring, size);
      if paused && xonXoffEnabled && ring.ShouldSendXON() {
        log := log + [XON];
        paused := false;
      }
      return Delivered(results);
    }
  }
}
