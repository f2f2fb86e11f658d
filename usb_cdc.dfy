/**
 * The ESP32 USB CDC adapter. Nothing fills the ring in the background: each read first moves
 * whatever the USB serial port holds into the flow-control ring (checking XOFF after each
 * byte put), then drains the ring and checks XON.
 */
module UsbCdcAdapter {
  import opened Bytes
  import opened RingBuffers
  import opened FlowControl

  const MaxBufferSize: nat := 4096
  const MaxReadSize: int := 32

  /**
   * The fill loop `while (Serial.available() > 0 [&& ring.available() < ring.capacity()])`:
   * read a byte, put it, and if the put fails set `bufferFull` and stop (the byte read is lost);
   * after each byte put, check XOFF. `guarded` is the bracketed capacity test, under which no
   * put fails. Returns the new handshake state and what is left in the serial port.
   */
  function Pull(f: Flow, rx: seq<Byte>, capacity: nat, high: nat, gate: bool, guarded: bool): (Flow, seq<Byte>)
    requires |f.items| <= capacity
  {
    var k := Min(|rx|, capacity - |f.items|);
    var lost := !guarded && k < |rx|;
    var g := f.(items := f.items + rx[..k], bufferFull := f.bufferFull || lost);
    (if k > 0 then XoffCheck(g, gate, high) else g, rx[if lost then k + 1 else k..])
  }

  /**
   * Serial bytes reach the ring in arrival order: what the port gave up is a prefix of what it
   * held, and all of it except (when the unguarded loop overflows) its last byte is appended to
   * the ring. The guarded loop never overflows and stops only at an empty port or a full ring.
   */
  lemma PullKeepsOrder(f: Flow, rx: seq<Byte>, capacity: nat, high: nat, gate: bool, guarded: bool)
    requires |f.items| <= capacity
    ensures var (g, rest) := Pull(f, rx, capacity, high, gate, guarded);
      var taken := |rx| - |rest|;
      rx == rx[..taken] + rest &&
      |g.items| <= capacity &&
      (g.items == f.items + rx[..taken] ||
       (!guarded && g.bufferFull && |g.items| == capacity && 0 < taken && g.items == f.items + rx[..taken - 1])) &&
      (guarded ==> g.bufferFull == f.bufferFull && g.items == f.items + rx[..taken] &&
                   (rest == [] || |g.items| == capacity))
  {
    var k := Min(|rx|, capacity - |f.items|);
    var (g, rest) := Pull(f, rx, capacity, high, gate, guarded);
    assert g.items == f.items + rx[..k];
    if !guarded && k < |rx| {
      assert rest == rx[k + 1..] && |rx| - |rest| == k + 1;
      assert rx == rx[..k + 1] + rx[k + 1..];
      assert rx[..k + 1][..k] == rx[..k];
    } else {
      assert rest == rx[k..] && |rx| - |rest| == k;
      assert rx == rx[..k] + rx[k..];
    }
  }

  /**
   * A guarded fill ends where the per-batch producer ends on the bytes it moved: checking XOFF
   * after every put is the same as checking once at the end.
   */
  lemma GuardedPullIsBatch(f: Flow, rx: seq<Byte>, capacity: nat, high: nat, gate: bool)
    requires |f.items| <= capacity
    ensures var (g, rest) := Pull(f, rx, capacity, high, gate, true);
      g == ProduceBatch(f, capacity, high, gate, rx[..|rx| - |rest|])
  {
    var k := Min(|rx|, capacity - |f.items|);
    assert rx[..k][..Min(k, Max(capacity - |f.items|, 0))] == rx[..k];
  }

  /**
   * The unguarded fill of `tryReadOne` ends where the per-batch producer ends on the bytes it
   * took from the port (the lost byte included) whenever it stores at least one byte. When the
   * ring is already full it stores nothing: it sets `bufferFull` if the port held a byte, and
   * unlike the batch producer it does not check XOFF.
   */
  lemma UnguardedPullIsBatch(f: Flow, rx: seq<Byte>, capacity: nat, high: nat, gate: bool)
    requires |f.items| <= capacity
    ensures var (g, rest) := Pull(f, rx, capacity, high, gate, false);
      (Min(|rx|, capacity - |f.items|) > 0 ==>
         g == ProduceBatch(f, capacity, high, gate, rx[..|rx| - |rest|])) &&
      (Min(|rx|, capacity - |f.items|) == 0 ==>
         g == f.(bufferFull := f.bufferFull || rx != []))
  {
    var k := Min(|rx|, capacity - |f.items|);
    if k > 0 {
      var taken := if k < |rx| then k + 1 else k;
      assert rx[..taken][..Min(taken, Max(capacity - |f.items|, 0))] == rx[..k];
    }
  }

  class ReliableConnectionUsbCdc {
    const ring: FlowControlRingBuffer
    var xonXoffEnabled: bool
    var paused: bool
    var bufferFull: bool
    /** Bytes waiting in the USB CDC `Serial` receive buffer, oldest first. */
    var serialRx: seq<Byte>
    /** Control bytes written to `Serial`, oldest first. */
    var log: seq<Byte>

    ghost function State(): Flow
      reads this, ring.fifo
    {
      Flow(ring.fifo.items, paused, bufferFull, log)
    }

    ghost predicate Valid()
      reads this, ring, ring.fifo
    {
      ring.Valid() && ring.fifo.capacity == MaxBufferSize && Alternating(log, paused)
    }

    /** The ring is built with watermarks (75, 25); every flag starts false. */
    constructor ()
      ensures Valid() && fresh(ring) && fresh(ring.fifo)
      ensures ring.highWatermark == Level(MaxBufferSize, 75) && ring.lowWatermark == Level(MaxBufferSize, 25)
      ensures !xonXoffEnabled && serialRx == [] && State() == Flow([], false, false, [])
    {
      ring := new FlowControlRingBuffer(MaxBufferSize, 75, 25);
      xonXoffEnabled := false;
      paused := false;
      bufferFull := false;
      serialRx := [];
      log := [];
    }

    method EnableXonXoff()
      requires Valid()
      modifies this
      ensures Valid() && xonXoffEnabled
      ensures State() == old(State()) && serialRx == old(serialRx)
    {
      xonXoffEnabled := true;
    }

    method DisableXonXoff()
      requires Valid()
      modifies this
      ensures Valid() && !xonXoffEnabled
      ensures State() == old(State()) && serialRx == old(serialRx)
    {
      xonXoffEnabled := false;
    }

    /** One of the four fill loops; `checkXoff` is false only for `availableForReading`. */
    method PullFromSerial(guarded: bool, checkXoff: bool)
      requires Valid()
      modifies this, ring.fifo
      ensures Valid() && xonXoffEnabled == old(xonXoffEnabled)
      ensures (State(), serialRx) ==
        Pull(old(State()), old(serialRx), MaxBufferSize, ring.highWatermark, checkXoff && xonXoffEnabled, guarded)
    {
      ghost var f0 := State();
      ghost var rx0 := serialRx;
      ghost var q := ring.fifo.items;
      ghost var gate := checkXoff && xonXoffEnabled;
      ghost var i := 0;
      while |serialRx| > 0 && (!guarded || ring.fifo.Count() < ring.fifo.capacity)
        invariant ring.Valid() && ring.fifo.capacity == MaxBufferSize
        invariant 0 <= i <= |rx0| && |q| + i <= MaxBufferSize
        invariant serialRx == rx0[i..] && ring.fifo.items == q + rx0[..i]
        invariant xonXoffEnabled == old(xonXoffEnabled) && bufferFull == f0.bufferFull
        invariant State() == if i > 0 then XoffCheck(f0.(items := q + rx0[..i]), gate, ring.highWatermark) else f0
        decreases |serialRx|
      {
        var b := serialRx[0];
        serialRx := serialRx[1..];
        var ok := ring.Put(b);
        if !ok {
          bufferFull := true;
          assert i == Min(|rx0|, MaxBufferSize - |q|);
          return;
        }
        if checkXoff && !paused && xonXoffEnabled && ring.ShouldSendXOFF() {
          log := log + [XOFF];
          paused := true;
        }
        assert rx0[..i + 1] == rx0[..i] + [b];
        i := i + 1;
      }
      assert i == Min(|rx0|, MaxBufferSize - |q|);
    }

    /**
     * The oldest ring byte if there is one (the serial port is not looked at); otherwise fill
     * from the port without the capacity test and take the oldest byte then, or -1.
     */
    method TryReadOne() returns (r: int)
      requires Valid()
      modifies this, ring.fifo
      ensures Valid() && xonXoffEnabled == old(xonXoffEnabled) && -1 <= r < 256
      ensures old(ring.fifo.items) != [] ==>
        r == old(ring.fifo.items)[0] && serialRx == old(serialRx) &&
        State() == old(State()).(items := old(ring.fifo.items)[1..])
      ensures old(ring.fifo.items) == [] ==>
        var (g, rest) := Pull(old(State()), old(serialRx), MaxBufferSize, ring.highWatermark, xonXoffEnabled, false);
        serialRx == rest &&
        (g.items == [] ==> r == -1 && State() == g) &&
        (g.items != [] ==> r == g.items[0] && State() == g.(items := g.items[1..]))
      ensures old(ring.fifo.items) == [] ==> (r == -1 <==> old(serialRx) == [])
      ensures old(ring.fifo.items) == [] && old(serialRx) != [] ==> r == old(serialRx)[0]
    {
      var c := ring.Get();
      if c.Some? {
        return c.value;
      }
      PullFromSerial(false, true);
      c := ring.Get();
      if c.Some? {
        return c.value;
      }
      return -1;
    }

    /** `tryReadOne`, with 0 in place of -1. */
    method ReadOne() returns (r: Byte)
      requires Valid()
      modifies this, ring.fifo
      ensures Valid() && xonXoffEnabled == old(xonXoffEnabled)
      ensures old(ring.fifo.items) != [] ==>
        r == old(ring.fifo.items)[0] && serialRx == old(serialRx) &&
        State() == old(State()).(items := old(ring.fifo.items)[1..])
      ensures old(ring.fifo.items) == [] ==>
        var (g, rest) := Pull(old(State()), old(serialRx), MaxBufferSize, ring.highWatermark, xonXoffEnabled, false);
        serialRx == rest &&
        (g.items == [] ==> r == 0 && State() == g) &&
        (g.items != [] ==> r == g.items[0] && State() == g.(items := g.items[1..]))
    {
      var result := TryReadOne();
      if result >= 0 {
        return result;
      }
      return 0;
    }

    /**
     * Fill from the port while the ring has room, drain at most `MaxReadSize` bytes, then
     * resume the peer if paused and drained enough.
     */
    method Read() returns (results: seq<Byte>)
      requires Valid()
      modifies this, ring.fifo
      ensures Valid() && xonXoffEnabled == old(xonXoffEnabled)
      ensures var (g, rest) := Pull(old(State()), old(serialRx), MaxBufferSize, ring.highWatermark, xonXoffEnabled, true);
        serialRx == rest &&
        results == Returned(g.items, MaxReadSize) &&
        State() == XonCheck(g.(items := Remaining(g.items, MaxReadSize)), xonXoffEnabled, ring.lowWatermark)
    {
      PullFromSerial(true, true);
      ghost var g := State();
      results := DrainUpTo(ring, MaxReadSize);
      assert State() == g.(items := Remaining(g.items, MaxReadSize));
      XonCheckAlternates(State(), xonXoffEnabled, ring.lowWatermark);
      if paused && xonXoffEnabled && ring.ShouldSendXON() {
        log := log + [XON];
        paused := false;
      }
    }

    /**
     * As `Read`, bounded by `size`. The fill runs only for a positive `size`; a negative size
     * throws before anything changes.
     */
    method ReadSized(size: int) returns (r: SizedRead)
      requires Valid()
      modifies this, ring.fifo
      ensures Valid() && xonXoffEnabled == old(xonXoffEnabled)
      ensures size < 0 ==> r == LengthError && State() == old(State()) && serialRx == old(serialRx)
      ensures size >= 0 ==>
        var (g, rest) :=
          if size > 0 then Pull(old(State()), old(serialRx), MaxBufferSize, ring.highWatermark, xonXoffEnabled, true)
          else (old(State()), old(serialRx));
        serialRx == rest &&
        r == Delivered(Returned(g.items, size)) &&
        State() == XonCheck(g.(items := Remaining(g.items, size)), xonXoffEnabled, ring.lowWatermark)
    {
      if size < 0 {
        return LengthError;
      }
      if size > 0 {
        PullFromSerial(true, true);
      }
      ghost var g := State();
      var results := DrainUpTo(ring, size);
      assert State() == g.(items := Remaining(g.items, size));
      XonCheckAlternates(State(), xonXoffEnabled, ring.lowWatermark);
      if paused && xonXoffEnabled && ring.ShouldSendXON() {
        log := log + [XON];
        paused := false;
      }
      return Delivered(results);
    }

    /**
     * Fill from the port while the ring has room, without any XOFF check; true iff the ring
     * then holds a byte.
     */
    method AvailableForReading() returns (r: bool)
      requires Valid()
      modifies this, ring.fifo
      ensures Valid() && xonXoffEnabled == old(xonXoffEnabled)
      ensures paused == old(paused) && log == old(log)
      ensures (State(), serialRx) == Pull(old(State()), old(serialRx), MaxBufferSize, ring.highWatermark, false, true)
      ensures r <==> ring.fifo.items != []
      ensures r <==> old(ring.fifo.items) != [] || old(serialRx) != []
    {
      PullFromSerial(true, false);
      r := ring.fifo.Count() > 0;
    }
  }
}
