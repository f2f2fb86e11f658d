/**
 * The buffer-plus-XON/XOFF state machine that the hardware adapters share: how a producer step
 * fills the flow-control ring and raises XOFF, how a consumer step drains it and raises XON.
 * The adapters differ in small ways (whether `xonXoffEnabled` is consulted, whether XOFF is
 * checked per byte or per batch); those differences are parameters here.
 */
module FlowControl {
  import opened Bytes
  import opened RingBuffers

  /**
   * Outcome of `read(size)` on an adapter whose first statement is `results.reserve(size)`: a
   * negative `size` becomes a huge `size_t` and `reserve` throws `std::length_error`. This is
   * the adapters' only way for `read(size)` to fail, so it is a type of its own rather than the
   * Pipe's `PipeError`, whose other cases (an empty `readOne`, a full `write`) an adapter's
   * `read(size)` cannot raise.
   */
  datatype SizedRead = Delivered(bytes: seq<Byte>) | LengthError

  /** The part of an adapter's state the handshake is about; `log` holds the control bytes sent. */
  datatype Flow = Flow(items: seq<Byte>, paused: bool, bufferFull: bool, log: seq<Byte>)

  // ---------------------------------------------------------------------------------------
  // Drain loops: `while (ring.get(c) && count < cap) { results.push_back(c); count++; }`
  // ---------------------------------------------------------------------------------------

  /** The bytes such a loop hands back when `q` is buffered. */
  function Returned(q: seq<Byte>, cap: int): seq<Byte>
  {
    q[..Min(|q|, Max(cap, 0))]
  }

  /** What such a loop leaves buffered: `get` runs before the bound test, so one more byte goes. */
  function Remaining(q: seq<Byte>, cap: int): seq<Byte>
  {
    q[Min(|q|, Max(cap, 0) + 1)..]
  }

  /**
   * Reference definition of the loop, one `get` per iteration, evaluated left to right as `&&`
   * does; `DrainUpTo` is proved to end where it ends.
   */
  function DrainLoop(q: seq<Byte>, count: int, cap: int): (seq<Byte>, seq<Byte>)
    decreases |q|
  {
    if q == [] then ([], [])
    else if !(count < cap) then ([], q[1..])
    else
      var (r, rest) := DrainLoop(q[1..], count + 1, cap);
      ([q[0]] + r, rest)
  }

  /** Starting from `count`, the loop returns the first `cap - count` bytes and drops one more. */
  lemma {:induction false} DrainLoopSplits(q: seq<Byte>, count: int, cap: int)
    ensures DrainLoop(q, count, cap) == (Returned(q, cap - count), Remaining(q, cap - count))
    decreases |q|
  {
    if q != [] && count < cap {
      DrainLoopSplits(q[1..], count + 1, cap);
      assert [q[0]] + Returned(q[1..], cap - count - 1) == Returned(q, cap - count);
      assert Remaining(q[1..], cap - count - 1) == Remaining(q, cap - count);
    }
  }

  /**
   * With `n` bytes buffered and a bound `cap`, a drain returns `min(n, cap)` bytes in arrival
   * order but removes `min(n, cap + 1)`: when more than `cap` bytes are buffered the byte at
   * position `cap` is taken out and returned to nobody.
   */
  lemma DrainTakesOneExtra(q: seq<Byte>, cap: int)
    ensures |Returned(q, cap)| == Min(|q|, Max(cap, 0))
    ensures |q| - |Remaining(q, cap)| == Min(|q|, Max(cap, 0) + 1)
    ensures |q| <= Max(cap, 0) ==> Returned(q, cap) == q && Remaining(q, cap) == []
    ensures |q| > Max(cap, 0) ==> q == Returned(q, cap) + [q[Max(cap, 0)]] + Remaining(q, cap)
  {
    if |q| > Max(cap, 0) {
      var k := Max(cap, 0);
      assert q == q[..k] + [q[k]] + q[k + 1..];
    }
  }

  /** The drain loop on the adapter's ring; every adapter's `read` runs it before its XON check. */
  method DrainUpTo(ring: FlowControlRingBuffer, cap: int) returns (results: seq<Byte>)
    requires ring.Valid()
    modifies ring.fifo
    ensures ring.Valid()
    ensures results == Returned(old(ring.fifo.items), cap)
    ensures ring.fifo.items == Remaining(old(ring.fifo.items), cap)
    ensures (results, ring.fifo.items) == DrainLoop(old(ring.fifo.items), 0, cap)
  {
    ghost var q := ring.fifo.items;
    results := [];
    var count := 0;
    while true
      invariant ring.Valid()
      invariant 0 <= count <= Max(cap, 0) && count <= |q|
      invariant results == q[..count] && ring.fifo.items == q[count..]
      decreases |ring.fifo.items|
    {
      var c := ring.Get();
      if c.None? || !(count < cap) {
        break;
      }
      results := results + [c.value];
      count := count + 1;
    }
    DrainLoopSplits(q, 0, cap);
  }

  // ---------------------------------------------------------------------------------------
  // Producer and consumer steps on the handshake state
  // ---------------------------------------------------------------------------------------

  /**
   * `if (!paused && gate && ring.shouldSendXOFF()) { send XOFF; paused = true; }`; `gate` is
   * `xonXoffEnabled` where the adapter consults it and `true` where it does not.
   */
  function XoffCheck(f: Flow, gate: bool, high: nat): Flow
  {
    if !f.paused && gate && |f.items| >= high then f.(paused := true, log := f.log + [XOFF]) else f
  }

  /** `if (paused && gate && ring.shouldSendXON()) { send XON; paused = false; }`. */
  function XonCheck(f: Flow, gate: bool, low: nat): Flow
  {
    if f.paused && gate && |f.items| <= low then f.(paused := false, log := f.log + [XON]) else f
  }

  /** `if (!ring.put(b)) buffer_full = true;` */
  function PutByte(f: Flow, capacity: nat, b: Byte): Flow
  {
    if |f.items| < capacity then f.(items := f.items + [b]) else f.(bufferFull := true)
  }

  /**
   * Per-byte producer: every byte is put (a failed put only sets `bufferFull`, the loop goes
   * on) and the XOFF condition is checked after each one.
   */
  function ProducePerByte(f: Flow, capacity: nat, high: nat, gate: bool, bs: seq<Byte>): Flow
    decreases |bs|
  {
    if bs == [] then f
    else XoffCheck(PutByte(ProducePerByte(f, capacity, high, gate, bs[..|bs| - 1]), capacity, bs[|bs| - 1]), gate, high)
  }

  /**
   * Per-batch producer: bytes are put until the first failed put, which sets `bufferFull` and
   * drops the rest of the batch; the XOFF condition is checked once, after the puts. An empty
   * batch changes nothing.
   */
  function ProduceBatch(f: Flow, capacity: nat, high: nat, gate: bool, bs: seq<Byte>): Flow
  {
    if bs == [] then f
    else
      var k := Min(|bs|, Max(capacity - |f.items|, 0));
      XoffCheck(f.(items := f.items + bs[..k], bufferFull := f.bufferFull || k < |bs|), gate, high)
  }

  /** A batch stores the longest prefix that fits, flags an overflow iff something was dropped, and never removes a byte. */
  lemma ProduceBatchStoresPrefix(f: Flow, capacity: nat, high: nat, gate: bool, bs: seq<Byte>)
    requires |f.items| <= capacity
    ensures var g := ProduceBatch(f, capacity, high, gate, bs);
      |g.items| <= capacity &&
      g.items == f.items + bs[..Min(|bs|, capacity - |f.items|)] &&
      (g.bufferFull <==> f.bufferFull || |f.items| + |bs| > capacity) &&
      (g.log != f.log <==> bs != [] && !f.paused && gate && |g.items| >= high)
  {
  }

  /** One byte more in a batch is one more put followed by one more check. */
  lemma ProduceBatchSnoc(f: Flow, capacity: nat, high: nat, gate: bool, bs: seq<Byte>, b: Byte)
    requires |f.items| <= capacity
    ensures ProduceBatch(f, capacity, high, gate, bs + [b])
         == XoffCheck(PutByte(ProduceBatch(f, capacity, high, gate, bs), capacity, b), gate, high)
  {
    var free := capacity - |f.items|;
    if bs != [] {
      var k := Min(|bs|, free);
      var k' := Min(|bs| + 1, free);
      assert (bs + [b])[..k'] == if k' == k then bs[..k] else bs[..k] + [b];
    } else {
      assert (bs + [b])[..Min(1, free)] == if free == 0 then [] else [b];
    }
  }

  /**
   * Checking XOFF after every byte (and going on after an overflow) ends in exactly the state
   * that checking once after the batch (and stopping at the first overflow) ends in: within one
   * producer step occupancy only grows, and once the ring is full every later put fails.
   */
  lemma {:induction false} PerByteMatchesBatch(f: Flow, capacity: nat, high: nat, gate: bool, bs: seq<Byte>)
    requires |f.items| <= capacity
    ensures ProducePerByte(f, capacity, high, gate, bs) == ProduceBatch(f, capacity, high, gate, bs)
    decreases |bs|
  {
    if bs != [] {
      var init := bs[..|bs| - 1];
      PerByteMatchesBatch(f, capacity, high, gate, init);
      ProduceBatchSnoc(f, capacity, high, gate, init, bs[|bs| - 1]);
      assert init + [bs[|bs| - 1]] == bs;
    }
  }

  // ---------------------------------------------------------------------------------------
  // The handshake
  // ---------------------------------------------------------------------------------------

  /**
   * The control bytes sent so far read XOFF, XON, XOFF, ... and the adapter considers itself
   * paused exactly when the last one was XOFF.
   */
  ghost predicate Alternating(log: seq<Byte>, paused: bool)
  {
    (forall i :: 0 <= i < |log| ==> log[i] == if i % 2 == 0 then XOFF else XON) &&
    (paused <==> |log| % 2 == 1)
  }

  /** The XOFF check is edge-triggered: it keeps the alternation. */
  lemma XoffCheckAlternates(f: Flow, gate: bool, high: nat)
    requires Alternating(f.log, f.paused)
    ensures Alternating(XoffCheck(f, gate, high).log, XoffCheck(f, gate, high).paused)
  {
  }

  /** So is the XON check. */
  lemma XonCheckAlternates(f: Flow, gate: bool, low: nat)
    requires Alternating(f.log, f.paused)
    ensures Alternating(XonCheck(f, gate, low).log, XonCheck(f, gate, low).paused)
  {
  }

  /** A producer step sends at most one control byte, an XOFF, and only when not already paused. */
  lemma ProduceBatchAlternates(f: Flow, capacity: nat, high: nat, gate: bool, bs: seq<Byte>)
    requires Alternating(f.log, f.paused)
    ensures var g := ProduceBatch(f, capacity, high, gate, bs);
      Alternating(g.log, g.paused) && (g.log == f.log || (!f.paused && g.log == f.log + [XOFF]))
  {
  }

  /**
   * When the high level lies above the low one, no occupancy calls for both XOFF and XON, so an
   * XOFF just sent is never taken back by an XON check on the same state.
   */
  lemma HysteresisExcludesBoth(f: Flow, gate: bool, high: nat, low: nat)
    requires high > low
    ensures !(|f.items| >= high && |f.items| <= low)
    ensures XoffCheck(f, gate, high).log != f.log ==>
      XonCheck(XoffCheck(f, gate, high), gate, low) == XoffCheck(f, gate, high)
  {
  }
  // ---------------------------------------------------------------------------------------
  // A whole session of interleaved producer and consumer steps
  // ---------------------------------------------------------------------------------------

  /**
   * One step of an adapter: a producer step receiving `bs`, or a drain bounded by `cap`
   * followed by the XON check. `gate` says whether the step's check may fire (`xonXoffEnabled`,
   * `true` where the adapter ignores the flag, `false` for a read path without an XON check).
   */
  datatype Event = Arrive(bs: seq<Byte>, gate: bool) | Drain(cap: int, gate: bool)

  function Session(f: Flow, capacity: nat, high: nat, low: nat, evs: seq<Event>): Flow
    decreases |evs|
  {
    if evs == [] then f
    else
      var g := match evs[0]
        case Arrive(bs, gate) => ProduceBatch(f, capacity, high, gate, bs)
        case Drain(cap, gate) => XonCheck(f.(items := Remaining(f.items, cap)), gate, low);
      Session(g, capacity, high, low, evs[1..])
  }

  /**
   * Over any interleaving of producer and consumer steps that starts with the handshake in
   * order: the control bytes keep alternating XOFF, XON, XOFF, ... in step with `paused`,
   * nothing already sent is taken back, occupancy stays within capacity, and an overflow once
   * flagged stays flagged.
   */
  lemma {:induction false} SessionKeepsHandshake(f: Flow, capacity: nat, high: nat, low: nat, evs: seq<Event>)
    requires |f.items| <= capacity && Alternating(f.log, f.paused)
    ensures var g := Session(f, capacity, high, low, evs);
      Alternating(g.log, g.paused) && f.log <= g.log &&
      |g.items| <= capacity && (f.bufferFull ==> g.bufferFull)
    decreases |evs|
  {
    if evs != [] {
      var g := match evs[0]
        case Arrive(bs, gate) => ProduceBatch(f, capacity, high, gate, bs)
        case Drain(cap, gate) => XonCheck(f.(items := Remaining(f.items, cap)), gate, low);
      match evs[0] {
        case Arrive(bs, gate) =>
          ProduceBatchAlternates(f, capacity, high, gate, bs);
          ProduceBatchStoresPrefix(f, capacity, high, gate, bs);
        case Drain(cap, gate) =>
          XonCheckAlternates(f.(items := Remaining(f.items, cap)), gate, low);
      }
      SessionKeepsHandshake(g, capacity, high, low, evs[1..]);
    }
  }
}
