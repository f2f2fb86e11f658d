/**
 * The in-memory bidirectional channel: a `Pipe` owns two 4096-byte ring buffers and two
 * endpoints wired across them, so that what one end writes the other end reads.
 */
module Pipes {
  import opened Bytes
  import opened RingBuffers

  /** Size of each of the Pipe's two buffers. */
  const PipeCapacity: nat := 4096

  /**
   * The exceptions a `PipeEnd` operation can throw. `LengthError` is the same `reserve` throw
   * that `FlowControl.SizedRead.LengthError` stands for in the adapters; the Pipe needs it among
   * the errors of all its operations, the adapters only as the one failure of `read(size)`.
   */
  datatype PipeError =
    | NoDataAvailable   // readOne on an empty buffer
    | BufferFull        // write that does not fit
    | LengthError       // read with a negative size: reserve() of a huge size_t

  datatype Result<T> = Success(value: T) | Failure(error: PipeError)

  // ---------------------------------------------------------------------------------------
  // What the endpoint operations do to the contents of one buffer
  // ---------------------------------------------------------------------------------------

  /** How many bytes of a write of `n` fit into a buffer holding `q`. */
  function Accepted(q: seq<Byte>, capacity: nat, n: nat): nat
    requires |q| <= capacity
  {
    Min(n, capacity - |q|)
  }

  /** The first `size` bytes, or all of them when fewer are buffered. */
  function Front(q: seq<Byte>, size: nat): seq<Byte>
  {
    q[..Min(|q|, size)]
  }

  /** What is left after `Front(q, size)` is read. */
  function Rest(q: seq<Byte>, size: nat): seq<Byte>
  {
    q[Min(|q|, size)..]
  }

  // ---------------------------------------------------------------------------------------
  // Endpoints
  // ---------------------------------------------------------------------------------------

  /** One side of the channel; it holds references to the Pipe's buffers, never copies. */
  class PipeEnd {
    const readBuffer: RingBuffer
    const writeBuffer: RingBuffer

    ghost predicate Valid()
      reads this, readBuffer, writeBuffer
    {
      readBuffer.Valid() && writeBuffer.Valid() && readBuffer != writeBuffer
    }

    constructor (readBuf: RingBuffer, writeBuf: RingBuffer)
      ensures readBuffer == readBuf && writeBuffer == writeBuf
    {
      readBuffer := readBuf;
      writeBuffer := writeBuf;
    }

    /** The oldest byte as 0..255, or -1 when nothing is buffered. */
    method TryReadOne() returns (r: int)
      requires Valid()
      modifies readBuffer
      ensures Valid() && unchanged(writeBuffer)
      ensures -1 <= r < 256
      ensures old(readBuffer.items) == [] ==> r == -1 && readBuffer.items == []
      ensures old(readBuffer.items) != [] ==>
        r == old(readBuffer.items)[0] && readBuffer.items == old(readBuffer.items)[1..]
    {
      var c := readBuffer.Get();
      if c.Some? {
        return c.value;
      }
      return -1;
    }

    /** The oldest byte; an empty buffer is an error and nothing changes. */
    method ReadOne() returns (r: Result<Byte>)
      requires Valid()
      modifies readBuffer
      ensures Valid() && unchanged(writeBuffer)
      ensures old(readBuffer.items) == [] ==> r == Failure(NoDataAvailable) && readBuffer.items == []
      ensures old(readBuffer.items) != [] ==>
        r == Success(old(readBuffer.items)[0]) && readBuffer.items == old(readBuffer.items)[1..]
    {
      var c := readBuffer.Get();
      if c.None? {
        return Failure(NoDataAvailable);
      }
      return Success(c.value);
    }

    /** Up to `size` bytes in arrival order; stops at an empty buffer without taking an extra byte. */
    method Read(size: int) returns (r: Result<seq<Byte>>)
      requires Valid()
      modifies readBuffer
      ensures Valid() && unchanged(writeBuffer)
      ensures size < 0 ==> r == Failure(LengthError) && readBuffer.items == old(readBuffer.items)
      ensures size >= 0 ==>
        r == Success(Front(old(readBuffer.items), size)) &&
        readBuffer.items == Rest(old(readBuffer.items), size)
    {
      if size < 0 {
        return Failure(LengthError);
      }
      ghost var q := readBuffer.items;
      var result: seq<Byte> := [];
      var i := 0;
      while i < size
        invariant readBuffer.Valid() && 0 <= i <= size && i <= |q|
        invariant result == q[..i] && readBuffer.items == q[i..]
        decreases size - i
      {
        var c := readBuffer.Get();
        if c.None? {
          break;
        }
        result := result + [c.value];
        i := i + 1;
      }
      assert i == Min(|q|, size);
      return Success(result);
    }

    /**
     * Puts the bytes one by one. The first put that fails aborts with an error; the bytes put
     * before it stay in the buffer.
     */
    method Write(bs: seq<Byte>) returns (r: Result<()>)
      requires Valid()
      modifies writeBuffer
      ensures Valid() && unchanged(readBuffer)
      ensures r.Success? <==> |bs| <= writeBuffer.capacity - |old(writeBuffer.items)|
      ensures r.Failure? ==> r.error == BufferFull
      ensures writeBuffer.items ==
        old(writeBuffer.items) + bs[..Accepted(old(writeBuffer.items), writeBuffer.capacity, |bs|)]
    {
      ghost var q := writeBuffer.items;
      var i := 0;
      while i < |bs|
        invariant writeBuffer.Valid() && 0 <= i <= |bs|
        invariant |q| + i <= writeBuffer.capacity
        invariant writeBuffer.items == q + bs[..i]
      {
        var ok := writeBuffer.Put(bs[i]);
        if !ok {
          assert i == Accepted(q, writeBuffer.capacity, |bs|);
          return Failure(BufferFull);
        }
        i := i + 1;
      }
      assert bs[..i] == bs;
      return Success(());
    }

    /** Bytes ready to read. */
    method Available() returns (n: nat)
      requires Valid()
      ensures n == |readBuffer.items| && n <= readBuffer.capacity
    {
      n := readBuffer.Count();
    }

    /** Room left for writing. */
    method WriteSpace() returns (n: nat)
      requires Valid()
      ensures n == writeBuffer.capacity - |writeBuffer.items|
      ensures n == 0 <==> |writeBuffer.items| == writeBuffer.capacity
    {
      n := writeBuffer.Free();
    }

    /** Writes are visible to the other end at once, so there is nothing to flush. */
    method Flush()
      requires Valid()
      ensures Valid() && unchanged(readBuffer, writeBuffer)
    {
    }
  }

  // ---------------------------------------------------------------------------------------
  // The channel
  // ---------------------------------------------------------------------------------------

  /**
   * Owner of both buffers and both endpoints. All four are `const`: the wiring made by the
   * constructor is the wiring for the Pipe's whole life (the C++ Pipe cannot be copied or moved).
   */
  class Pipe {
    /** Written by end A, read by end B. */
    const bufferAToB: RingBuffer
    /** Written by end B, read by end A. */
    const bufferBToA: RingBuffer
    const endA: PipeEnd
    const endB: PipeEnd

    ghost predicate Valid()
      reads this, endA, endB, bufferAToB, bufferBToA
    {
      endA.readBuffer == bufferBToA && endA.writeBuffer == bufferAToB &&
      endB.readBuffer == bufferAToB && endB.writeBuffer == bufferBToA &&
      endA != endB && bufferAToB != bufferBToA &&
      bufferAToB.capacity == PipeCapacity && bufferBToA.capacity == PipeCapacity &&
      endA.Valid() && endB.Valid()
    }

    constructor ()
      ensures Valid()
      ensures fresh(bufferAToB) && fresh(bufferBToA) && fresh(endA) && fresh(endB)
      ensures bufferAToB.items == [] && bufferBToA.items == []
    {
      var aToB := new RingBuffer(PipeCapacity);
      var bToA := new RingBuffer(PipeCapacity);
      bufferAToB := aToB;
      bufferBToA := bToA;
      endA := new PipeEnd(bToA, aToB);
      endB := new PipeEnd(aToB, bToA);
    }

    /** Always the same endpoint: reads B-to-A, writes A-to-B. */
    method GetEndA() returns (e: PipeEnd)
      requires Valid()
      ensures e == endA && e.readBuffer == bufferBToA && e.writeBuffer == bufferAToB
    {
      e := endA;
    }

    /** Always the same endpoint: reads A-to-B, writes B-to-A. */
    method GetEndB() returns (e: PipeEnd)
      requires Valid()
      ensures e == endB && e.readBuffer == bufferAToB && e.writeBuffer == bufferBToA
    {
      e := endB;
    }
  }

  /**
   * A write on `writer` followed by reading everything available on `reader`, the end across
   * the channel: the reader gets the bytes that were already queued followed by the part of
   * `bs` that fit, in order, and the buffer between them is left empty. The writer's own read
   * buffer does not see the write.
   */
  method Transfer(writer: PipeEnd, reader: PipeEnd, bs: seq<Byte>)
    returns (written: Result<()>, received: Result<seq<Byte>>)
    requires writer.Valid() && reader.Valid()
    requires reader.readBuffer == writer.writeBuffer && reader.writeBuffer == writer.readBuffer
    modifies writer.writeBuffer
    ensures writer.Valid() && reader.Valid()
    ensures written.Success? <==> |bs| <= writer.writeBuffer.capacity - |old(writer.writeBuffer.items)|
    ensures received == Success(old(writer.writeBuffer.items) +
      bs[..Accepted(old(writer.writeBuffer.items), writer.writeBuffer.capacity, |bs|)])
    ensures writer.writeBuffer.items == [] && unchanged(writer.readBuffer)
  {
    written := writer.Write(bs);
    var n := reader.Available();
    assert Front(reader.readBuffer.items, n) == reader.readBuffer.items;
    received := reader.Read(n);
  }

  /** End B reads what end A writes: `Transfer` from end A to end B. */
  method TransferAToB(p: Pipe, bs: seq<Byte>) returns (written: Result<()>, received: Result<seq<Byte>>)
    requires p.Valid()
    modifies p.bufferAToB
    ensures p.Valid()
    ensures written.Success? <==> |bs| <= PipeCapacity - |old(p.bufferAToB.items)|
    ensures received == Success(old(p.bufferAToB.items) +
      bs[..Accepted(old(p.bufferAToB.items), PipeCapacity, |bs|)])
    ensures p.bufferAToB.items == [] && unchanged(p.bufferBToA)
  {
    var a := p.GetEndA();
    var b := p.GetEndB();
    written, received := Transfer(a, b, bs);
  }

  /** End A reads what end B writes: `Transfer` from end B to end A. */
  method TransferBToA(p: Pipe, bs: seq<Byte>) returns (written: Result<()>, received: Result<seq<Byte>>)
    requires p.Valid()
    modifies p.bufferBToA
    ensures p.Valid()
    ensures written.Success? <==> |bs| <= PipeCapacity - |old(p.bufferBToA.items)|
    ensures received == Success(old(p.bufferBToA.items) +
      bs[..Accepted(old(p.bufferBToA.items), PipeCapacity, |bs|)])
    ensures p.bufferBToA.items == [] && unchanged(p.bufferAToB)
  {
    var a := p.GetEndA();
    var b := p.GetEndB();
    written, received := Transfer(b, a, bs);
  }

  // ---------------------------------------------------------------------------------------
  // One buffer over a whole session of writes and reads
  // ---------------------------------------------------------------------------------------

  datatype Op = Send(bs: seq<Byte>) | Receive(size: nat)

  /**
   * A session on one buffer: everything `delivered` by the reads, what is still `buffered`,
   * the bytes the writes `accepted`, the bytes they were asked to `sent`, and whether one failed.
   */
  datatype Trace = Trace(delivered: seq<Byte>, buffered: seq<Byte>, accepted: seq<Byte>, sent: seq<Byte>, failed: bool)

  function Run(q: seq<Byte>, capacity: nat, ops: seq<Op>): Trace
    requires |q| <= capacity
    decreases |ops|
  {
    if ops == [] then Trace([], q, [], [], false)
    else match ops[0]
      case Send(bs) =>
        var k := Accepted(q, capacity, |bs|);
        var t := Run(q + bs[..k], capacity, ops[1..]);
        Trace(t.delivered, t.buffered, bs[..k] + t.accepted, bs + t.sent, t.failed || k < |bs|)
      case Receive(n) =>
        var t := Run(Rest(q, n), capacity, ops[1..]);
        Trace(Front(q, n) + t.delivered, t.buffered, t.accepted, t.sent, t.failed)
  }

  /**
   * FIFO across a whole session: the bytes read out, followed by those still buffered, are the
   * bytes that were buffered at the start followed by every byte a write accepted, in order;
   * when no write failed, the accepted bytes are exactly the bytes written.
   */
  lemma {:induction false} RunIsFifo(q: seq<Byte>, capacity: nat, ops: seq<Op>)
    requires |q| <= capacity
    ensures var t := Run(q, capacity, ops);
      t.delivered + t.buffered == q + t.accepted &&
      |t.buffered| <= capacity &&
      (!t.failed ==> t.accepted == t.sent)
    decreases |ops|
  {
    if ops != [] {
      match ops[0]
      case Send(bs) =>
        var k := Accepted(q, capacity, |bs|);
        RunIsFifo(q + bs[..k], capacity, ops[1..]);
        assert k == |bs| ==> bs[..k] == bs;
      case Receive(n) =>
        var t := Run(Rest(q, n), capacity, ops[1..]);
        RunIsFifo(Rest(q, n), capacity, ops[1..]);
        calc {
          (Front(q, n) + t.delivered) + t.buffered;
          Front(q, n) + (t.delivered + t.buffered);
          Front(q, n) + (Rest(q, n) + t.accepted);
          (Front(q, n) + Rest(q, n)) + t.accepted;
          { assert Front(q, n) + Rest(q, n) == q; }
          q + t.accepted;
        }
    }
  }
}
