# Transmission: ring buffers, the Pipe and XON/XOFF adapters, in Dafny

This project models the byte-stream core of the Transmission libraries:

- the bounded FIFO every connection is built on (`InterruptSafeRingBuffer`) and its watermark
  extension (`FlowControlRingBuffer`), as sequential classes (`ring_buffer.dfy`);
- the in-memory `Pipe`: two owned 4096-byte buffers and two `PipeEnd` endpoints holding
  references to them, cross-wired so that end A writes A-to-B and reads B-to-A (`pipe.dfy`);
- the buffer-plus-XON/XOFF state machine the hardware adapters share (`flow_control.dfy`), and
  each adapter's own variant of it: macOS (`macos.dfy`), ESP32 USB CDC (`usb_cdc.dfy`), ESP32
  UART `ReliableConnectionSerial1` (`esp32_serial1.dfy`) and Teensy `ReliableConnectionSerial1`
  (`teensy_serial1.dfy`).

Bytes are `Byte = 0..255`; XON is 0x11 and XOFF 0x13. The hardware is replaced by fields: the
bytes waiting in the serial port or UART driver are a sequence the producer consumes, and the
control bytes an adapter transmits are appended to a `log`. For the macOS adapter the chunk
returned by `::read` is a parameter of the producer step. Each adapter class exposes
`State(): Flow`, the ring contents with `paused`, `bufferFull` and `log`, and every method
states its new `State()` as a function of the old one (`ProduceBatch`, `ProducePerByte`,
`XonCheck`, `Pull`, `Returned`/`Remaining`). The properties are proved about those functions.

What is proved, in short:

- Pipe: reads return the oldest bytes in order and remove exactly what they return. A write
  fails iff it does not fit in the free space, and then the prefix that fit stays enqueued. Each
  operation touches only its own buffer. The wiring is fixed for the Pipe's lifetime. Over any
  session of writes and reads the buffer is FIFO (`RunIsFifo`). In either direction, what one end
  writes the other end reads back after the bytes already queued (`TransferAToB`, `TransferBToA`).
- Drain loops `while (ring.get(c) && count < cap)`: with n bytes buffered they return
  min(n, max(cap, 0)) bytes in order and remove min(n, max(cap, 0) + 1). The byte at position
  max(cap, 0) is lost (`DrainLoopSplits`, `DrainTakesOneExtra`).
- Producers: checking XOFF after every byte and going on after an overflow (Teensy, ESP32 UART)
  ends in the same state as stopping at the first overflow and checking once (macOS)
  (`PerByteMatchesBatch`). The guarded USB CDC fill in `read`/`availableForReading` ends in the
  batch producer's state on the bytes it moved (`GuardedPullIsBatch`). The unguarded fill in
  `tryReadOne` does too, counting the byte it loses, whenever it stores at least one byte. When the
  ring is already full it stores nothing, sets `bufferFull` only if the port held a byte, and
  skips the XOFF check (`UnguardedPullIsBatch`). `tryReadOne` itself fills only after a failed
  `get`, that is on an empty ring, so the full-ring case is a property of the fill loop in
  general rather than a path `tryReadOne` takes.
- Handshake: the control bytes alternate XOFF, XON, XOFF, … in step with `paused`. This is an
  object invariant of the macOS, USB CDC and ESP32 UART adapters. For Teensy it holds from the
  last `begin` on. It also holds for any interleaving of producer and drain steps
  (`SessionKeepsHandshake`), and in that interleaving `bufferFull` is never cleared.

## Model

| member | source | states |
|---|---|---|
| RingBuffers.RingBuffer.Put | libraries/transmission-cpp/src/Pipe.cpp:64-65 | put appends the byte iff the buffer is below capacity and otherwise reports failure with nothing changed |
| RingBuffers.RingBuffer.Get | libraries/transmission-cpp/src/Pipe.cpp:41-42 | get removes and returns the oldest byte, or reports an empty buffer with nothing changed |
| RingBuffers.FlowControlRingBuffer.constructor | libraries/transmission-macos/src/ReliableConnectionMacOS.cpp:13 | a flow-control ring starts empty, with high and low levels at the given percentages of its capacity |
| RingBuffers.FlowControlRingBuffer.Put | libraries/transmission-macos/src/ReliableConnectionMacOS.cpp:138 | put on the flow-control ring behaves as the plain ring's put |
| RingBuffers.FlowControlRingBuffer.Get | libraries/transmission-macos/src/ReliableConnectionMacOS.cpp:204 | get on the flow-control ring behaves as the plain ring's get |
| RingBuffers.RingBuffer.constructor | libraries/transmission-cpp/src/Pipe.h:46-50 | a ring buffer starts empty with the given capacity |
| RingBuffers.RingBuffer.Count | libraries/transmission-cpp/src/Pipe.cpp:70-72 | count() is the occupancy: at most the capacity, and zero exactly when nothing is buffered |
| RingBuffers.RingBuffer.Free | libraries/transmission-cpp/src/Pipe.cpp:74-76 | free() is the capacity minus the occupancy, and zero exactly when the buffer is full |
| RingBuffers.FlowControlRingBuffer.ShouldSendXOFF | libraries/transmission-macos/src/ReliableConnectionMacOS.cpp:145 | shouldSendXOFF() holds exactly when the occupancy is at or above the high level |
| RingBuffers.FlowControlRingBuffer.ShouldSendXON | libraries/transmission-macos/src/ReliableConnectionMacOS.cpp:232 | shouldSendXON() holds exactly when the occupancy is at or below the low level |
| RingBuffers.ReferenceWatermarksNeverOverlap | libraries/transmission-macos/src/ReliableConnectionMacOS.cpp:13 | a flow-control ring with capacity 4096 and watermarks (75, 25) has levels 3072 and 1024, and shouldSendXOFF() and shouldSendXON() are never both true on it |
| FlowControl.DrainUpTo | libraries/transmission-macos/src/ReliableConnectionMacOS.cpp:224-229 | the drain loop returns the first min(n, max(cap, 0)) buffered bytes and leaves the ring without its first min(n, max(cap, 0) + 1) bytes, which is where the get-by-get reference DrainLoop ends |
| FlowControl.DrainLoopSplits | libraries/transmission-esp32/src/ReliableConnectionUsbCdc.cpp:152-157 | the loop run get-by-get, with get evaluated before the bound test, agrees with the closed forms Returned and Remaining from any starting count |
| FlowControl.DrainTakesOneExtra | libraries/transmission-teensy/src/ReliableConnectionSerial1.cpp:94-98 | a drain returns min(n, max(cap, 0)) bytes and removes min(n, max(cap, 0) + 1); when more than max(cap, 0) are buffered, the byte at position max(cap, 0) is in neither the result nor the ring |
| FlowControl.ProduceBatchStoresPrefix | libraries/transmission-macos/src/ReliableConnectionMacOS.cpp:137-148 | a batch appends the longest prefix that fits, sets bufferFull iff a byte was dropped, stays within capacity, and sends XOFF iff the batch is non-empty, not paused, gated on and at the high level |
| FlowControl.ProduceBatchSnoc | libraries/transmission-macos/src/ReliableConnectionMacOS.cpp:137-148 | a batch one byte longer ends where the shorter batch followed by one put and one XOFF check ends |
| FlowControl.PerByteMatchesBatch | src/esp32/src/ReliableConnectionSerial1.cpp:29-41 | checking XOFF after every byte without stopping at an overflow yields the same ring, flags and log as stopping at the first overflow and checking once |
| FlowControl.XoffCheckAlternates | libraries/transmission-esp32/src/ReliableConnectionUsbCdc.cpp:69-72 | the XOFF check keeps the control log alternating XOFF, XON, … in step with paused |
| FlowControl.XonCheckAlternates | libraries/transmission-esp32/src/ReliableConnectionUsbCdc.cpp:122-125 | the XON check keeps the control log alternating in step with paused |
| FlowControl.ProduceBatchAlternates | libraries/transmission-macos/src/ReliableConnectionMacOS.cpp:145-148 | a producer step sends at most one XOFF, only when not paused, and keeps the alternation |
| FlowControl.HysteresisExcludesBoth | libraries/transmission-macos/src/ReliableConnectionMacOS.cpp:13 | with the high level above the low one, an XOFF just sent is never followed by an XON on the same occupancy |
| FlowControl.SessionKeepsHandshake | libraries/transmission-esp32/src/ReliableConnectionUsbCdc.cpp:69-125 | over any interleaving of producer and drain steps the log keeps alternating with paused, only grows, occupancy stays within capacity and bufferFull once set stays set |
| Pipes.PipeEnd.constructor | libraries/transmission-cpp/src/Pipe.cpp:25-29 | an endpoint keeps the buffers it is given as references |
| Pipes.PipeEnd.TryReadOne | libraries/transmission-cpp/src/Pipe.cpp:31-37 | returns the oldest byte as 0..255 and removes it, or -1 with the buffer unchanged; the write buffer is untouched |
| Pipes.PipeEnd.ReadOne | libraries/transmission-cpp/src/Pipe.cpp:39-45 | returns and removes the oldest byte; on an empty buffer fails with no-data and nothing changes |
| Pipes.PipeEnd.Read | libraries/transmission-cpp/src/Pipe.cpp:47-60 | for size >= 0 returns the first min(size, count) bytes in order and removes exactly those; a negative size fails with nothing changed |
| Pipes.PipeEnd.Write | libraries/transmission-cpp/src/Pipe.cpp:62-68 | succeeds iff the bytes fit in the free space; either way the longest prefix that fits is enqueued, and the read buffer is untouched |
| Pipes.PipeEnd.Available | libraries/transmission-cpp/src/Pipe.cpp:70-72 | returns the read buffer's occupancy without changing anything |
| Pipes.PipeEnd.WriteSpace | libraries/transmission-cpp/src/Pipe.cpp:74-76 | returns the write buffer's free space without changing anything |
| Pipes.PipeEnd.Flush | libraries/transmission-cpp/src/Pipe.cpp:78-80 | changes neither buffer |
| Pipes.Pipe.constructor | libraries/transmission-cpp/src/Pipe.cpp:10-14 | builds two fresh, distinct, empty 4096-byte buffers; end A reads B-to-A and writes A-to-B, end B the reverse |
| Pipes.Pipe.GetEndA | libraries/transmission-cpp/src/Pipe.cpp:16-18 | always returns the same owned endpoint, wired to read B-to-A and write A-to-B |
| Pipes.Pipe.GetEndB | libraries/transmission-cpp/src/Pipe.cpp:20-22 | always returns the same owned endpoint, wired to read A-to-B and write B-to-A |
| Pipes.Transfer | libraries/transmission-cpp/src/Pipe.cpp:47-72 | a write on one end followed by reading everything available on the opposite end delivers the bytes already queued followed by the prefix of the write that fit, in order; the write fails iff some byte did not fit; the buffer between them ends empty and the writer's own read buffer is untouched |
| Pipes.TransferAToB | libraries/transmission-cpp/src/Pipe.h:46-50 | end B reads back what was queued A-to-B followed by the part of end A's write that fit, in order; the A-to-B buffer ends empty and the B-to-A buffer is untouched |
| Pipes.TransferBToA | libraries/transmission-cpp/src/Pipe.h:46-50 | end A reads back what was queued B-to-A followed by the part of end B's write that fit, in order; the B-to-A buffer ends empty and the A-to-B buffer is untouched |
| Pipes.RunIsFifo | libraries/transmission-cpp/src/Pipe.cpp:47-68 | over any session of writes and reads, bytes read followed by bytes buffered equal the initial contents followed by the accepted bytes; with no failed write the accepted bytes are all bytes written |
| MacOSAdapter.ReliableConnectionMacOS.constructor | libraries/transmission-macos/src/ReliableConnectionMacOS.cpp:11-15 | the ring has watermarks (75, 25) and capacity 4096; paused, bufferFull and xonXoffEnabled start false, nothing sent |
| MacOSAdapter.ReliableConnectionMacOS.EnableXonXoff | libraries/transmission-macos/src/ReliableConnectionMacOS.cpp:162-164 | sets the flag and changes nothing else |
| MacOSAdapter.ReliableConnectionMacOS.DisableXonXoff | libraries/transmission-macos/src/ReliableConnectionMacOS.cpp:176-178 | clears the flag and changes nothing else |
| MacOSAdapter.ReliableConnectionMacOS.ReceiveChunk | libraries/transmission-macos/src/ReliableConnectionMacOS.cpp:136-148 | a chunk is put in order up to the first failed put, which sets bufferFull and drops the rest; then one XOFF check gated on xonXoffEnabled |
| MacOSAdapter.ReliableConnectionMacOS.TryReadOne | libraries/transmission-macos/src/ReliableConnectionMacOS.cpp:201-208 | the oldest byte as 0..255, or -1 with nothing changed; never sends XON |
| MacOSAdapter.ReliableConnectionMacOS.ReadOne | libraries/transmission-macos/src/ReliableConnectionMacOS.cpp:210-217 | the oldest byte, or 0 with nothing changed; never sends XON |
| MacOSAdapter.ReliableConnectionMacOS.Read | libraries/transmission-macos/src/ReliableConnectionMacOS.cpp:219-238 | returns min(n, 32) bytes, removes min(n, 33), then sends XON and clears paused iff paused, enabled and at the low level |
| MacOSAdapter.ReliableConnectionMacOS.ReadSized | libraries/transmission-macos/src/ReliableConnectionMacOS.cpp:240-259 | for size >= 0 returns min(n, size) bytes, removes min(n, size + 1), then the same XON check; a negative size fails with nothing changed |
| Esp32Serial1Adapter.ReliableConnectionSerial1.constructor | src/esp32/src/ReliableConnectionSerial1.cpp:13 | the ring has watermarks (75, 25) and capacity 4096; flags start false |
| Esp32Serial1Adapter.ReliableConnectionSerial1.EnableXonXoff | src/esp32/src/ReliableConnectionSerial1.cpp:112-114 | sets the flag and changes nothing else |
| Esp32Serial1Adapter.ReliableConnectionSerial1.DisableXonXoff | src/esp32/src/ReliableConnectionSerial1.cpp:116-118 | clears the flag and changes nothing else |
| Esp32Serial1Adapter.ReliableConnectionSerial1.UartHandler | src/esp32/src/ReliableConnectionSerial1.cpp:16-45 | consumes every byte waiting in the driver, putting each in order and checking XOFF after each; ends where the per-batch producer ends |
| Esp32Serial1Adapter.ReliableConnectionSerial1.ReceiveByte | src/esp32/src/ReliableConnectionSerial1.cpp:29-41 | one byte: a failed put sets bufferFull; then XOFF iff not paused, enabled and at the high level |
| Esp32Serial1Adapter.ReliableConnectionSerial1.TryReadOne | src/esp32/src/ReliableConnectionSerial1.cpp:120-127 | the oldest byte as 0..255, or -1 with nothing changed |
| Esp32Serial1Adapter.ReliableConnectionSerial1.ReadOne | src/esp32/src/ReliableConnectionSerial1.cpp:129-136 | the oldest byte, or 0 with nothing changed |
| Esp32Serial1Adapter.ReliableConnectionSerial1.Read | src/esp32/src/ReliableConnectionSerial1.cpp:138-158 | returns min(n, 32) bytes, removes min(n, 33), then XON iff paused, enabled and at the low level |
| Esp32Serial1Adapter.ReliableConnectionSerial1.ReadSized | src/esp32/src/ReliableConnectionSerial1.cpp:160-180 | for size >= 0 returns min(n, size) bytes, removes min(n, size + 1), then the same XON check; a negative size fails with nothing changed |
| Esp32Serial1Adapter.ReliableConnectionSerial1.AvailableForReading | src/esp32/src/ReliableConnectionSerial1.cpp:186-189 | true iff the ring holds a byte; changes nothing |
| TeensySerial1Adapter.ReliableConnectionSerial1.constructor | libraries/transmission-teensy/src/ReliableConnectionSerial1.cpp:6-8 | the default-constructed ring is empty with capacity 4096; flags start false |
| TeensySerial1Adapter.ReliableConnectionSerial1.Begin | libraries/transmission-teensy/src/ReliableConnectionSerial1.cpp:17-41 | discards pending input, clears paused and bufferFull, sends XON iff enabled, keeps the ring |
| TeensySerial1Adapter.ReliableConnectionSerial1.EnableXonXoff | libraries/transmission-teensy/src/ReliableConnectionSerial1.cpp:63-65 | sets the flag and changes nothing else |
| TeensySerial1Adapter.ReliableConnectionSerial1.DisableXonXoff | libraries/transmission-teensy/src/ReliableConnectionSerial1.cpp:67-69 | clears the flag and changes nothing else |
| TeensySerial1Adapter.ReliableConnectionSerial1.SerialEvent1 | libraries/transmission-teensy/src/ReliableConnectionSerial1.cpp:44-61 | consumes every received byte, putting each in order without stopping at an overflow, checking XOFF after each without consulting the enable flag |
| TeensySerial1Adapter.ReliableConnectionSerial1.ReceiveByte | libraries/transmission-teensy/src/ReliableConnectionSerial1.cpp:50-59 | one byte: a failed put sets bufferFull; then XOFF iff not paused and at the high level |
| TeensySerial1Adapter.ReliableConnectionSerial1.TryReadOne | libraries/transmission-teensy/src/ReliableConnectionSerial1.cpp:71-78 | the oldest byte, or -1 with nothing changed |
| TeensySerial1Adapter.ReliableConnectionSerial1.ReadOne | libraries/transmission-teensy/src/ReliableConnectionSerial1.cpp:80-87 | the oldest byte, or 0 with nothing changed |
| TeensySerial1Adapter.ReliableConnectionSerial1.Read | libraries/transmission-teensy/src/ReliableConnectionSerial1.cpp:89-106 | returns min(n, 128) bytes, removes min(n, 129), then XON iff paused and at the low level, whatever the enable flag |
| TeensySerial1Adapter.ReliableConnectionSerial1.ReadSized | libraries/transmission-teensy/src/ReliableConnectionSerial1.cpp:108-124 | returns min(n, max(size, 0)) bytes and removes min(n, max(size, 0) + 1), so a negative size returns nothing and drops one buffered byte; never sends XON nor changes paused |
| UsbCdcAdapter.PullKeepsOrder | libraries/transmission-esp32/src/ReliableConnectionUsbCdc.cpp:59-74 | a fill consumes a prefix of the serial bytes and appends it to the ring in order, less the one byte lost at an unguarded overflow; a guarded fill never overflows and stops only at an empty port or a full ring |
| UsbCdcAdapter.GuardedPullIsBatch | libraries/transmission-esp32/src/ReliableConnectionUsbCdc.cpp:97-111 | a guarded fill ends where the per-batch producer ends on the bytes it moved |
| UsbCdcAdapter.UnguardedPullIsBatch | libraries/transmission-esp32/src/ReliableConnectionUsbCdc.cpp:59-74 | the unguarded fill of tryReadOne ends where the per-batch producer ends on the bytes it took (the lost byte included) whenever it stores a byte; on a full ring it only sets bufferFull when the port held a byte, and checks no XOFF |
| UsbCdcAdapter.ReliableConnectionUsbCdc.constructor | libraries/transmission-esp32/src/ReliableConnectionUsbCdc.cpp:19-21 | the ring has watermarks (75, 25) and capacity 4096; flags start false |
| UsbCdcAdapter.ReliableConnectionUsbCdc.EnableXonXoff | libraries/transmission-esp32/src/ReliableConnectionUsbCdc.cpp:44-46 | sets the flag and changes nothing else |
| UsbCdcAdapter.ReliableConnectionUsbCdc.DisableXonXoff | libraries/transmission-esp32/src/ReliableConnectionUsbCdc.cpp:48-50 | clears the flag and changes nothing else |
| UsbCdcAdapter.ReliableConnectionUsbCdc.PullFromSerial | libraries/transmission-esp32/src/ReliableConnectionUsbCdc.cpp:97-111 | a fill loop moves serial bytes into the ring, stops at a failed put (setting bufferFull), checks XOFF after each successful put when asked to |
| UsbCdcAdapter.ReliableConnectionUsbCdc.TryReadOne | libraries/transmission-esp32/src/ReliableConnectionUsbCdc.cpp:52-82 | a non-empty ring yields its oldest byte without touching the port; an empty ring is filled from the port and yields the first serial byte, or -1 iff the port was empty; never sends XON |
| UsbCdcAdapter.ReliableConnectionUsbCdc.ReadOne | libraries/transmission-esp32/src/ReliableConnectionUsbCdc.cpp:84-90 | tryReadOne with 0 in place of -1 |
| UsbCdcAdapter.ReliableConnectionUsbCdc.Read | libraries/transmission-esp32/src/ReliableConnectionUsbCdc.cpp:92-128 | fills while the ring has room, returns min(n, 32) bytes, removes min(n, 33), then XON iff paused, enabled and at the low level |
| UsbCdcAdapter.ReliableConnectionUsbCdc.ReadSized | libraries/transmission-esp32/src/ReliableConnectionUsbCdc.cpp:130-166 | fills only for size > 0; for size >= 0 returns min(n, size) bytes, removes min(n, size + 1), then the same XON check; a negative size fails with nothing changed |
| UsbCdcAdapter.ReliableConnectionUsbCdc.AvailableForReading | libraries/transmission-esp32/src/ReliableConnectionUsbCdc.cpp:174-191 | may move serial bytes into the ring but never sends XOFF; true iff the ring is non-empty afterwards, i.e. iff the ring or the port held a byte |

## Left out

- The internals of `ring_buffer.h` are not part of this model. The circular array and
  interrupt masking are left out: the ring is a sequence in arrival order, and one producer
  step and one consumer step are interleaved sequentially.
- The watermark arguments (75, 25) are read as percentages of capacity, giving levels 3072 and
  1024. The arithmetic in `ring_buffer.h` is not visible. The protocol lemmas hold for any
  levels, and only `HysteresisExcludesBoth` needs high > low. That is an assumption here; the
  shown code does not establish it.
- TeensySerial1Adapter.ReliableConnectionSerial1.constructor: the Teensy ring is
  default-constructed, so its watermark percentages are constructor parameters of the model.
- Concurrency is left out: the macOS `std::thread` reader with its `select` loop, timeouts and
  error exits, `std::atomic`/`std::mutex`, and the ESP32 FreeRTOS `uart_event_task`. The task's
  queue handling, including input flushes on FIFO overflow, is left out too. Only the bodies
  that touch the ring are modelled.
- Device setup is left out: `configureSerialPort`/termios, `open`/`close`, `Serial.begin`,
  `uart_driver_install`, pin setup and delays. The termios updates in the macOS
  `enableXonXoff`/`disableXonXoff` are part of this. Also left out: the `begin` and `end` of the
  macOS, USB CDC and ESP32 UART adapters, including the XON each `begin` sends when enabled.
  The Teensy `begin` is modelled.
- Esp32Serial1Adapter.ReliableConnectionSerial1.UartHandler: it is modelled as running after
  `begin`. The early return when the UART event queue does not exist is left out.
- `write` on the hardware adapters, `sendFlowControlChar` and `Connection::write(std::string)`
  are left out. The first two only forward bytes to the transport; a control byte they would
  send is appended to `log`. The third has no definition in the shown files. The Teensy `write`
  is left out too.
- The singletons `instance`/`getInstance` are left out. So are the Teensy guards
  `if (!instance) return`, which always pass once the object exists.
- `src/esp32/src/ReliableConnectionSerial1.h` is not part of this model. The ESP32 UART adapter
  takes `maxReadSize` = 32 and initially false flags from the sibling adapters' headers.
- TeensySerial1Adapter.ReliableConnectionSerial1.TryReadOne returns `c` as a plain `char`. The
  model reads it as 0..255, which is right for the unsigned `char` of the ARM toolchain. With a
  signed `char`, byte 0xFF would come back as -1, the "no data" value.
- The ESP32 WiFi/TCP adapter and the Arduino Serial1 adapter are not part of this model. The
  first is network I/O around the same fill-then-drain pattern; the second delegates to `Serial`.
- Exceptions are error results. `PipeEnd::readOne` and `PipeEnd::write` throw
  `std::runtime_error`. A negative size given to a `read(size)` that starts with
  `reserve(size)` makes `reserve` throw `std::length_error`.

### Behaviour of the code that a caller might not expect

- A Pipe write that does not fit is not all-or-nothing. `PipeEnd::write` puts byte by byte and
  throws at the first byte that does not fit, so the prefix that fit stays in the buffer
  (`Pipes.PipeEnd.Write`).
- `readOne` does not block. When the ring (and, for USB CDC, the serial port as well) is empty,
  every adapter returns 0, and the Pipe throws. The
  Teensy and ESP32 UART sources flag this with a FIXME comment saying the call was meant to
  block (libraries/transmission-teensy/src/ReliableConnectionSerial1.cpp:85,
  src/esp32/src/ReliableConnectionSerial1.cpp:134).
- The USB CDC `availableForReading` is not a pure query: it moves serial bytes into the ring.
- The Teensy `read(size)` has no `reserve`, and its loop calls `get` before testing
  `count < size`. A negative size therefore returns nothing and drops one buffered byte.
- Not every drain checks XON. `tryReadOne`/`readOne` never do, and neither does the Teensy
  `read(size)`.
