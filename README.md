# Serial forwarder worker — a Dafny model

TermiCOM bridges two serial ports, A and B, with one worker thread per
direction (`SerialForwarderThread`). Each worker copies every byte it reads
from its source port to its destination port straight away. Beside that it
groups the bytes into frames for the log. A frame is a burst of bytes that
ends once the line has been idle for one and a half flush gaps. The flush
gap comes from the baud rate. A finished frame goes to the shared log as a
single line: a direction tag, a timestamp, and the bytes in upper-case hex
separated by single spaces.

This project models that worker:

- `timing.dfy` (module `Timing`): how the constructor derives the timing
  fields (clamped baud and bits per character, character time, flush gap,
  poll interval), and the idle test as an integer inequality.
- `hex_format.dfy` (module `HexFormat`): the payload formatter, plus a
  parser that serves as its inverse.
- `frame_log.dfy` (module `FrameLog`): the events a worker emits, and the
  (text, colour) pair each one is rendered as.
- `accumulator.dfy` (module `Accumulator`): the frame accumulator as
  values. It covers appending received bytes, the flush check, one pass of
  the loop, a whole run and the shutdown flush. Lemmas relate a run to the
  bytes it read.
- `forwarder.dfy` (module `Forwarder`): the worker as a class. Its fields
  are updated in place. The log sink, the bytes handed to the destination's
  write and the bytes the destination accepted are ghost sequences. Each
  method is proved against the matching `Accumulator` function.
- `wrappers.dfy`: the `Option` datatype.

Where an intuitive reading differs from the code, the model follows the
code:

- **The flush gap is truncated before the multiply.** At 9600 baud, 10
  bits per character and a 3-character gap, exact arithmetic would give
  3 125 000 ns. The code gives `1041666 * 3 = 3124998` ns
  (`Timing.Baud9600Example`).
- **The shutdown flush is not unconditional.** The comment at main.py:132
  says the worker flushes any remaining frame when it stops. The call at
  main.py:134 passes `now + flush_gap + 1`, but the test needs 1.5 flush
  gaps. So a pending frame is logged only if the buffer is non-empty and
  `2*(now - last_rx) + 2 >= flush_gap` (`Accumulator.ShutdownCondition`).
  The loop sleeps one poll interval after every pass (main.py:119) before
  it sees the stop, so at shutdown at least one poll interval has passed
  since the last byte. The frame is therefore always logged when the flush
  gap is at most twice the poll interval, plus 2 ns
  (`Accumulator.ShutdownAfterPollSleep`). That holds for any baud with a
  one-character gap, and from 38400 baud up with the default 10 bits and
  3-character gap. The frame can be lost only when the flush gap exceeds
  twice the poll interval, which with the default framing means 28800 baud
  or less. At 9600 baud, a worker stopped 0.6 ms after its last byte keeps
  that frame unlogged (`Accumulator.ShutdownCanKeepFrame`).

Inputs the worker reads from outside are parameters. `time.time_ns()` is
an integer `nowNs`. The `strftime` timestamp text is an opaque string. What
`in_waiting`/`read` returned, and whether `write` raised, together form a
`Poll` value. The text of a raised exception is an opaque string.

## Model

| member | source | states |
|---|---|---|
| `Timing.Derive` | source_files/main.py:41-44 | baud is clamped to at least 300 and bits per character to at least 9, leaving larger values unchanged; the character time is the floor of 1e9·bits/baud (characterised by both bounds); the flush gap is at least 0.1 ms, at least the character time times max(gap, 1), and equal to one of the two |
| `Timing.FlushGapMonotone` | source_files/main.py:44 | a larger gap in characters never gives a smaller flush gap |
| `Timing.Baud9600Example` | source_files/main.py:41-44 | 9600 baud, 10 bits, 3 characters give a character time of 1041666 ns and a flush gap of 3124998 ns |
| `Timing.PollIntervalSeconds` | source_files/main.py:45 | the poll interval is at least 0.5 ms; it is half a character time when that is longer, and exactly 0.5 ms otherwise |
| `Timing.PollIntervalNs` | source_files/main.py:45 | twice the poll interval, in nanoseconds, is the larger of the character time and 1 ms |
| `Timing.FlushDueIsOneAndAHalfGaps` | source_files/main.py:58 | the integer test `2*(now - last_rx) >= 3*gap` holds exactly when the idle time reaches 1.5 flush gaps |
| `HexFormat.ByteHex` | source_files/main.py:60 | a byte becomes two upper-case hex digits whose values, high nibble first, give back the byte |
| `HexFormat.Hex` | source_files/main.py:60 | the encoding of n bytes has length 3n−1 (0 for no bytes) |
| `HexFormat.HexLayout` | source_files/main.py:60 | byte i sits at characters 3i and 3i+1 of the encoding, in order, followed by a single space unless it is the last byte |
| `HexFormat.HexAlphabet` | source_files/main.py:60 | every character of the encoding is an upper-case hex digit or a space |
| `HexFormat.ParseHexRoundTrip` | source_files/main.py:60 | parsing the encoding yields the original bytes, in order |
| `HexFormat.ParseHexCanonical` | source_files/main.py:60 | any text that parses is exactly the encoding of what it parses to, so the encoding is injective and canonical |
| `FrameLog.DirectionStyle` | source_files/main.py:61-63 | the tag is `[A->B]` and the colour `#f44250` exactly when the direction is `AtoB`; otherwise they are `[A<-B]` and `#4285f4`; a frame colour is never the error colour |
| `FrameLog.FrameLineDecodes` | source_files/main.py:60-71 | a frame line is `tag + " " + timestamp + " : "`, then the hex payload, then a newline; its length is as computed, and the payload read back from the line is the frame's bytes |
| `FrameLog.Render` | source_files/main.py:60-71 | every emitted line is newline-terminated; an event is red exactly when it is a write or forwarding error (main.py:98, :126), and a frame takes the direction's colour |
| `Accumulator.AppendRx` | source_files/main.py:80-101 | no data changes nothing; otherwise the buffer becomes the old buffer followed by the data, last-rx becomes now, and the frame start becomes now only if the buffer was empty; exactly the data is sent; a failed write delivers nothing and emits exactly one write error, while a successful one delivers the data and emits nothing |
| `Accumulator.FlushIfDue` | source_files/main.py:54-78 | emits something exactly when the buffer is non-empty and 1.5 flush gaps have passed; it then emits exactly one frame holding the whole buffer and returns to the idle state (empty buffer, both times 0); otherwise nothing changes; it never writes to the destination |
| `Accumulator.Step` | source_files/main.py:105-130 | a pass emits at most one event; a frame is emitted only on a pass where no bytes were waiting; only a read sends bytes; a fault emits one forwarding error and keeps the accumulator |
| `Accumulator.Run` | source_files/main.py:105-119 | a run of n passes emits at most n events |
| `Accumulator.Shutdown` | source_files/main.py:132-136 | the final flush never writes to the destination; it either emits nothing and changes nothing, or emits the whole non-empty buffer as one frame and goes idle |
| `Accumulator.StepConserves` | source_files/main.py:76-88 | after one pass, the emitted frames followed by the new buffer equal the old buffer followed by the bytes read |
| `Accumulator.RunConserves` | source_files/main.py:105-116 | over any sequence of passes, the payloads of all flushed frames followed by the current buffer equal the starting buffer followed by every byte read, in order |
| `Accumulator.RunForwardsEverything` | source_files/main.py:105-113 | over any sequence of passes, the concatenation of all writes equals the concatenation of all bytes read |
| `Accumulator.RunDeliversEverything` | source_files/main.py:90-92 | when no write fails, the destination receives exactly the bytes read, in order |
| `Accumulator.RunKeepsValid` | source_files/main.py:76-88 | an empty buffer always has both timestamps 0, and no frame event is ever empty |
| `Accumulator.BurstAccumulates` | source_files/main.py:105-116 | a run of reads with no quiet pass emits no frame event and adds every byte read to the buffer |
| `Accumulator.BurstStaysOneFrame` | source_files/main.py:54-58 | from an idle worker, a run whose quiet passes after any received byte all come less than 1.5 flush gaps after the latest byte emits no frame; the buffer then holds every byte read, stamped with the latest arrival |
| `Accumulator.BurstThenFlush` | source_files/main.py:54-78 | such a run followed by a due quiet pass emits exactly one frame, holding every byte of the burst in order, and leaves the worker idle |
| `Accumulator.WriteFailureIndependent` | source_files/main.py:87-101 | a failed write leaves the accumulator and the bytes sent as on success; it adds exactly one write-error event, and the destination receives nothing |
| `Accumulator.FlushStartsNewFrame` | source_files/main.py:76-86 | after a flush, the next non-empty read starts a frame holding exactly its own bytes, with both times equal to its arrival time |
| `Accumulator.ShutdownCondition` | source_files/main.py:132-136 | the shutdown flush emits exactly when the buffer is non-empty and `2*(now - last_rx) + 2 >= flush_gap`; it then emits the whole buffer as one frame and goes idle, and otherwise it changes nothing |
| `Accumulator.ShutdownAfterPollSleep` | source_files/main.py:119-134 | when at least one poll interval has passed since the last byte and the flush gap is at most two poll intervals plus 2 ns, the shutdown flush logs the whole pending frame and goes idle |
| `Accumulator.ShutdownFlushesWithOneCharGap` | source_files/main.py:41-45 | with a gap of one character or less, the shutdown flush after a poll sleep always logs the pending frame, at any baud |
| `Accumulator.ShutdownFlushesFromBaud38400` | source_files/main.py:26-45 | with the default 10 bits per character and 3-character gap, from 38400 baud up the shutdown flush after a poll sleep always logs the pending frame |
| `Accumulator.ShutdownCanKeepFrame` | source_files/main.py:134 | at 9600 baud with 10 bits and a 3-character gap, a worker stopped 0.6 ms after its last byte (more than one poll interval) keeps that frame unlogged |
| `Accumulator.BurstExample` | source_files/main.py:41-78 | at 9600 baud, bytes 41 42 43 one millisecond apart, followed by a quiet pass 2 ms later, flush nothing; a quiet pass 7 ms later flushes one frame rendered `[A->B] late : 41 42 43\n` |
| `Forwarder.SerialForwarderThread.constructor` | source_files/main.py:26-52 | the timing fields are those of `Timing.Derive`, the accumulator is idle, the worker is not running, and nothing has been logged or written |
| `Forwarder.SerialForwarderThread.Emit` | source_files/main.py:67-74 | an emit appends exactly one rendered event to the log |
| `Forwarder.SerialForwarderThread.AppendRx` | source_files/main.py:80-101 | the new accumulator, log, writes and destination are those of `Accumulator.AppendRx` applied to the old state; validity is kept |
| `Forwarder.SerialForwarderThread.FlushFrameIfDue` | source_files/main.py:54-78 | the new accumulator and log are those of `Accumulator.FlushIfDue` applied to the old state; validity is kept |
| `Forwarder.SerialForwarderThread.RunStep` | source_files/main.py:105-130 | one loop pass changes the state as `Accumulator.Step` does |
| `Forwarder.SerialForwarderThread.Stop` | source_files/main.py:138-139 | clears the running flag |
| `Forwarder.SerialForwarderThread.Run` | source_files/main.py:103-136 | after the passes and the final flush, the state, log, writes and destination are those of `Accumulator.Run` followed by `Accumulator.Shutdown`, and the worker is no longer running |

## Left out

- The Qt text box, highlighting and clipboard (`CTextEdit`), the application window, port listing, the JSON preferences cache and the connect/disconnect logic (main.py:145-527): user interface, file system and port lifecycle, not part of the worker.
- Opening, closing and polling the serial ports themselves: the ports are external. What a pass observed is a `Poll` value, and the destination is a ghost sequence of the bytes it accepted.
- Threads, `QMutex` and `pyqtSignal`: the lock only makes each emit atomic with respect to the other worker. An emit is modelled as appending one event to the worker's log, and the interleaving of the two workers' logs is not modelled.
- `stop()` called from another thread: `Run` takes the passes made before the flag was observed false, then stops and flushes.
- `time.sleep` with the poll interval, and the 0.2 s backoff after an error: real-time waiting. The sleep changes no field, but it makes the clock advance between passes. `Run` takes the shutdown clock as an unconstrained input; the lower bound the sleep puts on it is a hypothesis of the shutdown lemmas (`Accumulator.ShutdownAfterPollSleep`).
- `time.time_ns()` and `datetime.now().strftime`: these are inputs (an integer time and an opaque timestamp string). The `%d/%m/%Y %H:%M:%S.%f` format is not modelled.
- Timing.Derive: `int(1e9*bits/baud)` is modelled as the exact integer floor; the floating-point quotient could differ from it when the operands exceed 2^53 or the quotient lies within one rounding step of an integer. `int(baud)` on a non-integer argument is not modelled; the model takes an integer.
- Timing.PollIntervalSeconds: computed on exact reals, without floating-point rounding.
- Timing.FlushDue: `flush_gap_ns*1.5` is a float. The integer test equals it while the product is exactly representable. That is guaranteed for flush gaps below 2^53/3 ns (about 3·10^15 ns); above that, an odd gap makes the product round.
- Accumulator.Step: the catch-all handler is modelled only for an exception raised while polling or reading, before any state changes. An exception raised inside `_append_rx` after the buffer was extended cannot happen in the model, because a failed write is already caught there.
- Accumulator.AppendRx: a write that fails after writing part of the data counts as delivering nothing.
- The exception swallowed around the final flush (main.py:135-136): the model's flush cannot raise.
