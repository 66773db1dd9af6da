# Selective Repeat sender, modelled in Dafny

This project models the sending side (entity A) of a Selective Repeat ARQ
protocol written in C for a network emulator (`sr.c`). The sender takes
20-byte messages from the application and sends each one as a checksummed
packet over an unreliable layer 3. It keeps at most `WINDOWSIZE` = 6
unacknowledged packets in flight, and sequence numbers wrap modulo
`SEQSPACE` = 12. When the window is full, the message is dropped and the
emulator's `window_full` counter goes up.

Two modules:

- `Packets` (`packets.dfy`): the packet and message records, the additive
  checksum and the corruption test. `Checksum` is the reference definition
  (sequence number + acknowledgement number + the sum of the payload
  bytes). `ComputeChecksum` and `IsCorrupted` are the C routines, loop
  included, proved equal to it. Lemmas state what the checksum can and cannot detect.
- `SelectiveRepeat` (`sender.dfy`): the sender's globals become the fields
  of class `Sender`. The slot arrays `A_buffer`, `A_ackeds` and `A_expiries`
  become `array` fields of length `SEQSPACE`. `Init` is `A_init`, `Output`
  is `A_output`, and the constructor is the static zero-initialisation of
  the globals. The sender invariant `SenderInvariant` is stated over the
  values of the fields and says:
  - at most `WINDOWSIZE` packets are in flight;
  - the timer flag is set whenever a packet is in flight;
  - every slot in the window holds its own, intact, unacknowledged packet with a running countdown;
  - the window is exactly the most recent packets sent, in order.

  `SendPreservesInvariant` proves that an accepted send keeps this
  invariant. `Output`'s contract states both paths in full.

The emulator calls `tolayer3(A, p)` and `starttimer(A, 1.0)` are recorded
in ghost logs on the sender. `sent` is the sequence of packets handed to
layer 3. `timerStarts` counts the timer starts. The emulator's counter
`window_full` becomes the field `windowFull`.

A complete Selective Repeat sender also handles acknowledgements, slides
its window and retransmits on timer ticks, and a complete protocol has a
receiver. Here the model follows the code as written:
- In `sr.c`, `A_input`, `A_timerinterrupt` and every `B_*` routine are
  empty. So the sender's `base` never moves and nothing is ever
  acknowledged. After six accepted sends, every later message is dropped.
- The checksum is usually described over unsigned bytes. The code widens C
  `char` to `int`, and whether `char` is signed depends on the platform.
  The model takes payload bytes as unbounded integers, which covers both
  readings.

## Model

| member | source | states |
|---|---|---|
| `Packets.ComputeChecksum` | sr.c:17-28 | the loop returns the sequence number plus the acknowledgement number plus the sum of all 20 payload bytes |
| `Packets.IsCorrupted` | sr.c:30-36 | reports corruption exactly when the stored checksum differs from the recomputed one; not corrupted if and only if the packet is intact |
| `Packets.SumUpdate` | sr.c:24-25 | replacing one byte changes the accumulated sum by exactly the new value minus the old one |
| `Packets.ByteChangeDetected` | sr.c:30-36 | changing any single payload byte of an intact packet makes it corrupted |
| `Packets.HeaderChangeDetected` | sr.c:22-23 | changing exactly one of the two header fields of an intact packet makes it corrupted |
| `Packets.SwapUndetected` | sr.c:24-25 | exchanging two payload bytes of an intact packet leaves it intact: the additive checksum does not see reordering |
| `SelectiveRepeat.Distance` | sr.c:54 | the occupancy expression lies in `[0, SEQSPACE)` and is the number of steps from `base` to `nextseq` modulo `SEQSPACE` |
| `SelectiveRepeat.Sender.Occupancy` | sr.c:54 | the `window_size` of the current state: the distance from `base` to `nextseq` modulo `SEQSPACE`, always in `[0, SEQSPACE)` |
| `SelectiveRepeat.SlotsDistinct` | sr.c:13 | fewer than `SEQSPACE` consecutive sequence numbers from any base never repeat a slot |
| `SelectiveRepeat.DistanceStep` | sr.c:102 | advancing `nextseq` modulo `SEQSPACE` grows the occupancy by exactly one unless it would wrap onto `base` |
| `SelectiveRepeat.NextSlotFree` | sr.c:78-81 | the slot `nextseq` is never one of the slots in flight, so an accepted send never overwrites an unacknowledged packet |
| `SelectiveRepeat.EmptyWindowInvariant` | sr.c:121-124 | with `base == nextseq` the window is empty and the sender invariant holds whatever the slots hold |
| `SelectiveRepeat.SendAppendsToWindow` | sr.c:78-102 | storing the new packet in slot `nextseq` and advancing `nextseq` modulo `SEQSPACE` grows the occupancy by exactly one and appends exactly that packet to the window of packets in flight |
| `SelectiveRepeat.SendKeepsSlotsInFlight` | sr.c:78-93 | after an accepted send every slot in the grown window still holds its own intact, unacknowledged packet with expiry `RTT`: the old slots are untouched and the new slot holds the new packet |
| `SelectiveRepeat.SendPreservesInvariant` | sr.c:67-102 | an accepted send keeps the sender invariant: occupancy at most `WINDOWSIZE`, the timer flag set, every window slot in flight, and the window equal to the last packets passed to `tolayer3` |
| `SelectiveRepeat.BuildPacket` | sr.c:66-75 | the packet built for a send carries the given sequence number, `NOTINUSE` as acknowledgement number, the message byte for byte, and a matching checksum |
| `SelectiveRepeat.Sender.constructor` | sr.c:41-47 | the zero-initialised globals: base and next sequence number 0, timer idle, all slots zero, no drops, nothing sent; the invariant holds |
| `SelectiveRepeat.Sender.Init` | sr.c:118-137 | afterwards base, next sequence number and occupancy are 0, the timer flag is false, every slot is unacknowledged with expiry -1, and buffers, counter and logs are unchanged |
| `SelectiveRepeat.Sender.Output` | sr.c:50-103 | full window: only the drop counter goes up, by one. Otherwise slot `k` = old `nextseq` gets the intact packet `(k, NOTINUSE, message)`, unacknowledged, expiry `RTT`; exactly that packet is sent; only slot `k` changes; the timer is started only if it was not active and is active afterwards; `nextseq` becomes `(k + 1) % SEQSPACE`; occupancy grows by one; `base` is unchanged; the invariant is kept |
| `SelectiveRepeat.SixSentSeventhDropped` | sr.c:50-103 | after initialisation, six sends go out with sequence numbers 0 to 5 and their messages as payloads; the seventh is dropped; the drop counter is 1; the timer was started once |

## Left out

- `A_input`, `A_timerinterrupt`, `B_input`, `B_init`, `B_output`, `B_timerinterrupt`: empty in `sr.c`. No acknowledgement handling, window sliding, retransmission or receiver is modelled, because the code has none.
- `tolayer3` and `starttimer`: `emulator.h` and the emulator are not part of this model. Their calls are recorded in the ghost logs `sent` and `timerStarts`. The channel's loss, corruption and delay are not modelled.
- Trace output under `TRACE` (`printf`): I/O only.
- `A_expiries` and `RTT` are `float` in C. The code only ever stores `RTT` (16.0) and -1, so expiries are integers here, with -1 meaning inactive. The timer's 1.0 tick duration is not modelled.
- The signedness of C `char`: payload bytes are unbounded integers, so both readings are covered.
- `window_full` is owned by the emulator. Here it is a field of the sender that starts at zero and that `Init` does not reset.
- `Packets.ComputeChecksum`: does not model C `int` wrap-around of the sum, because twenty-two small values cannot overflow.
