# embedded-digimesh frame codec in Dafny

A model of `digimesh.c`, a small C codec for Digi XBee / DigiMesh API frames
(unescaped API mode). On the wire a frame is the start delimiter `0x7E`, a
big-endian 16-bit length, a frame type, a frame id, the frame body and a
checksum byte. The file has four parts, and the model has one module for each,
plus a shared module for the packet:

- `packets.dfy` (`Packets`): the constants and `struct xbee_packet` from
  `digimesh.h`. A packet is a class with a 100-byte `array` and a `len`.
  There are also helpers for the bytes `(uint8_t)(x >> k)` and for their
  big-endian value.
- `checksums.dfy` (`Checksums`): `calc_checksum`. A pure function `Checksum`
  specifies it, and the method `CalcChecksum` runs the same loop over a packet
  and is proved equal to it.
- `frame_ids.dfy` (`FrameIds`): `get_frame_id`. Its static counter becomes the
  class `Sequencer`. The function `NextId` specifies one call, and there are
  lemmas about the sequence of ids it hands out.
- `builders.dfy` (`Builders`): `xbee_build_command_packet` and `xbee_tx_data`.
  Both are methods that write a frame into a packet in place and draw one frame
  id. Each one is proved to leave exactly a pure frame image (`CommandFrame`,
  `DataImage`) in the buffer. Lemmas then state the layout of that image.
- `receiver.dfy` (`FrameReceiver`): `xbee_add_byte`. Its static state is the
  two packets `p1` and `p2`, the reference `p` to the active packet, the static payload length
  `len` and the global `xbee_comm_err_count`. The class `Receiver` holds that
  state. Its method `AddByte` is proved to follow the pure transition function
  `Step`: it produces the same new state and returns the packet `Step` names.
  The receiver's properties are lemmas about `Step` and about `Run`, which
  feeds a sequence of bytes through `Step`.

Everything is modelled as the code is written. In these places that differs
from what the datasheet or the repository's tests expect:

- `calc_checksum` adds `buf[3 .. len-4)`. It leaves out the last four bytes of
  the frame, not only the checksum byte. So it returns `0xFF` for every frame
  of 7 bytes or fewer. For the datasheet AT-command frame
  `7E 00 04 08 52 4E 48 0F` it returns `0xF7`, not the `0x0F` the frame
  carries (`DatasheetFrameAsWritten`). The datasheet modem-status frame
  `7E 00 02 8A 00 75` is therefore rejected as a checksum error
  (`ModemStatusFrameRejected`).
- Because the builders and the receiver use the same truncated sum, a frame
  that is built and then fed back is not accepted in general. The model states
  no build-then-parse round trip.
- `xbee_comm_err_count` is a plain `uint8_t` increment, so it wraps from 255
  to 0 and does not saturate.
- When the active buffer is full, the receiver drops the frame. It then treats
  the same byte as the first byte of a new frame. So a byte other than `0x7E`
  costs a second error.
- A successful swap does not reset the `len` of the buffer it makes active.
  After two good frames, new bytes are appended behind the old frame and can
  never complete one (`StaleBufferSwallowsBytes`).
- `xbee_tx_data` sets `len = bytes + 14` but writes 17 header bytes before
  the payload. The checksum stored at `len - 1` therefore overwrites a
  reserved, hop or option byte when the payload is shorter than 4 bytes, and
  a payload byte otherwise (`DataImageLayout`). The 3 bytes past `len` are
  still written.
- The builders never check the capacity of the buffer, and there is no
  capacity error. The capacity is a precondition here.
- `digimesh.h` declares `xbee_tx_command`, but `digimesh.c` defines
  `xbee_build_command_packet`. The model follows the definition.

## Model

| member | source | states |
|---|---|---|
| Packets.Packet.constructor | digimesh.h:22-27 | a packet in static storage has a 100-byte buffer of zeros and length 0 |
| Packets.Inc8 | digimesh.c:26 | the error-counter increment is `(x + 1) mod 256`: it wraps from 255 to 0 |
| Packets.LengthFieldDecodes | digimesh.c:72-73 | the two length bytes `(uint8_t)(n>>8)`, `(uint8_t)n` decode big-endian back to `n` for every `n < 65536` |
| Checksums.ByteSumIsSumMod256 | digimesh.c:114-115 | the `uint8_t` accumulator of the loop equals the integer sum of the bytes modulo 256 |
| Checksums.Checksum | digimesh.c:112-117 | for a frame of length 7 or less the checksum is `0xFF`, because nothing is summed |
| Checksums.ChecksumCompletesSum | digimesh.c:112-117 | the sum of `buf[3 .. len-4)` plus the checksum is `0xFF` modulo 256 |
| Checksums.ChecksumReadsOnly | digimesh.c:115 | two buffers that agree on indices `3 .. len-5` have the same checksum, whatever they hold elsewhere |
| Checksums.ChecksumIgnoresLastByte | digimesh.c:115 | storing any byte at `len-1` does not change the checksum |
| Checksums.AcceptedIffSumIsFF | digimesh.c:47 | the receiver's test `!calc_checksum(p)` holds if and only if the counted bytes add up to `0xFF` modulo 256 |
| Checksums.DatasheetFrameAsWritten | test.c:12 | for the datasheet AT-command frame the code computes `0xF7`, not the `0x0F` the frame carries |
| Checksums.CalcChecksum | digimesh.c:112-117 | the loop over a packet returns `Checksum` of its buffer and length, for every length, including lengths below 7 |
| FrameIds.NextId | digimesh.c:120-125 | one call returns `x mod 255 + 1` for counter `x`, which is never 0 |
| FrameIds.IdsAfterClosedForm | digimesh.c:120-125 | after `k >= 1` calls from counter `x` the counter is `(x + k - 1) mod 255 + 1` |
| FrameIds.FreshSequence | test.c:90-111 | from the zero-initialised counter the k-th id is `(k-1) mod 255 + 1`: 1, 2, ..., 255, 1, ..., and never 0 |
| FrameIds.PeriodIs255 | test.c:107-110 | every nonzero id comes back after exactly 255 calls |
| FrameIds.NoShorterPeriod | test.c:100-106 | a nonzero id does not come back after 1 to 254 calls |
| FrameIds.Sequencer.constructor | digimesh.c:121 | the static counter starts at 0 |
| FrameIds.Sequencer.GetFrameId | digimesh.c:120-125 | the id returned is `NextId` of the old counter, and the counter now holds it |
| Builders.AddressRoundTrip | digimesh.c:94-101 | the eight bytes `addr>>56`, ..., `addr` decode big-endian back to `addr` for every 64-bit address |
| Builders.Destination | digimesh.c:88 | the destination is never 0: address 0 becomes the broadcast address and any other address is kept |
| Builders.StoreChecksum | digimesh.c:77 | only `buf[len-1]` changes, it receives the checksum of the old buffer, and afterwards it equals the checksum of the new buffer |
| Builders.PutFrameStart | digimesh.c:71-75 | `buf[0..5)` becomes `7E`, the big-endian `len-4`, the frame type and a fresh frame id; the rest of the buffer is unchanged |
| Builders.CopyPayload | digimesh.c:76 | `memcpy` puts the first `bytes` payload bytes at the offset and changes nothing else |
| Builders.CommandFrameLayout | digimesh.c:68-78 | the command frame is `bytes + 6` long: `7E`, length `len-4` big-endian, type `0x08`, the frame id, the payload, and as last byte the checksum of the whole frame |
| Builders.BuildCommandPacket | digimesh.c:68-78 | sets `len = bytes + 6`, draws the next frame id, leaves exactly the command frame in `buf[0..len)` and the rest of the buffer unchanged, and `buf[len-1]` equals `calc_checksum(p)` |
| Builders.PutAddress | digimesh.c:94-101 | `buf[5..13)` receives the address bytes, most significant first; the rest of the buffer is unchanged |
| Builders.PutOptions | digimesh.c:102-105 | `buf[13..17)` receives `FF FE 00 00`; the rest of the buffer is unchanged |
| Builders.DataImageLayout | digimesh.c:84-109 | the data frame as written: `7E`, length `len-4`, type `0x10`, the frame id and the destination address, which decodes back; the checksum at `len-1 = bytes+13` replaces an option byte when `bytes < 4` and payload byte `bytes-4` otherwise |
| Builders.TxData | digimesh.c:84-109 | sets `len = bytes + 14`, draws the next frame id, leaves exactly the data image in `buf[0..bytes+17)` and the rest unchanged, `buf[len-1]` equals `calc_checksum(p)`, and returns `p` |
| FrameReceiver.DropIfFull | digimesh.c:22-27 | the state after the overflow check stays within capacity and keeps the active packet |
| FrameReceiver.Step | digimesh.c:11-62 | every length stays at most 100 and the payload length below 65536; the active packet changes exactly when a packet is returned, and the packet returned is the one that was active |
| FrameReceiver.DesyncDropsByte | digimesh.c:29-34 | a byte other than `7E` on an empty buffer adds 1 (mod 256) to the error count, changes nothing else, and returns NULL |
| FrameReceiver.OverflowRestarts | digimesh.c:22-37 | a byte on a full buffer clears both lengths and adds 1 to the error count; then `7E` starts a new frame, and any other byte costs a second error |
| FrameReceiver.LengthCaptured | digimesh.c:39-43 | the third stored byte sets the payload length to `buf[1]*256 + buf[2]` and returns NULL, with the error count unchanged |
| FrameReceiver.ReturnsIff | digimesh.c:44-53 | a packet is returned if and only if the buffer was not full, the payload length is nonzero, the new length is the payload length + 4, and the checksum is 0; so a declared length of 0 never completes |
| FrameReceiver.GoodFrameSwaps | digimesh.c:47-53 | on a good frame the filled packet is returned with its length intact, the other packet becomes active unchanged (its length is not reset), the payload length is cleared, and the error count is unchanged |
| FrameReceiver.BadFrameDropped | digimesh.c:54-59 | a completed frame with a nonzero checksum sets both lengths to 0, adds 1 to the error count, does not swap, and returns NULL |
| FrameReceiver.ByteAppended | digimesh.c:36-37 | any other byte is appended to the active buffer and nothing else changes |
| FrameReceiver.Run | digimesh.c:11-62 | feeding a byte sequence keeps every buffer within capacity |
| FrameReceiver.ReturnsAlternate | digimesh.c:51-52 | the packets a byte stream returns alternate between p1 and p2, starting with the active one, and the packet active at the end is the one not returned last |
| FrameReceiver.ThirdReturnReusesFirst | test.c:53-65 | of three returned packets the first two differ and the third is the first again |
| FrameReceiver.StaleBufferSwallowsBytes | digimesh.c:51-52 | in a reactivated buffer that still holds a frame, each following byte is appended behind it up to the capacity, and no packet is returned and no error is counted |
| FrameReceiver.Header | digimesh.c:36-43 | the first three bytes of a frame on an empty buffer are stored as given, set the payload length to `buf[1]*256 + buf[2]`, return nothing and count no error; the run continues from that state with the rest of the frame |
| FrameReceiver.LastByte | digimesh.c:44-53 | the last byte of a frame whose checksum is 0 returns the active packet holding exactly the frame, with its length, makes the other packet active unchanged and counts no error |
| FrameReceiver.FeedRest | digimesh.c:36-53 | from a buffer holding the first k >= 3 bytes of a frame, the remaining bytes are appended one by one and the last returns the packet holding exactly the frame |
| FrameReceiver.FrameAccepted | digimesh.c:9-62 | a whole frame with a matching declared length and checksum 0, fed to an empty active buffer, is returned once, in the active packet, with the bytes fed and the same length; the other packet becomes active unchanged and no error is counted |
| FrameReceiver.ModemStatusFrameRejected | test.c:13 | the datasheet modem-status frame fed to a fresh receiver is not returned: it counts as one checksum error and leaves both lengths at 0 |
| FrameReceiver.Receiver.constructor | digimesh.c:16-20 | the receiver starts with two zeroed packets, `p` at p1, payload length 0 and error count 0 |
| FrameReceiver.Receiver.AddByte | digimesh.c:11-62 | one call changes the two packets, `p`, the payload length and the error count exactly as `Step` does, and returns p1, p2 or NULL as `Step` says; every store is within the 100-byte buffer |

## Left out

- `xbee.c` and `xbee.h` are not part of this model. They are an earlier AVR
  variant, and their transmit path ends in UART and interrupt-enable register
  writes.
- The CUnit test suite in `test.c` is left out. Its frames and expected
  behaviours appear only as the concrete lemmas above.
- Interrupt context and the `volatile` qualifiers are left out. The model is
  single-threaded and sequential. It also does not model the caller's duty to
  finish reading a returned packet before the receiver reuses it.
- `memcpy` from caller memory is modelled as copying the first `bytes`
  elements of a sequence that holds at least `bytes` elements.
- The packet's `uint16_t len` is an unbounded natural number. Every builder
  precondition keeps it far below 65536, so it never wraps.
- Builders.BuildCommandPacket: requires `bytes + 6 <= 100`. The C code does
  not check this, and a larger payload writes past the buffer.
- Builders.TxData: requires `bytes + 17 <= 100`, for the same reason. It also
  requires `addr < 2^64`, which the `uint64_t` type guarantees.
- Payload interpretation is left out. AT command names, modem status and the
  other frame types appear only as constants.
