# USB-MIDI bridge translator

A model of the packet translator at the heart of a bridge between a
class-compliant USB-MIDI interface and a host virtual MIDI port. The model
covers both directions of `deviceLoop` in `driver.cpp`.

- **Host to device.** Host events are 32-bit PortMidi messages. Channel
  messages become 4-byte USB-MIDI Event Packets, which fill the batch send
  buffer. SysEx bytes are gathered in a buffer of at most 48 bytes. The
  buffer is cut into groups led by a Code Index Number (CIN), following
  Table 4-1 in section 4 of the USB Device Class Definition for MIDI Devices
  1.0. CIN 0x04 means the SysEx starts or continues; CINs 0x05, 0x06 and
  0x07 mean it ends with 1, 2 or 3 bytes.
- **Device to host.** The whole 4-byte packets of each USB read are
  classified by their control byte. SysEx payload is regrouped into 32-bit
  little-endian host messages. Any other packet passes its three payload
  bytes through as one message.

The model has five modules, one per file:

| file | module | contents |
|---|---|---|
| `midi.dfy` | `Midi` | Bytes and messages. A message is its 32-bit pattern read as unsigned. The PortMidi accessors (`Pm_MessageStatus` and so on) and the little-endian packing the code writes with shifts and ors. |
| `usb_packets.dfy` | `UsbPackets` | The CIN constants. `Packetize`, the byte sequence `flushSysexToUSB` writes for a buffer. The packet of a channel message. |
| `outbound.dfy` | `Outbound` | The host-to-device direction as functions on the value `OutState(mode, buf, writes)`. These are the flush, push and end operations, the per-byte rule, the per-event step, the whole batch (`Run`) and the send buffer after a batch (`BatchBuffer`). It also holds the lemmas about them. |
| `inbound.dfy` | `Inbound` | The device-to-host direction as functions on `InState(buf, out)`. These are the flush, push, per-packet step and whole-read translation (`Translate`), plus the lemmas about them. |
| `driver.dfy` | `Driver` | The class `Bridge`, the imperative form of `deviceLoop`. `sysexSendMode`, `sysexOutBytes` and `sysexInBytes` are fields updated in place, and `sendBuffer` is an `array`. The `for` loops over `j` become `while` loops with invariants. Each method is proved to compute the value-level function of the same step. |

The USB device's `write` and the host port's `Pm_Write` become appends to two
ordered traces: `usbWrites` holds the payloads, and `hostWrites` holds the
messages.

## Behaviour the code has that an idealised bridge would not

- **The 0xF0 opener is part of the buffer.** The event that sets the SysEx
  mode has all four of its bytes checked, starting with the 0xF0 itself. The
  word F0 41 10 F7 becomes the single write 04 F0 41 10 05 F7 and leaves the
  mode clear (`Outbound.OpenAndCloseInOneWord`).
- **Final groups are not padded.** A final group of one or two bytes is
  written as 2 or 3 bytes, not as a 4-byte packet. So the bridge's own
  inbound translator, reading whole 4-byte packets only, would drop such a
  tail: for every buffer whose length is not a multiple of three, only the
  bytes of its full CIN 0x04 groups reach the received stream
  (`Inbound.UnalignedTailDropped`; the write 06 F0 F7 of F0 F7 gives the host
  nothing, `Inbound.UnpaddedEndIsDropped`). The outbound-then-inbound round trip
  is therefore proved only for buffers whose length is a multiple of three
  (`Inbound.AlignedRoundTrip`). For those, the host receives exactly the
  buffer's bytes, in order, zero padded to whole messages.
- **A forced flush of 48 bytes ends in CIN 0x07, not 0x04,** because 48 is
  a multiple of three (`Outbound.EndFlushes`).
- **An empty flush never happens.** The flush at `driver.cpp:89` follows an append,
  and those at `driver.cpp:79` and `driver.cpp:86` run only on a 48-byte buffer. On an empty
  buffer the code would take the address of element 0 of an empty vector, so
  it is not a no-op there either. The model makes a non-empty buffer a
  precondition of the flush and proves that every caller meets it.
- **A status byte after a terminator ends the stream again.** Within one
  SysEx-mode word, every status byte other than 0xF0 is handled as a
  terminator, even one that comes after the terminator that cleared the mode.
  The word F0 F7 90 00 produces two writes, 06 F0 F7 and 05 90
  (`Outbound.StatusAfterEndIsTerminatorAgain`).
- **Channel messages and SysEx are reordered.** SysEx writes happen during
  the event loop. The channel messages of a batch go out afterwards, in one
  write of `4 * length` bytes. SysEx events leave their own slot of the send
  buffer as it was, so the write repeats whatever that slot held before. A
  note-on in one batch followed by F0 41 10 F7 in the next sends 09 90 3C 40
  again (`Outbound.StaleSlotIsResent`).

## Model

| member | source | states |
|---|---|---|
| Midi.PackLE | driver.cpp:70-71 | The little-endian packing of four bytes into one message, as the shifts and ors build it. |
| Midi.UnpackPackLE | driver.cpp:70-71 | The bytes of the packed message, least significant first, are the four arguments. |
| Midi.PackUnpack | driver.cpp:70-71 | Packing a message's own four bytes gives the message back, so packing and unpacking are inverse. |
| Midi.ByteOf | driver.cpp:126-147 | Byte k of a message, least significant first: the extraction `(message >> 8k) & 0xFF` of the four byte checks. `Midi.PackUnpack` and `Midi.UnpackPackLE` relate it to packing. |
| Midi.Status | driver.cpp:121-158 | `Pm_MessageStatus`: the message's low byte. |
| Midi.Data1 | driver.cpp:157 | `Pm_MessageData1`: the message's second byte. |
| Midi.Data2 | driver.cpp:158 | `Pm_MessageData2`: the message's third byte. |
| Midi.Unpack | driver.cpp:126-147 | The four bytes of a message, least significant first: the extractions of the four byte checks taken together. `Midi.UnpackPackLE` and `Midi.PackUnpack` make it the inverse of packing. |
| Midi.IsStatus | driver.cpp:126-147 | A status byte is one with bit 7 set, the `b & 0b10000000` half of each byte check. |
| Midi.IsTerminator | driver.cpp:126-147 | A byte ends an outbound SysEx stream exactly when it is a status byte other than 0xF0, the test `b != 0xF0 && b & 0b10000000` of each byte check. |
| UsbPackets.Packetize | driver.cpp:25-46 | The bytes `flushSysexToUSB` writes for a buffer of L bytes; their count n satisfies 4L ≤ 3n ≤ 4L + 2. |
| UsbPackets.EndCin | driver.cpp:28-39 | The CIN of a final group of 1, 2 or 3 bytes is 0x05, 0x06 or 0x07, as the three end branches of `flushSysexToUSB` choose. |
| UsbPackets.PacketizeLength | driver.cpp:27-46 | Output length is 4·floor(L/3) plus 0, 3 or 2 bytes when L mod 3 is 0, 2 or 1. |
| UsbPackets.UnpacketizePacketize | driver.cpp:27-51 | Dropping the CIN bytes, each group sized by its CIN, gives back the buffer byte for byte, in order. |
| UsbPackets.PacketizeFullGroup | driver.cpp:27-46 | Every group before the last is CIN 0x04 followed by the next three buffer bytes, taken from the start. |
| UsbPackets.PacketizeLastGroup | driver.cpp:28-39 | The last group starts at buffer index 3·floor((L-1)/3). It is CIN 0x07, 0x06 or 0x05, for L mod 3 = 0, 2 or 1, followed by the remaining bytes and no padding. |
| UsbPackets.ChannelPacket | driver.cpp:154-158 | A channel packet is four bytes: the CIN, which is the status's high nibble, then the message's status, data1 and data2. |
| UsbPackets.ChannelPacketNoteOn | driver.cpp:154-158 | Note-on 90 3C 40 becomes the packet 09 90 3C 40. |
| Outbound.Flush | driver.cpp:25-51 | `flushSysexToUSB` on the value state: one write of `Packetize` of the buffer, then an empty buffer; the mode is untouched. |
| Outbound.Push | driver.cpp:77-82 | `pushSysexToUSB`: flush when the buffer holds exactly 48 bytes, then append the byte. |
| Outbound.End | driver.cpp:84-90 | `endSysexToUSB`: flush when full, append the terminator, flush again. |
| Outbound.ByteStep | driver.cpp:126-131 | One byte check of a SysEx-mode event: a non-0xF0 status byte ends the stream and clears the mode; any other byte is pushed only while the mode is set. |
| Outbound.ByteSteps | driver.cpp:125-152 | The byte checks of a run of bytes, applied in order. `Outbound.ByteStepsOrder` relates the result to the reference rules `Accepted` and `ModeAfter`. |
| Outbound.SysexWord | driver.cpp:125-152 | The four byte checks of one SysEx-mode event, least significant byte first; `Outbound.SysexWordUnfold` spells out the four steps. |
| Outbound.IsChannelEvent | driver.cpp:121-158 | An event is packed as a channel message exactly when the mode is clear and its status is not 0xF0. Otherwise it goes to the byte checks. |
| Outbound.EventStep | driver.cpp:121-159 | One host event: a 0xF0 status sets the mode; in SysEx mode the four bytes are checked, least significant first; a channel event leaves the SysEx state alone. |
| Outbound.Run | driver.cpp:113-160 | The SysEx state after the events of one batch, taken in order. |
| Outbound.BatchBuffer | driver.cpp:153-164 | The send buffer after a batch: each channel event j writes its packet into slot j, and the buffer keeps its length. |
| Outbound.WriteSlot | driver.cpp:154-158 | Slot j (bytes 4j to 4j+3) holds the packet, and every other byte of the buffer is unchanged. |
| Outbound.FlushKeepsOrder | driver.cpp:25-51 | A flush empties the buffer and moves its bytes into the written bytes, losing and reordering nothing. |
| Outbound.PushBounds | driver.cpp:77-82 | A push flushes exactly when the buffer held 48 bytes. Afterwards the buffer holds 1 to 48 bytes and ends with the pushed byte. |
| Outbound.PushKeepsOrder | driver.cpp:77-82 | A push appends exactly the pushed byte to the accepted SysEx bytes. |
| Outbound.EndFlushes | driver.cpp:84-90 | An end always empties the buffer. On a full buffer it makes two writes: the 48 bytes, which are 64 bytes long with CIN 0x07 at byte 60, then the group 05 b. Otherwise it makes one write of the buffer plus the terminator. |
| Outbound.EndKeepsOrder | driver.cpp:84-90 | An end appends exactly the terminator to the accepted SysEx bytes. |
| Outbound.ByteStepFacts | driver.cpp:126-131 | One byte check restores the invariant (at most 48 bytes, buffer non-empty exactly in SysEx mode). It clears the mode exactly on a terminator, whatever the mode was. It appends the byte exactly when it is a terminator or the mode is set. |
| Outbound.ByteStepsMode | driver.cpp:125-152 | A run of byte checks ends in the mode that `ModeAfter` gives. The buffer stays at most 48 bytes and empty while the mode is clear, and after at least one byte the between-event invariant holds. |
| Outbound.ByteStepsPending | driver.cpp:125-152 | A run of byte checks appends to the SysEx stream exactly the bytes that `Accepted` picks, in order. |
| Outbound.ByteStepsOrder | driver.cpp:125-152 | A run of byte checks appends exactly the bytes the reference rule `Accepted` picks, in order. It leaves the mode that `ModeAfter` gives, and the invariant holds after at least one byte. |
| Outbound.EventStepFacts | driver.cpp:121-159 | An event keeps the invariant. A channel event leaves the SysEx state unchanged. Any other event feeds all four of its bytes through the byte checks with the mode set. |
| Outbound.RunKeepsInv | driver.cpp:113-160 | The invariant holds after every batch of host events. |
| Outbound.BatchBufferSlot | driver.cpp:153-164 | After a batch, slot j holds event j's packet if event j is a channel event, and its previous contents if not. |
| Outbound.BatchBufferLastSlot | driver.cpp:153-164 | The last event of a batch leaves its own packet in its slot if it is a channel event, and the slot's earlier contents otherwise. |
| Outbound.BatchBufferKeepsEarlier | driver.cpp:153-164 | The last event of a batch does not change the slots of the earlier events. |
| Outbound.WriteSlotKeepsBelow | driver.cpp:154-158 | Writing slot k leaves every byte below slot k unchanged. |
| Outbound.OpenAndCloseInOneWord | driver.cpp:121-152 | The word F0 41 10 F7 gives one write, 04 F0 41 10 05 F7, and the mode ends clear. |
| Outbound.StatusAfterEndIsTerminatorAgain | driver.cpp:126-152 | The word F0 F7 90 00 gives the writes 06 F0 F7 and 05 90. |
| Outbound.StaleSlotIsResent | driver.cpp:153-164 | After a note-on 90 3C 40 in one batch, the word F0 41 10 F7 at the same index in the next batch leaves 09 90 3C 40 in the bytes that batch writes. |
| Inbound.Flush | driver.cpp:60-75 | Exactly one message is sent after the earlier ones, and the buffer is emptied. |
| Inbound.FlushMessage | driver.cpp:60-75 | The message's bytes are the first four buffered bytes, with a missing byte reading as zero. |
| Inbound.Push | driver.cpp:190-192 | Append one SysEx byte, then flush when the buffer holds four. |
| Inbound.PacketStep | driver.cpp:183-215 | One packet: CIN 0x04 pushes b1, b2, b3; CIN 0x05 to 0x07 pushes b1 and b2, appends b3 and flushes; any other control byte sends b1 b2 b3 as one message. |
| Inbound.Translate | driver.cpp:182-216 | The whole 4-byte packets of one read, in order. |
| Inbound.FlushStream | driver.cpp:60-75 | Flushing 1 to 4 bytes sends them, zero padded to four, as one message. |
| Inbound.PushStream | driver.cpp:190-198 | An append-then-flush-at-4 keeps the buffer below four bytes and appends the byte to the received stream. |
| Inbound.ContinuePacketStream | driver.cpp:189-198 | A CIN 0x04 packet appends its three bytes to the stream in order and leaves at most three bytes buffered. |
| Inbound.EndPacketStream | driver.cpp:199-207 | A CIN 0x05 to 0x07 packet sends the buffered bytes and all three of its payload bytes. Padding bytes are included, zero padded to whole messages. The buffer is left empty. |
| Inbound.OtherPacketPassesThrough | driver.cpp:208-215 | Any other control byte sends the single message b1 b2 b3 00 and leaves the buffer alone. |
| Inbound.PacketStepBound | driver.cpp:182-216 | Between packets the buffer holds at most three bytes, and none after a terminator packet. |
| Inbound.TranslateBound | driver.cpp:182-216 | A whole read keeps the buffer at three bytes or fewer. |
| Inbound.TrailingBytesIgnored | driver.cpp:182 | Bytes past the last whole 4-byte packet of a read do not affect the result. |
| Inbound.TwoPacketSysex | driver.cpp:189-207 | Packets 04 11 22 33 and 06 44 55 00 give the messages 0x44332211 and 0x00000055, and leave nothing buffered. |
| Inbound.AlignedRoundTrip | driver.cpp:182-216 | For a buffer whose length is a multiple of three, the outbound packetisation of `driver.cpp:25-46`, read by this inbound loop, gives the host exactly the buffer's bytes, in order, zero padded. |
| Inbound.UnpaddedEndIsDropped | driver.cpp:33-36 | The flush of F0 F7 is three bytes, less than one whole packet, and the inbound loop passes nothing to the host. |
| Inbound.UnalignedTailDropped | driver.cpp:25-46 | For every buffer whose length is not a multiple of three, and any inbound state with at most three bytes buffered, the inbound loop adds only the bytes of the full CIN 0x04 groups to the received stream. The unpadded final group is dropped. |
| Inbound.UnalignedFrom | driver.cpp:182-216 | With 3k < L < 3k + 3, reading back the packetised buffer adds its first 3k bytes to the received stream. |
| Inbound.ShortTailDropped | driver.cpp:182 | A final group of one or two bytes, written unpadded, holds no whole packet and changes nothing. |
| Driver.Bridge.constructor | driver.cpp:96-101 | Both buffers start empty, the mode starts clear, the 4096-byte send buffer starts zeroed, and nothing has been written yet. |
| Driver.Bridge.FlushSysexToUsb | driver.cpp:25-58 | The loop writes `Packetize` of the buffer as one USB write and empties the buffer. |
| Driver.Bridge.PushSysexToUsb | driver.cpp:77-82 | Computes `Outbound.Push` on the bridge's state. |
| Driver.Bridge.EndSysexToUsb | driver.cpp:84-90 | Computes `Outbound.End` and leaves the buffer empty. |
| Driver.Bridge.TranslateSysexByte | driver.cpp:126-131 | Computes `Outbound.ByteStep`. |
| Driver.Bridge.TranslateHostEvent | driver.cpp:121-159 | Computes `Outbound.EventStep`. Writes the channel packet into slot j for a channel event, and leaves the send buffer unchanged otherwise. |
| Driver.Bridge.TranslateHostEvents | driver.cpp:113-164 | The loop over a batch gives the state `Outbound.Run` and the send buffer `Outbound.BatchBuffer`. A non-empty batch then makes one more write, of its first 4·length send-buffer bytes. The invariant is kept. |
| Driver.Bridge.FlushSysexToHost | driver.cpp:60-75 | Computes `Inbound.Flush`. |
| Driver.Bridge.PushSysexToHost | driver.cpp:190-192 | Computes `Inbound.Push`. |
| Driver.Bridge.TranslateUsbPacket | driver.cpp:183-215 | Computes `Inbound.PacketStep`. |
| Driver.Bridge.TranslateUsbRead | driver.cpp:182-216 | The loop over the whole packets of a read computes `Inbound.Translate`, keeping at most three bytes buffered. |
| Driver.Bridge.PollOnce | driver.cpp:105-217 | One iteration of the loop: the batch of host events, then the bytes of one USB read, each as above. |

## Left out

- `usb_device.cpp` and `usb_device.h` are not part of this model. They are a thin wrapper over libusb whose logic is foreign calls.
- `initPorts`, `main` and the outer `while (!exiting)` loop are left out. Port creation, teardown and process lifecycle are I/O; `PollOnce` models one iteration of the loop body.
- `signalHandler` and the `volatile exiting` flag are left out, because they are signal-driven cancellation.
- `Pm_Read` (driver.cpp:107) is left out. It reads up to 1024 events into a one-element array, writing past the end of that array. The model takes the events read as an input sequence of at most 1024 events (the slots of the send buffer) and does not model the overflow or its "Buffer overflow!" message.
- Timestamps (`Pt_Time`) are left out: the host trace records messages only.
- Return values of the device's `read` and `write`, and `actualLength`, are left out. The code ignores those of `write`. For `read`, the model takes the bytes of a successful read as an input; a failed or empty read is the empty sequence.
- Midi.PackLE: treats the message as an unsigned 32-bit pattern. `sysexInBytes[3] << 24` on a byte of 0x80 or more gives a value above INT_MAX. C++17 converts that value to `int` in an implementation-defined way; C++20 converts it modulo 2^32. The model keeps the resulting 32-bit pattern and leaves the signed reading out.
- Logging (`std::cout`, and the commented-out `printf`s) is left out.
