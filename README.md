# pico-protocol in Dafny

This project models the framed serial protocol between a Raspberry Pi Pico and a host, and
proves properties of the model. Three programs are modelled. The firmware is `protocol.c`.
The host client is `protocol.py`. An older host client, `f.py`, uses a different packet format.

A frame is `[0xAA][len_hi][len_lo][2][cmd][payload...][crc][0xBB]`:
- `len` is the whole frame size, so the overhead is 7 bytes;
- `crc` is the CRC-8 (polynomial 0x07, initial value 0, no final XOR) of the frame with the CRC byte set to 0.

An acknowledgement is the `'a'` frame whose one payload byte is an error code. The codes are
`NO_ERROR`, `CRC`, `VERSION`, `ENDING`, `TYPE`, `OPENED` and `CLOSED`, numbered 0 to 6.

Both receivers follow the same steps:
1. Discard input up to and including the first 0xAA.
2. Read the length and the version.
3. Acknowledge a wrong version.
4. Read the command.
5. Read the payload and check the CRC against one recomputed over the frame with its CRC byte 0 and its end byte 0xBB. Acknowledge a mismatch.
6. Acknowledge a wrong end byte.
7. Dispatch on the command in every case, however the checks came out.

On the firmware side:
- 'o' and 'c' drive the `connected` flag;
- 'e' echoes the payload as a data frame;
- 't' runs the self-tests;
- 'd' prints the payload;
- any other command is acknowledged with `TYPE`.

On the host side, the `match` turns the frame into the bytes `receive` returns. Acknowledgements
are answered by their code.

The `f.py` packet is laid out as follows:
- three big-endian 16-bit fields: type 7, a checksum, and size = payload + 6;
- then the payload.

The checksum is `~S & 0xFFFF`, where `S` is the sum of the big-endian 16-bit words of the type, the size and the payload. A zero byte pads the payload to an even length. The carries of `S` are not folded back.

Modules:
- `Bytes`: bytes as `bv8` and the numbers they stand for.
- `Crc8`: the CRC and the C `compute_crc`.
- `PyCrc`: the Python `compute_crc` on unbounded integers.
- `CrcSelfTests`: the CRC values the firmware's self-tests expect.
- `Frames`: the wire format that both sides share.
- `Firmware`: a `Device` class with the `connected` flag, the input and the output.
- `ReceiveProperties`: what `protocol_receive` does with well-formed and corrupted frames.
- `Host`: a `Client` class with the port's input and output.
- `HostProperties`: properties of the host's `receive`.
- `Exchange`: the two sides talking to each other.
- `Legacy`: `f.py`, with a `Link` class.

Each stateful operation is a method of its class. A method's postcondition gives the new
state as a function of the old one (`output == old(output) + Frame(cmd, payload)`). The
properties are then proved as lemmas about those functions.

The model follows the code where the code and its documentation disagree:
- **`'a'` case of the firmware (protocol.c:350-356).** It inspects `packet[6]`, not the code byte. That slot has already been zeroed when the CRC was recomputed. So every 8-byte acknowledgement is reported as "success" whatever its code (`ReceiveProperties.AcksReadAsSuccess`). A 7-byte `'a'` frame reports its end byte; a longer one reports its second payload byte.
- **Unknown command.** Besides the `TYPE` acknowledgement, it is also logged ("wrong").
- **Corrupted frames.** They are dispatched on their possibly corrupted command and payload, after their acknowledgements. A payload byte changed in transit is always caught: the CRC-8 tells apart any two runs that differ in one byte (`Crc8.ChangedByteDetected`), so such a frame draws exactly one `CRC` acknowledgement (`ReceiveProperties.CorruptPayload`).

## Model

| member | source | states |
|---|---|---|
| Crc8.ComputeCrc | protocol.c:20-40 | The nested loops return the CRC-8 (polynomial 0x07, initial value 0) of the first `len` bytes of the buffer. |
| Crc8.CrcAppend | protocol.c:25-37 | The outer loop is a fold: the CRC of `a + b` continues from the register left by `a`. |
| Crc8.ZerosKeepZero | protocol.c:20-40 | A buffer of zero bytes of any length has CRC 0. |
| Crc8.ChangedByteDetected | protocol.c:20-40 | Replacing any one byte of a run by a different value changes its CRC-8, from any starting register. |
| CrcSelfTests.CrcOfOneToFive | tests.c:43-54 | The bytes 1..5 have CRC 188. |
| CrcSelfTests.CrcOfEmpty | tests.c:56-67 | The empty buffer has CRC 0. |
| CrcSelfTests.CrcOfOne | tests.c:69-80 | The byte 0x01 has CRC 7. |
| CrcSelfTests.CrcOfRamp | tests.c:82-96 | The bytes 0..255 in order have CRC 20. |
| CrcSelfTests.CrcOfZeros | tests.c:98-112 | 256 zero bytes have CRC 0. |
| CrcSelfTests.CrcOfOnes | tests.c:114-128 | 256 bytes 0xFF have CRC 36. |
| CrcSelfTests.CrcOfHello | tests.c:130-141 | "hello" has CRC 146. |
| CrcSelfTests.CrcOfZeroDigits | tests.c:143-154 | "00000" has CRC 119. |
| CrcSelfTests.CrcOfPangram | tests.c:156-167 | The 44-character pangram has CRC 131. |
| PyCrc.ComputeCrc | protocol.py:45-62 | The loop on an unbounded integer ends with the same value as the C CRC of the data, and with the unbounded register reduced modulo 256. |
| PyCrc.MaskedCrcAgrees | protocol.py:54-62 | The unbounded Python register, masked with `& 0xFF`, equals the 8-bit CRC. |
| Frames.CodeInjective | protocol.h:9-17 | Two error codes have the same byte exactly when they are the same code: the seven codes are distinct. |
| Frames.Frame | protocol.c:93-121 | The frame any sender emits for a command and payload is payload + 7 bytes long. `FrameLayout` gives it field by field. |
| Frames.AckFrame | protocol.c:133-161 | An acknowledgement is 8 bytes long and carries the code in its payload slot. |
| Frames.DeclaredOfBytes | protocol.c:100 | Writing a length as `len >> 8`, `len` into two bytes and reading it back gives the length modulo 2^16. |
| Frames.BytesOfDeclared | protocol.c:301-308 | Storing the length read back into the buffer as `len >> 8`, `len` reproduces the two bytes received. |
| Frames.FrameLayout | protocol.c:93-121 | A frame is, in order: 0xAA; the length modulo 2^16; version 2; the command; the payload unchanged; the CRC; 0xBB. Its size is payload + 7. |
| Frames.FrameLength | protocol.c:95-100 | A frame whose size fits 16 bits declares its own size. |
| Frames.CrcSlotProperty | protocol.c:110-113 | The CRC byte of every frame equals the CRC of the frame with that byte set to 0. |
| Frames.FrameInjective | protocol.c:93-121 | Two frames are equal only when their commands and payloads are. |
| Frames.AckIsFrame | protocol.c:133-161 | The acknowledgement of a code is the `'a'` frame with that code as its one-byte payload. Its CRC is the CRC of the header followed by `[code, 0, 0xBB]`. |
| Frames.EmptyFrames | protocol.c:173-237 | The open, close and test frames are the 7-byte frames of 'o', 'c' and 't' with no payload. |
| Frames.Checks | protocol.c:311-346 | At most three errors are raised, one per check. `ChecksMeaning` says which ones. |
| Frames.ChecksMeaning | protocol.c:311-346 | The version, CRC and end checks each fail exactly when their field is wrong. Failures are listed in the order of the receiver. |
| Frames.FramePasses | protocol.c:311-346 | Every frame passes all three checks, and its command and payload are read back. |
| Frames.SyncSkipsNoStart | protocol.c:294-298 | The start loop discards exactly the bytes before the first 0xAA, none of which is 0xAA. |
| Frames.SyncOverJunk | protocol.c:294-298 | After junk that holds no 0xAA, the loop stops at the first byte of what follows. |
| Firmware.Probe | protocol.c:328-351 | The byte the `'a'` case reads is: the end byte of a 7-byte packet; 0 for an 8-byte packet; the second payload byte otherwise. |
| Firmware.Response | protocol.c:348-392 | After the `switch`, the device is connected when the command was 'o', or it was connected and the command was not 'c'. An unknown command is acknowledged with `TYPE`. |
| Firmware.Reports | protocol.c:311-346 | One report per failed check. |
| Firmware.Handle | protocol.c:293-392 | What the receiver does with a packet. The flag and the `switch` output are those of `Response` for its command, probe byte and payload. Before that output come one acknowledgement per failed check, in check order. The reports of the checks precede the `switch` events. |
| Firmware.Device.constructor | protocol.c:51-62 | `protocol_init` starts disconnected, with nothing written or logged. |
| Firmware.Device.Send | protocol.c:93-121 | Writes the 'd' frame of the payload and returns payload + 7. |
| Firmware.Device.SendAck | protocol.c:133-161 | Writes the acknowledgement frame of the code and returns 8. |
| Firmware.Device.SendOpen | protocol.c:173-199 | Writes the 7-byte 'o' frame and returns 7. |
| Firmware.Device.SendClose | protocol.c:211-237 | Writes the 7-byte 'c' frame and returns 7. |
| Firmware.Device.SendEcho | protocol.c:251-279 | Writes the 'e' frame of the payload and returns payload + 7. |
| Firmware.Device.Emit | protocol.c:93-121 | The body the five senders share: appends `Frame(cmd, payload)` to the output and returns payload + 7. |
| Firmware.Device.Connect | protocol.c:71-79 | Sets the flag, writes an open frame and returns 0. |
| Firmware.Device.Disconnect | protocol.c:404-411 | Clears the flag and writes a close frame. |
| Firmware.Device.Dispatch | protocol.c:348-392 | The `switch` leaves the flag, output and log that `Response` gives for the command, probe byte and payload. |
| Firmware.Device.SkipToStart | protocol.c:294-298 | Consumes the input through the first 0xAA and returns that byte. |
| Firmware.Device.ReadPayload | protocol.c:319-322 | Reads `len - 7` bytes into the payload region and leaves the header untouched. |
| Firmware.Device.ReadHead | protocol.c:300-317 | Reads the length, version and command into the first five slots of a fresh buffer of the declared length. Acknowledges and reports `VERSION` exactly when the version byte is not 2. |
| Firmware.Device.ReadCrc | protocol.c:323-339 | Reads the CRC byte and leaves the buffer with CRC slot 0 and end slot 0xBB. Acknowledges and reports exactly when the received byte differs from the CRC recomputed over that buffer. |
| Firmware.Device.ReadEnd | protocol.c:341-346 | Stores the end byte in the last slot, and acknowledges and reports it exactly when it is not 0xBB. |
| Firmware.Device.ReadTail | protocol.c:318-346 | Reads the payload, the CRC byte and the end byte. The CRC and end acknowledgements come in that order, and the buffer ends with CRC slot 0 and the received end byte. |
| Firmware.Device.CheckVersion | protocol.c:311-315 | Acknowledges `VERSION` and reports it exactly when the version byte is not 2. |
| Firmware.Device.CheckCrc | protocol.c:331-339 | Acknowledges `CRC` and reports both values exactly when they differ. |
| Firmware.Device.CheckEnding | protocol.c:341-346 | Acknowledges `ENDING` and reports the byte exactly when it is not 0xBB. |
| Firmware.Device.ReadPacket | protocol.c:300-346 | Reads the whole packet, with one acknowledgement and one report per failed check, in order. The buffer ends with its CRC slot 0 and its end byte as received. |
| Firmware.Device.Fetch | protocol.c:294-346 | Consumes junk through the first 0xAA, then the first packet and nothing more. Writes one acknowledgement and one report per failed check. The buffer is the packet with CRC slot 0. |
| Firmware.Device.Receive | protocol.c:293-394 | Consumes junk, the first packet and nothing more. Writes the acknowledgements and then the dispatch's output. Returns the declared length. |
| ReceiveProperties.FrameChecks | protocol.c:311-346 | A frame fails no check and raises no report. |
| ReceiveProperties.FoundAfterJunk | protocol.c:293-308 | A packet after junk without 0xAA is the first packet read. What follows it is left over. |
| ReceiveProperties.RoundTrip | protocol.c:293-394 | A frame after junk: the receiver returns its length, leaves the bytes after it, and dispatches on its command and payload. |
| ReceiveProperties.EchoAnswered | protocol.c:377-385 | An echo request is answered only with the data frame of the same payload. |
| ReceiveProperties.DataPrinted | protocol.c:357-362 | A data frame prints its payload and sends nothing. |
| ReceiveProperties.AcksReadAsSuccess | protocol.c:350-356 | Every acknowledgement frame, whatever its code, is reported as "success". |
| ReceiveProperties.ConnectionTable | protocol.c:363-376 | Open while connected: `OPENED`. Open while disconnected: connects and sends open. Close while connected: disconnects and sends close. Close while disconnected: `CLOSED`. |
| ReceiveProperties.UnknownCommand | protocol.c:389-391 | A frame with any other command is acknowledged with `TYPE`, logged, and the flag is kept. |
| ReceiveProperties.CorruptEnding | protocol.c:341-346 | A frame with a replaced end byte fails only the end check. It is acknowledged with `ENDING` and still dispatched. |
| ReceiveProperties.CorruptCrc | protocol.c:324-339 | A frame with a wrong CRC byte fails only the CRC check. It is acknowledged with `CRC` and still dispatched. |
| ReceiveProperties.ChangedPayloadChecks | protocol.c:324-339 | A frame with one payload byte changed fails the CRC check and no other; both CRC values are reported. |
| ReceiveProperties.CorruptPayload | protocol.c:293-394 | A frame with one payload byte changed, after junk without 0xAA, is found. The receiver returns its declared length, acknowledges with `CRC` alone, and dispatches the changed payload. |
| ReceiveProperties.VersionChangedChecks | protocol.c:311-339 | A replaced version byte fails the version check and, since the CRC covers that byte, the CRC check. No other check fails, and both values are reported. |
| ReceiveProperties.CorruptVersion | protocol.c:311-339 | A frame with a wrong version is acknowledged with `VERSION` and then `CRC`, and then dispatched on its command and payload. |
| Host.Span | protocol.py:138-139 | `receive` reads at least 7 bytes from the start marker, and exactly the declared length when that is at least 7. |
| Host.AckAnswer | protocol.py:163-180 | The answer to an acknowledgement starts with 'u' exactly when its payload is not a single code 0..6. Then the answer is "unknow ack: " followed by the payload. |
| Host.Response | protocol.py:162-199 | Only 'a' and 'd' write nothing back. Every other type writes at least 7 bytes, starting with 0xAA and ending with 0xBB. A data frame is answered with its payload. |
| Host.Handle | protocol.py:122-199 | The answer to a packet is the `match` answer, whatever the checks found. One 8-byte acknowledgement per failed check is written, then the `match`'s writes. A packet that passes every check is handled by the `match` alone. |
| Host.Client.Send | protocol.py:64-76 | Writes the 'd' frame of the payload. `struct.pack` refuses a length of 65536 or more, and then nothing is written. |
| Host.Client.SendAck | protocol.py:78-89 | Writes the same acknowledgement frame as the firmware's `protocol_send_ack`. |
| Host.Client.SendOpen | protocol.py:91-98 | Writes the 7-byte 'o' frame. |
| Host.Client.SendClose | protocol.py:100-107 | Writes the 7-byte 'c' frame. |
| Host.Client.SendEcho | protocol.py:109-120 | Writes the 'e' frame of the payload, or nothing when the length does not fit 16 bits. |
| Host.Client.SendFrame | protocol.py:70-75 | The body of `send` and `send_echo`. It writes `Frame(cmd, payload)` exactly when the length fits 16 bits, and otherwise nothing. |
| Host.Client.SendEmpty | protocol.py:93-98 | The body of `send_open` and `send_close`: writes the 7-byte frame of the command with no payload. |
| Host.Client.SkipToStart | protocol.py:124-129 | Consumes the input through the first 0xAA. |
| Host.Client.ReadField | protocol.py:131-141 | `read(n)` of the next field takes the next `max(n, 0)` bytes of the packet and leaves the rest on the port. |
| Host.Client.ReadHeader | protocol.py:131-136 | Reads the length and version fields and acknowledges `VERSION` exactly when the version is not 2. |
| Host.Client.CheckCrc | protocol.py:141-155 | Acknowledges `CRC` exactly when the received byte differs from the CRC recomputed over the fields with `[0, 0xBB]`. |
| Host.Client.ReadEnd | protocol.py:157-161 | Acknowledges `ENDING` exactly when the end byte is not 0xBB. |
| Host.Client.ReadChecked | protocol.py:124-161 | Reads a packet and writes its acknowledgements in the order version, CRC, end. Returns its type and payload. |
| Host.Client.Dispatch | protocol.py:162-199 | The `match` writes and returns what `Response` gives for the type and payload. |
| Host.Client.Receive | protocol.py:122-200 | Consumes junk and the first packet. Writes the acknowledgements, then the reply. Returns the answer of the `match`. |
| Host.Client.SendTest | protocol.py:215-220 | Writes the 7-byte 't' frame. |
| Host.Client.Test | protocol.py:213-222 | Writes the test frame, then receives 100 packets. It writes what they call for and returns their answers, in order. |
| Host.Client.ReceiveMany | protocol.py:221-222 | `n` calls of `receive`, one after the other. |
| HostProperties.RoundTrip | protocol.py:122-200 | A frame after junk is read whole, with no acknowledgement, and answered by its command and payload. The bytes after it are left. |
| HostProperties.ShortLength | protocol.py:138-139 | A length field below 7 reads no payload: the next two bytes are taken as CRC and end. |
| HostProperties.Messages | protocol.py:163-178 | Each code 0..6 gets its own message. None of them starts like the unknown-ack answer. |
| HostProperties.AckAnswerInjective | protocol.py:163-180 | Different acknowledgement payloads get different answers. |
| HostProperties.AckAnswered | protocol.py:163-180 | An acknowledgement from the firmware is answered with the message of its code, and nothing is sent. |
| Exchange.Echo | protocol.c:377-385 | Echo from the host comes back as a data frame, which the host returns as the payload. |
| Exchange.Handshake | protocol.c:363-369 | Host open on a disconnected device: the device connects and answers open. The host sends open again and gets "connection opened". |
| Exchange.Goodbye | protocol.c:370-376 | Host close on a connected device: the device disconnects and answers close. The host sends close again and gets "connection closed". |
| Exchange.AckReading | protocol.c:350-356 | The same acknowledgement bytes are read as "success" by the device and as the code's message by the host. |
| Exchange.TestFrameRunsTests | protocol.c:386-388 | The host's test frame passes every check and reaches the 't' case, which hands over to `run_tests`. The `switch` itself sends nothing there and keeps the flag. |
| Legacy.Be16 | f.py:22 | `struct.pack(">H", v)` (here and at f.py:41) gives two bytes whose big-endian word is `v`. |
| Legacy.ComplementValue | f.py:31 | `~S & 0xFFFF` is 0xFFFF − (S mod 2^16). It lies in 0..65535. Two sums give the same checksum exactly when they agree modulo 2^16. |
| Legacy.Checksum | f.py:17-33 | The checksum of a payload is a 16-bit value. |
| Legacy.SumWords | f.py:26-29 | The word loop returns the sum of the big-endian 16-bit words of the padded packet. |
| Legacy.ComputeChecksum | f.py:17-33 | The word loop returns the checksum of the payload in 0..65535. It fails only where `struct.pack` refuses the size. |
| Legacy.OneWordChanged | f.py:26-31 | A change to any one 16-bit word of the summed bytes changes the checksum. |
| Legacy.SumDifference | f.py:26-30 | Changing one word changes the sum by the difference of that word. |
| Legacy.PacketFields | f.py:35-43 | `send` lays out type 7, the payload's checksum, the size payload + 6, then the payload. |
| Legacy.Packet | f.py:41 | The packet `send` writes is payload + 6 bytes long. |
| Legacy.DecodeCases | f.py:45-54 | A foreign type gives nothing and the payload is not read. Otherwise the payload comes back exactly when the checksum field matches. |
| Legacy.Decode | f.py:45-54 | A foreign type gives nothing. A returned payload has the length the size field announces, and its checksum is the checksum field. |
| Legacy.RoundTrip | f.py:35-54 | A packet `send` wrote, followed by anything, is read back as its payload, and the bytes after it are left. |
| Legacy.Link.Send | f.py:35-43 | Writes the packet of the payload, or nothing where `struct.pack` refuses the size. |
| Legacy.Link.Receive | f.py:45-54 | Takes the header, and the payload only for type 7. Returns the decoded payload or nothing. |

## Left out

- The Pico's GPIO (the LED) and `stdio_init_all`: they have no protocol-visible effect.
- The CRLF setting: the model assumes that `putchar` writes each byte unchanged. Every `output == old(output) + ...` contract of `Firmware.Device` rests on this. `protocol_init` makes it so by turning off the SDK's newline translation (protocol.c:55). Without that call, every 0x0A byte of a frame would go out as 0x0D 0x0A. That would corrupt any frame with 0x0A in its length, payload or CRC byte.
- The text of `printf`: each message is modelled as an abstract `Event` in `log`. On the device, `printf` writes to the same stdout stream as the `putchar` calls that emit frames, while the model's `output` holds only the frames. So the bytes the host really reads also carry the printed text. One consequence: the 'd' case (protocol.c:357-362) prints the raw payload, so a 0xAA byte in it would reach the host as a false start marker. The `Exchange` lemmas are not affected, because the 'e', 'o' and 'c' cases print nothing.
- main.c is not part of this model.
- tests.c is used only for the CRC values its tests expect. `run_tests` is an opaque event (`TestsRun`). It sends a result frame per test through `protocol_send` and itself calls `protocol_receive`, which reads input and can change the connection flag. None of that is modelled. So after a 't' frame, the output, the remaining input and the flag that `Firmware.Device.Receive` and `Firmware.Handle` state are those of the `switch` alone, not those of the program.
- Blocking reads: `getchar` and the serial reads are modelled on an input sequence that already holds every byte they need. Running out of input (blocking forever, or a pyserial timeout) becomes a precondition.
- Firmware.Device.Receive: requires a declared length of at least 7. Shorter packets do not have the layout the model builds on, and none of the following is modelled.
  - For a declared length of 0 to 4, `uint8_t packet[packet_length]` (protocol.c:305) is shorter than the header. The header stores at protocol.c:306-317 that index past it are out of bounds; at length 4 that is only `packet[4]`. So is the `switch`'s read of `packet[4]` (protocol.c:349).
  - For 0 and 1, the stores at protocol.c:328-329 and 341 are out of bounds too. At length 1 that is only `packet[-1]`.
  - For 5 and 6, every store stays inside the buffer, but the CRC and end slots overlap the header. At 6, `packet[4]` is zeroed (protocol.c:328), so the `switch` takes `default`. At 5, `packet[4]` ends up holding the received end byte (protocol.c:341). An end byte of 'a' then makes the `switch` read `packet[6]` outside the buffer. An end byte of 'e' makes it declare `payload[-2]`, an array of negative size.
- The pyserial port lifecycle is not modelled: `serial.Serial(...)`, `close` and `cleanup`'s `del`. So `connect` and `disconnect` of both Python clients are their `send_open` and `send_close` parts (`Host.Client.SendOpen`, `Host.Client.SendClose`), or nothing for `f.py`.
- Python `print` calls.
- Python exceptions: the `struct.error` of a 16-bit field that overflows is modelled as `ok == false` with nothing written. Other exceptions (a short `read`, a failing `write`) are not modelled.
- `size_t` and `int` overflow of the C lengths beyond 16 bits: frames are built from the length modulo 2^16, as the `uint8_t` stores truncate it. The C code itself never computes a frame longer than its caller passes.
- Legacy.OneWordChanged: it shows that one changed 16-bit word is detected. It proves nothing about changes to several words, which the unfolded 16-bit sum can miss.
