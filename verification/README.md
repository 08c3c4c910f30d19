# SN32 bootloader flasher — Dafny model

This project models the firmware-update core of the Sonix SN32 keyboard flasher
(`sn32-hid.js`). The flasher talks to SN32F2xx microcontrollers in bootloader
mode. It uses nothing but 64-byte HID feature reports with report id 0.

The model covers:

- **Registry** (`registry.dfy`): the three supported bootloaders
  (0x0c45:0x7010, 0x7040, 0x7900). Each has its load offset (`qmkOffset`) and
  its firmware ceiling: 30 KiB for the SN32F260 class, 64 KiB for the SN32F240
  class. A lookup by vendor and product id is included.
- **Codec** (`codec.dfy`): `pad` (zero extension to a multiple of 64), `pack`
  and `unpack` (32-bit little-endian words to and from bytes), and the
  little-endian word at a byte offset.
- **Transport** (`transport.dfy`): `hidSetFeatureReport`. It refuses payloads
  over 64 bytes and pads the rest before writing them with report id 0.
- **Validator** (`validator.dfy`): `validateFirmware`. It runs three checks in
  order, and the first one that fails decides the error:
  1. length plus load offset against the ceiling;
  2. a minimum length of 0x100;
  3. the leading vector table. The initial stack pointer must lie in
     [0x20000000, 0x20000800]. The reset, NMI and hard-fault vectors must have
     the Thumb bit set. This is the layout of section B1.5.3 of the ARMv6-M
     Architecture Reference Manual.
- **Update state machine** (`flasher.dfy`): the `flashDevice` generator,
  modelled as a total function. Its inputs are the product, the image, the
  load offset and the two scripted device replies (to INIT and to PREPARE). It
  returns a `Run`: the reports sent, the progress events yielded, and `Pass`
  or the error that ended the run. The steps are:
  1. the size check;
  2. padding;
  3. INIT (0x55AA01), then checking the echo and the status 0xFAFAFAFA;
  4. PREPARE (0x55AA05) with the load offset and the *padded* length, checked
     the same way;
  5. the image as raw 64-byte chunks, each followed by its progress fraction;
  6. REBOOT (0x55AA07).

  The inner `format` renderer (`0x` plus eight lower-case hex digits) and the
  four mismatch messages are modelled too.
- **Scenarios** (`scenarios.dfy`): concrete runs, namely:
  - the 200-byte image (four chunks);
  - the 64 KiB SN32F248B image (1024 chunks);
  - an INIT echo mismatch and its message;
  - the stack-pointer and Thumb-bit boundaries;
  - the difference between the validator's size check and the flasher's own.

Progress fractions are exact `real`s. Bytes and words are the subset types
`byte` and `u32` over `int`.

Three behaviours of `flashDevice` that are easy to miss:

- The flash phase yields one extra `flash 0` event before the first chunk.
  For a 256-byte padded image there are therefore five flash-step events.
- Only the INIT reply's length is checked. A PREPARE reply of any length is
  decoded. If its length is not a multiple of 4, the decoder reads past the
  end (`ReplyNotAligned`). If it is too short to hold the words being
  compared, the message renderer is handed a missing value (`ReplyTooShort`).
- The flasher's own size check compares the *unpadded* length with the
  ceiling and does not add the load offset. The validator does add it.
  `Scenarios.SizeChecksDiffer` exhibits an image that one check accepts and
  the other refuses.

## Model

| member | source | states |
|---|---|---|
| Codec.Pad | sn32-hid.js:32-38 | the result is a multiple of 64 long and shorter than the input plus 64; the input is its prefix; every added byte is zero; an aligned input comes back unchanged |
| Codec.PadUnique | sn32-hid.js:32-38 | any aligned zero extension shorter than input plus 64 equals `pad` of the input, so the contract determines `pad` |
| Codec.PadIdempotent | sn32-hid.js:32-38 | padding twice is padding once |
| Codec.WordBytes | sn32-hid.js:60-69 | the four bytes `setUint32(…, true)` writes for a word decode back to that word |
| Codec.WordBytesOfWordAt | sn32-hid.js:71-80 | four bytes are exactly the little-endian encoding of the word `getUint32(…, true)` reads from them |
| Codec.Pack | sn32-hid.js:60-69 | n words become exactly 4·n bytes; word i is stored little-endian at byte 4·i |
| Codec.Unpack | sn32-hid.js:71-80 | decoding succeeds iff the length is a multiple of 4; it then yields length/4 words, word i read little-endian from byte 4·i |
| Codec.UnpackPack | sn32-hid.js:60-80 | unpack(pack(ws)) == ws for every word sequence |
| Codec.PackUnpack | sn32-hid.js:60-80 | for every buffer whose length is a multiple of 4, packing the unpacked words gives back the bytes; together with UnpackPack, the two are inverse bijections |
| Codec.WordAtPad | sn32-hid.js:32-38 | padding leaves every word of the original buffer readable unchanged |
| Registry.SizeLimit | sn32-hid.js:26-30 | the ceiling is 30 KiB exactly for 0x7010 and 64 KiB for 0x7040 and 0x7900 |
| Registry.Find | app.js:155-157 | the result is the first table entry with the given vendor and product id; None iff no entry matches |
| Registry.Lookup | sn32-hid.js:17-24 | a descriptor is found iff the ids are 0x0c45 with 0x7010, 0x7040 or 0x7900; the one found carries those ids and is a table entry |
| Registry.RegistryConsistent | sn32-hid.js:17-30 | every supported device is a Sonix device whose load offset is below its ceiling; the SN32F268F loads at 0x200 |
| Transport.SetFeatureReportAsWritten | sn32-hid.js:40-49 | a payload over 64 bytes fails with its length; otherwise the report has id 0 and aligned data that starts with the payload and is zero after it, 64 bytes long when the payload is non-empty |
| Transport.EmptyReportNotPadded | sn32-hid.js:40-49 | as written, an empty payload is sent as a zero-length report |
| Transport.SetFeatureReport | sn32-hid.js:40-49 | a payload over 64 bytes fails; otherwise exactly 64 bytes with id 0 go out: the payload followed by zeros |
| Transport.FramingAgrees | sn32-hid.js:40-49 | on every non-empty payload the intended framing equals the source's, and a fitting payload is sent as `pad(payload)` |
| Transport.Frame | sn32-hid.js:45-49 | a fitting payload yields a 64-byte report with id 0: the payload, then zeros |
| Validator.CheckVectorTable | sn32-hid.js:174-185 | the decoded check accepts iff word 0 of the image lies in [0x20000000, 0x20000800] and words 1, 2 and 3 are odd, all read from the raw bytes |
| Validator.ValidateFirmware | sn32-hid.js:162-187 | too large (with max = limit − offset) iff length + offset > limit; otherwise too small iff length < 0x100; otherwise corrupt iff the vector table fails; success iff all three pass |
| Validator.ValidatorBoundaries | sn32-hid.js:164-168 | an image of exactly limit − offset bytes passes the size check; one byte more is too large |
| Flasher.CheckEcho | sn32-hid.js:125-133 | the reply is accepted iff it decodes, word 0 echoes the command and word 1 is 0xFAFAFAFA; otherwise the error says which, in the source's order, with the expected and actual values |
| Flasher.CheckInitReply | sn32-hid.js:106-119 | the INIT reply is accepted iff it is 64 bytes long with echo 0x55AA01 and status 0xFAFAFAFA; a wrong length is reported first, then the command, then the status |
| Flasher.FlashDevice | sn32-hid.js:90-153 | the run succeeds iff the unpadded length fits the ceiling and both replies are accepted; an oversized image sends and yields nothing; a bad INIT reply stops after the INIT report and `initialize 0`; a bad PREPARE reply stops after PREPARE and `prepare 0`, before any chunk |
| Flasher.ChunkReports | sn32-hid.js:138-143 | the chunk loop over a padded image sends one report per 64-byte chunk: chunk k is bytes 64·k .. 64·(k+1), verbatim, with id 0 |
| Flasher.ChunkEvents | sn32-hid.js:138-143 | after chunk k the loop yields `flash (k+1)·64/paddedLen` |
| Flasher.ChunksConcat | sn32-hid.js:138-141 | the chunks sent concatenate to the padded image |
| Flasher.FrameFullChunk | sn32-hid.js:139-140 | a full chunk is written unchanged |
| Flasher.CommandFrames | sn32-hid.js:105-147 | the INIT, PREPARE and REBOOT reports carry `pad(pack(…))` of their words |
| Flasher.SuccessReports | sn32-hid.js:105-147 | a completed transfer sends INIT, PREPARE(offset, padded length), the chunks in order, then REBOOT: chunk count + 3 reports, all 64 bytes with id 0 |
| Flasher.SuccessEvents | sn32-hid.js:99-152 | a completed transfer yields initialize 0, prepare 0, flash 0, one flash event per chunk, reboot 1, complete 1; exactly chunk count + 1 of them are flash events |
| Flasher.FlashSuccessReports | sn32-hid.js:97-147 | on success the reports of `flashDevice` are those of SuccessReports for `pad(firmware)`, and their chunks concatenate to `pad(firmware)` |
| Flasher.FlashSuccessEvents | sn32-hid.js:99-152 | on success the events of `flashDevice` are those of SuccessEvents for `pad(firmware)` |
| Flasher.FlashSuccessLengths | sn32-hid.js:99-152 | on success there are chunk count + 3 reports and chunk count + 5 events, the last being complete 1 |
| Flasher.ChunkFractionsIncrease | sn32-hid.js:142 | flash fractions strictly increase with the chunk index, and the last chunk reports exactly 1 |
| Flasher.HexDigits | sn32-hid.js:91 | yields exactly `width` lower-case hexadecimal digits |
| Flasher.ParseHexDigits | sn32-hid.js:91 | the digits denote the number whenever it fits in the width |
| Flasher.Format | sn32-hid.js:91 | a word renders as "0x" followed by eight zero-padded lower-case hex digits that denote it |
| Flasher.MismatchMessage | sn32-hid.js:114-132 | a mismatch message opens with the words naming its phase and field ("Failed to initialize: response cmd is " and the three others), then the formatted actual word, ", expected ", and the formatted expected word; both words can be read back from the text |
| Scenarios.GoodReply | sn32-hid.js:106-119 | a cooperative bootloader's reply is 64 bytes holding the echoed command and the success status |
| Scenarios.GoodRepliesAccepted | sn32-hid.js:106-133 | the cooperative replies pass the INIT and PREPARE checks |
| Scenarios.SuccessRun256 | sn32-hid.js:136-152 | a 256-byte padded image is sent as four chunks with progress 0.25, 0.5, 0.75, 1 |
| Scenarios.Progress200 | sn32-hid.js:97-152 | a 200-byte image with good replies yields initialize 0, prepare 0, flash 0, 0.25, 0.5, 0.75, 1, reboot 1, complete 1, in seven reports |
| Scenarios.HeaderWords | sn32-hid.js:175 | the header words the validator reads are the words packed into the first 16 bytes |
| Scenarios.StackPointerBounds | sn32-hid.js:177-179 | with Thumb vectors, the table is accepted iff 0x20000000 ≤ sp ≤ 0x20000800, both ends inclusive |
| Scenarios.ClearedThumbBit | sn32-hid.js:180-182 | any of the three vectors with bit 0 clear makes the table corrupt |
| Scenarios.Validate64K | sn32-hid.js:162-187 | a 64 KiB image with sp 0x20000400 and vectors 0x101, 0x103, 0x105 passes validation for 0x7040 |
| Scenarios.Flash64K | sn32-hid.js:90-153 | flashing that image succeeds in 1024 chunks, 1027 reports and 1029 events, ending with complete 1 |
| Scenarios.InitCommandMismatch | sn32-hid.js:112-115 | an INIT echo of 0x55AA02 aborts with a command mismatch after one report and one event |
| Scenarios.InitCommandMismatchMessage | sn32-hid.js:114-116 | its message is "Failed to initialize: response cmd is 0x0055aa02, expected 0x0055aa01" |
| Scenarios.FormatCommands | sn32-hid.js:91 | 0x55AA02 and 0x55AA01 render as 0x0055aa02 and 0x0055aa01 |
| Scenarios.ValidatedImageFitsFlashCheck | sn32-hid.js:93-95 | an image the validator accepts never fails the flasher's own size check |
| Scenarios.SizeChecksDiffer | sn32-hid.js:162-168 | on 0x7010 with offset 0x200, a 30 KiB image is refused by the validator yet flashes successfully |

## Findings

| source | as written | input that shows it | evidently intended | confidence | as-written member | corrected member |
|---|---|---|---|---|---|---|
| sn32-hid.js:45-46 | the report is padded with `pad`, which leaves a zero-length buffer as it is (0 is a multiple of 64) | an empty payload, sent as a zero-length feature report | every report goes out as exactly 64 bytes, as the comment on line 45 says | low, not executed; `flashDevice` never sends an empty payload (its payloads are 4, 12 or 64 bytes), so the update trace is unaffected | Transport.EmptyReportNotPadded | Transport.SetFeatureReport |

`Transport.FramingAgrees` proves that the two framings agree on every non-empty
payload. The update model uses the corrected one, so its reports are the ones
the source sends.

## Left out

- app.js (the wizard screens, file reading, drag and drop, theme switching,
  the leave-page guard, device request and enumeration): UI and I/O with no
  stateable core. app.js:88 calls `validateFirmware` without a load offset, so
  at run time its size comparison involves NaN and never fires. The model
  takes the offset as an explicit parameter instead.
- The WebHID calls (`device.open`, `sendFeatureReport`, `receiveFeatureReport`,
  `hidGetFeatureReport`): foreign I/O. Sending is an append to the `Run`'s
  report trace. The two replies are scripted parameters. A rejected write or
  a lost device (an error thrown out of the browser's HID layer) is not
  modelled.
- The `sendReport` branch of `hidSetFeatureReport` (sendReportId = false):
  `flashDevice` never uses it.
- How sends and yields interleave: a `Run` keeps the reports and the events
  as two lists, each in its own order. In the source the `initialize`,
  `prepare` and `reboot` events are yielded before that phase's report is
  written, and `flash 0` before the first chunk. Each later `flash` event is
  yielded after its chunk's report is sent. `complete` comes after the REBOOT
  report and the delay.
- The 5-second settle delay after REBOOT and the async-generator suspension
  mechanics: real time and scheduling. The generator is the finite event list
  of a `Run`.
- Floating-point progress: fractions are exact reals.
- `unpack` reading through `data.buffer`, which ignores a typed array's
  `byteOffset`: the model decodes plain byte sequences.
- Unknown product ids (which give an `undefined` limit in the source): the
  `ProductId` type admits only the three registered ids.
- The uppercase-hex text of the validator's "too large" message, and the
  decimal text of the "exceeds maximum" and "response of length" messages:
  these errors carry their numbers as structured fields
  (`TooLarge(size, maxAllowed)`, `FirmwareTooLarge(size, limit)`,
  `ReplyLength(phase, length)`). Only the four hex mismatch messages are
  rendered.
- The runtime error texts for a misaligned or too-short PREPARE reply (a
  DataView range error, or a type error from formatting a missing word):
  engine-specific. They are the structured `ReplyNotAligned` and
  `ReplyTooShort` errors.
- 32-bit wrap-around in `pack` (`setUint32` reduces its argument modulo 2^32):
  every word packed by the core (the commands, the load offset, the padded
  length of at most 64 KiB) already fits. `pack` is therefore modelled on
  `u32` words.
- "validateFirmware never changes the image": images are immutable sequences
  in the model, so there is nothing to state.
