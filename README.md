# HID-KB macro-key firmware, modelled in Dafny

The firmware (`src/main.cpp`) turns an Arduino into a USB macro keypad. The
host sends it framed commands over the serial line:

- `[command][length][payload…][checksum]`, where the checksum is the sum of
  all preceding bytes modulo 256;
- SET_HOTKEY (1) stores a hotkey record in one of 32 eight-byte slots of an
  external store;
- RUN_HOTKEY (2) reads a slot back, presses up to three key codes on the
  keyboard, consumer-control or system-control HID device, and a later pass
  of the main loop releases them once the record's delay has elapsed;
- LIST_HOTKEYS (3) answers "not implemented".

Framed responses start with command 4. Error reports are plain text lines.

The model has five modules:

- `Wrappers` (`wrappers.dfy`): `Option` and `Result`.
- `Frames` (`frames.dfy`): the byte-wrapping checksum, the frame layout shared
  by requests and `sendResponse`, and the decoder of `processSerialData` as a
  step function `Step` over the receive buffer, its cursor and `dataLength`,
  with `Run` feeding a sequence of bytes.
- `Hotkeys` (`hotkeys.dfy`): the command ids, the checks of `setHotkey`
  (`CheckSet`), the 16-bit signed delay field, the slot layout
  `[keyCount, keyType, c0, c1, c2, delayHi, delayLo, spare]`, the three HID
  channels, the `HotkeyTask` struct and the wrap-around release test.
- `Controller` (`controller.dfy`): the firmware's whole state as a `Machine`
  value. The state is the decoder, `dataReady`, `currentTask`, the 256-byte
  store, a log of HID calls and a log of serial output. The pure transitions
  `Feed`, `SetHotkey`, `RunHotkey`, `ListHotkeys`, `Execute`, `Tick` and
  `LoopStep` mirror `processSerialData`, the three command handlers,
  `executeCommand`, the release block of `loop`, and one pass of `loop`;
  `Passes` chains passes that each find one byte available. The lemmas about
  the firmware's behaviour are stated over them.
- `Firmware` (`device.dfy`): the class `Device`, which holds the receive
  buffer and the store as arrays updated in place and the other globals as
  fields. Each method follows the C function of the same role statement by
  statement. `ProcessSerialData`, `SetHotkey`, `RunHotkey`, `ListHotkeys`,
  `ExecuteCommand`, `ReleaseIfDue` and `Loop` are each proved to change the
  state exactly as the matching `Controller` transition does
  (`State() == Controller.X(old(State()), …)`). The helpers they call are
  proved against other specifications: `BufferChecksum` and
  `ResponseChecksum` against `Frames.Checksum`, `SendResponse` against
  `Frames.EncodeResponse`, `WriteEEPROM` and `StoreRecord` against the array
  contents and `Hotkeys.WriteSlot`, `ReadEEPROM` against the store's bytes,
  and `PressKeys` against `Hotkeys.Presses`.

Inputs the firmware takes from the hardware become parameters:

- `Serial.available()`/`Serial.read()` become `input: Option<Byte>`;
- `millis()` becomes `now: bv32`, with unsigned 32-bit subtraction;
- the never-written eighth cell of `setHotkey`'s local `hotkeyData` becomes
  `spare`.

The HID calls and serial writes are appended to the two logs. The two framed
response texts are opaque byte strings (`Controller.Texts`) given to the
constructor. The text diagnostics are tags (`Hotkeys.Diag`).

Behaviour of the code that the model keeps as written:

- With a length byte of exactly 7, `setHotkey` passes its length check but
  still reads `data[7]`, which is the frame's own checksum byte. That byte is
  stored as the delay's low byte (`Controller.ShortSetStoresChecksum`).
- `delayTime` is a 16-bit signed `int`. `DelayField` models that, and the
  release test in `loop` converts it to `unsigned long` (`AsUnsignedLong`).
  `setHotkey` only accepts delays of 0..5000, so on that path the signed and
  unsigned readings agree (`Hotkeys.DelayRangeCheck`). A slot the firmware did
  not write can hold a high delay byte of 0x80 or more. That delay reads as
  negative, which makes the unsigned comparison wait for almost 2^32 ms.
- The checksum catches any change to one byte other than the length byte
  (`Frames.CorruptedFrameRejected`). It does not protect the length byte:
  changing it can end the frame early, at a prefix whose own checksum
  happens to match (`Frames.LengthByteFlipAccepted`).

The model differs from the code in two guarded places: the full receive
buffer and the press count. Both are listed under "Left out".

## Model

| member | source | states |
|---|---|---|
| Frames.Checksum | src/main.cpp:95-98 | the checksum this loop and the one at src/main.cpp:300-303 accumulate in a wrapping `byte`; its value is stated by `ChecksumIsSumMod256` |
| Frames.ChecksumIsSumMod256 | src/main.cpp:95-98 | adding bytes into a wrapping `byte` gives the plain sum of the bytes modulo 256 |
| Frames.ChecksumDetectsByteChange | src/main.cpp:95-99 | replacing any one byte by a different value changes the checksum |
| Frames.EncodeFrame | src/main.cpp:296-304 | a frame is three bytes longer than its payload, starts with the command and the payload length, and carries the payload from offset 2 |
| Frames.EncodeResponse | src/main.cpp:297-299 | a response carries `strlen mod 256` message bytes, because the length is stored in a `byte` |
| Frames.ResponseLayout | src/main.cpp:295-305 | a response is `[0x04][len][first len message bytes][(0x04 + len + their sum) mod 256]` |
| Frames.SmallFrameEncoding | src/main.cpp:295-304 | the frame of command 1 with payload `[1, 2]` is `[1, 2, 1, 2, 6]` |
| Frames.Step | src/main.cpp:87-107 | one received byte is stored at the cursor; the cursor advances while the frame is incomplete and returns to 0 once the frame is complete or the buffer is full |
| Frames.Run | src/main.cpp:87-107 | feeding bytes gives one verdict per byte and keeps the cursor inside the buffer |
| Frames.PrefixPending | src/main.cpp:88-93 | from cursor 0, the first k bytes of a frame are stored in order and no verdict but "partial" is given until byte `length + 3` arrives |
| Frames.FrameVerdict | src/main.cpp:91-105 | a byte sequence whose length byte matches its size is stored whole; every byte but the last is partial, and the last is accepted exactly when the trailing byte is the checksum of the others; the cursor ends at 0 and `dataLength` at the length byte |
| Frames.FrameRoundTrip | src/main.cpp:87-107 | an encoded frame with at most 125 payload bytes is accepted on its last byte and on no earlier one; the buffer then holds the command, the length and the payload at 0, 1 and 2.. and the cursor is back at 0 |
| Frames.BadChecksumDropped | src/main.cpp:93-104 | a frame whose trailing byte is not the checksum is rejected on its last byte and accepted on none, and the cursor is back at 0 |
| Frames.CorruptedFrameRejected | src/main.cpp:93-103 | changing any one byte of an encoded frame, other than the length byte, makes its last byte a checksum error |
| Frames.LengthByteFlipAccepted | src/main.cpp:91-100 | turning bit 1 of the length byte of `[1, 2, 1, 2, 6]` off makes its first three bytes an accepted frame |
| Frames.ResponseIsAcceptedFrame | src/main.cpp:295-305 | a response of at most 125 bytes, fed to an idle decoder, is accepted on its last byte and leaves 0x04, the length and the message in the buffer |
| Frames.OverlongFrameDropped | src/main.cpp:88-93 | a frame with a length byte of 126 or more is cut off when the 128th byte arrives, and the cursor returns to 0 |
| Frames.UnboundedPrefix | src/main.cpp:88-93 | with no bound on the write position, every byte before the frame end is kept pending |
| Frames.UnboundedFeed | src/main.cpp:87-107 | as written, each byte either completes the frame, leaving nothing pending, or is appended to the pending bytes |
| Frames.UnboundedRun | src/main.cpp:87-107 | as written, no more bytes are ever pending than have been received |
| Frames.SourceOverrunsBuffer | src/main.cpp:88-89 | as written, the bytes `[1, 126, 0 × 126]` leave the next write position at 128, one past the end of `incomingData` |
| Hotkeys.DelayField | src/main.cpp:139 | the bitwise or of `hi << 8` and `lo`, taken in a 16-bit `int`, has the same 16 bits as the unsigned big-endian value, and is negative exactly when the high byte is 0x80 or more (the same expression is at line 197) |
| Hotkeys.DelayValue | src/main.cpp:139 | the unsigned big-endian reading of the two delay bytes is below 2^16 and gives back both bytes |
| Hotkeys.CheckSet | src/main.cpp:131-157 | an accepted payload has a length byte of at least 7 and names the slot of its index byte, which is below 32; a rejection is one of the five diagnostics of `setHotkey` |
| Hotkeys.DelayRangeCheck | src/main.cpp:139-157 | the signed 16-bit range test rejects exactly the big-endian delays above 5000; an accepted delay reads the same signed or unsigned |
| Hotkeys.SetAcceptedIff | src/main.cpp:130-157 | a SET_HOTKEY payload is accepted iff the length byte is at least 7, the index is below 32, the type and the count are in 1..3 and the delay is at most 5000; the slot is the index byte |
| Hotkeys.SetBoundaries | src/main.cpp:131-157 | index 31, count 3 and delay 5000 pass; index 32, counts 0 and 4, delay 5001 and a length byte of 6 are each rejected with their own diagnostic |
| Hotkeys.RecordBytes | src/main.cpp:159-166 | a stored record is eight bytes |
| Hotkeys.ReadRecord | src/main.cpp:194-197 | the record read from a slot has three key codes |
| Hotkeys.RequestRecord | src/main.cpp:135-166 | the record of a payload has three key codes |
| Hotkeys.RecordRoundTrip | src/main.cpp:159-197 | reading back the bytes `setHotkey` writes yields the same count, type, codes and delay bytes, whatever the spare byte holds |
| Hotkeys.RecordBytesRoundTrip | src/main.cpp:159-197 | the slot layout loses nothing but the spare byte |
| Hotkeys.Slot | src/main.cpp:190-192 | a slot is the eight bytes at `index * 8` |
| Hotkeys.WriteSlot | src/main.cpp:168-169 | after a write, slot `index` holds the eight bytes, and every byte and every other slot outside it is unchanged |
| Hotkeys.WriteSlotIdempotent | src/main.cpp:168-169 | writing the same record to a slot twice leaves what one write leaves |
| Hotkeys.ChannelOf | src/main.cpp:210-229 | a key type selects a HID channel iff it is 1, 2 or 3 |
| Hotkeys.Presses | src/main.cpp:212-224 | one press per code, in order, on one channel |
| Hotkeys.StartedTask | src/main.cpp:194-207 | the task `runHotkey` records is active, starts at `now`, holds the slot's codes, and holds the unsigned delay whenever that is at most 5000 |
| Hotkeys.PressCount | src/main.cpp:212-224 | the number of codes pressed is the stored count when it is at most 3, and never more than 3 |
| Hotkeys.AsUnsignedLong | src/main.cpp:67 | converting an `int` to `unsigned long` keeps a non-negative value and adds 2^32 to a negative one |
| Hotkeys.Elapsed | src/main.cpp:67 | `millis() - startTime` is below 2^32 |
| Hotkeys.Due | src/main.cpp:67 | the release condition of `loop`; its meaning is stated by `AsUnsignedLong`, `ElapsedWraps` and `TickReleases` |
| Hotkeys.ElapsedWraps | src/main.cpp:67 | `millis() - startTime` in unsigned 32-bit arithmetic is the forward distance from start to now, across a wrap of the clock |
| Controller.VerdictDiags | src/main.cpp:99-103 | a byte prints at most one line, and none when it leaves the frame incomplete or completes a good one |
| Controller.Feed | src/main.cpp:87-107 | keeps the machine well-formed, never clears `dataReady`, and leaves the task, the store and the HID log alone; what it does to the decoder is stated by `FeedAllFollowsRun` and the lemmas after it |
| Controller.SetHotkey | src/main.cpp:130-172 | keeps the machine well-formed, prints exactly one line or response, and leaves the decoder, `dataReady`, the task and the HID log alone; what it stores is stated by `SetHotkeyRejected`, `SetHotkeyWrites` and `SetHotkeyStores` |
| Controller.RunHotkey | src/main.cpp:174-234 | keeps the machine well-formed, prints exactly one line, never changes the store, and, when a task is running, leaves it and the HID log alone; what it starts is stated by `RunHotkeyRejected`, `RunHotkeyStarts` and `SetThenRun` |
| Controller.ListHotkeys | src/main.cpp:237-240 | keeps the machine well-formed, adds exactly one serial entry, and leaves the decoder, `dataReady`, the task, the store, the HID log and the texts alone; the entry itself is stated by `ListAnswered` |
| Controller.Execute | src/main.cpp:109-128 | keeps the machine well-formed, prints exactly one line or response per command, and leaves the decoder and `dataReady` alone |
| Controller.ListAnswered | src/main.cpp:237-240 | LIST_HOTKEYS, dispatched at src/main.cpp:121-123, keeps everything printed so far, appends the "not implemented" response, and changes nothing else |
| Controller.UnknownCommandIgnored | src/main.cpp:124-126 | a command byte other than 1, 2 and 3 prints "unknown command" and changes nothing else |
| Controller.Released | src/main.cpp:69-79 | the release block calls `releaseAll` once exactly when the key type has a channel |
| Controller.Tick | src/main.cpp:66-83 | keeps the machine well-formed and leaves the decoder, `dataReady` and the store alone; when the task is still active afterwards nothing changed; the release itself is stated by `TickReleases` |
| Controller.LoopStep | src/main.cpp:54-84 | keeps the machine well-formed; a pass with no byte, no frame waiting and no task changes nothing; its passes are characterised by `PassesPending`, `FramePasses` and `ReleasePass` |
| Controller.FeedAll | src/main.cpp:87-107 | feeding bytes keeps the machine well-formed and leaves the task, the store and the HID log alone |
| Controller.Passes | src/main.cpp:54-63 | consecutive passes of `loop`, each with a byte available, keep the machine well-formed |
| Controller.Diags | src/main.cpp:99-103 | a run of bytes prints at most one line per byte |
| Controller.DiagsOfPartials | src/main.cpp:91-106 | a byte that does not complete a frame prints nothing |
| Controller.DiagsOfFrame | src/main.cpp:99-103 | a frame prints at most the diagnostic of its last byte |
| Controller.FeedAllFollowsRun | src/main.cpp:87-107 | feeding bytes one `processSerialData` call at a time drives the decoder as `Run` does, sets `dataReady` iff some byte completes a good frame, prints the diagnostics of the verdicts, and changes nothing else |
| Controller.FrameReachesBuffer | src/main.cpp:87-107 | an encoded frame fed to an idle decoder leaves the frame at the start of the buffer, the cursor at 0 and `dataLength` at the payload size, sets `dataReady` and prints nothing |
| Controller.AcceptedRun | src/main.cpp:91-105 | an encoded frame fed to an idle decoder is accepted, prints nothing, and leaves the frame in the buffer with the cursor at 0 |
| Controller.FrameInBuffer | src/main.cpp:109-112 | `executeCommand` then finds the command at 0, the length at 1 and the payload from 2 |
| Controller.BadFrameIgnored | src/main.cpp:93-104 | a frame with a wrong checksum leaves `dataReady` false and the cursor at 0, and prints one checksum error |
| Controller.DroppedRun | src/main.cpp:93-104 | a frame with a wrong checksum is accepted on no byte, prints one checksum error and leaves the cursor at 0 |
| Controller.SetHotkeyRejected | src/main.cpp:130-157 | a rejected SET_HOTKEY leaves the store, the task and the HID log unchanged and prints the reason |
| Controller.SetHotkeyWrites | src/main.cpp:159-171 | an accepted SET_HOTKEY writes `[keyCount, keyType, c0, c1, c2, delayHi, delayLo]` to the first seven bytes of the slot, changes no byte outside it, and sends one success response |
| Controller.SetHotkeyStores | src/main.cpp:159-169 | an accepted SET_HOTKEY leaves the payload's record in the slot it names |
| Controller.ShortSetStoresChecksum | src/main.cpp:131-139 | a SET_HOTKEY frame with a 7-byte payload that passes the checks stores the frame's own checksum as the delay's low byte |
| Controller.CheckSetReadsEightBytes | src/main.cpp:135-139 | `setHotkey` depends on the first eight payload bytes only |
| Controller.RunHotkeyRejected | src/main.cpp:174-188 | RUN_HOTKEY while a task is active, with a zero length byte or with an index of 32 or more leaves the task, the store and the HID log unchanged and prints the reason, with the checks in that order |
| Controller.RunHotkeyStarts | src/main.cpp:190-233 | for a slot of type 1..3 the task starts at `now` with the slot's delay, type, count and codes, and the first `keyCount` codes are pressed in order on that type's channel; any other type leaves the task inactive and presses nothing; the one line printed is the started line with the index for a type of 1..3 and "unknown key type" otherwise |
| Controller.RunHotkeyIgnoresDecoder | src/main.cpp:174-234 | `runHotkey` reads neither the decoder nor `dataReady`, and only the first payload byte |
| Controller.TickReleases | src/main.cpp:66-83 | an active task that is due is released once on its own channel, becomes inactive with its other fields kept, and the completion line is printed; otherwise nothing changes |
| Controller.SetThenRun | src/main.cpp:159-229 | running a slot that still holds an accepted SET_HOTKEY record starts a task with exactly that delay, type, count and codes, presses those codes in order, and a later tick releases the channel exactly when the delay has elapsed |
| Controller.OneTaskAtATime | src/main.cpp:175-178 | while a task runs, RUN_HOTKEY is refused with "task already active" and changes nothing else; once the task is released, RUN_HOTKEY of a valid slot starts again |
| Controller.SetFrameStores | src/main.cpp:109-171 | a SET_HOTKEY frame fed byte by byte and executed stores its record in the slot it names, sends the success response, and leaves the task and the HID log unchanged |
| Controller.RunFrameRuns | src/main.cpp:109-234 | a RUN_HOTKEY frame fed byte by byte and executed does exactly what `runHotkey` of its index does |
| Controller.FramedSetThenRun | src/main.cpp:109-229 | a SET_HOTKEY frame, then a RUN_HOTKEY frame for the same slot: success response, the stored codes pressed on the stored channel, release exactly when the delay has elapsed |
| Controller.KeyboardRequest | src/main.cpp:130-157 | `[0, 1, 2, 4, 5, 0, 0, 100]` is accepted and means the keyboard, 100 ms, and presses of 4 then 5 |
| Controller.KeyboardRun | src/main.cpp:109-229 | SET_HOTKEY `[0, 1, 2, 4, 5, 0, 0, 100]` then RUN_HOTKEY `[0]`, fed and executed frame by frame: the success response, presses of 4 and 5 on the keyboard, and a keyboard task of 100 ms started at the RUN_HOTKEY time |
| Controller.TickAtStart | src/main.cpp:66-67 | the release check in the same millisecond a task with a positive delay started changes nothing |
| Controller.ReleasePass | src/main.cpp:54-83 | a pass with no byte and no frame waiting leaves a running task alone until its delay has elapsed, and from then on releases its channel once and ends it |
| Controller.PendingFeed | src/main.cpp:88-93 | feeding the first bytes of a frame to an idle decoder only moves the decoder: nothing is accepted or printed |
| Controller.QuietPass | src/main.cpp:54-63 | a pass whose byte completes no frame, with no task running, is just that byte fed to the decoder |
| Controller.PassesPending | src/main.cpp:54-63 | the passes delivering the bytes of a frame before its last one only feed them: no command runs and no release happens |
| Controller.FramePasses | src/main.cpp:54-84 | a command frame arriving one byte per pass with no task running: the last pass executes the command and then runs the release check, both at that pass's time |
| Controller.SetRunPasses | src/main.cpp:54-84 | SET_HOTKEY then RUN_HOTKEY of the same slot, one byte per pass: the passes end exactly where executing the two commands leads, the RUN_HOTKEY pass followed by its own release check |
| Controller.KeyboardScenario | src/main.cpp:54-84 | SET_HOTKEY `[0, 1, 2, 4, 5, 0, 0, 100]` then RUN_HOTKEY `[0]`, one byte per pass of `loop`: a success response, presses of 4 and 5 on the keyboard, no release in the command's own pass, and a later idle pass that changes nothing before 100 ms have elapsed and from then on releases the keyboard once and ends the task |
| Firmware.Device.constructor | src/main.cpp:15-39 | power-up: a zeroed buffer, cursor 0, no frame ready, the idle task, the given store and empty logs |
| Firmware.Device.BufferChecksum | src/main.cpp:95-98 | the checksum loop yields `Checksum` of the first n buffer bytes |
| Firmware.Device.ProcessSerialData | src/main.cpp:87-107 | the in-place buffer update follows `Controller.Feed` |
| Firmware.Device.WriteEEPROM | src/main.cpp:252-260 | the bytes land at `address` and nothing else in the store changes |
| Firmware.Device.ReadEEPROM | src/main.cpp:282-293 | the local array receives the store bytes at `address` |
| Firmware.Device.ResponseChecksum | src/main.cpp:300-303 | the loop yields `Checksum` of `[0x04, len]` and the first len message bytes |
| Firmware.Device.SendResponse | src/main.cpp:295-305 | exactly the frame `EncodeResponse(message)` is written |
| Firmware.Device.StoreRecord | src/main.cpp:159-169 | filling `hotkeyData` and writing it leaves the store as `WriteSlot` of the payload's record |
| Firmware.Device.SetHotkey | src/main.cpp:130-172 | follows `Controller.SetHotkey` |
| Firmware.Device.PressKeys | src/main.cpp:209-225 | the press loop appends `Presses` of the first `PressCount` codes |
| Firmware.Device.RunHotkey | src/main.cpp:174-234 | follows `Controller.RunHotkey` |
| Firmware.Device.ListHotkeys | src/main.cpp:237-240 | follows `Controller.ListHotkeys` |
| Firmware.Device.ExecuteCommand | src/main.cpp:109-128 | follows `Controller.Execute` |
| Firmware.Device.ReleaseIfDue | src/main.cpp:66-83 | follows `Controller.Tick` |
| Firmware.Device.Loop | src/main.cpp:54-84 | one pass reads at most one byte, executes a ready frame after clearing `dataReady`, then runs the release check, as `Controller.LoopStep` |

## Left out

- Frames.Step: when the 128th byte does not complete a frame, the cursor returns to 0 and a `BufferOverflow` diagnostic is logged. The firmware has no such guard and writes past the buffer (see Findings).
- Hotkeys.PressCount: caps the number of codes pressed at 3. The firmware's loop runs up to the stored `keyCount`, and past index 2 it reads memory the model does not have.
- Controller.RunHotkeyStarts: states the presses only for a stored count of at most 3 (`b[0] <= 3`). A larger count is the capped case of `Hotkeys.PressCount`.
- Firmware.Device.PressKeys: the loop stops at 3 codes (`i < 3`) as well as at `keyCount`. The firmware has no such bound, for the same reason as `Hotkeys.PressCount`.
- Hotkeys.Elapsed: the contract states only the 32-bit range. Its wrap-around meaning is stated by `Hotkeys.ElapsedWraps`, for every start time and distance.
- Controller.KeyboardScenario: states the idle pass for any later time through `Elapsed(later, t1)`, not at the two literal times t1 + 99 and t1 + 100. With `Hotkeys.ElapsedWraps`, those two times lie on either side of the 100 ms bound.
- Controller.RunHotkey: presses at most three codes (`PressCount`). For a stored count above 3 the firmware's press loop reads past `keyCodes[3]` into memory the model does not have. `setHotkey` never stores such a count.
- The I2C transactions of `writeEEPROM`/`readEEPROM`, including the two address bytes, are replaced by a 256-byte array. These are calls into the Wire library.
- `readEEPROM` returning fewer bytes than requested (`Wire.available()` running out) is not modelled: the read always delivers all eight bytes.
- The write-acknowledge polling of `writeEEPROM`, with its 10 ms timeout and "write timed out" line, is left out. It is hardware timing; in the model every write completes.
- `setup()` (serial, I2C and HID initialisation, the start-up line) is left out; the constructor models only the initial values of the globals.
- The HID-Project calls are only logged as `Press`/`ReleaseAll` events; the `press` loops of the three channels are one loop over the chosen channel.
- The UTF-8 texts of the messages are opaque; `Serial.print(index)` is the tag `HotkeyStarted(index)`.
- The commented-out first version of `writeEEPROM` is not modelled.
- `millis()` is read once per pass of `loop`: one `now` serves the command and the release check of that pass.

## Findings

| source | as written | input that shows it | evidently intended | confidence | as-written member | corrected member |
|---|---|---|---|---|---|---|
| src/main.cpp:88-89 | `incomingData[index++]` is written with no bound; a length byte of 126 or more keeps the frame open past 128 bytes | `[1, 126]` then 126 zero bytes, then any further byte, which is written to `incomingData[128]` | the cursor never leaves the 128-byte buffer; an over-long frame is dropped | not executed | Frames.SourceOverrunsBuffer | Frames.OverlongFrameDropped |
