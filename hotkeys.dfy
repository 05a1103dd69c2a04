/** Hotkey records as the firmware stores them (eight bytes per slot in a
    256-byte store), the checks `setHotkey` applies to a SET_HOTKEY payload,
    the single running task, and the three HID channels. */
module Hotkeys {
  import opened Wrappers
  import opened Frames

  const HotkeyCount: nat := 32
  const HotkeySize: nat := 8
  /** The part of the persistent store the firmware uses: 32 slots of 8 bytes. */
  const StoreSize: nat := 256
  const MaxDelay: nat := 5000

  const CmdSetHotkey: Byte := 0x01
  const CmdRunHotkey: Byte := 0x02
  const CmdListHotkeys: Byte := 0x03

  /** The diagnostics the firmware prints as unframed text lines. */
  datatype Diag =
    | ChecksumError      // the trailing byte of a frame is not its checksum
    | BufferOverflow     // the model's guard dropped a frame that does not fit the buffer
    | UnknownCommand
    | PayloadTooShort
    | IndexOutOfRange
    | InvalidKeyType
    | InvalidKeyCount
    | InvalidDelay
    | TaskAlreadyActive
    | UnknownKeyType
    | HotkeyStarted(index: Byte)
    | HotkeyDone

  // ---------------------------------------------------------------------------
  // The delay field
  // ---------------------------------------------------------------------------

  /** The AVR's 16-bit signed `int`. */
  type Int16 = x: int | -0x8000 <= x < 0x8000

  /** `(hi << 8) | lo` evaluated in a 16-bit `int`: a high byte of 128 or
      more lands in the sign bit. */
  function DelayField(hi: Byte, lo: Byte): (x: Int16)
    ensures (x - DelayValue(hi, lo)) % 0x1_0000 == 0
    ensures x < 0 <==> hi >= 0x80
  {
    var u: int := hi * 256 + lo;
    if u < 0x8000 then u else u - 0x1_0000
  }

  /** The two delay bytes read as an unsigned 16-bit number. */
  function DelayValue(hi: Byte, lo: Byte): (n: nat)
    ensures n < 0x1_0000 && n / 256 == hi && n % 256 == lo
  {
    hi * 256 + lo
  }

  /** The signed range check of `setHotkey` rejects exactly the unsigned
      delays above 5000, and an accepted delay reads the same either way. */
  lemma DelayRangeCheck(hi: Byte, lo: Byte)
    ensures (DelayField(hi, lo) < 0 || DelayField(hi, lo) > MaxDelay) <==> DelayValue(hi, lo) > MaxDelay
    ensures DelayValue(hi, lo) <= MaxDelay ==> DelayField(hi, lo) == DelayValue(hi, lo)
  {
  }

  // ---------------------------------------------------------------------------
  // SET_HOTKEY validation
  // ---------------------------------------------------------------------------

  /** The checks of `setHotkey` in the source's order, over the payload
      `data` (the buffer from offset 2) and the frame's length byte; on
      success the slot index. The index is a byte, so it is never negative. */
  function CheckSet(data: seq<Byte>, length: Byte): (r: Result<nat, Diag>)
    requires |data| >= HotkeySize
    ensures r.Success? ==> r.value == data[0] < HotkeyCount && length >= 7
    ensures r.Failure? ==> r.error in {PayloadTooShort, IndexOutOfRange, InvalidKeyType, InvalidKeyCount, InvalidDelay}
  {
    if length < 7 then Failure(PayloadTooShort)
    else if data[0] >= HotkeyCount then Failure(IndexOutOfRange)
    else if data[1] < 1 || data[1] > 3 then Failure(InvalidKeyType)
    else if data[2] < 1 || data[2] > 3 then Failure(InvalidKeyCount)
    else if DelayField(data[6], data[7]) < 0 || DelayField(data[6], data[7]) > MaxDelay then Failure(InvalidDelay)
    else Success(data[0])
  }

  /** A SET_HOTKEY payload is accepted exactly when it has at least 7 bytes,
      an index below 32, a type and a count in 1..3 and a delay of at most
      5000; the slot is the index byte. */
  lemma SetAcceptedIff(data: seq<Byte>, length: Byte)
    requires |data| >= HotkeySize
    ensures CheckSet(data, length).Success? <==>
              && length >= 7 && data[0] < HotkeyCount
              && 1 <= data[1] <= 3 && 1 <= data[2] <= 3
              && DelayValue(data[6], data[7]) <= MaxDelay
    ensures CheckSet(data, length).Success? ==> CheckSet(data, length).value == data[0]
  {
    DelayRangeCheck(data[6], data[7]);
  }

  /** The boundaries: index 31, count 3 and delay 5000 pass; index 32,
      counts 0 and 4 and delay 5001 (0x13 0x89) are each rejected with
      their own diagnostic. */
  lemma SetBoundaries(data: seq<Byte>)
    requires |data| >= HotkeySize && 1 <= data[1] <= 3
    requires data[0] == 31 && data[2] == 3 && data[6] == 0x13 && data[7] == 0x88
    ensures CheckSet(data, 7) == Success(31)
    ensures CheckSet(data[0 := 32], 7) == Failure(IndexOutOfRange)
    ensures CheckSet(data[2 := 0], 7) == Failure(InvalidKeyCount)
    ensures CheckSet(data[2 := 4], 7) == Failure(InvalidKeyCount)
    ensures CheckSet(data[7 := 0x89], 7) == Failure(InvalidDelay)
    ensures CheckSet(data, 6) == Failure(PayloadTooShort)
  {
  }

  // ---------------------------------------------------------------------------
  // Records and slots
  // ---------------------------------------------------------------------------

  /** One stored hotkey: `[keyCount, keyType, code0, code1, code2, delayHi,
      delayLo, spare]`. */
  datatype HotkeyRecord = HotkeyRecord(keyCount: Byte, keyType: Byte, keyCodes: seq<Byte>, delayHi: Byte, delayLo: Byte)

  /** The eight bytes `setHotkey` hands to the store; the last is the
      uninitialised eighth cell of its local array. */
  function RecordBytes(r: HotkeyRecord, spare: Byte): (b: seq<Byte>)
    requires |r.keyCodes| == 3
    ensures |b| == HotkeySize
  {
    [r.keyCount, r.keyType] + r.keyCodes + [r.delayHi, r.delayLo, spare]
  }

  /** How `runHotkey` reads the eight bytes of a slot. */
  function ReadRecord(b: seq<Byte>): (r: HotkeyRecord)
    requires |b| == HotkeySize
    ensures |r.keyCodes| == 3
  {
    HotkeyRecord(b[0], b[1], b[2..5], b[5], b[6])
  }

  /** Reading back what was written gives the record whatever the spare byte. */
  lemma RecordRoundTrip(r: HotkeyRecord, spare: Byte)
    requires |r.keyCodes| == 3
    ensures ReadRecord(RecordBytes(r, spare)) == r
  {
    var b := RecordBytes(r, spare);
    assert b[2..5] == r.keyCodes;
  }

  /** The layout loses nothing but the spare byte. */
  lemma RecordBytesRoundTrip(b: seq<Byte>)
    requires |b| == HotkeySize
    ensures RecordBytes(ReadRecord(b), b[7]) == b
  {
  }

  /** The record a SET_HOTKEY payload `[index, keyType, keyCount, c0, c1, c2,
      delayHi, delayLo]` describes (note the swap of type and count). */
  function RequestRecord(data: seq<Byte>): (r: HotkeyRecord)
    requires |data| >= HotkeySize
    ensures |r.keyCodes| == 3
  {
    HotkeyRecord(data[2], data[1], data[3..6], data[6], data[7])
  }

  /** The eight bytes of slot `index`, at offset `index * 8`. */
  function Slot(store: seq<Byte>, index: nat): (b: seq<Byte>)
    requires |store| == StoreSize && index < HotkeyCount
    ensures |b| == HotkeySize
  {
    store[index * HotkeySize .. index * HotkeySize + HotkeySize]
  }

  /** The store after writing eight bytes to slot `index`. */
  function WriteSlot(store: seq<Byte>, index: nat, bytes: seq<Byte>): (s: seq<Byte>)
    requires |store| == StoreSize && index < HotkeyCount && |bytes| == HotkeySize
    ensures |s| == StoreSize
    ensures Slot(s, index) == bytes
    ensures forall k :: 0 <= k < StoreSize && !(index * HotkeySize <= k < index * HotkeySize + HotkeySize) ==> s[k] == store[k]
    ensures forall j :: 0 <= j < HotkeyCount && j != index ==> Slot(s, j) == Slot(store, j)
  {
    var s := store[..index * HotkeySize] + bytes + store[index * HotkeySize + HotkeySize..];
    assert forall j :: 0 <= j < HotkeyCount && j != index ==> Slot(s, j) == Slot(store, j) by {
      forall j | 0 <= j < HotkeyCount && j != index ensures Slot(s, j) == Slot(store, j) {
        assert j < index || j > index;
      }
    }
    s
  }

  /** Writing the same bytes to a slot twice leaves what one write leaves. */
  lemma WriteSlotIdempotent(store: seq<Byte>, index: nat, bytes: seq<Byte>)
    requires |store| == StoreSize && index < HotkeyCount && |bytes| == HotkeySize
    ensures WriteSlot(WriteSlot(store, index, bytes), index, bytes) == WriteSlot(store, index, bytes)
  {
    var once := WriteSlot(store, index, bytes);
    var twice := WriteSlot(once, index, bytes);
    forall k | 0 <= k < StoreSize ensures twice[k] == once[k] {
      if index * HotkeySize <= k < index * HotkeySize + HotkeySize {
        assert twice[k] == Slot(twice, index)[k - index * HotkeySize];
        assert once[k] == Slot(once, index)[k - index * HotkeySize];
      }
    }
  }

  // ---------------------------------------------------------------------------
  // Channels and the running task
  // ---------------------------------------------------------------------------

  /** The three HID-Project devices: `Keyboard`, `Consumer`, `System`. */
  datatype Channel = Keyboard | Consumer | System

  /** The channel a key type selects; any other type selects none. */
  function ChannelOf(keyType: Byte): (c: Option<Channel>)
    ensures c.Some? <==> 1 <= keyType <= 3
  {
    if keyType == 1 then Some(Keyboard)
    else if keyType == 2 then Some(Consumer)
    else if keyType == 3 then Some(System)
    else None
  }

  /** One HID call, as the model logs it. */
  datatype HidEvent = Press(channel: Channel, code: Byte) | ReleaseAll(channel: Channel)

  /** Pressing the codes one after another on one channel. */
  function Presses(ch: Channel, codes: seq<Byte>): (events: seq<HidEvent>)
    ensures |events| == |codes|
    ensures forall i :: 0 <= i < |codes| ==> events[i] == Press(ch, codes[i])
  {
    if codes == [] then [] else Presses(ch, codes[..|codes| - 1]) + [Press(ch, codes[|codes| - 1])]
  }

  /** The global `currentTask`. */
  datatype HotkeyTask = HotkeyTask(active: bool, startTime: bv32, delayTime: Int16, keyType: Byte, keyCount: Byte, keyCodes: seq<Byte>)

  /** Its static initialiser `{false, 0, 0, 0, 0, {0, 0, 0}}`. */
  const IdleTask: HotkeyTask := HotkeyTask(false, 0, 0, 0, 0, [0, 0, 0])

  /** An active task always has a channel to release. */
  predicate TaskValid(t: HotkeyTask)
  {
    |t.keyCodes| == 3 && (t.active ==> ChannelOf(t.keyType).Some?)
  }

  /** The task `runHotkey` records for a slot read at time `now`. */
  function StartedTask(r: HotkeyRecord, now: bv32): (t: HotkeyTask)
    ensures t.active && t.startTime == now && t.keyCodes == r.keyCodes
    ensures DelayValue(r.delayHi, r.delayLo) <= MaxDelay ==> t.delayTime == DelayValue(r.delayHi, r.delayLo)
  {
    HotkeyTask(true, now, DelayField(r.delayHi, r.delayLo), r.keyType, r.keyCount, r.keyCodes)
  }

  /** How many codes the press loop presses: the stored count, but never
      more than the three codes the task holds. */
  function PressCount(t: HotkeyTask): (n: nat)
    ensures n <= 3 && (t.keyCount <= 3 ==> n == t.keyCount)
  {
    if t.keyCount < 3 then t.keyCount else 3
  }

  /** `millis() - startTime` in 32-bit unsigned arithmetic. */
  function Elapsed(now: bv32, start: bv32): (d: nat)
    ensures d < 0x1_0000_0000
  {
    (now - start) as int
  }

  /** An `int` converted to `unsigned long` for the comparison in `loop`. */
  function AsUnsignedLong(x: Int16): (u: nat)
    ensures u < 0x1_0000_0000
    ensures u == if x >= 0 then x else x + 0x1_0000_0000
  {
    x % 0x1_0000_0000
  }

  /** The release condition of `loop`. */
  predicate Due(t: HotkeyTask, now: bv32)
  {
    Elapsed(now, t.startTime) >= AsUnsignedLong(t.delayTime)
  }

  /** The elapsed time is wrap-around safe: it is the distance from `start`
      forward to `now` on the 32-bit clock. */
  lemma ElapsedWraps(start: bv32, d: bv32)
    ensures Elapsed(start + d, start) == d as int
  {
  }
}
