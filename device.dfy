/** The firmware as the processor runs it: the receive buffer `incomingData`
    and the persistent store are arrays updated in place, the decoder's
    static cursor, `dataLength`, `dataReady` and `currentTask` are fields,
    and the HID calls and serial writes are appended to two logs. Every
    method is proved to change the state exactly as the matching function
    of `Controller` does. */
module Firmware {
  import opened Wrappers
  import opened Frames
  import opened Hotkeys
  import opened Controller

  class Device {
    /** The 128-byte receive buffer. */
    const incomingData: array<Byte>
    /** The static `index` of `processSerialData`. */
    var index: nat
    var dataLength: int
    var dataReady: bool
    var currentTask: HotkeyTask
    /** The 256 bytes of the external store that hold the 32 slots. */
    const eeprom: array<Byte>
    /** Every `press` and `releaseAll` call, in order. */
    var hid: seq<HidEvent>
    /** Every framed response and text line written to the serial port. */
    var serial: seq<SerialOut>
    const texts: Texts

    ghost predicate Valid()
      reads this
    {
      && incomingData.Length == Capacity && eeprom.Length == StoreSize && incomingData != eeprom
      && index < Capacity && TaskValid(currentTask)
    }

    /** The device's state as a `Controller.Machine`. */
    ghost function State(): (m: Machine)
      reads this, incomingData, eeprom
      requires Valid()
      ensures m.Valid()
    {
      Machine(Decoder(incomingData[..], index, dataLength), dataReady, currentTask, eeprom[..], hid, serial, texts)
    }

    /** Power-up: a zeroed buffer, no frame pending, the idle task, and a
        store holding whatever it held before. */
    constructor (initialStore: seq<Byte>, texts: Texts)
      requires |initialStore| == StoreSize
      ensures Valid() && fresh(incomingData) && fresh(eeprom)
      ensures State() == Machine(Decoder(seq(Capacity, _ => 0), 0, 0), false, IdleTask, initialStore, [], [], texts)
    {
      incomingData := new Byte[Capacity](_ => 0);
      eeprom := new Byte[StoreSize](i requires 0 <= i < StoreSize => initialStore[i]);
      index := 0;
      dataLength := 0;
      dataReady := false;
      currentTask := IdleTask;
      hid := [];
      serial := [];
      this.texts := texts;
    }

    // -------------------------------------------------------------------------
    // Receiving
    // -------------------------------------------------------------------------

    /** The checksum loop of `processSerialData` over the first `n` buffer
        bytes. */
    method BufferChecksum(n: nat) returns (checksum: Byte)
      requires n <= incomingData.Length
      ensures checksum == Checksum(incomingData[..n])
    {
      checksum := 0;
      var i := 0;
      while i < n
        invariant i <= n
        invariant checksum == Checksum(incomingData[..i])
      {
        assert incomingData[..i + 1][..i] == incomingData[..i];
        checksum := (checksum + incomingData[i]) % 256;
        i := i + 1;
      }
    }

    /** `processSerialData(incomingByte)`, with the end-of-buffer guard of
        `Frames.Step`. */
    method ProcessSerialData(incomingByte: Byte)
      requires Valid()
      modifies this, incomingData
      ensures Valid() && State() == Feed(old(State()), incomingByte)
    {
      ghost var m := State();
      ghost var r := Step(m.dec, incomingByte);
      incomingData[index] := incomingByte;
      assert incomingData[..] == r.0.buf;
      var next := index + 1;
      index := next;
      if next >= 2 {
        dataLength := incomingData[1];
        if next == dataLength + 3 {
          var checksum := BufferChecksum(next - 1);
          if checksum == incomingData[next - 1] {
            dataReady := true;
          } else {
            serial := serial + [Diagnostic(ChecksumError)];
          }
          index := 0;
        } else if next == Capacity {
          serial := serial + [Diagnostic(BufferOverflow)];
          index := 0;
        }
      }
    }

    // -------------------------------------------------------------------------
    // The store
    // -------------------------------------------------------------------------

    /** `writeEEPROM(address, data, length)`: the bytes land at `address`
        and nothing else in the store changes. */
    method WriteEEPROM(address: nat, data: array<Byte>)
      requires Valid() && data != eeprom && address + data.Length <= eeprom.Length
      modifies eeprom
      ensures eeprom[..] == old(eeprom[..address]) + data[..] + old(eeprom[address + data.Length..])
    {
      var i := 0;
      while i < data.Length
        invariant i <= data.Length
        invariant eeprom[..address] == old(eeprom[..address])
        invariant eeprom[address..address + i] == data[..i]
        invariant eeprom[address + i..] == old(eeprom[address + i..])
      {
        eeprom[address + i] := data[i];
        assert eeprom[address + i + 1..] == old(eeprom[address + i + 1..]) by {
          assert eeprom[address + i + 1..] == eeprom[address + i..][1..];
          assert old(eeprom[address + i + 1..]) == old(eeprom[address + i..])[1..];
        }
        i := i + 1;
      }
      assert eeprom[..] == eeprom[..address] + eeprom[address..address + data.Length] + eeprom[address + data.Length..];
    }

    /** `readEEPROM(address, data, length)`: `data` receives the bytes at
        `address`. */
    method ReadEEPROM(address: nat, data: array<Byte>)
      requires Valid() && data != eeprom && address + data.Length <= eeprom.Length
      modifies data
      ensures data[..] == eeprom[address..address + data.Length]
    {
      var i := 0;
      while i < data.Length
        invariant i <= data.Length
        invariant data[..i] == eeprom[address..address + i]
      {
        data[i] := eeprom[address + i];
        i := i + 1;
      }
    }

    // -------------------------------------------------------------------------
    // Responses
    // -------------------------------------------------------------------------

    /** The checksum loop of `sendResponse`: start from `CMD_RESPONSE +
        length` and add each sent byte, wrapping. */
    method ResponseChecksum(message: seq<Byte>, length: nat) returns (checksum: Byte)
      requires length <= |message| && length < 256
      ensures checksum == Checksum([CmdResponse, length] + message[..length])
    {
      var header: seq<Byte> := [CmdResponse, length];
      assert header[..1] == [CmdResponse] && [CmdResponse][..0] == [];
      assert Checksum([CmdResponse]) == CmdResponse;
      assert Checksum(header) == (Checksum(header[..1]) + header[1]) % 256;
      assert header + message[..0] == header;
      checksum := (CmdResponse + length) % 256;
      var i := 0;
      while i < length
        invariant i <= length
        invariant checksum == Checksum([CmdResponse, length] + message[..i])
      {
        assert ([CmdResponse, length] + message[..i + 1])[..i + 2] == [CmdResponse, length] + message[..i];
        checksum := (checksum + message[i]) % 256;
        i := i + 1;
      }
    }

    /** `sendResponse(message)`: `CMD_RESPONSE`, the length as a byte, that
        many message bytes, then the checksum. */
    method SendResponse(message: seq<Byte>)
      modifies this`serial
      ensures serial == old(serial) + [Response(EncodeResponse(message))]
    {
      var length := |message| % 256;
      var checksum := ResponseChecksum(message, length);
      serial := serial + [Response([CmdResponse, length] + message[..length] + [checksum])];
    }

    // -------------------------------------------------------------------------
    // Commands
    // -------------------------------------------------------------------------

    /** `setHotkey(data, length)`; `spare` is what the never-written last
        cell of the local `hotkeyData` holds. */
    method SetHotkey(data: seq<Byte>, length: Byte, spare: Byte)
      requires Valid() && |data| >= HotkeySize
      modifies this, eeprom
      ensures Valid() && State() == Controller.SetHotkey(old(State()), data, length, spare)
    {
      if length < 7 {
        serial := serial + [Diagnostic(PayloadTooShort)];
        return;
      }
      var index := data[0];
      var keyType := data[1];
      var keyCount := data[2];
      var delayTime := DelayField(data[6], data[7]);
      if index >= HotkeyCount {
        serial := serial + [Diagnostic(IndexOutOfRange)];
        return;
      }
      if keyType < 1 || keyType > 3 {
        serial := serial + [Diagnostic(InvalidKeyType)];
        return;
      }
      if keyCount < 1 || keyCount > 3 {
        serial := serial + [Diagnostic(InvalidKeyCount)];
        return;
      }
      if delayTime < 0 || delayTime > MaxDelay {
        serial := serial + [Diagnostic(InvalidDelay)];
        return;
      }
      StoreRecord(index, data, spare);
      SendResponse(texts.setSuccess);
    }

    /** The tail of `setHotkey`: the local `hotkeyData` is filled and
        written to slot `index`. */
    method StoreRecord(index: nat, data: seq<Byte>, spare: Byte)
      requires Valid() && index < HotkeyCount && |data| >= HotkeySize
      modifies eeprom
      ensures eeprom[..] == WriteSlot(old(eeprom[..]), index, RecordBytes(RequestRecord(data), spare))
    {
      var hotkeyData := new Byte[HotkeySize](_ => spare);
      assert hotkeyData[7] == spare;
      hotkeyData[0] := data[2];
      hotkeyData[1] := data[1];
      hotkeyData[2] := data[3];
      hotkeyData[3] := data[4];
      hotkeyData[4] := data[5];
      hotkeyData[5] := data[6];
      hotkeyData[6] := data[7];
      ghost var expected := RecordBytes(RequestRecord(data), spare);
      assert forall k :: 0 <= k < HotkeySize ==> hotkeyData[k] == expected[k];
      assert hotkeyData[..] == expected;
      WriteEEPROM(index * HotkeySize, hotkeyData);
    }

    /** `runHotkey(data, length)` at time `now`. */
    method RunHotkey(data: seq<Byte>, length: Byte, now: bv32)
      requires Valid() && |data| >= 1
      modifies this
      ensures Valid() && State() == Controller.RunHotkey(old(State()), data, length, now)
    {
      if currentTask.active {
        serial := serial + [Diagnostic(TaskAlreadyActive)];
        return;
      }
      if length < 1 {
        serial := serial + [Diagnostic(PayloadTooShort)];
        return;
      }
      var index := data[0];
      if index >= HotkeyCount {
        serial := serial + [Diagnostic(IndexOutOfRange)];
        return;
      }
      var hotkeyData := new Byte[HotkeySize];
      ReadEEPROM(index * HotkeySize, hotkeyData);
      assert hotkeyData[..] == Slot(eeprom[..], index);
      var keyCount := hotkeyData[0];
      var keyType := hotkeyData[1];
      var delayTime := DelayField(hotkeyData[5], hotkeyData[6]);
      currentTask := HotkeyTask(true, now, delayTime, keyType, keyCount, hotkeyData[2..5]);
      assert currentTask == StartedTask(ReadRecord(Slot(eeprom[..], index)), now);
      var channel := ChannelOf(keyType);
      if channel.None? {
        serial := serial + [Diagnostic(UnknownKeyType)];
        currentTask := currentTask.(active := false);
        return;
      }
      PressKeys(channel.value);
      serial := serial + [Diagnostic(HotkeyStarted(index))];
    }

    /** The press loop of `runHotkey` on channel `ch`, bounded by the three
        codes the task holds. */
    method PressKeys(ch: Channel)
      requires |currentTask.keyCodes| == 3
      modifies this`hid
      ensures hid == old(hid) + Presses(ch, currentTask.keyCodes[..PressCount(currentTask)])
    {
      var i := 0;
      while i < currentTask.keyCount as int && i < 3
        invariant i <= PressCount(currentTask)
        invariant hid == old(hid) + Presses(ch, currentTask.keyCodes[..i])
      {
        assert currentTask.keyCodes[..i + 1][..i] == currentTask.keyCodes[..i];
        hid := hid + [Press(ch, currentTask.keyCodes[i])];
        i := i + 1;
      }
    }

    /** `listHotkeys()`. */
    method ListHotkeys()
      requires Valid()
      modifies this
      ensures Valid() && State() == Controller.ListHotkeys(old(State()))
    {
      SendResponse(texts.listNotImplemented);
    }

    /** `executeCommand()` on the frame in the buffer. */
    method ExecuteCommand(now: bv32, spare: Byte)
      requires Valid()
      modifies this, eeprom
      ensures Valid() && State() == Execute(old(State()), now, spare)
    {
      var command := incomingData[0];
      var length := incomingData[1];
      var data := incomingData[2..];
      if command == CmdSetHotkey {
        SetHotkey(data, length, spare);
      } else if command == CmdRunHotkey {
        RunHotkey(data, length, now);
      } else if command == CmdListHotkeys {
        ListHotkeys();
      } else {
        serial := serial + [Diagnostic(UnknownCommand)];
      }
    }

    // -------------------------------------------------------------------------
    // The main loop
    // -------------------------------------------------------------------------

    /** The release block of `loop` at time `now`. */
    method ReleaseIfDue(now: bv32)
      requires Valid()
      modifies this
      ensures Valid() && State() == Tick(old(State()), now)
    {
      if currentTask.active {
        if Elapsed(now, currentTask.startTime) >= AsUnsignedLong(currentTask.delayTime) {
          if currentTask.keyType == 1 {
            hid := hid + [ReleaseAll(Keyboard)];
          } else if currentTask.keyType == 2 {
            hid := hid + [ReleaseAll(Consumer)];
          } else if currentTask.keyType == 3 {
            hid := hid + [ReleaseAll(System)];
          }
          currentTask := currentTask.(active := false);
          serial := serial + [Diagnostic(HotkeyDone)];
        }
      }
    }

    /** One pass of `loop`: `input` is the byte `Serial.read()` returns when
        one is available, `now` is `millis()`. */
    method Loop(input: Option<Byte>, now: bv32, spare: Byte)
      requires Valid()
      modifies this, incomingData, eeprom
      ensures Valid() && State() == LoopStep(old(State()), input, now, spare)
    {
      if input.Some? {
        ProcessSerialData(input.value);
      }
      if dataReady {
        dataReady := false;
        ExecuteCommand(now, spare);
      }
      ReleaseIfDue(now);
    }
  }
}
