/** The firmware's whole state and its transitions as values: one byte fed
    to the decoder (`processSerialData`), one decoded command executed
    (`executeCommand` with `setHotkey`, `runHotkey`, `listHotkeys`), one
    poll of the running task (the release block of `loop`), and one pass of
    `loop`. The class `Firmware.Device` is proved to follow these. */
module Controller {
  import opened Wrappers
  import opened Frames
  import opened Hotkeys

  /** The two framed response messages, kept as opaque byte strings. */
  datatype Texts = Texts(setSuccess: seq<Byte>, listNotImplemented: seq<Byte>)

  /** What goes out on the serial line: a framed response, or a text line. */
  datatype SerialOut = Response(frame: seq<Byte>) | Diagnostic(diag: Diag)

  /** The decoder, `dataReady`, `currentTask`, the store, and the logs of HID
      calls and serial output. */
  datatype Machine = Machine(dec: Decoder, dataReady: bool, task: HotkeyTask, store: seq<Byte>,
                             hid: seq<HidEvent>, serial: seq<SerialOut>, texts: Texts)
  {
    predicate Valid()
    {
      dec.Valid() && TaskValid(task) && |store| == StoreSize
    }
  }

  /** The diagnostic a verdict prints, if any. */
  function VerdictDiags(v: Verdict): (out: seq<SerialOut>)
    ensures |out| <= 1 && (out == [] <==> v == Partial || v == Accepted)
  {
    match v
    case BadChecksum => [Diagnostic(ChecksumError)]
    case Overflow => [Diagnostic(BufferOverflow)]
    case _ => []
  }

  // ---------------------------------------------------------------------------
  // Transitions
  // ---------------------------------------------------------------------------

  /** `processSerialData(b)`: an accepted frame sets `dataReady`; nothing
      clears it here. */
  function Feed(m: Machine, b: Byte): (m': Machine)
    requires m.Valid()
    ensures m'.Valid()
    ensures m.dataReady ==> m'.dataReady
    ensures m'.task == m.task && m'.store == m.store && m'.hid == m.hid && m'.texts == m.texts
  {
    var r := Step(m.dec, b);
    m.(dec := r.0, dataReady := m.dataReady || r.1 == Accepted, serial := m.serial + VerdictDiags(r.1))
  }

  /** `setHotkey(data, length)`. */
  function SetHotkey(m: Machine, data: seq<Byte>, length: Byte, spare: Byte): (m': Machine)
    requires m.Valid() && |data| >= HotkeySize
    ensures m'.Valid()
    ensures m'.dec == m.dec && m'.dataReady == m.dataReady && m'.texts == m.texts
    ensures m'.task == m.task && m'.hid == m.hid && |m'.serial| == |m.serial| + 1
  {
    match CheckSet(data, length)
    case Failure(e) => m.(serial := m.serial + [Diagnostic(e)])
    case Success(index) =>
      m.(store := WriteSlot(m.store, index, RecordBytes(RequestRecord(data), spare)),
         serial := m.serial + [Response(EncodeResponse(m.texts.setSuccess))])
  }

  /** `runHotkey(data, length)` at time `now`. */
  function RunHotkey(m: Machine, data: seq<Byte>, length: Byte, now: bv32): (m': Machine)
    requires m.Valid() && |data| >= 1
    ensures m'.Valid()
    ensures m'.dec == m.dec && m'.dataReady == m.dataReady && m'.texts == m.texts
    ensures m'.store == m.store && |m'.serial| == |m.serial| + 1
    ensures m.task.active ==> m'.task == m.task && m'.hid == m.hid
  {
    if m.task.active then m.(serial := m.serial + [Diagnostic(TaskAlreadyActive)])
    else if length < 1 then m.(serial := m.serial + [Diagnostic(PayloadTooShort)])
    else if data[0] >= HotkeyCount then m.(serial := m.serial + [Diagnostic(IndexOutOfRange)])
    else
      var t := StartedTask(ReadRecord(Slot(m.store, data[0])), now);
      match ChannelOf(t.keyType)
      case None => m.(task := t.(active := false), serial := m.serial + [Diagnostic(UnknownKeyType)])
      case Some(ch) =>
        m.(task := t, hid := m.hid + Presses(ch, t.keyCodes[..PressCount(t)]),
           serial := m.serial + [Diagnostic(HotkeyStarted(data[0]))])
  }

  /** `listHotkeys()`: always the "not implemented" response. */
  function ListHotkeys(m: Machine): (m': Machine)
    requires m.Valid()
    ensures m'.Valid()
    ensures m'.dec == m.dec && m'.dataReady == m.dataReady && m'.task == m.task
    ensures m'.store == m.store && m'.hid == m.hid && m'.texts == m.texts
    ensures |m'.serial| == |m.serial| + 1
  {
    m.(serial := m.serial + [Response(EncodeResponse(m.texts.listNotImplemented))])
  }

  /** `executeCommand()` on the frame in the buffer; `spare` is the value the
      uninitialised eighth byte of a SET_HOTKEY record happens to hold. */
  function Execute(m: Machine, now: bv32, spare: Byte): (m': Machine)
    requires m.Valid()
    ensures m'.Valid()
    ensures m'.dec == m.dec && m'.dataReady == m.dataReady && m'.texts == m.texts
    ensures |m'.serial| == |m.serial| + 1
  {
    var command := m.dec.buf[0];
    var length := m.dec.buf[1];
    var data := m.dec.buf[2..];
    if command == CmdSetHotkey then SetHotkey(m, data, length, spare)
    else if command == CmdRunHotkey then RunHotkey(m, data, length, now)
    else if command == CmdListHotkeys then ListHotkeys(m)
    else m.(serial := m.serial + [Diagnostic(UnknownCommand)])
  }

  /** The `releaseAll` call for a key type's channel. */
  function Released(keyType: Byte): (events: seq<HidEvent>)
    ensures |events| <= 1 && (events == [] <==> ChannelOf(keyType).None?)
  {
    match ChannelOf(keyType)
    case Some(ch) => [ReleaseAll(ch)]
    case None => []
  }

  /** The release block of `loop` at time `now`. */
  function Tick(m: Machine, now: bv32): (m': Machine)
    requires m.Valid()
    ensures m'.Valid()
    ensures m'.dec == m.dec && m'.dataReady == m.dataReady && m'.store == m.store && m'.texts == m.texts
    ensures m'.task.active ==> m' == m
  {
    if m.task.active && Due(m.task, now) then
      m.(task := m.task.(active := false), hid := m.hid + Released(m.task.keyType),
         serial := m.serial + [Diagnostic(HotkeyDone)])
    else m
  }

  /** One pass of `loop`: at most one input byte, then the command if a
      frame is ready, then the release check, all at time `now`. */
  function LoopStep(m: Machine, input: Option<Byte>, now: bv32, spare: Byte): (m': Machine)
    requires m.Valid()
    ensures m'.Valid() && m'.texts == m.texts
    ensures input.None? && !m.dataReady && !m.task.active ==> m' == m
  {
    var m1 := if input.Some? then Feed(m, input.value) else m;
    var m2 := if m1.dataReady then Execute(m1.(dataReady := false), now, spare) else m1;
    Tick(m2, now)
  }

  /** Feeding a run of bytes, one `Feed` each. */
  function FeedAll(m: Machine, bytes: seq<Byte>): (m': Machine)
    requires m.Valid()
    ensures m'.Valid()
    ensures m'.task == m.task && m'.store == m.store && m'.hid == m.hid && m'.texts == m.texts
    decreases |bytes|
  {
    if bytes == [] then m else Feed(FeedAll(m, bytes[..|bytes| - 1]), bytes[|bytes| - 1])
  }

  /** Consecutive passes of `loop`, each finding one byte available, at the
      times in `times`. */
  function Passes(m: Machine, bytes: seq<Byte>, times: seq<bv32>, spare: Byte): (m': Machine)
    requires m.Valid() && |times| == |bytes|
    ensures m'.Valid() && m'.texts == m.texts
    decreases |bytes|
  {
    if bytes == [] then m
    else
      var n := |bytes| - 1;
      LoopStep(Passes(m, bytes[..n], times[..n], spare), Some(bytes[n]), times[n], spare)
  }

  // ---------------------------------------------------------------------------
  // Decoding at machine level
  // ---------------------------------------------------------------------------

  /** The diagnostics a run of verdicts prints, in order. */
  function Diags(vs: seq<Verdict>): (out: seq<SerialOut>)
    ensures |out| <= |vs|
    decreases |vs|
  {
    if vs == [] then [] else Diags(vs[..|vs| - 1]) + VerdictDiags(vs[|vs| - 1])
  }

  /** Partial verdicts print nothing. */
  lemma {:induction false} DiagsOfPartials(n: nat)
    ensures Diags(Partials(n)) == []
  {
    if n > 0 {
      var vs := Partials(n);
      assert vs[..n - 1] == Partials(n - 1);
      DiagsOfPartials(n - 1);
      assert VerdictDiags(vs[n - 1]) == [];
    }
  }

  /** One more verdict adds its own diagnostic at the end. */
  lemma DiagsSnoc(vs: seq<Verdict>, v: Verdict)
    ensures Diags(vs + [v]) == Diags(vs) + VerdictDiags(v)
  {
    assert (vs + [v])[..|vs|] == vs;
  }

  /** So a frame's only diagnostic is the one of its last byte. */
  lemma DiagsOfFrame(n: nat, v: Verdict)
    ensures Diags(Partials(n) + [v]) == VerdictDiags(v)
  {
    DiagsOfPartials(n);
    assert (Partials(n) + [v])[..n] == Partials(n);
  }

  /** Feeding a run of bytes drives the decoder as `Run` does, sets
      `dataReady` exactly when some byte completes a good frame, prints the
      diagnostics of the run's verdicts, and touches nothing else. */
  lemma {:induction false} FeedAllFollowsRun(m: Machine, bytes: seq<Byte>)
    requires m.Valid()
    ensures var r := Run(m.dec, bytes);
            FeedAll(m, bytes) == m.(dec := r.0, dataReady := m.dataReady || Accepted in r.1,
                                    serial := m.serial + Diags(r.1))
    decreases |bytes|
  {
    if bytes != [] {
      var p, b := bytes[..|bytes| - 1], bytes[|bytes| - 1];
      FeedAllFollowsRun(m, p);
      var r := Run(m.dec, p);
      var st := Step(r.0, b);
      assert Run(m.dec, bytes) == (st.0, r.1 + [st.1]);
      DiagsSnoc(r.1, st.1);
      assert (Accepted in r.1 + [st.1]) == (Accepted in r.1 || st.1 == Accepted);
      var prev := FeedAll(m, p);
      assert FeedAll(m, bytes) == Feed(prev, b);
      assert prev.dec == r.0 && prev.serial == m.serial + Diags(r.1);
      assert prev.serial + VerdictDiags(st.1) == m.serial + (Diags(r.1) + VerdictDiags(st.1));
    }
  }

  /** An encoded command frame fed to an idle decoder leaves the frame at the
      start of the buffer, the cursor at 0 and `dataLength` at the payload
      size, makes `dataReady` true and prints nothing. */
  lemma FrameReachesBuffer(m: Machine, command: Byte, payload: seq<Byte>)
    requires m.Valid() && m.dec.cursor == 0 && |payload| <= Capacity - 3
    ensures var f := EncodeFrame(command, payload);
            FeedAll(m, f) == m.(dec := Decoder(f + m.dec.buf[|f|..], 0, |payload|), dataReady := true)
  {
    AcceptedRun(m.dec, command, payload);
    FeedAllFollowsRun(m, EncodeFrame(command, payload));
  }

  /** The decoder's side of `FrameReachesBuffer`. */
  lemma AcceptedRun(d: Decoder, command: Byte, payload: seq<Byte>)
    requires d.Valid() && d.cursor == 0 && |payload| <= Capacity - 3
    ensures var f := EncodeFrame(command, payload);
            var r := Run(d, f);
            r.0 == Decoder(f + d.buf[|f|..], 0, |payload|) && Accepted in r.1 && Diags(r.1) == []
  {
    var f := EncodeFrame(command, payload);
    var n := |f|;
    assert f[..n - 1] == [command, |payload|] + payload;
    assert Checksum(f[..n - 1]) == f[n - 1];
    FrameVerdict(d, f);
    var vs := Partials(n - 1) + [Accepted];
    assert Run(d, f) == (Decoder(f + d.buf[n..], 0, |payload|), vs);
    assert vs[n - 1] == Accepted;
    DiagsOfFrame(n - 1, Accepted);
  }

  /** What the buffer holds after `FrameReachesBuffer`: the command, the
      length and the payload at 0, 1 and 2... */
  lemma FrameInBuffer(command: Byte, payload: seq<Byte>, rest: seq<Byte>)
    requires |payload| < 256
    ensures var buf := EncodeFrame(command, payload) + rest;
            buf[0] == command && buf[1] == |payload| && buf[2..2 + |payload|] == payload
  {
    var f := EncodeFrame(command, payload);
    assert (f + rest)[2..2 + |payload|] == f[2..|f| - 1];
  }

  /** A frame with a wrong checksum never sets `dataReady`, leaves the cursor
      at 0 and prints one checksum diagnostic. */
  lemma BadFrameIgnored(m: Machine, command: Byte, payload: seq<Byte>, c: Byte)
    requires m.Valid() && m.dec.cursor == 0 && !m.dataReady && |payload| <= Capacity - 3
    requires c != Checksum([command, |payload|] + payload)
    ensures var m' := FeedAll(m, [command, |payload|] + payload + [c]);
            !m'.dataReady && m'.dec.cursor == 0 && m'.serial == m.serial + [Diagnostic(ChecksumError)]
  {
    DroppedRun(m.dec, command, payload, c);
    FeedAllFollowsRun(m, [command, |payload|] + payload + [c]);
  }

  /** The decoder's side of `BadFrameIgnored`. */
  lemma DroppedRun(d: Decoder, command: Byte, payload: seq<Byte>, c: Byte)
    requires d.Valid() && d.cursor == 0 && |payload| <= Capacity - 3
    requires c != Checksum([command, |payload|] + payload)
    ensures var r := Run(d, [command, |payload|] + payload + [c]);
            r.0.cursor == 0 && Accepted !in r.1 && Diags(r.1) == [Diagnostic(ChecksumError)]
  {
    var f := [command, |payload|] + payload + [c];
    BadChecksumDropped(d, command, payload, c);
    DiagsOfFrame(|f| - 1, BadChecksum);
  }

  // ---------------------------------------------------------------------------
  // SET_HOTKEY
  // ---------------------------------------------------------------------------

  /** Any command byte other than SET_HOTKEY, RUN_HOTKEY and LIST_HOTKEYS
      prints "unknown command" and changes nothing else. */
  lemma UnknownCommandIgnored(m: Machine, now: bv32, spare: Byte)
    requires m.Valid() && !(CmdSetHotkey <= m.dec.buf[0] <= CmdListHotkeys)
    ensures Execute(m, now, spare) == m.(serial := m.serial + [Diagnostic(UnknownCommand)])
  {
  }

  /** LIST_HOTKEYS keeps everything printed so far and answers with the
      "not implemented" response; nothing else changes. */
  lemma ListAnswered(m: Machine, now: bv32, spare: Byte)
    requires m.Valid() && m.dec.buf[0] == CmdListHotkeys
    ensures Execute(m, now, spare)
         == m.(serial := m.serial + [Response(EncodeResponse(m.texts.listNotImplemented))])
  {
  }

  /** A rejected SET_HOTKEY leaves the store, the task and the HID log alone
      and prints the reason. */
  lemma SetHotkeyRejected(m: Machine, now: bv32, spare: Byte)
    requires m.Valid() && m.dec.buf[0] == CmdSetHotkey
    requires CheckSet(m.dec.buf[2..], m.dec.buf[1]).Failure?
    ensures var m' := Execute(m, now, spare);
            && m'.store == m.store && m'.task == m.task && m'.hid == m.hid && m'.dec == m.dec
            && m'.serial == m.serial + [Diagnostic(CheckSet(m.dec.buf[2..], m.dec.buf[1]).error)]
  {
  }

  /** An accepted SET_HOTKEY writes `[keyCount, keyType, c0, c1, c2, delayHi,
      delayLo]` to the first seven bytes of slot `index`, changes no byte
      outside the slot, and sends one success response. */
  lemma SetHotkeyWrites(m: Machine, now: bv32, spare: Byte)
    requires m.Valid() && m.dec.buf[0] == CmdSetHotkey
    requires CheckSet(m.dec.buf[2..], m.dec.buf[1]).Success?
    ensures var data := m.dec.buf[2..];
            var i := data[0] as int;
            var m' := Execute(m, now, spare);
            && i < HotkeyCount
            && Slot(m'.store, i)[..7] == [data[2], data[1], data[3], data[4], data[5], data[6], data[7]]
            && (forall k :: 0 <= k < StoreSize && !(i * HotkeySize <= k < i * HotkeySize + HotkeySize) ==> m'.store[k] == m.store[k])
            && m'.serial == m.serial + [Response(EncodeResponse(m.texts.setSuccess))]
            && m'.task == m.task && m'.hid == m.hid
  {
    var data := m.dec.buf[2..];
    SetAcceptedIff(data, m.dec.buf[1]);
    var bytes := RecordBytes(RequestRecord(data), spare);
    assert bytes[..7] == [data[2], data[1], data[3], data[4], data[5], data[6], data[7]];
  }

  /** With a length byte of exactly 7 the check passes, yet the delay's low
      byte is read from offset 9 of the buffer, which is the frame's own
      checksum: that checksum is what gets stored. */
  lemma ShortSetStoresChecksum(m: Machine, payload: seq<Byte>, now: bv32, spare: Byte)
    requires m.Valid() && m.dec.cursor == 0 && |payload| == 7
    requires CheckSet(payload + [Checksum([CmdSetHotkey, 7] + payload)], 7).Success?
    ensures var m1 := FeedAll(m, EncodeFrame(CmdSetHotkey, payload));
            var m2 := Execute(m1.(dataReady := false), now, spare);
            m1.dataReady && Slot(m2.store, payload[0])[6] == Checksum([CmdSetHotkey, 7] + payload)
  {
    var f := EncodeFrame(CmdSetHotkey, payload);
    var cs := Checksum([CmdSetHotkey, 7] + payload);
    var wire := payload + [cs];
    FrameReachesBuffer(m, CmdSetHotkey, payload);
    var m1 := m.(dec := Decoder(f + m.dec.buf[|f|..], 0, 7), dataReady := false);
    var data := m1.dec.buf[2..];
    assert f == [CmdSetHotkey, 7] + wire;
    assert data[..8] == wire;
    CheckSetReadsEightBytes(data, wire, 7);
    SetHotkeyStores(m1, data, 7, spare);
    assert Execute(m1, now, spare) == SetHotkey(m1, data, 7, spare);
  }

  /** `setHotkey` looks at the first eight payload bytes only. */
  lemma CheckSetReadsEightBytes(data: seq<Byte>, other: seq<Byte>, length: Byte)
    requires |data| >= HotkeySize && |other| >= HotkeySize && data[..HotkeySize] == other[..HotkeySize]
    ensures CheckSet(data, length) == CheckSet(other, length)
    ensures RequestRecord(data) == RequestRecord(other)
  {
    assert forall k :: 0 <= k < HotkeySize ==> data[k] == data[..HotkeySize][k] == other[k];
    assert data[3..6] == other[3..6];
  }

  // ---------------------------------------------------------------------------
  // RUN_HOTKEY and release
  // ---------------------------------------------------------------------------

  /** RUN_HOTKEY is refused while a task is active, with a zero length byte,
      or with an index of 32 or more: the task, the store and the HID log are
      unchanged and one diagnostic says why. */
  lemma RunHotkeyRejected(m: Machine, now: bv32, spare: Byte)
    requires m.Valid() && m.dec.buf[0] == CmdRunHotkey
    requires m.task.active || m.dec.buf[1] == 0 || m.dec.buf[2] >= HotkeyCount
    ensures var m' := Execute(m, now, spare);
            && m'.task == m.task && m'.store == m.store && m'.hid == m.hid
            && m'.serial == m.serial + [Diagnostic(
                 if m.task.active then TaskAlreadyActive
                 else if m.dec.buf[1] == 0 then PayloadTooShort
                 else IndexOutOfRange)]
  {
  }

  /** RUN_HOTKEY on a slot whose type byte is 1..3 starts the task at `now`
      with the slot's delay, type, count and codes, and presses the first
      `keyCount` codes in order on that channel; any other type leaves the
      task inactive and presses nothing. */
  lemma RunHotkeyStarts(m: Machine, now: bv32, spare: Byte)
    requires m.Valid() && m.dec.buf[0] == CmdRunHotkey
    requires !m.task.active && m.dec.buf[1] >= 1 && m.dec.buf[2] < HotkeyCount
    ensures var b := Slot(m.store, m.dec.buf[2]);
            var m' := Execute(m, now, spare);
            && m'.store == m.store
            && (1 <= b[1] <= 3 ==>
                  && m'.task == HotkeyTask(true, now, DelayField(b[5], b[6]), b[1], b[0], b[2..5])
                  && (b[0] <= 3 ==> m'.hid == m.hid + Presses(ChannelOf(b[1]).value, b[2..2 + b[0] as int])))
            && (!(1 <= b[1] <= 3) ==> !m'.task.active && m'.hid == m.hid)
            && m'.serial == m.serial + [Diagnostic(if 1 <= b[1] <= 3 then HotkeyStarted(m.dec.buf[2]) else UnknownKeyType)]
  {
    var b := Slot(m.store, m.dec.buf[2]);
    if b[0] <= 3 {
      assert b[2..5][..b[0]] == b[2..2 + b[0] as int];
    }
  }

  /** The release check: an active task that is due is released once, on its
      own channel, and becomes inactive; one that is not due, or an inactive
      task, changes nothing. */
  lemma TickReleases(m: Machine, now: bv32)
    requires m.Valid()
    ensures var m' := Tick(m, now);
            if m.task.active && Due(m.task, now) then
              && m'.task == m.task.(active := false) && m'.store == m.store
              && m'.hid == m.hid + [ReleaseAll(ChannelOf(m.task.keyType).value)]
              && m'.serial == m.serial + [Diagnostic(HotkeyDone)]
            else m' == m
  {
  }

  /** An accepted SET_HOTKEY leaves its record in the slot it names. */
  lemma SetHotkeyStores(m: Machine, data: seq<Byte>, length: Byte, spare: Byte)
    requires m.Valid() && |data| >= HotkeySize && CheckSet(data, length).Success?
    ensures data[0] < HotkeyCount
    ensures Slot(SetHotkey(m, data, length, spare).store, data[0]) == RecordBytes(RequestRecord(data), spare)
  {
    SetAcceptedIff(data, length);
  }

  /** Storing a hotkey and later running it: whatever happened in between,
      as long as the slot still holds what an accepted SET_HOTKEY wrote and no
      task is active, the task holds exactly the stored delay (as an unsigned
      number), type, count and codes, the codes `c0..c(keyCount-1)` are
      pressed in order on the chosen channel, and a later tick releases that
      channel exactly when the delay has elapsed. */
  lemma SetThenRun(data: seq<Byte>, length: Byte, spare: Byte, mid: Machine,
                   runData: seq<Byte>, runLength: Byte, now: bv32, later: bv32)
    requires mid.Valid() && !mid.task.active
    requires |data| >= HotkeySize && |runData| >= 1
    requires CheckSet(data, length).Success?
    requires runLength >= 1 && runData[0] == data[0]
    requires data[0] < HotkeyCount && Slot(mid.store, data[0]) == RecordBytes(RequestRecord(data), spare)
    ensures var ch := ChannelOf(data[1]).value;
            var delay := DelayValue(data[6], data[7]);
            var m2 := RunHotkey(mid, runData, runLength, now);
            var m3 := Tick(m2, later);
            && m2.task == HotkeyTask(true, now, delay, data[1], data[2], data[3..6])
            && m2.hid == mid.hid + Presses(ch, data[3..3 + data[2] as int])
            && m2.store == mid.store
            && (Elapsed(later, now) >= delay ==>
                  !m3.task.active && m3.hid == m2.hid + [ReleaseAll(ch)])
            && (Elapsed(later, now) < delay ==> m3 == m2)
  {
    SetAcceptedIff(data, length);
    DelayRangeCheck(data[6], data[7]);
    var i := data[0] as int;
    var rec := RequestRecord(data);
    RecordRoundTrip(rec, spare);
    var delay := DelayValue(data[6], data[7]);
    var t := StartedTask(ReadRecord(Slot(mid.store, i)), now);
    assert t == HotkeyTask(true, now, delay, data[1], data[2], data[3..6]);
    var ch := ChannelOf(data[1]).value;
    var codes := data[3..3 + data[2] as int];
    assert t.keyCodes[..PressCount(t)] == codes;
    var m2 := RunHotkey(mid, runData, runLength, now);
    assert m2 == mid.(task := t, hid := mid.hid + Presses(ch, codes),
                      serial := mid.serial + [Diagnostic(HotkeyStarted(data[0]))]);
    assert AsUnsignedLong(t.delayTime) == delay;
    TickReleases(m2, later);
  }

  /** Only one task at a time: while a task runs a second RUN_HOTKEY is
      refused with "task already active"; once the task is released by a
      tick, a RUN_HOTKEY of a slot with a valid type starts again. */
  lemma OneTaskAtATime(m: Machine, data: seq<Byte>, length: Byte, now: bv32, later: bv32)
    requires m.Valid() && m.task.active && |data| >= 1
    requires length >= 1 && data[0] < HotkeyCount && 1 <= Slot(m.store, data[0])[1] <= 3
    ensures RunHotkey(m, data, length, now) == m.(serial := m.serial + [Diagnostic(TaskAlreadyActive)])
    ensures Due(m.task, later) ==>
              var m1 := Tick(m, later);
              !m1.task.active && RunHotkey(m1, data, length, now).task.active
  {
  }

  // ---------------------------------------------------------------------------
  // End to end over the serial line
  // ---------------------------------------------------------------------------

  /** A SET_HOTKEY frame fed byte by byte from an idle decoder and executed
      stores the record of its 8-byte payload in the slot it names, sends the
      success response, and leaves the task and the HID log as they were. */
  lemma SetFrameStores(m: Machine, request: seq<Byte>, now: bv32, spare: Byte)
    requires m.Valid() && m.dec.cursor == 0
    requires |request| == HotkeySize && CheckSet(request, 8).Success?
    ensures var m1 := FeedAll(m, EncodeFrame(CmdSetHotkey, request));
            var m2 := Execute(m1.(dataReady := false), now, spare);
            && m1.dataReady && request[0] < HotkeyCount
            && m2.dec.cursor == 0 && m2.task == m.task && m2.hid == m.hid
            && m2.serial == m.serial + [Response(EncodeResponse(m.texts.setSuccess))]
            && Slot(m2.store, request[0]) == RecordBytes(RequestRecord(request), spare)
  {
    var f := EncodeFrame(CmdSetHotkey, request);
    FrameReachesBuffer(m, CmdSetHotkey, request);
    var m1 := m.(dec := Decoder(f + m.dec.buf[|f|..], 0, 8), dataReady := false);
    FrameInBuffer(CmdSetHotkey, request, m.dec.buf[|f|..]);
    var data := m1.dec.buf[2..];
    assert data[..8] == m1.dec.buf[2..10];
    CheckSetReadsEightBytes(data, request, 8);
    assert Execute(m1, now, spare) == SetHotkey(m1, data, 8, spare);
    SetAcceptedIff(request, 8);
    SetHotkeyStores(m1, data, 8, spare);
  }

  /** `runHotkey` reads neither the decoder nor `dataReady`, and of its data
      only the first byte. */
  lemma RunHotkeyIgnoresDecoder(m: Machine, d: Decoder, ready: bool, data: seq<Byte>, data': seq<Byte>,
                                length: Byte, now: bv32)
    requires m.Valid() && d.Valid() && |data| >= 1 && |data'| >= 1 && data[0] == data'[0]
    ensures RunHotkey(m.(dec := d, dataReady := ready), data', length, now)
            == RunHotkey(m, data, length, now).(dec := d, dataReady := ready)
  {
  }

  /** A RUN_HOTKEY frame fed byte by byte from an idle decoder and executed
      does what RUN_HOTKEY of that index does. */
  lemma RunFrameRuns(m: Machine, index: Byte, now: bv32, spare: Byte)
    requires m.Valid() && m.dec.cursor == 0
    ensures var m1 := FeedAll(m, EncodeFrame(CmdRunHotkey, [index]));
            var m2 := Execute(m1.(dataReady := false), now, spare);
            && m1.dataReady
            && m2 == RunHotkey(m, [index], 1, now).(dec := m1.dec, dataReady := false)
  {
    var f := EncodeFrame(CmdRunHotkey, [index]);
    FrameReachesBuffer(m, CmdRunHotkey, [index]);
    var d := Decoder(f + m.dec.buf[|f|..], 0, 1);
    var m1 := m.(dec := d, dataReady := false);
    FrameInBuffer(CmdRunHotkey, [index], m.dec.buf[|f|..]);
    var data := d.buf[2..];
    assert data[0] == d.buf[2..3][0] == index;
    assert Execute(m1, now, spare) == RunHotkey(m1, data, 1, now);
    RunHotkeyIgnoresDecoder(m, d, false, [index], data, 1, now);
  }

  /** A SET_HOTKEY frame with an acceptable 8-byte payload, then a RUN_HOTKEY
      frame for the same slot, each fed byte by byte and executed: the first
      is answered with the success response, the second presses the stored
      codes on the stored channel, and a later tick releases that channel
      exactly when the stored delay has elapsed. */
  lemma FramedSetThenRun(m: Machine, request: seq<Byte>, t0: bv32, t1: bv32, later: bv32, spare: Byte)
    requires m.Valid() && m.dec.cursor == 0 && !m.task.active
    requires |request| == HotkeySize && CheckSet(request, 8).Success?
    ensures var m1 := FeedAll(m, EncodeFrame(CmdSetHotkey, request));
            var m2 := Execute(m1.(dataReady := false), t0, spare);
            var m3 := FeedAll(m2, EncodeFrame(CmdRunHotkey, [request[0]]));
            var m4 := Execute(m3.(dataReady := false), t1, spare);
            var ch := ChannelOf(request[1]).value;
            var delay := DelayValue(request[6], request[7]);
            && m2.serial == m.serial + [Response(EncodeResponse(m.texts.setSuccess))]
            && m4.task == HotkeyTask(true, t1, delay, request[1], request[2], request[3..6])
            && m4.hid == m.hid + Presses(ch, request[3..3 + request[2] as int])
            && (Elapsed(later, t1) >= delay ==>
                  !Tick(m4, later).task.active && Tick(m4, later).hid == m4.hid + [ReleaseAll(ch)])
            && (Elapsed(later, t1) < delay ==> Tick(m4, later) == m4)
  {
    SetFrameStores(m, request, t0, spare);
    var m2 := Execute(FeedAll(m, EncodeFrame(CmdSetHotkey, request)).(dataReady := false), t0, spare);
    RunFrameRuns(m2, request[0], t1, spare);
    SetThenRun(request, 8, spare, m2, [request[0]], 1, t1, later);
    var m4 := Execute(FeedAll(m2, EncodeFrame(CmdRunHotkey, [request[0]])).(dataReady := false), t1, spare);
    var expected := RunHotkey(m2, [request[0]], 1, t1);
    assert m4.task == expected.task && m4.hid == expected.hid;
    TickReleases(m4, later);
    TickReleases(expected, later);
  }

  /** The SET_HOTKEY payload `[0, 1, 2, 4, 5, 0, 0, 100]` (slot 0, keyboard,
      codes 4 and 5, 100 ms), decoded: accepted, keyboard, 100 ms, and the
      presses of 4 then 5. */
  lemma KeyboardRequest(request: seq<Byte>)
    requires |request| == 8 && request[0] == 0 && request[1] == 1 && request[2] == 2 && request[3] == 4
    requires request[4] == 5 && request[5] == 0 && request[6] == 0 && request[7] == 100
    ensures CheckSet(request, 8).Success?
    ensures ChannelOf(request[1]) == Some(Keyboard) && DelayValue(request[6], request[7]) == 100
    ensures Presses(Keyboard, request[3..3 + request[2] as int]) == [Press(Keyboard, 4), Press(Keyboard, 5)]
  {
    SetAcceptedIff(request, 8);
    assert request[3..3 + request[2] as int] == [4, 5];
  }

  /** SET_HOTKEY `[0, 1, 2, 4, 5, 0, 0, 100]` followed by RUN_HOTKEY `[0]`,
      at value level: SET_HOTKEY is answered with the success response, and
      RUN_HOTKEY presses 4 and 5 on the keyboard and starts the 100 ms
      keyboard task at t1. */
  lemma KeyboardRun(m: Machine, request: seq<Byte>, t0: bv32, t1: bv32, spare: Byte)
    requires m.Valid() && m.dec.cursor == 0 && !m.task.active
    requires |request| == 8 && request[0] == 0 && request[1] == 1 && request[2] == 2 && request[3] == 4
    requires request[4] == 5 && request[5] == 0 && request[6] == 0 && request[7] == 100
    ensures var m1 := FeedAll(m, EncodeFrame(CmdSetHotkey, request));
            var m2 := Execute(m1.(dataReady := false), t0, spare);
            var m3 := FeedAll(m2, EncodeFrame(CmdRunHotkey, [request[0]]));
            var m4 := Execute(m3.(dataReady := false), t1, spare);
            && m2.serial == m.serial + [Response(EncodeResponse(m.texts.setSuccess))]
            && m4.hid == m.hid + [Press(Keyboard, 4), Press(Keyboard, 5)]
            && m4.task.active && m4.task.startTime == t1 && m4.task.delayTime == 100 && m4.task.keyType == 1
            && !m4.dataReady
  {
    KeyboardRequest(request);
    FramedSetThenRun(m, request, t0, t1, t1, spare);
  }

  /** The release check at the very millisecond a task with a positive
      delay started changes nothing. */
  lemma TickAtStart(m: Machine)
    requires m.Valid() && m.task.active && m.task.delayTime > 0
    ensures Tick(m, m.task.startTime) == m
  {
  }

  /** A pass of `loop` with no byte available and no frame waiting, while a
      task with a non-negative delay runs: it changes nothing before the
      delay has elapsed, and from then on releases the task's channel once
      and ends the task. */
  lemma ReleasePass(m: Machine, later: bv32, spare: Byte)
    requires m.Valid() && !m.dataReady && m.task.active && m.task.delayTime >= 0
    ensures var m' := LoopStep(m, None, later, spare);
            && (Elapsed(later, m.task.startTime) < m.task.delayTime ==> m' == m)
            && (Elapsed(later, m.task.startTime) >= m.task.delayTime ==>
                  !m'.task.active && m'.hid == m.hid + [ReleaseAll(ChannelOf(m.task.keyType).value)])
  {
  }

  // ---------------------------------------------------------------------------
  // Passes of loop
  // ---------------------------------------------------------------------------

  /** From cursor 0 with no frame waiting, feeding the first k bytes of a
      frame only moves the decoder: nothing is accepted or printed. */
  lemma PendingFeed(m: Machine, f: seq<Byte>, k: nat)
    requires m.Valid() && m.dec.cursor == 0 && !m.dataReady
    requires 2 <= |f| && k <= |f| && k < Capacity && k < f[1] as int + 3
    ensures FeedAll(m, f[..k]) == m.(dec := Run(m.dec, f[..k]).0)
  {
    FeedAllFollowsRun(m, f[..k]);
    PrefixPending(m.dec, f, k);
    assert forall i :: 0 <= i < k ==> Partials(k)[i] == Partial;
    DiagsOfPartials(k);
  }

  /** A pass of `loop` whose byte completes no frame, with no task running
      and no frame waiting, is just that byte fed to the decoder. */
  lemma QuietPass(m: Machine, b: Byte, now: bv32, spare: Byte)
    requires m.Valid() && !m.dataReady && !m.task.active && !Feed(m, b).dataReady
    ensures LoopStep(m, Some(b), now, spare) == Feed(m, b)
  {
  }

  /** With no task running and no frame waiting, the passes that deliver the
      first k bytes of a frame do nothing but feed them: none of them
      completes the frame, so no command runs and no release is due. */
  lemma {:induction false} PassesPending(m: Machine, f: seq<Byte>, times: seq<bv32>, k: nat, spare: Byte)
    requires m.Valid() && m.dec.cursor == 0 && !m.dataReady && !m.task.active
    requires 2 <= |f| && |times| == |f| && k < |f| && k < Capacity && k < f[1] as int + 3
    ensures Passes(m, f[..k], times[..k], spare) == FeedAll(m, f[..k])
    ensures !FeedAll(m, f[..k]).dataReady
  {
    PendingFeed(m, f, k);
    if k > 0 {
      PassesPending(m, f, times, k - 1, spare);
      PendingFeed(m, f, k - 1);
      var p, t := f[..k], times[..k];
      assert p[..k - 1] == f[..k - 1] && t[..k - 1] == times[..k - 1];
      var prev := FeedAll(m, f[..k - 1]);
      assert FeedAll(m, p) == Feed(prev, p[k - 1]);
      QuietPass(prev, p[k - 1], t[k - 1], spare);
    }
  }

  /** A command frame arriving one byte per pass of `loop` while no task
      runs: the passes before the last only store bytes, and the last pass
      executes the command and then runs the release check, both at the time
      of that pass. */
  lemma FramePasses(m: Machine, command: Byte, payload: seq<Byte>, times: seq<bv32>, spare: Byte)
    requires m.Valid() && m.dec.cursor == 0 && !m.dataReady && !m.task.active
    requires |payload| <= Capacity - 3 && |times| == |payload| + 3
    ensures var f := EncodeFrame(command, payload);
            var now := times[|f| - 1];
            Passes(m, f, times, spare) == Tick(Execute(FeedAll(m, f).(dataReady := false), now, spare), now)
  {
    var f := EncodeFrame(command, payload);
    var n := |f|;
    PassesPending(m, f, times, n - 1, spare);
    FrameReachesBuffer(m, command, payload);
  }

  /** SET_HOTKEY then RUN_HOTKEY of the same slot, each frame arriving one
      byte per pass of `loop` from an idle machine: the passes land where
      `FramedSetThenRun` starts from, and the command's own pass already runs
      the release check once, at the time of the command. */
  lemma SetRunPasses(m: Machine, request: seq<Byte>, setTimes: seq<bv32>, runTimes: seq<bv32>, spare: Byte)
    requires m.Valid() && m.dec.cursor == 0 && !m.dataReady && !m.task.active
    requires |request| == HotkeySize && CheckSet(request, 8).Success?
    requires |setTimes| == HotkeySize + 3 && |runTimes| == 4
    ensures var t0, t1 := setTimes[HotkeySize + 2], runTimes[3];
            var m2 := Execute(FeedAll(m, EncodeFrame(CmdSetHotkey, request)).(dataReady := false), t0, spare);
            var m4 := Execute(FeedAll(m2, EncodeFrame(CmdRunHotkey, [request[0]])).(dataReady := false), t1, spare);
            && Passes(m, EncodeFrame(CmdSetHotkey, request), setTimes, spare) == m2
            && Passes(m2, EncodeFrame(CmdRunHotkey, [request[0]]), runTimes, spare) == Tick(m4, t1)
            && !m4.dataReady
  {
    var t0 := setTimes[HotkeySize + 2];
    SetFrameStores(m, request, t0, spare);
    FramePasses(m, CmdSetHotkey, request, setTimes, spare);
    var m2 := Execute(FeedAll(m, EncodeFrame(CmdSetHotkey, request)).(dataReady := false), t0, spare);
    assert Tick(m2, t0) == m2;
    FramePasses(m2, CmdRunHotkey, [request[0]], runTimes, spare);
  }

  /** SET_HOTKEY followed by RUN_HOTKEY, one byte per pass of `loop`: SET_HOTKEY
      `[0, 1, 2, 4, 5, 0, 0, 100]` (slot 0, keyboard, codes 4 and 5, 100 ms)
      is answered with the success response; RUN_HOTKEY `[0]` completed at
      time t1 presses 4 and 5 on the keyboard, and its own pass releases
      nothing; a later idle pass changes nothing before 100 ms have elapsed
      since t1 and from then on releases the keyboard and ends the task. */
  lemma KeyboardScenario(m: Machine, request: seq<Byte>, setTimes: seq<bv32>, runTimes: seq<bv32>,
                         later: bv32, spare: Byte)
    requires m.Valid() && m.dec.cursor == 0 && !m.dataReady && !m.task.active
    requires |request| == 8 && request[0] == 0 && request[1] == 1 && request[2] == 2 && request[3] == 4
    requires request[4] == 5 && request[5] == 0 && request[6] == 0 && request[7] == 100
    requires |setTimes| == 11 && |runTimes| == 4
    ensures var m2 := Passes(m, EncodeFrame(CmdSetHotkey, request), setTimes, spare);
            var m4 := Passes(m2, EncodeFrame(CmdRunHotkey, [request[0]]), runTimes, spare);
            var m5 := LoopStep(m4, None, later, spare);
            var t1 := runTimes[3];
            && m2.serial == m.serial + [Response(EncodeResponse(m.texts.setSuccess))]
            && m4.hid == m.hid + [Press(Keyboard, 4), Press(Keyboard, 5)]
            && m4.task.active
            && (Elapsed(later, t1) < 100 ==> m5 == m4)
            && (Elapsed(later, t1) >= 100 ==> !m5.task.active && m5.hid == m4.hid + [ReleaseAll(Keyboard)])
  {
    var t0, t1 := setTimes[10], runTimes[3];
    var m2 := Execute(FeedAll(m, EncodeFrame(CmdSetHotkey, request)).(dataReady := false), t0, spare);
    var m4 := Execute(FeedAll(m2, EncodeFrame(CmdRunHotkey, [request[0]])).(dataReady := false), t1, spare);
    KeyboardRequest(request);
    SetRunPasses(m, request, setTimes, runTimes, spare);
    KeyboardRun(m, request, t0, t1, spare);
    TickAtStart(m4);
    ReleasePass(m4, later, spare);
  }
}
