/** The serial framing of the macro-key firmware: the mod-256 checksum, the
    layout `[command][length][payload][checksum]` shared by requests and
    responses, and the byte-at-a-time frame decoder of `processSerialData`,
    written as a step function over the receive buffer and its cursor. */
module Frames {

  /** The firmware's `byte`. */
  type Byte = b: int | 0 <= b < 256

  /** Size of the receive buffer `incomingData`. */
  const Capacity: nat := 128

  /** Command id a device-to-host response frame starts with. */
  const CmdResponse: Byte := 0x04

  // ---------------------------------------------------------------------------
  // Checksums
  // ---------------------------------------------------------------------------

  /** The checksum as the firmware accumulates it: a `byte` that wraps on
      every addition, over the bytes from first to last. */
  function Checksum(s: seq<Byte>): (c: Byte)
  {
    if s == [] then 0 else (Checksum(s[..|s| - 1]) + s[|s| - 1]) % 256
  }

  /** The unbounded sum of a byte sequence. */
  function Sum(s: seq<Byte>): (n: nat)
  {
    if s == [] then 0 else Sum(s[..|s| - 1]) + s[|s| - 1]
  }

  /** Wrapping at every step gives the sum modulo 256. */
  lemma {:induction false} ChecksumIsSumMod256(s: seq<Byte>)
    ensures Checksum(s) == Sum(s) % 256
  {
    if s != [] {
      var p, x := s[..|s| - 1], s[|s| - 1];
      ChecksumIsSumMod256(p);
      assert (Sum(p) % 256 + x) % 256 == (Sum(p) + x) % 256;
    }
  }

  lemma {:induction false} SumConcat(a: seq<Byte>, b: seq<Byte>)
    ensures Sum(a + b) == Sum(a) + Sum(b)
  {
    if b == [] {
      assert a + b == a;
    } else {
      var p := b[..|b| - 1];
      assert (a + b)[..|a + b| - 1] == a + p;
      SumConcat(a, p);
    }
  }

  /** Replacing one byte changes the sum by exactly the difference. */
  lemma {:induction false} SumUpdate(s: seq<Byte>, j: nat, v: Byte)
    requires j < |s|
    ensures Sum(s[j := v]) == Sum(s) - s[j] + v
  {
    var n := |s| - 1;
    if j == n {
      assert s[j := v][..n] == s[..n];
    } else {
      assert s[j := v][..n] == s[..n][j := v];
      SumUpdate(s[..n], j, v);
    }
  }

  /** The checksum notices any change of a single byte. */
  lemma ChecksumDetectsByteChange(s: seq<Byte>, j: nat, v: Byte)
    requires j < |s| && v != s[j]
    ensures Checksum(s[j := v]) != Checksum(s)
  {
    ChecksumIsSumMod256(s);
    ChecksumIsSumMod256(s[j := v]);
    SumUpdate(s, j, v);
  }

  // ---------------------------------------------------------------------------
  // Frame layout
  // ---------------------------------------------------------------------------

  /** `[command][length][payload][checksum]`, the checksum covering every
      byte before it. */
  function EncodeFrame(command: Byte, payload: seq<Byte>): (f: seq<Byte>)
    requires |payload| < 256
    ensures |f| == |payload| + 3
    ensures f[0] == command && f[1] == |payload| && f[2..|f| - 1] == payload
  {
    var body := [command, |payload|] + payload;
    body + [Checksum(body)]
  }

  /** What `sendResponse` writes for a message of `strlen` n: the length is
      stored in a `byte`, so only the first n mod 256 bytes are sent. */
  function EncodeResponse(message: seq<Byte>): (f: seq<Byte>)
    ensures |f| == |message| % 256 + 3
  {
    EncodeFrame(CmdResponse, message[..|message| % 256])
  }

  /** The response layout: `[0x04][len][message][(0x04 + len + sum) mod 256]`. */
  lemma ResponseLayout(message: seq<Byte>)
    ensures var len := |message| % 256;
            var f := EncodeResponse(message);
            && f[0] == CmdResponse && f[1] == len
            && f[2..len + 2] == message[..len]
            && f[len + 2] == (CmdResponse + len + Sum(message[..len])) % 256
  {
    var len := |message| % 256;
    var body := [CmdResponse, len] + message[..len];
    ChecksumIsSumMod256(body);
    SumConcat([CmdResponse, len], message[..len]);
    assert [CmdResponse, len][..1] == [CmdResponse];
    assert [CmdResponse][..0] == [];
    assert Sum([CmdResponse]) == CmdResponse;
    assert Sum([CmdResponse, len]) == CmdResponse + len;
  }

  // ---------------------------------------------------------------------------
  // The decoder
  // ---------------------------------------------------------------------------

  /** The decoder's state: the receive buffer, the static cursor of
      `processSerialData` and the global `dataLength`. */
  datatype Decoder = Decoder(buf: seq<Byte>, cursor: nat, dataLength: int)
  {
    /** The cursor always names a cell of the buffer. */
    predicate Valid()
    {
      |buf| == Capacity && cursor < Capacity
    }
  }

  /** What one byte did to the frame being assembled. */
  datatype Verdict =
    | Partial      // the frame is not complete yet
    | Accepted     // the frame is complete and its checksum matches
    | BadChecksum  // the frame is complete and its checksum does not match
    | Overflow     // the buffer is full and the frame is not complete

  /** One call of `processSerialData(b)`. The buffer cell at the cursor takes
      the byte; from two bytes on the length byte is re-read, and at
      `length + 3` bytes the frame is checked and the cursor reset. When the
      last buffer cell has been written without completing a frame, the
      cursor is reset as well: the firmware has no such guard (see
      `UnboundedFeed`). */
  function Step(d: Decoder, b: Byte): (r: (Decoder, Verdict))
    requires d.Valid()
    ensures r.0.Valid()
    ensures r.0.buf == d.buf[d.cursor := b]
    ensures r.0.cursor == if r.1 == Partial then d.cursor + 1 else 0
  {
    var buf := d.buf[d.cursor := b];
    var index := d.cursor + 1;
    if index >= 2 then
      var length := buf[1];
      if index == length as int + 3 then
        var verdict := if Checksum(buf[..index - 1]) == buf[index - 1] then Accepted else BadChecksum;
        (Decoder(buf, 0, length), verdict)
      else if index == Capacity then
        (Decoder(buf, 0, length), Overflow)
      else
        (Decoder(buf, index, length), Partial)
    else
      (Decoder(buf, index, d.dataLength), Partial)
  }

  /** Feeding a sequence of bytes, one `Step` each, with the verdict of each. */
  function Run(d: Decoder, bytes: seq<Byte>): (r: (Decoder, seq<Verdict>))
    requires d.Valid()
    ensures r.0.Valid() && |r.1| == |bytes|
    decreases |bytes|
  {
    if bytes == [] then (d, [])
    else
      var prefix := Run(d, bytes[..|bytes| - 1]);
      var last := Step(prefix.0, bytes[|bytes| - 1]);
      (last.0, prefix.1 + [last.1])
  }

  function Partials(n: nat): (vs: seq<Verdict>)
  {
    seq(n, _ => Partial)
  }

  /** A byte sequence whose length byte says it is one whole frame that fits
      in the buffer. */
  predicate FrameShaped(f: seq<Byte>)
  {
    3 <= |f| <= Capacity && f[1] == |f| - 3
  }

  /** From cursor 0, the first k bytes of f are stored in order and leave the
      cursor at k, as long as neither the frame end nor the buffer end is
      reached. */
  lemma {:induction false} PrefixPending(d: Decoder, f: seq<Byte>, k: nat)
    requires d.Valid() && d.cursor == 0
    requires 2 <= |f| && k <= |f| && k < Capacity && k < f[1] as int + 3
    ensures Run(d, f[..k]) == (Decoder(f[..k] + d.buf[k..], k, if k >= 2 then f[1] else d.dataLength), Partials(k))
  {
    if k == 0 {
      assert f[..0] == [];
      assert d.buf == [] + d.buf[0..];
    } else {
      PrefixPending(d, f, k - 1);
      var bytes := f[..k];
      assert bytes[..k - 1] == f[..k - 1];
      var prev := Run(d, f[..k - 1]);
      var last := Step(prev.0, f[k - 1]);
      assert Run(d, bytes) == (last.0, prev.1 + [last.1]);
      WriteAtCursor(f, d.buf, k);
      assert last.0.buf == f[..k] + d.buf[k..];
      assert last.1 == Partial;
      assert Partials(k - 1) + [Partial] == Partials(k);
    }
  }

  /** Writing byte k-1 of f over a buffer that holds the first k-1 bytes. */
  lemma WriteAtCursor(f: seq<Byte>, buf: seq<Byte>, k: nat)
    requires 0 < k <= |f| && k <= |buf|
    ensures (f[..k - 1] + buf[k - 1..])[k - 1 := f[k - 1]] == f[..k] + buf[k..]
  {
    var a := (f[..k - 1] + buf[k - 1..])[k - 1 := f[k - 1]];
    var b := f[..k] + buf[k..];
    assert |a| == |b|;
    forall i | 0 <= i < |a| ensures a[i] == b[i] {
      if i < k { assert a[i] == f[i]; } else { assert a[i] == buf[i]; }
    }
  }

  /** A frame-shaped sequence fed from cursor 0: every byte but the last is
      partial, the last is accepted exactly when the trailing byte is the
      checksum of the others, the buffer holds the frame and the cursor is 0. */
  lemma {:induction false} FrameVerdict(d: Decoder, f: seq<Byte>)
    requires d.Valid() && d.cursor == 0 && FrameShaped(f)
    ensures Run(d, f) == (Decoder(f + d.buf[|f|..], 0, f[1]),
                          Partials(|f| - 1) + [if Checksum(f[..|f| - 1]) == f[|f| - 1] then Accepted else BadChecksum])
  {
    var n := |f|;
    PrefixPending(d, f, n - 1);
    assert f[..n] == f;
    var prev := Decoder(f[..n - 1] + d.buf[n - 1..], n - 1, f[1]);
    var buf := prev.buf[n - 1 := f[n - 1]];
    assert buf == f + d.buf[n..];
    assert buf[1] == f[1];
    assert buf[..n - 1] == f[..n - 1];
    assert buf[n - 1] == f[n - 1];
  }

  /** Frame round trip: an encoded frame of at most 125 payload bytes fed from
      cursor 0 is accepted on its last byte and on no earlier one; the buffer
      then holds the command, the length and the payload at 0, 1 and 2.., and
      the cursor is back at 0. */
  lemma FrameRoundTrip(d: Decoder, command: Byte, payload: seq<Byte>)
    requires d.Valid() && d.cursor == 0 && |payload| <= Capacity - 3
    ensures var f := EncodeFrame(command, payload);
            var r := Run(d, f);
            && r.1 == Partials(|f| - 1) + [Accepted]
            && r.0.cursor == 0 && r.0.dataLength == |payload|
            && r.0.buf[0] == command && r.0.buf[1] == |payload|
            && r.0.buf[2..2 + |payload|] == payload
  {
    var f := EncodeFrame(command, payload);
    FrameVerdict(d, f);
    assert f[..|f| - 1] == [command, |payload|] + payload;
    var buf := f + d.buf[|f|..];
    assert buf[2..2 + |payload|] == f[2..|f| - 1];
  }

  /** A frame whose trailing byte is not the checksum is dropped: no byte of
      it is accepted and the cursor is back at 0. */
  lemma BadChecksumDropped(d: Decoder, command: Byte, payload: seq<Byte>, c: Byte)
    requires d.Valid() && d.cursor == 0 && |payload| <= Capacity - 3
    requires c != Checksum([command, |payload|] + payload)
    ensures var f := [command, |payload|] + payload + [c];
            var r := Run(d, f);
            r.1 == Partials(|f| - 1) + [BadChecksum] && Accepted !in r.1 && r.0.cursor == 0
  {
    var f := [command, |payload|] + payload + [c];
    FrameVerdict(d, f);
    assert f[..|f| - 1] == [command, |payload|] + payload;
    assert Partials(|f| - 1)[|f| - 2] == Partial;
  }

  /** Changing any one byte of an encoded frame other than its length byte
      makes the decoder reject it. */
  lemma CorruptedFrameRejected(d: Decoder, command: Byte, payload: seq<Byte>, j: nat, v: Byte)
    requires d.Valid() && d.cursor == 0 && |payload| <= Capacity - 3
    requires j < |payload| + 3 && j != 1 && v != EncodeFrame(command, payload)[j]
    ensures var g := EncodeFrame(command, payload)[j := v];
            Run(d, g).1 == Partials(|g| - 1) + [BadChecksum]
  {
    var f := EncodeFrame(command, payload);
    var g := f[j := v];
    var n := |f|;
    var body := f[..n - 1];
    assert body == [command, |payload|] + payload;
    FrameVerdict(d, g);
    if j == n - 1 {
      assert g[..n - 1] == body;
    } else {
      assert g[..n - 1] == body[j := v];
      ChecksumDetectsByteChange(body, j, v);
    }
  }

  /** The frame of command 1 with payload `[1, 2]`. */
  lemma SmallFrameEncoding()
    ensures EncodeFrame(1, [1, 2]) == [1, 2, 1, 2, 6]
  {
    var e1: seq<Byte> := [1];
    var e2: seq<Byte> := [1, 2];
    var e3: seq<Byte> := [1, 2, 1];
    var e: seq<Byte> := [1, 2, 1, 2];
    assert e1[..0] == [] && e2[..1] == e1 && e3[..2] == e2 && e[..3] == e3;
    assert Checksum(e1) == 1;
    assert Checksum(e2) == 3;
    assert Checksum(e3) == 4;
    assert Checksum(e) == 6;
    assert [1, 2] + [1, 2] == e;
  }

  /** The length byte is not protected in the same way: turning bit 1 of the
      length byte of `[1, 2, 1, 2, 6]` off makes its first three bytes a
      complete frame that is accepted. */
  lemma LengthByteFlipAccepted(d: Decoder)
    requires d.Valid() && d.cursor == 0
    ensures EncodeFrame(1, [1, 2]) == [1, 2, 1, 2, 6]
    ensures Run(d, [1, 0, 1, 2, 6][..3]).1 == [Partial, Partial, Accepted]
  {
    SmallFrameEncoding();
    var f: seq<Byte> := [1, 0, 1];
    assert [1, 0, 1, 2, 6][..3] == f;
    var e1: seq<Byte> := [1];
    var e2: seq<Byte> := [1, 0];
    assert e1[..0] == [] && e2[..1] == e1 && f[..2] == e2;
    assert Checksum(e1) == 1;
    assert Checksum(e2) == 1;
    FrameVerdict(d, f);
    assert Partials(2) + [Accepted] == [Partial, Partial, Accepted];
  }

  /** Every response fits the request framing: a response of at most 125
      bytes fed to a decoder is accepted and yields the message. */
  lemma ResponseIsAcceptedFrame(d: Decoder, message: seq<Byte>)
    requires d.Valid() && d.cursor == 0 && |message| <= Capacity - 3
    ensures var r := Run(d, EncodeResponse(message));
            && r.1 == Partials(|message| + 2) + [Accepted]
            && r.0.buf[0] == CmdResponse && r.0.buf[1] == |message|
            && r.0.buf[2..2 + |message|] == message
  {
    assert message[..|message| % 256] == message;
    FrameRoundTrip(d, CmdResponse, message);
  }

  /** An over-long frame (length byte 126 or more) is cut off by the guard
      when the buffer is full: the 128th byte resets the cursor. */
  lemma {:induction false} OverlongFrameDropped(d: Decoder, f: seq<Byte>)
    requires d.Valid() && d.cursor == 0
    requires |f| == Capacity && f[1] as int + 3 > Capacity
    ensures Run(d, f).1 == Partials(Capacity - 1) + [Overflow]
    ensures Run(d, f).0.cursor == 0
  {
    PrefixPending(d, f, Capacity - 1);
    assert f[..Capacity] == f;
    var prev := Decoder(f[..Capacity - 1] + d.buf[Capacity - 1..], Capacity - 1, f[1]);
    assert prev.buf[Capacity - 1 := f[Capacity - 1]][1] == f[1];
  }

  // ---------------------------------------------------------------------------
  // The decoder as written, without a bound on the write position
  // ---------------------------------------------------------------------------

  /** `processSerialData` as written, over an unbounded buffer: the bytes of
      the frame being assembled; the next byte is written at index
      `|pending|` of `incomingData`. */
  function UnboundedFeed(pending: seq<Byte>, b: Byte): (r: seq<Byte>)
    ensures r == [] || r == pending + [b]
  {
    var f := pending + [b];
    if |f| >= 2 && |f| == f[1] as int + 3 then [] else f
  }

  /** The bytes pending after each of `bytes` went through `UnboundedFeed`;
      nothing but the input is ever pending. */
  function UnboundedRun(bytes: seq<Byte>): (r: seq<Byte>)
    ensures |r| <= |bytes|
    decreases |bytes|
  {
    if bytes == [] then [] else UnboundedFeed(UnboundedRun(bytes[..|bytes| - 1]), bytes[|bytes| - 1])
  }

  lemma {:induction false} UnboundedPrefix(f: seq<Byte>, k: nat)
    requires 2 <= |f| && k <= |f| && k < f[1] as int + 3
    ensures UnboundedRun(f[..k]) == f[..k]
  {
    if k > 0 {
      UnboundedPrefix(f, k - 1);
      assert f[..k][..k - 1] == f[..k - 1];
      assert f[..k - 1] + [f[k - 1]] == f[..k];
    }
  }

  /** With no bound, the 128 bytes `[1, 126, 0, …, 0]` leave 128 pending
      bytes, so the 129th byte is written to `incomingData[128]`, one past the
      end of the 128-byte buffer. */
  lemma SourceOverrunsBuffer()
    ensures var w := [1, 126] + seq(126, _ => 0);
            |UnboundedRun(w)| == Capacity
  {
    var w: seq<Byte> := [1, 126] + seq(126, _ => 0);
    UnboundedPrefix(w, Capacity);
    assert w[..Capacity] == w;
  }
}
