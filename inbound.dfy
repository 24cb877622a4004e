/** The device-to-host direction as functions on values: the regrouping of
    SysEx payload bytes into 32-bit host messages (flushSysexToHost), the
    per-packet classifier and the loop over the whole packets of one USB
    read. The methods of Driver.Bridge are proved to compute exactly these. */
module Inbound {
  import opened Midi
  import opened UsbPackets

  /** Bytes one host message carries. */
  const HOST_WORD_BYTES: nat := 4

  /** The four zero bytes a short flush appends. */
  const ZERO_WORD: seq<byte> := [0, 0, 0, 0]

  /** Inbound state: the SysEx regrouping buffer and the messages written to
      the host port so far, oldest first. */
  datatype InState = InState(buf: seq<byte>, out: seq<word>)

  /** `x` padded with zero bytes up to the next multiple of four. */
  function Pad4(x: seq<byte>): (r: seq<byte>)
    ensures |r| % 4 == 0
  {
    x + ZERO_WORD[..(4 - |x| % 4) % 4]
  }

  /** flushSysexToHost: one message packing the first four buffered bytes
      little-endian, a missing byte reading as zero; the buffer is emptied. */
  function Flush(s: InState): (r: InState)
    ensures r.buf == [] && |r.out| == |s.out| + 1 && r.out[..|s.out|] == s.out
  {
    var b := if |s.buf| < HOST_WORD_BYTES then s.buf + ZERO_WORD else s.buf;
    InState([], s.out + [PackLE(b[0], b[1], b[2], b[3])])
  }

  /** The message a flush sends holds the first four buffered bytes, least
      significant first, a missing byte reading as zero. */
  lemma FlushMessage(s: InState)
    ensures Unpack(Flush(s).out[|s.out|]) == (s.buf + ZERO_WORD)[..4]
  {
    var b := if |s.buf| < HOST_WORD_BYTES then s.buf + ZERO_WORD else s.buf;
    UnpackPackLE(b[0], b[1], b[2], b[3]);
  }

  /** Append one SysEx byte, then flush if the buffer now holds four. */
  function Push(s: InState, b: byte): InState {
    var t := s.(buf := s.buf + [b]);
    if |t.buf| == HOST_WORD_BYTES then Flush(t) else t
  }

  /** One USB-MIDI Event Packet (controlByte, b1, b2, b3). CIN 0x04 feeds
      three bytes to the buffer; CIN 0x05 to 0x07 feeds two, then appends the
      third and flushes whatever is buffered; any other control byte passes
      b1 b2 b3 to the host as one message and leaves the buffer alone. */
  function PacketStep(s: InState, c: byte, b1: byte, b2: byte, b3: byte): InState {
    if c == CIN_SYSEX_CONTINUE then Push(Push(Push(s, b1), b2), b3)
    else if CIN_SYSEX_END1 <= c <= CIN_SYSEX_END3 then
      var t := Push(Push(s, b1), b2);
      Flush(t.(buf := t.buf + [b3]))
    else s.(out := s.out + [PackLE(b1, b2, b3, 0)])
  }

  /** The whole 4-byte packets of one USB read, in order; a trailing part
      packet is not looked at. */
  function Translate(s: InState, rb: seq<byte>): InState
    decreases |rb|
  {
    if |rb| < 4 then s
    else Translate(PacketStep(s, rb[0], rb[1], rb[2], rb[3]), rb[4..])
  }

  /** The bytes of a sequence of host messages, each least significant byte first. */
  function WordBytes(ws: seq<word>): (r: seq<byte>)
    ensures |r| == 4 * |ws|
    decreases |ws|
  {
    if ws == [] then [] else WordBytes(ws[..|ws| - 1]) + Unpack(ws[|ws| - 1])
  }

  /** Every byte received so far: the bytes of the messages sent, then the buffered ones. */
  function Stream(s: InState): seq<byte> {
    WordBytes(s.out) + s.buf
  }

  lemma WordBytesAppend(ws: seq<word>, w: word)
    ensures WordBytes(ws + [w]) == WordBytes(ws) + Unpack(w)
  {
    assert (ws + [w])[..|ws|] == ws;
  }

  /** Padding a sequence that starts with whole words pads only its tail. */
  lemma PadShift(ws: seq<word>, b: seq<byte>)
    ensures Pad4(WordBytes(ws) + b) == WordBytes(ws) + Pad4(b)
  {
    assert (4 * |ws| + |b|) % 4 == |b| % 4;
  }

  /** A flush of one to four bytes sends them, zero padded to four, as one message. */
  lemma {:induction false} FlushStream(s: InState)
    requires 1 <= |s.buf| <= HOST_WORD_BYTES
    ensures WordBytes(Flush(s).out) == WordBytes(s.out) + Pad4(s.buf)
  {
    var r := Flush(s);
    assert r.out == s.out + [r.out[|s.out|]];
    WordBytesAppend(s.out, r.out[|s.out|]);
    FlushMessage(s);
    PadOneWord(s.buf);
  }

  /** One to four bytes followed by zeros, cut at four, is their padding. */
  lemma PadOneWord(x: seq<byte>)
    requires 1 <= |x| <= 4
    ensures (x + ZERO_WORD)[..4] == Pad4(x)
  {
    assert (4 - |x| % 4) % 4 == 4 - |x|;
  }

  /** Pushing a byte keeps the buffer at three bytes or fewer and appends the
      byte to the received stream, whether or not it triggers a flush. */
  lemma {:induction false} PushStream(s: InState, b: byte)
    requires |s.buf| < HOST_WORD_BYTES
    ensures |Push(s, b).buf| < HOST_WORD_BYTES
    ensures Stream(Push(s, b)) == Stream(s) + [b]
  {
    var t := s.(buf := s.buf + [b]);
    if |t.buf| == HOST_WORD_BYTES {
      FlushStream(t);
      assert Pad4(t.buf) == t.buf;
    }
  }

  /** A CIN 0x04 packet appends its three payload bytes to the received
      stream in order and leaves at most three bytes buffered. */
  lemma {:induction false} ContinuePacketStream(s: InState, b1: byte, b2: byte, b3: byte)
    requires |s.buf| < HOST_WORD_BYTES
    ensures var r := PacketStep(s, CIN_SYSEX_CONTINUE, b1, b2, b3);
      |r.buf| < HOST_WORD_BYTES && Stream(r) == Stream(s) + [b1, b2, b3]
  {
    var s1 := Push(s, b1);
    var s2 := Push(s1, b2);
    var s3 := Push(s2, b3);
    ContinuePacketUnfold(s, b1, b2, b3);
    PushStream(s, b1);
    PushStream(s1, b2);
    PushStream(s2, b3);
    Snoc3(Stream(s), b1, b2, b3);
  }

  /** Appending three bytes one at a time appends them as one run. */
  lemma Snoc3(x: seq<byte>, b1: byte, b2: byte, b3: byte)
    ensures x + [b1] + [b2] + [b3] == x + [b1, b2, b3]
  {
  }

  /** A CIN 0x04 packet is three pushes. */
  lemma ContinuePacketUnfold(s: InState, b1: byte, b2: byte, b3: byte)
    ensures PacketStep(s, CIN_SYSEX_CONTINUE, b1, b2, b3) == Push(Push(Push(s, b1), b2), b3)
  {
  }

  /** A CIN 0x05 to 0x07 packet sends the buffered bytes and all three of its
      payload bytes, the padding included, zero padded to whole messages, and
      leaves the buffer empty. */
  lemma {:induction false} EndPacketStream(s: InState, c: byte, b1: byte, b2: byte, b3: byte)
    requires |s.buf| < HOST_WORD_BYTES && CIN_SYSEX_END1 <= c <= CIN_SYSEX_END3
    ensures var r := PacketStep(s, c, b1, b2, b3);
      r.buf == [] && WordBytes(r.out) == WordBytes(s.out) + Pad4(s.buf + [b1, b2, b3])
  {
    var s1 := Push(s, b1);
    var t := Push(s1, b2);
    EndPacketUnfold(s, c, b1, b2, b3);
    PushStream(s, b1);
    PushStream(s1, b2);
    Snoc2(Stream(s), b1, b2);
    EndFlushStream(t, s, b1, b2, b3);
  }

  /** Appending two bytes one at a time appends them as one run. */
  lemma Snoc2(x: seq<byte>, b1: byte, b2: byte)
    ensures x + [b1] + [b2] == x + [b1, b2]
  {
  }

  /** A CIN 0x05 to 0x07 packet is two pushes, an append of the third byte and a flush. */
  lemma EndPacketUnfold(s: InState, c: byte, b1: byte, b2: byte, b3: byte)
    requires CIN_SYSEX_END1 <= c <= CIN_SYSEX_END3
    ensures var t := Push(Push(s, b1), b2);
      PacketStep(s, c, b1, b2, b3) == Flush(t.(buf := t.buf + [b3]))
  {
  }

  /** If `t` has received what `s` had plus b1 b2, appending `b3` and
      flushing sends the bytes `s` had buffered, then b1 b2 b3, zero padded. */
  lemma EndFlushStream(t: InState, s: InState, b1: byte, b2: byte, b3: byte)
    requires |t.buf| < HOST_WORD_BYTES && Stream(t) == Stream(s) + [b1, b2]
    ensures var r := Flush(t.(buf := t.buf + [b3]));
      r.buf == [] && WordBytes(r.out) == WordBytes(s.out) + Pad4(s.buf + [b1, b2, b3])
  {
    FlushStream(t.(buf := t.buf + [b3]));
    StreamPadding(t, s, [b1, b2], [b3]);
    assert [b1, b2] + [b3] == [b1, b2, b3];
  }

  /** Any other control byte sends b1 b2 b3 as one message with a zero high byte. */
  lemma OtherPacketPassesThrough(s: InState, c: byte, b1: byte, b2: byte, b3: byte)
    requires c != CIN_SYSEX_CONTINUE && !(CIN_SYSEX_END1 <= c <= CIN_SYSEX_END3)
    ensures var r := PacketStep(s, c, b1, b2, b3);
      r.buf == s.buf && |r.out| == |s.out| + 1 && r.out[..|s.out|] == s.out &&
      Unpack(r.out[|s.out|]) == [b1, b2, b3, 0]
  {
    UnpackPackLE(b1, b2, b3, 0);
  }

  /** Between packets the buffer holds at most three bytes, and none after a terminator packet. */
  lemma {:induction false} PacketStepBound(s: InState, c: byte, b1: byte, b2: byte, b3: byte)
    requires |s.buf| < HOST_WORD_BYTES
    ensures |PacketStep(s, c, b1, b2, b3).buf| < HOST_WORD_BYTES
    ensures CIN_SYSEX_END1 <= c <= CIN_SYSEX_END3 ==> PacketStep(s, c, b1, b2, b3).buf == []
  {
    if c == CIN_SYSEX_CONTINUE {
      ContinuePacketStream(s, b1, b2, b3);
    } else if CIN_SYSEX_END1 <= c <= CIN_SYSEX_END3 {
      EndPacketStream(s, c, b1, b2, b3);
    }
  }

  /** A whole read keeps the buffer at three bytes or fewer. */
  lemma {:induction false} TranslateBound(s: InState, rb: seq<byte>)
    requires |s.buf| < HOST_WORD_BYTES
    ensures |Translate(s, rb).buf| < HOST_WORD_BYTES
    decreases |rb|
  {
    if |rb| >= 4 {
      PacketStepBound(s, rb[0], rb[1], rb[2], rb[3]);
      TranslateBound(PacketStep(s, rb[0], rb[1], rb[2], rb[3]), rb[4..]);
    }
  }

  /** Bytes past the last whole 4-byte packet of a read are ignored. */
  lemma {:induction false} TrailingBytesIgnored(s: InState, rb: seq<byte>)
    ensures Translate(s, rb) == Translate(s, rb[..4 * (|rb| / 4)])
    decreases |rb|
  {
    var k := 4 * (|rb| / 4);
    if |rb| >= 4 {
      var rest := rb[4..];
      TrailingBytesIgnored(PacketStep(s, rb[0], rb[1], rb[2], rb[3]), rest);
      assert |rest| / 4 == |rb| / 4 - 1;
      assert 4 * (|rest| / 4) == k - 4;
      assert rb[..k][4..] == rest[..k - 4];
      assert rb[..k][..4] == rb[..4];
    } else {
      assert k == 0;
    }
  }

  /** Packets 04 11 22 33 and 06 44 55 00 give the host the messages
      0x44332211 and 0x00000055, and leave nothing buffered. */
  lemma TwoPacketSysex()
    ensures Translate(InState([], []), [0x04, 0x11, 0x22, 0x33, 0x06, 0x44, 0x55, 0x00]) ==
      InState([], [0x44332211, 0x00000055])
  {
    var rb: seq<byte> := [0x04, 0x11, 0x22, 0x33, 0x06, 0x44, 0x55, 0x00];
    var s1 := PacketStep(InState([], []), 0x04, 0x11, 0x22, 0x33);
    assert s1 == InState([0x11, 0x22, 0x33], []);
    var s2 := PacketStep(s1, 0x06, 0x44, 0x55, 0x00);
    assert s2 == InState([], [0x44332211, 0x00000055]);
    assert rb[4..][4..] == [];
  }

  /** What the outbound translator writes for a SysEx buffer whose length is
      a multiple of three consists of whole packets only, CIN 0x04 groups and
      a final CIN 0x07 one; fed to the inbound translator it hands the host
      exactly the buffer's bytes, in order, zero padded to whole messages. */
  lemma {:induction false} AlignedRoundTrip(s: InState, b: seq<byte>)
    requires |s.buf| < HOST_WORD_BYTES && |b| > 0 && |b| % 3 == 0
    ensures var r := Translate(s, Packetize(b));
      r.buf == [] && WordBytes(r.out) == WordBytes(s.out) + Pad4(s.buf + b)
    decreases |b|
  {
    if |b| == 3 {
      AlignedLastGroup(s, b);
    } else {
      assert b == b[..3] + b[3..];
      assert |b[3..]| % 3 == 0;
      var t := PacketStep(s, CIN_SYSEX_CONTINUE, b[0], b[1], b[2]);
      AlignedFirstGroup(s, b);
      AlignedRoundTrip(t, b[3..]);
      StreamPadding(t, s, b[..3], b[3..]);
    }
  }

  lemma AlignedLastGroup(s: InState, b: seq<byte>)
    requires |s.buf| < HOST_WORD_BYTES && |b| == 3
    ensures var r := Translate(s, Packetize(b));
      r.buf == [] && WordBytes(r.out) == WordBytes(s.out) + Pad4(s.buf + b)
  {
    assert b == [b[0], b[1], b[2]];
    var p := Packetize(b);
    assert p == [CIN_SYSEX_END3, b[0], b[1], b[2]];
    var t := PacketStep(s, CIN_SYSEX_END3, b[0], b[1], b[2]);
    TranslateFirstPacket(s, p);
    assert p[4..] == [];
    assert Translate(s, p) == Translate(t, []) == t;
    EndPacketStream(s, CIN_SYSEX_END3, b[0], b[1], b[2]);
  }

  lemma AlignedFirstGroup(s: InState, b: seq<byte>)
    requires |s.buf| < HOST_WORD_BYTES && |b| > 3
    ensures var t := PacketStep(s, CIN_SYSEX_CONTINUE, b[0], b[1], b[2]);
      Translate(s, Packetize(b)) == Translate(t, Packetize(b[3..])) &&
      |t.buf| < HOST_WORD_BYTES && Stream(t) == Stream(s) + b[..3]
  {
    assert b[..3] == [b[0], b[1], b[2]];
    TranslatePacketizeHead(s, b);
    ContinuePacketStream(s, b[0], b[1], b[2]);
  }

  /** Reading a packetised buffer of more than three bytes starts with its CIN 0x04 group. */
  lemma TranslatePacketizeHead(s: InState, b: seq<byte>)
    requires |b| > 3
    ensures Translate(s, Packetize(b)) ==
      Translate(PacketStep(s, CIN_SYSEX_CONTINUE, b[0], b[1], b[2]), Packetize(b[3..]))
  {
    var p := Packetize(b);
    PacketizeHead(b);
    assert p[0] == CIN_SYSEX_CONTINUE && p[1] == b[0] && p[2] == b[1] && p[3] == b[2];
    assert p[4..] == Packetize(b[3..]);
    TranslateFirstPacket(s, p);
  }

  lemma TranslateFirstPacket(s: InState, rb: seq<byte>)
    requires |rb| >= 4
    ensures Translate(s, rb) == Translate(PacketStep(s, rb[0], rb[1], rb[2], rb[3]), rb[4..])
  {
  }

  /** If `t` has received what `s` had plus `x`, then padding `t`'s buffer
      plus `y` pads the bytes `s` had buffered followed by `x` and `y`. */
  lemma StreamPadding(t: InState, s: InState, x: seq<byte>, y: seq<byte>)
    requires Stream(t) == Stream(s) + x
    ensures WordBytes(t.out) + Pad4(t.buf + y) == WordBytes(s.out) + Pad4(s.buf + (x + y))
  {
    calc {
      WordBytes(t.out) + Pad4(t.buf + y);
      { PadShift(t.out, t.buf + y); }
      Pad4(WordBytes(t.out) + (t.buf + y));
      { ConcatAssoc(WordBytes(t.out), t.buf, y); }
      Pad4(Stream(t) + y);
      { ConcatAssoc(Stream(s), x, y); }
      Pad4(Stream(s) + (x + y));
      { ConcatAssoc(WordBytes(s.out), s.buf, x + y); }
      Pad4(WordBytes(s.out) + (s.buf + (x + y)));
      { PadShift(s.out, s.buf + (x + y)); }
      WordBytes(s.out) + Pad4(s.buf + (x + y));
    }
  }

  /** The outbound writes for the two-byte SysEx F0 F7 are the three bytes
      06 F0 F7, less than one whole packet: read back by the inbound
      translator they give the host nothing. */
  lemma UnpaddedEndIsDropped()
    ensures Translate(InState([], []), Packetize([0xF0, 0xF7])) == InState([], [])
  {
    assert |Packetize([0xF0, 0xF7])| == 3;
  }

  /** Whatever the buffer, a SysEx buffer whose length is not a multiple of
      three loses its final group on the way back: the host side receives
      the bytes of the full CIN 0x04 groups only, because the unpadded final
      group of two or three bytes is shorter than one packet. */
  lemma UnalignedTailDropped(s: InState, b: seq<byte>)
    requires |s.buf| < HOST_WORD_BYTES && |b| % 3 != 0
    ensures Stream(Translate(s, Packetize(b))) == Stream(s) + b[..3 * (|b| / 3)]
  {
    UnalignedFrom(s, b, |b| / 3);
  }

  /** With 3k < |b| < 3k + 3, reading back the packetised buffer adds the
      first 3k bytes to the received stream. */
  lemma {:induction false} UnalignedFrom(s: InState, b: seq<byte>, k: nat)
    requires |s.buf| < HOST_WORD_BYTES && 3 * k < |b| < 3 * k + 3
    ensures Stream(Translate(s, Packetize(b))) == Stream(s) + b[..3 * k]
    decreases k
  {
    if k == 0 {
      ShortTailDropped(s, b);
    } else {
      var t := PacketStep(s, CIN_SYSEX_CONTINUE, b[0], b[1], b[2]);
      var rest := b[3..][..3 * (k - 1)];
      calc {
        Stream(Translate(s, Packetize(b)));
        { TranslatePacketizeHead(s, b); }
        Stream(Translate(t, Packetize(b[3..])));
        { ContinuePacketStream(s, b[0], b[1], b[2]); UnalignedFrom(t, b[3..], k - 1); }
        Stream(t) + rest;
        { ContinuePacketStream(s, b[0], b[1], b[2]); }
        Stream(s) + [b[0], b[1], b[2]] + rest;
        { HeadSlice(b, 3 * k); }
        Stream(s) + b[..3 * k];
      }
    }
  }

  /** A final group of one or two bytes, written unpadded, is no whole packet. */
  lemma ShortTailDropped(s: InState, b: seq<byte>)
    requires 0 < |b| < 3
    ensures Translate(s, Packetize(b)) == s
  {
    PacketizeLength(b);
  }

  /** A prefix of at least three bytes is the first three, then the rest of the prefix. */
  lemma HeadSlice(b: seq<byte>, m: nat)
    requires 3 <= m <= |b|
    ensures b[..m] == [b[0], b[1], b[2]] + b[3..][..m - 3]
  {
    assert b[..m] == b[..3] + b[3..m];
    assert b[..3] == [b[0], b[1], b[2]];
  }
}
