/** The host-to-device direction as functions on values: the SysEx
    accumulator (pushSysexToUSB, endSysexToUSB), the per-byte rule that opens
    and closes a SysEx stream, the per-event step of the translation loop and
    the contents of the batch send buffer. The methods of Driver.Bridge are
    proved to compute exactly these. */
module Outbound {
  import opened Midi
  import opened UsbPackets

  /** Bytes the outbound SysEx buffer holds before the next push forces a flush. */
  const SYSEX_BATCH: nat := 48

  /** The status byte that opens a SysEx stream. */
  const SYSEX_START: byte := 0xF0

  /** Outbound state: the send mode flag, the SysEx buffer and the payloads
      written to the USB device so far, oldest first. In Driver.Bridge the
      writes also hold the batch writes of channel packets, so `Pending` is
      meaningful only for a trace of SysEx writes. */
  datatype OutState = OutState(mode: bool, buf: seq<byte>, writes: seq<seq<byte>>)

  /** The state between host events: the buffer holds at most 48 bytes, and
      it is non-empty exactly while a SysEx stream is open. */
  predicate Inv(s: OutState) {
    |s.buf| <= SYSEX_BATCH && (s.mode <==> s.buf != [])
  }

  /** flushSysexToUSB: one write holding the packetised buffer; the buffer is emptied. */
  function Flush(s: OutState): OutState
    requires s.buf != []
  {
    s.(buf := [], writes := s.writes + [Packetize(s.buf)])
  }

  /** pushSysexToUSB: flush when the buffer holds exactly 48 bytes, then append. */
  function Push(s: OutState, b: byte): OutState {
    var t := if |s.buf| == SYSEX_BATCH then Flush(s) else s;
    t.(buf := t.buf + [b])
  }

  /** endSysexToUSB: flush when full, append the terminator, flush again. */
  function End(s: OutState, b: byte): OutState {
    var t := if |s.buf| == SYSEX_BATCH then Flush(s) else s;
    Flush(t.(buf := t.buf + [b]))
  }

  /** One of the four byte checks of a SysEx-mode event: a terminator ends
      the stream and clears the mode (whatever the mode was); any other byte,
      0xF0 included, is appended only while the mode is set. */
  function ByteStep(s: OutState, b: byte): OutState {
    if IsTerminator(b) then End(s, b).(mode := false)
    else if s.mode then Push(s, b)
    else s
  }

  /** The byte checks of a run of bytes, in order. */
  function ByteSteps(s: OutState, bs: seq<byte>): OutState
    decreases |bs|
  {
    if bs == [] then s else ByteSteps(ByteStep(s, bs[0]), bs[1..])
  }

  /** The four byte checks of an event word, least significant byte first. */
  function SysexWord(s: OutState, w: word): OutState {
    ByteSteps(s, Unpack(w))
  }

  /** SysexWord is the four byte checks applied one after the other. */
  lemma SysexWordUnfold(s: OutState, w: word)
    ensures SysexWord(s, w) ==
      ByteStep(ByteStep(ByteStep(ByteStep(s, ByteOf(w, 0)), ByteOf(w, 1)), ByteOf(w, 2)), ByteOf(w, 3))
  {
    var bs := Unpack(w);
    var s1 := ByteStep(s, ByteOf(w, 0));
    var s2 := ByteStep(s1, ByteOf(w, 1));
    var s3 := ByteStep(s2, ByteOf(w, 2));
    var s4 := ByteStep(s3, ByteOf(w, 3));
    assert ByteSteps(s, bs) == ByteSteps(s1, bs[1..]);
    assert bs[1..] == [ByteOf(w, 1), ByteOf(w, 2), ByteOf(w, 3)];
    assert ByteSteps(s1, bs[1..]) == ByteSteps(s2, bs[2..]);
    assert bs[2..] == [ByteOf(w, 2), ByteOf(w, 3)];
    assert ByteSteps(s2, bs[2..]) == ByteSteps(s3, bs[3..]);
    assert bs[3..] == [ByteOf(w, 3)];
    assert ByteSteps(s3, bs[3..]) == ByteSteps(s4, []);
  }

  /** A host event that is packed as a channel message rather than fed to the SysEx buffer. */
  predicate IsChannelEvent(s: OutState, w: word) {
    !s.mode && Status(w) != SYSEX_START
  }

  /** One host event: the mode is set by a 0xF0 status; in SysEx mode the
      bytes are checked, otherwise the event only fills its send-buffer slot
      and the outbound state is unchanged. */
  function EventStep(s: OutState, w: word): OutState {
    var t := if !s.mode && Status(w) == SYSEX_START then s.(mode := true) else s;
    if t.mode then SysexWord(t, w) else t
  }

  /** The state after a batch of host events, taken in order. */
  function Run(s: OutState, events: seq<word>): OutState
    decreases |events|
  {
    if events == [] then s
    else EventStep(Run(s, events[..|events| - 1]), events[|events| - 1])
  }

  /** The send buffer after a batch: each channel event j overwrites slot
      4j..4j+3 with its packet; the other slots keep what they held. */
  function BatchBuffer(s: OutState, prev: seq<byte>, events: seq<word>): (r: seq<byte>)
    requires 4 * |events| <= |prev|
    ensures |r| == |prev|
    decreases |events|
  {
    if events == [] then prev
    else
      var n := |events| - 1;
      var r := BatchBuffer(s, prev, events[..n]);
      if IsChannelEvent(Run(s, events[..n]), events[n])
      then WriteSlot(r, n, ChannelPacket(events[n]))
      else r
  }

  /** Extending a batch by its next event takes one more step of Run and of BatchBuffer. */
  lemma PrefixStep(s: OutState, prev: seq<byte>, events: seq<word>, j: nat)
    requires j < |events| && 4 * |events| <= |prev|
    ensures Run(s, events[..j + 1]) == EventStep(Run(s, events[..j]), events[j])
    ensures BatchBuffer(s, prev, events[..j + 1]) ==
      if IsChannelEvent(Run(s, events[..j]), events[j])
      then WriteSlot(BatchBuffer(s, prev, events[..j]), j, ChannelPacket(events[j]))
      else BatchBuffer(s, prev, events[..j])
  {
    assert events[..j + 1][..j] == events[..j];
  }

  /** The buffer with slot `j` (bytes 4j..4j+3) overwritten by packet `p`. */
  function WriteSlot(buf: seq<byte>, j: nat, p: seq<byte>): (r: seq<byte>)
    requires 4 * j + 4 <= |buf| && |p| == 4
    ensures |r| == |buf| && r[4 * j..4 * j + 4] == p
    ensures forall i :: 0 <= i < |buf| && !(4 * j <= i < 4 * j + 4) ==> r[i] == buf[i]
  {
    buf[..4 * j] + p + buf[4 * j + 4..]
  }

  /** The SysEx bytes carried by a sequence of USB writes, CIN bytes dropped. */
  function Bytes(ws: seq<seq<byte>>): seq<byte>
    decreases |ws|
  {
    if ws == [] then [] else Bytes(ws[..|ws| - 1]) + Unpacketize(ws[|ws| - 1])
  }

  /** Every SysEx byte accepted so far: the bytes already written, then the buffered ones. */
  function Pending(s: OutState): seq<byte> {
    Bytes(s.writes) + s.buf
  }

  /** Reference rule for the SysEx bytes a run of byte checks accepts,
      starting in mode `mode`: terminators always, other bytes while the mode holds. */
  function Accepted(mode: bool, bs: seq<byte>): seq<byte>
    decreases |bs|
  {
    if bs == [] then []
    else if IsTerminator(bs[0]) then [bs[0]] + Accepted(false, bs[1..])
    else if mode then [bs[0]] + Accepted(true, bs[1..])
    else Accepted(false, bs[1..])
  }

  /** The mode after a run of byte checks starting in mode `mode`. */
  function ModeAfter(mode: bool, bs: seq<byte>): bool
    decreases |bs|
  {
    if bs == [] then mode
    else ModeAfter(mode && !IsTerminator(bs[0]), bs[1..])
  }

  lemma BytesAppend(ws: seq<seq<byte>>, p: seq<byte>)
    ensures Bytes(ws + [p]) == Bytes(ws) + Unpacketize(p)
  {
    assert (ws + [p])[..|ws|] == ws;
  }

  /** A flush moves the buffer into the written bytes, losing and reordering nothing. */
  lemma FlushKeepsOrder(s: OutState)
    requires s.buf != []
    ensures Flush(s).buf == []
    ensures Pending(Flush(s)) == Pending(s)
  {
    BytesAppend(s.writes, Packetize(s.buf));
    UnpacketizePacketize(s.buf);
  }

  /** pushSysexToUSB flushes iff the buffer held exactly 48 bytes; afterwards
      the buffer holds 1 to 48 bytes and ends with the pushed byte. */
  lemma PushBounds(s: OutState, b: byte)
    requires |s.buf| <= SYSEX_BATCH
    ensures var r := Push(s, b);
      (|s.buf| == SYSEX_BATCH ==> r.writes == s.writes + [Packetize(s.buf)] && r.buf == [b]) &&
      (|s.buf| < SYSEX_BATCH ==> r.writes == s.writes && r.buf == s.buf + [b]) &&
      1 <= |r.buf| <= SYSEX_BATCH && r.buf[|r.buf| - 1] == b && r.mode == s.mode
  {
  }

  /** Pushing appends exactly the pushed byte to the accepted SysEx bytes. */
  lemma {:induction false} PushKeepsOrder(s: OutState, b: byte)
    ensures Pending(Push(s, b)) == Pending(s) + [b]
  {
    if |s.buf| == SYSEX_BATCH {
      FlushKeepsOrder(s);
    }
  }

  /** endSysexToUSB always leaves the buffer empty. A terminator arriving on a
      full buffer costs two writes: the 48 bytes, whose last group is CIN
      0x07, then a lone 0x05 group; otherwise one write of the buffer plus
      the terminator. */
  lemma {:induction false} EndFlushes(s: OutState, b: byte)
    requires |s.buf| <= SYSEX_BATCH
    ensures var r := End(s, b);
      r.buf == [] && r.mode == s.mode &&
      (|s.buf| == SYSEX_BATCH ==>
         r.writes == s.writes + [Packetize(s.buf), [CIN_SYSEX_END1, b]] &&
         |Packetize(s.buf)| == 64 && Packetize(s.buf)[60] == CIN_SYSEX_END3) &&
      (|s.buf| < SYSEX_BATCH ==> r.writes == s.writes + [Packetize(s.buf + [b])])
  {
    if |s.buf| == SYSEX_BATCH {
      PacketizeLastGroup(s.buf);
      assert Packetize(s.buf)[60..][0] == CIN_SYSEX_END3;
    }
  }

  /** Ending appends exactly the terminator to the accepted SysEx bytes. */
  lemma {:induction false} EndKeepsOrder(s: OutState, b: byte)
    ensures Pending(End(s, b)) == Pending(s) + [b]
  {
    var t := if |s.buf| == SYSEX_BATCH then Flush(s) else s;
    if |s.buf| == SYSEX_BATCH {
      FlushKeepsOrder(s);
    }
    FlushKeepsOrder(t.(buf := t.buf + [b]));
  }

  /** What holds of the state inside a SysEx-mode event, including right
      after a 0xF0 status has set the mode: the buffer holds at most 48 bytes
      and is empty while the mode is clear. */
  predicate InEventInv(s: OutState) {
    |s.buf| <= SYSEX_BATCH && (!s.mode ==> s.buf == [])
  }

  /** A byte check re-establishes the invariant, clears the mode exactly on
      a terminator, and appends the byte to the SysEx stream exactly when it
      is a terminator or the mode is set. */
  lemma {:induction false} ByteStepFacts(s: OutState, b: byte)
    requires InEventInv(s)
    ensures var r := ByteStep(s, b);
      Inv(r) && r.mode == (s.mode && !IsTerminator(b)) &&
      Pending(r) == Pending(s) + (if IsTerminator(b) || s.mode then [b] else [])
  {
    if IsTerminator(b) {
      EndFlushes(s, b);
      EndKeepsOrder(s, b);
    } else if s.mode {
      PushBounds(s, b);
      PushKeepsOrder(s, b);
    }
  }

  /** A run of byte checks leaves the mode ModeAfter says and keeps the
      in-event invariant; after at least one byte the invariant holds again. */
  lemma {:induction false} ByteStepsMode(s: OutState, bs: seq<byte>)
    requires InEventInv(s)
    ensures var r := ByteSteps(s, bs);
      InEventInv(r) && (bs != [] ==> Inv(r)) && r.mode == ModeAfter(s.mode, bs)
    decreases |bs|
  {
    if bs != [] {
      var s1 := ByteStep(s, bs[0]);
      ByteStepFacts(s, bs[0]);
      ByteStepsMode(s1, bs[1..]);
      assert ByteSteps(s, bs) == ByteSteps(s1, bs[1..]);
    }
  }

  /** A run of byte checks appends to the SysEx stream exactly the bytes the
      reference rule Accepted picks, in order. */
  lemma {:induction false} ByteStepsPending(s: OutState, bs: seq<byte>)
    requires InEventInv(s)
    ensures Pending(ByteSteps(s, bs)) == Pending(s) + Accepted(s.mode, bs)
    decreases |bs|
  {
    if bs != [] {
      var b := bs[0];
      var s1 := ByteStep(s, b);
      var x: seq<byte> := if IsTerminator(b) || s.mode then [b] else [];
      var a := Accepted(s1.mode, bs[1..]);
      ByteStepFacts(s, b);
      ByteStepsPending(s1, bs[1..]);
      assert ByteSteps(s, bs) == ByteSteps(s1, bs[1..]);
      assert Accepted(s.mode, bs) == x + a;
      ConcatAssoc(Pending(s), x, a);
    }
  }

  /** A run of byte checks appends to the SysEx stream exactly the bytes the
      reference rule Accepted picks, in order, and leaves the mode ModeAfter
      says; after at least one byte the invariant holds again. */
  lemma ByteStepsOrder(s: OutState, bs: seq<byte>)
    requires InEventInv(s)
    ensures var r := ByteSteps(s, bs);
      InEventInv(r) && (bs != [] ==> Inv(r)) && r.mode == ModeAfter(s.mode, bs) &&
      Pending(r) == Pending(s) + Accepted(s.mode, bs)
  {
    ByteStepsMode(s, bs);
    ByteStepsPending(s, bs);
  }

  /** A host event keeps the invariant. A channel event leaves the outbound
      state as it was; a SysEx-mode event feeds all four of its bytes to the
      byte checks, starting with the mode set. */
  lemma {:induction false} EventStepFacts(s: OutState, w: word)
    requires Inv(s)
    ensures var r := EventStep(s, w);
      Inv(r) &&
      (IsChannelEvent(s, w) ==> r == s) &&
      (!IsChannelEvent(s, w) ==>
         r.mode == ModeAfter(true, Unpack(w)) &&
         Pending(r) == Pending(s) + Accepted(true, Unpack(w)))
  {
    if !IsChannelEvent(s, w) {
      var t := if !s.mode && Status(w) == SYSEX_START then s.(mode := true) else s;
      ByteStepsOrder(t, Unpack(w));
    }
  }

  /** The invariant holds after every batch of host events. */
  lemma {:induction false} RunKeepsInv(s: OutState, events: seq<word>)
    requires Inv(s)
    ensures Inv(Run(s, events))
    decreases |events|
  {
    if events != [] {
      RunKeepsInv(s, events[..|events| - 1]);
      EventStepFacts(Run(s, events[..|events| - 1]), events[|events| - 1]);
    }
  }

  /** Slot j of the send buffer holds event j's packet when event j is a
      channel event, and what it held before when it is a SysEx event; the
      buffer beyond the batch is untouched. */
  lemma {:induction false} BatchBufferSlot(s: OutState, prev: seq<byte>, events: seq<word>, j: nat)
    requires 4 * |events| <= |prev| && j < |events|
    ensures BatchBuffer(s, prev, events)[4 * j..4 * j + 4] ==
      if IsChannelEvent(Run(s, events[..j]), events[j]) then ChannelPacket(events[j])
      else prev[4 * j..4 * j + 4]
    decreases |events|
  {
    var n := |events| - 1;
    if j == n {
      BatchBufferLastSlot(s, prev, events);
    } else {
      BatchBufferSlot(s, prev, events[..n], j);
      BatchBufferKeepsEarlier(s, prev, events, j);
      assert events[..n][..j] == events[..j];
      assert events[..n][j] == events[j];
    }
  }

  /** The last event of a batch decides the last slot it writes. */
  lemma BatchBufferLastSlot(s: OutState, prev: seq<byte>, events: seq<word>)
    requires 4 * |events| <= |prev| && events != []
    ensures var n := |events| - 1;
      BatchBuffer(s, prev, events)[4 * n..4 * n + 4] ==
      if IsChannelEvent(Run(s, events[..n]), events[n]) then ChannelPacket(events[n])
      else prev[4 * n..4 * n + 4]
  {
    var n := |events| - 1;
    var r := BatchBuffer(s, prev, events[..n]);
    BatchBufferTail(s, prev, events[..n]);
    assert r[4 * n..4 * n + 4] == r[4 * n..][..4];
    assert prev[4 * n..4 * n + 4] == prev[4 * n..][..4];
  }

  /** The last event of a batch leaves the slots of the earlier events alone. */
  lemma BatchBufferKeepsEarlier(s: OutState, prev: seq<byte>, events: seq<word>, j: nat)
    requires 4 * |events| <= |prev| && j + 1 < |events|
    ensures var n := |events| - 1;
      BatchBuffer(s, prev, events)[4 * j..4 * j + 4] ==
      BatchBuffer(s, prev, events[..n])[4 * j..4 * j + 4]
  {
    var n := |events| - 1;
    if IsChannelEvent(Run(s, events[..n]), events[n]) {
      WriteSlotKeepsBelow(BatchBuffer(s, prev, events[..n]), n, ChannelPacket(events[n]), 4 * j, 4 * j + 4);
    }
  }

  /** Writing slot k leaves every byte below the slot as it was. */
  lemma WriteSlotKeepsBelow(buf: seq<byte>, k: nat, p: seq<byte>, lo: nat, hi: nat)
    requires 4 * k + 4 <= |buf| && |p| == 4 && lo <= hi <= 4 * k
    ensures WriteSlot(buf, k, p)[lo..hi] == buf[lo..hi]
  {
    assert WriteSlot(buf, k, p)[..4 * k] == buf[..4 * k];
    assert WriteSlot(buf, k, p)[lo..hi] == WriteSlot(buf, k, p)[..4 * k][lo..hi];
    assert buf[lo..hi] == buf[..4 * k][lo..hi];
  }

  lemma SliceEq(a: seq<byte>, b: seq<byte>, lo: nat, hi: nat)
    requires lo <= hi <= |a| == |b|
    requires forall i :: lo <= i < hi ==> a[i] == b[i]
    ensures a[lo..hi] == b[lo..hi]
  {
  }

  lemma {:induction false} BatchBufferTail(s: OutState, prev: seq<byte>, events: seq<word>)
    requires 4 * |events| <= |prev|
    ensures BatchBuffer(s, prev, events)[4 * |events|..] == prev[4 * |events|..]
    decreases |events|
  {
    if events != [] {
      var n := |events| - 1;
      BatchBufferTail(s, prev, events[..n]);
      var r := BatchBuffer(s, prev, events[..n]);
      var r' := BatchBuffer(s, prev, events);
      SliceEq(r', r, 4 * |events|, |prev|);
      assert r[4 * |events|..] == r[4 * n..][4..];
      assert prev[4 * |events|..] == prev[4 * n..][4..];
    }
  }

  /** One word F0 41 10 F7 opens and closes a SysEx stream: the four bytes
      go out in one write as 04 F0 41 10 05 F7 and the mode ends cleared. */
  lemma OpenAndCloseInOneWord(writes: seq<seq<byte>>)
    ensures EventStep(OutState(false, [], writes), PackLE(0xF0, 0x41, 0x10, 0xF7)) ==
      OutState(false, [], writes + [[0x04, 0xF0, 0x41, 0x10, 0x05, 0xF7]])
  {
    var w := PackLE(0xF0, 0x41, 0x10, 0xF7);
    var bs := Unpack(w);
    assert bs == [0xF0, 0x41, 0x10, 0xF7];
    var t := OutState(true, [], writes);
    assert EventStep(OutState(false, [], writes), w) == ByteSteps(t, bs);
    var s1 := ByteStep(t, 0xF0);
    assert s1 == OutState(true, [0xF0], writes);
    var s2 := ByteStep(s1, 0x41);
    assert s2 == OutState(true, [0xF0, 0x41], writes);
    var s3 := ByteStep(s2, 0x10);
    assert s3 == OutState(true, [0xF0, 0x41, 0x10], writes);
    var buf: seq<byte> := [0xF0, 0x41, 0x10, 0xF7];
    var s4 := ByteStep(s3, 0xF7);
    assert s4 == OutState(false, [], writes + [Packetize(buf)]);
    assert bs[1..][1..][1..][1..] == [];
    assert ByteSteps(t, bs) == s4;
    assert Packetize(buf) == [0x04, 0xF0, 0x41, 0x10] + Packetize(buf[3..]);
    assert buf[3..] == [0xF7];
    assert Packetize(buf) == [0x04, 0xF0, 0x41, 0x10, 0x05, 0xF7];
  }

  /** In the word F0 F7 90 00 the 0x90 is treated as a second terminator
      although the stream already ended at F7: two writes, 06 F0 F7 and 05 90. */
  lemma StatusAfterEndIsTerminatorAgain(writes: seq<seq<byte>>)
    ensures EventStep(OutState(false, [], writes), PackLE(0xF0, 0xF7, 0x90, 0x00)) ==
      OutState(false, [], writes + [[0x06, 0xF0, 0xF7], [0x05, 0x90]])
  {
    var w := PackLE(0xF0, 0xF7, 0x90, 0x00);
    var bs := Unpack(w);
    assert bs == [0xF0, 0xF7, 0x90, 0x00];
    var t := OutState(true, [], writes);
    var s1 := ByteStep(t, 0xF0);
    var s2 := ByteStep(s1, 0xF7);
    assert s2 == OutState(false, [], writes + [[0x06, 0xF0, 0xF7]]);
    var s3 := ByteStep(s2, 0x90);
    assert s3 == OutState(false, [], writes + [[0x06, 0xF0, 0xF7], [0x05, 0x90]]);
    assert ByteStep(s3, 0x00) == s3;
    assert bs[1..][1..][1..][1..] == [];
  }

  /** A SysEx event leaves its send-buffer slot as the previous batch left
      it: note-on 90 3C 40 fills slot 0 in one batch, and in the next batch
      the word F0 41 10 F7 at index 0 leaves 09 90 3C 40 there, so the next
      batch write sends that packet again. */
  lemma StaleSlotIsResent(writes: seq<seq<byte>>, prev: seq<byte>)
    requires |prev| >= 4
    ensures var s := OutState(false, [], writes);
      var noteOn := PackLE(0x90, 0x3C, 0x40, 0);
      var first := BatchBuffer(s, prev, [noteOn]);
      BatchBuffer(Run(s, [noteOn]), first, [PackLE(0xF0, 0x41, 0x10, 0xF7)])[..4] ==
        [0x09, 0x90, 0x3C, 0x40]
  {
    var s := OutState(false, [], writes);
    var noteOn := PackLE(0x90, 0x3C, 0x40, 0);
    var sysex := PackLE(0xF0, 0x41, 0x10, 0xF7);
    UnpackPackLE(0x90, 0x3C, 0x40, 0);
    UnpackPackLE(0xF0, 0x41, 0x10, 0xF7);
    ChannelPacketNoteOn();
    assert [noteOn][..0] == [];
    assert Run(s, [noteOn]) == s;
    var first := BatchBuffer(s, prev, [noteOn]);
    assert first == WriteSlot(prev, 0, ChannelPacket(noteOn));
    assert first[..4] == [0x09, 0x90, 0x3C, 0x40];
    assert [sysex][..0] == [];
    assert !IsChannelEvent(s, sysex);
    assert BatchBuffer(s, first, [sysex]) == first;
  }
}
