/** The translation body of `deviceLoop` in driver.cpp: the two SysEx
    buffers, the send mode flag and the batch send buffer are fields updated
    in place, and the `for` loops of flushSysexToUSB and of both directions
    of `deviceLoop` are `while` loops. The device's write and the host
    port's Pm_Write become appends to two ordered traces. Each method is
    proved to compute the value-level definition of the same step in
    Outbound or Inbound. */
module Driver {
  import opened Midi
  import opened UsbPackets
  import Outbound
  import Inbound

  /** Host events one read batch may hold, and so the slots of the send buffer. */
  const SEND_BUFFER_EVENTS: nat := 1024

  /** The part of flushSysexToUSB's output still to be produced once the
      loop index has reached `j`. */
  ghost function Remaining(b: seq<byte>, j: nat): seq<byte> {
    if j >= |b| then [] else Packetize(b[j..])
  }

  class Bridge {
    var sysexSendMode: bool
    var sysexOutBytes: seq<byte>
    var sysexInBytes: seq<byte>
    const sendBuffer: array<byte>
    /** Payloads handed to the USB device's write, oldest first. */
    var usbWrites: seq<seq<byte>>
    /** Messages handed to the host output port, oldest first. */
    var hostWrites: seq<word>

    /** Between calls: a full-size send buffer, the outbound invariant, and
        at most three bytes waiting in the inbound buffer. */
    ghost predicate Valid()
      reads this
    {
      sendBuffer.Length == 4 * SEND_BUFFER_EVENTS &&
      Outbound.Inv(OutView()) &&
      |sysexInBytes| < Inbound.HOST_WORD_BYTES
    }

    ghost function OutView(): Outbound.OutState
      reads this
    {
      Outbound.OutState(sysexSendMode, sysexOutBytes, usbWrites)
    }

    ghost function InView(): Inbound.InState
      reads this
    {
      Inbound.InState(sysexInBytes, hostWrites)
    }

    /** The state deviceLoop starts with: both buffers empty, the mode clear,
        the send buffer zeroed, nothing written yet. */
    constructor ()
      ensures Valid() && fresh(sendBuffer)
      ensures !sysexSendMode && sysexOutBytes == [] && sysexInBytes == []
      ensures usbWrites == [] && hostWrites == []
      ensures forall i :: 0 <= i < sendBuffer.Length ==> sendBuffer[i] == 0
    {
      sysexSendMode := false;
      sysexOutBytes := [];
      sysexInBytes := [];
      usbWrites := [];
      hostWrites := [];
      sendBuffer := new byte[4 * SEND_BUFFER_EVENTS](_ => 0);
    }

    /** flushSysexToUSB: cut the buffer into groups of three from the start,
        write them in one call and empty the buffer. Never reached with an
        empty buffer. */
    method FlushSysexToUsb()
      requires sysexOutBytes != []
      modifies this`sysexOutBytes, this`usbWrites
      ensures usbWrites == old(usbWrites) + [Packetize(old(sysexOutBytes))] && sysexOutBytes == []
      ensures OutView() == Outbound.Flush(old(OutView()))
    {
      var sendBytes: seq<byte> := [];
      var j := 0;
      while j < |sysexOutBytes|
        invariant j <= |sysexOutBytes| + 2
        invariant sendBytes + Remaining(sysexOutBytes, j) == Packetize(sysexOutBytes)
      {
        ghost var rest := sysexOutBytes[j..];
        if j == |sysexOutBytes| - 3 {
          sendBytes := sendBytes + [CIN_SYSEX_END3, sysexOutBytes[j], sysexOutBytes[j + 1], sysexOutBytes[j + 2]];
        } else if j == |sysexOutBytes| - 2 {
          sendBytes := sendBytes + [CIN_SYSEX_END2, sysexOutBytes[j], sysexOutBytes[j + 1]];
        } else if j == |sysexOutBytes| - 1 {
          sendBytes := sendBytes + [CIN_SYSEX_END1, sysexOutBytes[j]];
        } else {
          assert rest[3..] == sysexOutBytes[j + 3..];
          sendBytes := sendBytes + [CIN_SYSEX_CONTINUE, sysexOutBytes[j], sysexOutBytes[j + 1], sysexOutBytes[j + 2]];
        }
        j := j + 3;
      }
      assert sendBytes == Packetize(sysexOutBytes);
      usbWrites := usbWrites + [sendBytes];
      sysexOutBytes := [];
    }

    /** pushSysexToUSB: flush first iff the buffer holds exactly 48 bytes, then append. */
    method PushSysexToUsb(b: byte)
      modifies this`sysexOutBytes, this`usbWrites
      ensures OutView() == Outbound.Push(old(OutView()), b)
    {
      if |sysexOutBytes| == Outbound.SYSEX_BATCH {
        FlushSysexToUsb();
      }
      sysexOutBytes := sysexOutBytes + [b];
    }

    /** endSysexToUSB: flush if full, append the terminator, flush. */
    method EndSysexToUsb(b: byte)
      modifies this`sysexOutBytes, this`usbWrites
      ensures OutView() == Outbound.End(old(OutView()), b)
      ensures sysexOutBytes == []
    {
      if |sysexOutBytes| == Outbound.SYSEX_BATCH {
        FlushSysexToUsb();
      }
      sysexOutBytes := sysexOutBytes + [b];
      FlushSysexToUsb();
    }

    /** One of the four byte checks of a SysEx-mode event. */
    method TranslateSysexByte(b: byte)
      modifies this`sysexSendMode, this`sysexOutBytes, this`usbWrites
      ensures OutView() == Outbound.ByteStep(old(OutView()), b)
    {
      if IsTerminator(b) {
        EndSysexToUsb(b);
        sysexSendMode := false;
      } else if sysexSendMode {
        PushSysexToUsb(b);
      }
    }

    /** The body of the outbound loop for event `w` at index `j`: a 0xF0
        status sets the mode; in SysEx mode the four bytes are checked, in
        order; otherwise the event's packet fills slot j of the send buffer. */
    method TranslateHostEvent(w: word, j: nat)
      requires 4 * j + 4 <= sendBuffer.Length
      modifies this`sysexSendMode, this`sysexOutBytes, this`usbWrites, sendBuffer
      ensures OutView() == Outbound.EventStep(old(OutView()), w)
      ensures sendBuffer[..] ==
        if Outbound.IsChannelEvent(old(OutView()), w)
        then Outbound.WriteSlot(old(sendBuffer[..]), j, ChannelPacket(w))
        else old(sendBuffer[..])
    {
      if !sysexSendMode && Status(w) == Outbound.SYSEX_START {
        sysexSendMode := true;
      }
      if sysexSendMode {
        ghost var entered := OutView();
        TranslateSysexByte(ByteOf(w, 0));
        TranslateSysexByte(ByteOf(w, 1));
        TranslateSysexByte(ByteOf(w, 2));
        TranslateSysexByte(ByteOf(w, 3));
        Outbound.SysexWordUnfold(entered, w);
      } else {
        sendBuffer[4 * j] := Status(w) / 0x10;
        sendBuffer[4 * j + 1] := Status(w);
        sendBuffer[4 * j + 2] := Data1(w);
        sendBuffer[4 * j + 3] := Data2(w);
        assert sendBuffer[..] == Outbound.WriteSlot(old(sendBuffer[..]), j, ChannelPacket(w));
      }
    }

    /** The outbound half of one loop iteration: every host event of the
        batch in order, then one write of the first 4 * |events| bytes of the
        send buffer. SysEx writes made on the way come before that write. */
    method TranslateHostEvents(events: seq<word>)
      requires Valid() && |events| <= SEND_BUFFER_EVENTS
      modifies this`sysexSendMode, this`sysexOutBytes, this`usbWrites, sendBuffer
      ensures Valid()
      ensures var s := Outbound.Run(old(OutView()), events);
        sysexSendMode == s.mode && sysexOutBytes == s.buf &&
        sendBuffer[..] == Outbound.BatchBuffer(old(OutView()), old(sendBuffer[..]), events) &&
        usbWrites == if events == [] then old(usbWrites) else s.writes + [sendBuffer[..4 * |events|]]
    {
      if |events| > 0 {
        ghost var s0 := OutView();
        ghost var prev := sendBuffer[..];
        var j := 0;
        while j < |events|
          invariant 0 <= j <= |events|
          invariant OutView() == Outbound.Run(s0, events[..j])
          invariant Outbound.Inv(OutView())
          invariant sendBuffer[..] == Outbound.BatchBuffer(s0, prev, events[..j])
        {
          Outbound.PrefixStep(s0, prev, events, j);
          Outbound.EventStepFacts(OutView(), events[j]);
          TranslateHostEvent(events[j], j);
          j := j + 1;
        }
        assert events[..j] == events;
        usbWrites := usbWrites + [sendBuffer[..4 * |events|]];
      }
    }

    /** flushSysexToHost: pad with four zeros when fewer than four bytes are
        buffered, send the first four as one little-endian message, empty the buffer. */
    method FlushSysexToHost()
      modifies this`sysexInBytes, this`hostWrites
      ensures InView() == Inbound.Flush(old(InView()))
    {
      if |sysexInBytes| < Inbound.HOST_WORD_BYTES {
        sysexInBytes := sysexInBytes + [0, 0, 0, 0];
      }
      hostWrites := hostWrites + [PackLE(sysexInBytes[0], sysexInBytes[1], sysexInBytes[2], sysexInBytes[3])];
      sysexInBytes := [];
    }

    /** Append one inbound SysEx byte and flush when four are buffered. */
    method PushSysexToHost(b: byte)
      modifies this`sysexInBytes, this`hostWrites
      ensures InView() == Inbound.Push(old(InView()), b)
    {
      sysexInBytes := sysexInBytes + [b];
      if |sysexInBytes| == Inbound.HOST_WORD_BYTES {
        FlushSysexToHost();
      }
    }

    /** The classifier for one USB-MIDI Event Packet. */
    method TranslateUsbPacket(c: byte, b1: byte, b2: byte, b3: byte)
      modifies this`sysexInBytes, this`hostWrites
      ensures InView() == Inbound.PacketStep(old(InView()), c, b1, b2, b3)
    {
      if c == CIN_SYSEX_CONTINUE {
        PushSysexToHost(b1);
        PushSysexToHost(b2);
        PushSysexToHost(b3);
      } else if CIN_SYSEX_END1 <= c <= CIN_SYSEX_END3 {
        PushSysexToHost(b1);
        PushSysexToHost(b2);
        sysexInBytes := sysexInBytes + [b3];
        FlushSysexToHost();
      } else {
        hostWrites := hostWrites + [PackLE(b1, b2, b3, 0)];
      }
    }

    /** The inbound half of one loop iteration: the whole packets of the
        bytes one successful USB read returned, in order. */
    method TranslateUsbRead(rb: seq<byte>)
      requires Valid()
      modifies this`sysexInBytes, this`hostWrites
      ensures Valid()
      ensures InView() == Inbound.Translate(old(InView()), rb)
    {
      ghost var s0 := InView();
      var j := 0;
      while j < |rb| / 4
        invariant 0 <= j <= |rb| / 4
        invariant Inbound.Translate(InView(), rb[4 * j..]) == Inbound.Translate(s0, rb)
        invariant |sysexInBytes| < Inbound.HOST_WORD_BYTES
      {
        ghost var before := InView();
        ghost var rest := rb[4 * j..];
        assert rest[..4] == rb[4 * j..4 * j + 4];
        assert rest[4..] == rb[4 * (j + 1)..];
        Inbound.TranslateFirstPacket(before, rest);
        Inbound.PacketStepBound(before, rb[4 * j], rb[4 * j + 1], rb[4 * j + 2], rb[4 * j + 3]);
        TranslateUsbPacket(rb[4 * j], rb[4 * j + 1], rb[4 * j + 2], rb[4 * j + 3]);
        j := j + 1;
      }
    }

    /** One iteration of deviceLoop's body: the host events read, then the
        bytes read from the device. */
    method PollOnce(events: seq<word>, rb: seq<byte>)
      requires Valid() && |events| <= SEND_BUFFER_EVENTS
      modifies this, sendBuffer
      ensures Valid()
      ensures var s := Outbound.Run(old(OutView()), events);
        sysexSendMode == s.mode && sysexOutBytes == s.buf &&
        usbWrites == (if events == [] then old(usbWrites) else s.writes + [sendBuffer[..4 * |events|]]) &&
        sendBuffer[..] == Outbound.BatchBuffer(old(OutView()), old(sendBuffer[..]), events)
      ensures InView() == Inbound.Translate(old(InView()), rb)
    {
      TranslateHostEvents(events);
      TranslateUsbRead(rb);
    }
  }
}
