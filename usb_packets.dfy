/** USB-MIDI Event Packets as this bridge writes them: the Code Index Numbers
    of Table 4-1 in section 4 of the USB Device Class Definition for MIDI
    Devices 1.0, the cutting of an outbound SysEx buffer into groups
    (flushSysexToUSB) and the packet of a channel message. */
module UsbPackets {
  import opened Midi

  /** SysEx starts or continues: three payload bytes follow. */
  const CIN_SYSEX_CONTINUE: byte := 0x04
  /** SysEx ends with one, two or three payload bytes. */
  const CIN_SYSEX_END1: byte := 0x05
  const CIN_SYSEX_END2: byte := 0x06
  const CIN_SYSEX_END3: byte := 0x07

  /** The CIN of a final group that holds `n` bytes. */
  function EndCin(n: nat): (c: byte)
    requires 1 <= n <= 3
    ensures c == (if n == 1 then CIN_SYSEX_END1 else if n == 2 then CIN_SYSEX_END2 else CIN_SYSEX_END3)
  {
    0x04 + n
  }

  /** Bytes written for a final group of `r` bytes short of a full triple (CIN plus payload). */
  function TailLength(r: nat): nat {
    if r == 0 then 0 else r + 1
  }

  /** What flushSysexToUSB writes for buffer `b`: groups of three from the
      start, each led by CIN 0x04, except the last one, which is led by the
      end CIN for its size and is NOT padded to four bytes. */
  function Packetize(b: seq<byte>): (p: seq<byte>)
    ensures 4 * |b| <= 3 * |p| <= 4 * |b| + 2
    decreases |b|
  {
    if |b| == 0 then []
    else if |b| == 1 then [CIN_SYSEX_END1, b[0]]
    else if |b| == 2 then [CIN_SYSEX_END2, b[0], b[1]]
    else if |b| == 3 then [CIN_SYSEX_END3, b[0], b[1], b[2]]
    else [CIN_SYSEX_CONTINUE, b[0], b[1], b[2]] + Packetize(b[3..])
  }

  /** The written length: four bytes per full group, and the final group's CIN and bytes. */
  lemma PacketizeLength(b: seq<byte>)
    ensures |Packetize(b)| == 4 * (|b| / 3) + TailLength(|b| % 3)
  {
    var n := |Packetize(b)|;
    var k := |b| / 3;
    assert |b| == 3 * k + |b| % 3;
  }

  /** A buffer of more than three bytes starts with a full CIN 0x04 group. */
  lemma PacketizeHead(b: seq<byte>)
    requires |b| > 3
    ensures Packetize(b) == [CIN_SYSEX_CONTINUE, b[0], b[1], b[2]] + Packetize(b[3..])
  {
    assert !(|b| == 0 || |b| == 1 || |b| == 2 || |b| == 3);
  }

  /** Payload bytes that follow a CIN in this unpadded format. */
  function GroupSize(cin: byte): (n: nat)
    ensures 1 <= n <= 3
  {
    if cin == CIN_SYSEX_END1 then 1 else if cin == CIN_SYSEX_END2 then 2 else 3
  }

  /** Drops the CIN bytes of a packet stream, reading each group's size off its CIN. */
  function Unpacketize(p: seq<byte>): (b: seq<byte>)
    decreases |p|
  {
    if |p| == 0 then []
    else if |p| <= GroupSize(p[0]) then p[1..]
    else p[1..GroupSize(p[0]) + 1] + Unpacketize(p[GroupSize(p[0]) + 1..])
  }

  /** Dropping the CIN bytes from the packetised buffer gives the buffer back, byte for byte in order. */
  lemma {:induction false} UnpacketizePacketize(b: seq<byte>)
    ensures Unpacketize(Packetize(b)) == b
    decreases |b|
  {
    var p := Packetize(b);
    if |b| > 3 {
      assert b == b[..3] + b[3..];
      PacketizeHead(b);
      assert p[0] == CIN_SYSEX_CONTINUE && p[1..4] == b[..3];
      assert p[4..] == Packetize(b[3..]);
      UnpacketizePacketize(b[3..]);
    } else if |b| > 0 {
      assert p == [EndCin(|b|)] + b;
      assert p[1..] == b;
      assert p[|b| + 1..] == [];
    }
  }

  /** Every group before the last is CIN 0x04 followed by the next three buffer bytes. */
  lemma {:induction false} PacketizeFullGroup(b: seq<byte>, g: nat)
    requires 3 * g + 3 < |b|
    ensures 4 * g + 4 <= |Packetize(b)|
    ensures Packetize(b)[4 * g] == CIN_SYSEX_CONTINUE
    ensures Packetize(b)[4 * g + 1] == b[3 * g]
    ensures Packetize(b)[4 * g + 2] == b[3 * g + 1]
    ensures Packetize(b)[4 * g + 3] == b[3 * g + 2]
    decreases g
  {
    var p := Packetize(b);
    var q := Packetize(b[3..]);
    assert p == [CIN_SYSEX_CONTINUE, b[0], b[1], b[2]] + q;
    if g > 0 {
      PacketizeFullGroup(b[3..], g - 1);
      assert p[4 * g] == q[4 * (g - 1)];
      assert p[4 * g + 1] == q[4 * (g - 1) + 1];
      assert p[4 * g + 2] == q[4 * (g - 1) + 2];
      assert p[4 * g + 3] == q[4 * (g - 1) + 3];
    }
  }

  /** The last group, which starts at buffer index 3k for k = (|b| - 1) / 3,
      is the end CIN for its one to three bytes and then those bytes: CIN 0x07,
      0x06 or 0x05 when |b| mod 3 is 0, 2 or 1. */
  lemma PacketizeLastGroup(b: seq<byte>)
    requires |b| > 0
    ensures var k := (|b| - 1) / 3;
      4 * k <= |Packetize(b)| &&
      Packetize(b)[4 * k..] == [EndCin(|b| - 3 * k)] + b[3 * k..] &&
      EndCin(|b| - 3 * k) == (if |b| % 3 == 0 then CIN_SYSEX_END3
                              else if |b| % 3 == 2 then CIN_SYSEX_END2
                              else CIN_SYSEX_END1)
  {
    LastGroupSize(|b|);
    PacketizeFrom(b, (|b| - 1) / 3);
  }

  /** With 3k < |b| <= 3k + 3, group k is the last: from output index 4k on,
      the output is the end CIN for the remaining bytes, then those bytes. */
  lemma {:induction false} PacketizeFrom(b: seq<byte>, k: nat)
    requires 3 * k < |b| <= 3 * k + 3
    ensures 4 * k <= |Packetize(b)|
    ensures Packetize(b)[4 * k..] == [EndCin(|b| - 3 * k)] + b[3 * k..]
    decreases k
  {
    if k > 0 {
      var p := Packetize(b);
      var q := Packetize(b[3..]);
      PacketizeHead(b);
      PacketizeFrom(b[3..], k - 1);
      DropAfter([CIN_SYSEX_CONTINUE, b[0], b[1], b[2]], q, 4 * (k - 1));
      DropTwice(b, 3, 3 * (k - 1));
    }
  }

  /** Dropping a head and then `n` more bytes drops `n` bytes of the tail. */
  lemma DropAfter(h: seq<byte>, q: seq<byte>, n: nat)
    requires n <= |q|
    ensures (h + q)[|h| + n..] == q[n..]
  {
  }

  /** Dropping `i` bytes and then `j` more drops `i + j` bytes. */
  lemma DropTwice(b: seq<byte>, i: nat, j: nat)
    requires i + j <= |b|
    ensures b[i..][j..] == b[i + j..]
  {
  }

  /** The last group of a buffer of `n` bytes holds three bytes when n mod 3 is 0, else n mod 3. */
  lemma LastGroupSize(n: nat)
    requires n > 0
    ensures var r := n - 3 * ((n - 1) / 3);
      1 <= r <= 3 && (if n % 3 == 0 then r == 3 else r == n % 3)
  {
  }

  /** The packet of a channel message: CIN `(status & 0xF0) >> 4`, then status, data1 and data2. */
  function ChannelPacket(w: word): (p: seq<byte>)
    ensures |p| == 4 && p[0] == p[1] / 0x10 && p[1..] == Unpack(w)[..3]
  {
    [Status(w) / 0x10, Status(w), Data1(w), Data2(w)]
  }

  /** Note-on 0x90 0x3C 0x40 becomes the packet 09 90 3C 40. */
  lemma ChannelPacketNoteOn()
    ensures ChannelPacket(PackLE(0x90, 0x3C, 0x40, 0)) == [0x09, 0x90, 0x3C, 0x40]
  {
    UnpackPackLE(0x90, 0x3C, 0x40, 0);
  }
}
