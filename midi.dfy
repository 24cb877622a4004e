/** Byte-level vocabulary shared by both directions of the bridge: bytes,
    PortMidi message words and the field accessors PortMidi defines on them. */
module Midi {

  type byte = x: int | 0 <= x < 0x100

  /** A PortMidi message (PmMessage) as its 32-bit pattern, read as unsigned. */
  type word = x: int | 0 <= x < 0x1_0000_0000

  /** True of a status byte: bit 7 set (`b & 0b10000000`). */
  predicate IsStatus(b: byte) {
    b >= 0x80
  }

  /** A byte that ends an outbound SysEx stream: any status byte except the 0xF0 opener. */
  predicate IsTerminator(b: byte) {
    b != 0xF0 && IsStatus(b)
  }

  /** Byte `k` of a word, least significant first: `(w >> 8k) & 0xFF`. */
  function ByteOf(w: word, k: nat): (r: byte)
    requires k < 4
  {
    if k == 0 then w % 0x100
    else if k == 1 then (w / 0x100) % 0x100
    else if k == 2 then (w / 0x1_0000) % 0x100
    else w / 0x100_0000
  }

  /** Pm_MessageStatus, Pm_MessageData1 and Pm_MessageData2. */
  function Status(w: word): byte { ByteOf(w, 0) }
  function Data1(w: word): byte { ByteOf(w, 1) }
  function Data2(w: word): byte { ByteOf(w, 2) }

  /** The four bytes of a word, least significant first. */
  function Unpack(w: word): seq<byte> {
    [ByteOf(w, 0), ByteOf(w, 1), ByteOf(w, 2), ByteOf(w, 3)]
  }

  /** `b0 << 0 | b1 << 8 | b2 << 16 | b3 << 24`: the little-endian word of four bytes. */
  function PackLE(b0: byte, b1: byte, b2: byte, b3: byte): word {
    b0 + 0x100 * b1 + 0x1_0000 * b2 + 0x100_0000 * b3
  }

  /** The bytes of a packed word, least significant first, are the four packed bytes. */
  lemma UnpackPackLE(b0: byte, b1: byte, b2: byte, b3: byte)
    ensures Unpack(PackLE(b0, b1, b2, b3)) == [b0, b1, b2, b3]
  {
    var r := PackLE(b0, b1, b2, b3);
    DivByte(b0, b1 + 0x100 * b2 + 0x1_0000 * b3);
    DivByte(b1, b2 + 0x100 * b3);
    DivByte(b2, b3);
    assert r / 0x1_0000 == (r / 0x100) / 0x100;
    assert r / 0x100_0000 == (r / 0x1_0000) / 0x100;
  }

  /** Dividing by 256 removes the lowest byte and keeps it as the remainder. */
  lemma DivByte(lo: byte, hi: nat)
    ensures (lo + 0x100 * hi) / 0x100 == hi
    ensures (lo + 0x100 * hi) % 0x100 == lo
  {
  }

  /** Packing the bytes of a word gives the word back: PackLE and Unpack are inverse. */
  lemma PackUnpack(w: word)
    ensures PackLE(ByteOf(w, 0), ByteOf(w, 1), ByteOf(w, 2), ByteOf(w, 3)) == w
  {
    var q1 := w / 0x100;
    var q2 := q1 / 0x100;
    var q3 := q2 / 0x100;
    assert w == ByteOf(w, 0) + 0x100 * q1;
    assert q1 == ByteOf(w, 1) + 0x100 * q2;
    assert w / 0x1_0000 == q2;
    assert q2 == ByteOf(w, 2) + 0x100 * q3;
    assert w / 0x100_0000 == q3;
  }

  /** Appending byte sequences is associative. */
  lemma ConcatAssoc(a: seq<byte>, b: seq<byte>, c: seq<byte>)
    ensures a + (b + c) == a + b + c
  {
  }
}
