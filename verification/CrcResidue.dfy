/** What the complements before and after the loop of `libpi/libc/crc.c` are for: leading zeros
    count, and a message with its CRC behind it always has one and the same CRC (the register
    conventions of section 8 of RFC 1952). */
module CrcResidue {
  import opened CrcBits
  import opened Crc

  /** Byte `k` of a word, the lowest first. */
  function ByteAt(w: bv32, k: nat): Byte
    requires k < 4
  {
    match k
    case 0 => (w & 0xff) as bv8
    case 1 => ((w >> 8) & 0xff) as bv8
    case 2 => ((w >> 16) & 0xff) as bv8
    case _ => ((w >> 24) & 0xff) as bv8
  }

  function LittleEndian(w: bv32): seq<Byte> {
    [ByteAt(w, 0), ByteAt(w, 1), ByteAt(w, 2), ByteAt(w, 3)]
  }

  lemma OneByte(r: bv32, b: Byte)
    ensures Feed(r, Bits([b])) == TableNext(r, b)
  {
    hide TableNext, BitsOf, FeedBit;
    TableStep(r, b);
    assert Bits([]) == [];
    assert [] + [b] == [b];
    NextByte(r, [], b);
  }

  lemma FourBytes(r: bv32, b0: Byte, b1: Byte, b2: Byte, b3: Byte)
    ensures Feed(r, Bits([b0, b1, b2, b3])) == TableNext(TableNext(TableNext(TableNext(r, b0), b1), b2), b3)
  {
    hide TableNext, BitsOf, FeedBit, Feed, Bits;
    OneByte(r, b0);
    NextByte(r, [b0], b1);
    NextByte(r, [b0, b1], b2);
    NextByte(r, [b0, b1, b2], b3);
    assert [b0] + [b1] == [b0, b1] && [b0, b1] + [b2] == [b0, b1, b2] && [b0, b1, b2] + [b3] == [b0, b1, b2, b3];
    TableStep(TableNext(r, b0), b1);
    TableStep(TableNext(TableNext(r, b0), b1), b2);
    TableStep(TableNext(TableNext(TableNext(r, b0), b1), b2), b3);
  }

  /// The register while the complement of its own value is fed to it, a byte at a time.

  lemma Index0(r: bv32)
    ensures LowByte(r, ByteAt(!r, 0)) == 0xff && Rest(r) == r >> 8
  {
  }

  lemma Index1(r: bv32)
    ensures LowByte(0x2d02ef8d ^ (r >> 8), ByteAt(!r, 1)) == 0x72
    ensures Rest(0x2d02ef8d ^ (r >> 8)) == 0x2d02ef ^ (r >> 16)
  {
  }

  lemma Index2(r: bv32)
    ensures LowByte(0xbe2612ff ^ (r >> 16), ByteAt(!r, 2)) == 0
    ensures Rest(0xbe2612ff ^ (r >> 16)) == 0xbe2612 ^ (r >> 24)
  {
  }

  lemma Index3(r: bv32)
    ensures LowByte(0xbe2612 ^ (r >> 24), ByteAt(!r, 3)) == 0xed
    ensures Rest(0xbe2612 ^ (r >> 24)) == 0xbe26
  {
  }

  lemma Entries()
    ensures Crc32Tab(0xff) == 0x2d02ef8d && Crc32Tab(0x72) == 0xbe0b1010
    ensures Crc32Tab(0) == 0 && Crc32Tab(0xed) == 0xdebb9ec5
  {
    hide Shift8;
  }

  lemma Merge(r: bv32)
    ensures Xor(0x2d02ef8d, r >> 8) == 0x2d02ef8d ^ (r >> 8)
    ensures Xor(0xbe0b1010, 0x2d02ef ^ (r >> 16)) == 0xbe2612ff ^ (r >> 16)
    ensures Xor(0, 0xbe2612 ^ (r >> 24)) == 0xbe2612 ^ (r >> 24)
    ensures Xor(0xdebb9ec5, 0xbe26) == 0xdebb20e3
  {
  }

  lemma SelfFed(r: bv32)
    ensures Feed(r, Bits(LittleEndian(!r))) == 0xdebb20e3
  {
    hide Crc32Tab, LowByte, Rest, Xor, ByteAt, Feed, Bits;
    FourBytes(r, ByteAt(!r, 0), ByteAt(!r, 1), ByteAt(!r, 2), ByteAt(!r, 3));
    Entries();
    Merge(r);
    Index0(r);
    Index1(r);
    Index2(r);
    Index3(r);
  }

  lemma Complements(crc: bv32, x: bv32)
    ensures Xor(crc, ONES) == !crc && Xor(0xdebb20e3, ONES) == 0x2144df1c && Xor(!x, ONES) == x
    ensures Xor(Xor(crc, ONES), ONES) == crc
  {
  }

  /** The residue: whatever the message, with the four bytes of its CRC behind it, low byte
      first, it has CRC 0x2144DF1C. */
  lemma Residue(data: seq<Byte>)
    ensures CrcSpec(0, data + LittleEndian(CrcSpec(0, data))) == 0x2144df1c
  {
    hide Xor, Feed, Bits, LittleEndian;
    var r := Feed(Xor(0, ONES), Bits(data));
    var crc := CrcSpec(0, data);
    Complements(r, 0);
    SelfFed(r);
    BitsConcat(data, LittleEndian(crc));
    FeedConcat(Xor(0, ONES), Bits(data), Bits(LittleEndian(crc)));
  }

  /** One zero byte has a CRC of its own. */
  lemma ZeroByte()
    ensures CrcSpec(0, [0]) == 0xd202ef8d
  {
    hide Feed, Bits, Crc32Tab;
    OneByte(Xor(0, ONES), 0);
    Entries();
  }

  /** Different CRCs so far stay different over the same rest. */
  lemma StartDecides(c1: bv32, c2: bv32, data: seq<Byte>)
    requires CrcSpec(c1, data) == CrcSpec(c2, data)
    ensures c1 == c2
  {
    hide Xor, Feed, Bits;
    Complements(Feed(Xor(c1, ONES), Bits(data)), 0);
    Complements(Feed(Xor(c2, ONES), Bits(data)), 0);
    FeedInjective(Xor(c1, ONES), Xor(c2, ONES), Bits(data));
    Complements(c1, 0);
    Complements(c2, 0);
  }

  /** So a zero byte in front of a message is always noticed. */
  lemma LeadingZeroNoticed(data: seq<Byte>)
    ensures CrcSpec(0, [0] + data) != CrcSpec(0, data)
  {
    hide CrcSpec;
    ZeroByte();
    CrcChains(0, [0], data);
    if CrcSpec(0, [0] + data) == CrcSpec(0, data) {
      StartDecides(0xd202ef8d, 0, data);
    }
  }
}
