/** The table-driven CRC-32 of `libpi/libc/crc.c`, against the bit-serial division it
    speeds up (the algorithm of section 8 of RFC 1952). */
module Crc {
  import opened CrcBits

  const ONES: bv32 := 0xffffffff

  type Byte = bv8

  /// The definition: one message bit at a time, least significant bit first.

  /** One message bit: it is added to the low end of the register before the step. */
  function FeedBit(crc: bv32, bit: bool): bv32 {
    Shift(Xor(crc, Word(bit)))
  }

  function Feed(crc: bv32, bits: seq<bool>): bv32
    decreases |bits|
  {
    if bits == [] then crc else Feed(FeedBit(crc, bits[0]), bits[1..])
  }

  function BitsOf(b: Byte): (r: seq<bool>)
    ensures |r| == 8
  {
    [b & 1 != 0, b & 2 != 0, b & 4 != 0, b & 8 != 0, b & 16 != 0, b & 32 != 0, b & 64 != 0, b & 128 != 0]
  }

  /** A message as it goes over the wire. */
  function Bits(data: seq<Byte>): (r: seq<bool>)
    ensures |r| == 8 * |data|
  {
    if data == [] then [] else Bits(data[..|data| - 1]) + BitsOf(data[|data| - 1])
  }

  /** The CRC of a message, continuing from the CRC of what came before. */
  function CrcSpec(crc: bv32, data: seq<Byte>): bv32 {
    Xor(Feed(Xor(crc, ONES), Bits(data)), ONES)
  }

  /// The table.

  function Shift8(crc: bv32): bv32 {
    Shift(Shift(Shift(Shift(Shift(Shift(Shift(Shift(crc))))))))
  }

  function Row0(j: bv32): (r: bv32)
    requires j < 16
    ensures r == Shift8(0x00 | j)
  {
    match j
    case 0 => 0x00000000 case 1 => 0x77073096 case 2 => 0xee0e612c case 3 => 0x990951ba
    case 4 => 0x076dc419 case 5 => 0x706af48f case 6 => 0xe963a535 case 7 => 0x9e6495a3
    case 8 => 0x0edb8832 case 9 => 0x79dcb8a4 case 10 => 0xe0d5e91e case 11 => 0x97d2d988
    case 12 => 0x09b64c2b case 13 => 0x7eb17cbd case 14 => 0xe7b82d07 case _ => 0x90bf1d91
  }

  function Row1(j: bv32): (r: bv32)
    requires j < 16
    ensures r == Shift8(0x10 | j)
  {
    match j
    case 0 => 0x1db71064 case 1 => 0x6ab020f2 case 2 => 0xf3b97148 case 3 => 0x84be41de
    case 4 => 0x1adad47d case 5 => 0x6ddde4eb case 6 => 0xf4d4b551 case 7 => 0x83d385c7
    case 8 => 0x136c9856 case 9 => 0x646ba8c0 case 10 => 0xfd62f97a case 11 => 0x8a65c9ec
    case 12 => 0x14015c4f case 13 => 0x63066cd9 case 14 => 0xfa0f3d63 case _ => 0x8d080df5
  }

  function Row2(j: bv32): (r: bv32)
    requires j < 16
    ensures r == Shift8(0x20 | j)
  {
    match j
    case 0 => 0x3b6e20c8 case 1 => 0x4c69105e case 2 => 0xd56041e4 case 3 => 0xa2677172
    case 4 => 0x3c03e4d1 case 5 => 0x4b04d447 case 6 => 0xd20d85fd case 7 => 0xa50ab56b
    case 8 => 0x35b5a8fa case 9 => 0x42b2986c case 10 => 0xdbbbc9d6 case 11 => 0xacbcf940
    case 12 => 0x32d86ce3 case 13 => 0x45df5c75 case 14 => 0xdcd60dcf case _ => 0xabd13d59
  }

  function Row3(j: bv32): (r: bv32)
    requires j < 16
    ensures r == Shift8(0x30 | j)
  {
    match j
    case 0 => 0x26d930ac case 1 => 0x51de003a case 2 => 0xc8d75180 case 3 => 0xbfd06116
    case 4 => 0x21b4f4b5 case 5 => 0x56b3c423 case 6 => 0xcfba9599 case 7 => 0xb8bda50f
    case 8 => 0x2802b89e case 9 => 0x5f058808 case 10 => 0xc60cd9b2 case 11 => 0xb10be924
    case 12 => 0x2f6f7c87 case 13 => 0x58684c11 case 14 => 0xc1611dab case _ => 0xb6662d3d
  }

  function Row4(j: bv32): (r: bv32)
    requires j < 16
    ensures r == Shift8(0x40 | j)
  {
    match j
    case 0 => 0x76dc4190 case 1 => 0x01db7106 case 2 => 0x98d220bc case 3 => 0xefd5102a
    case 4 => 0x71b18589 case 5 => 0x06b6b51f case 6 => 0x9fbfe4a5 case 7 => 0xe8b8d433
    case 8 => 0x7807c9a2 case 9 => 0x0f00f934 case 10 => 0x9609a88e case 11 => 0xe10e9818
    case 12 => 0x7f6a0dbb case 13 => 0x086d3d2d case 14 => 0x91646c97 case _ => 0xe6635c01
  }

  function Row5(j: bv32): (r: bv32)
    requires j < 16
    ensures r == Shift8(0x50 | j)
  {
    match j
    case 0 => 0x6b6b51f4 case 1 => 0x1c6c6162 case 2 => 0x856530d8 case 3 => 0xf262004e
    case 4 => 0x6c0695ed case 5 => 0x1b01a57b case 6 => 0x8208f4c1 case 7 => 0xf50fc457
    case 8 => 0x65b0d9c6 case 9 => 0x12b7e950 case 10 => 0x8bbeb8ea case 11 => 0xfcb9887c
    case 12 => 0x62dd1ddf case 13 => 0x15da2d49 case 14 => 0x8cd37cf3 case _ => 0xfbd44c65
  }

  function Row6(j: bv32): (r: bv32)
    requires j < 16
    ensures r == Shift8(0x60 | j)
  {
    match j
    case 0 => 0x4db26158 case 1 => 0x3ab551ce case 2 => 0xa3bc0074 case 3 => 0xd4bb30e2
    case 4 => 0x4adfa541 case 5 => 0x3dd895d7 case 6 => 0xa4d1c46d case 7 => 0xd3d6f4fb
    case 8 => 0x4369e96a case 9 => 0x346ed9fc case 10 => 0xad678846 case 11 => 0xda60b8d0
    case 12 => 0x44042d73 case 13 => 0x33031de5 case 14 => 0xaa0a4c5f case _ => 0xdd0d7cc9
  }

  function Row7(j: bv32): (r: bv32)
    requires j < 16
    ensures r == Shift8(0x70 | j)
  {
    match j
    case 0 => 0x5005713c case 1 => 0x270241aa case 2 => 0xbe0b1010 case 3 => 0xc90c2086
    case 4 => 0x5768b525 case 5 => 0x206f85b3 case 6 => 0xb966d409 case 7 => 0xce61e49f
    case 8 => 0x5edef90e case 9 => 0x29d9c998 case 10 => 0xb0d09822 case 11 => 0xc7d7a8b4
    case 12 => 0x59b33d17 case 13 => 0x2eb40d81 case 14 => 0xb7bd5c3b case _ => 0xc0ba6cad
  }

  function Row8(j: bv32): (r: bv32)
    requires j < 16
    ensures r == Shift8(0x80 | j)
  {
    match j
    case 0 => 0xedb88320 case 1 => 0x9abfb3b6 case 2 => 0x03b6e20c case 3 => 0x74b1d29a
    case 4 => 0xead54739 case 5 => 0x9dd277af case 6 => 0x04db2615 case 7 => 0x73dc1683
    case 8 => 0xe3630b12 case 9 => 0x94643b84 case 10 => 0x0d6d6a3e case 11 => 0x7a6a5aa8
    case 12 => 0xe40ecf0b case 13 => 0x9309ff9d case 14 => 0x0a00ae27 case _ => 0x7d079eb1
  }

  function Row9(j: bv32): (r: bv32)
    requires j < 16
    ensures r == Shift8(0x90 | j)
  {
    match j
    case 0 => 0xf00f9344 case 1 => 0x8708a3d2 case 2 => 0x1e01f268 case 3 => 0x6906c2fe
    case 4 => 0xf762575d case 5 => 0x806567cb case 6 => 0x196c3671 case 7 => 0x6e6b06e7
    case 8 => 0xfed41b76 case 9 => 0x89d32be0 case 10 => 0x10da7a5a case 11 => 0x67dd4acc
    case 12 => 0xf9b9df6f case 13 => 0x8ebeeff9 case 14 => 0x17b7be43 case _ => 0x60b08ed5
  }

  function Row10(j: bv32): (r: bv32)
    requires j < 16
    ensures r == Shift8(0xa0 | j)
  {
    match j
    case 0 => 0xd6d6a3e8 case 1 => 0xa1d1937e case 2 => 0x38d8c2c4 case 3 => 0x4fdff252
    case 4 => 0xd1bb67f1 case 5 => 0xa6bc5767 case 6 => 0x3fb506dd case 7 => 0x48b2364b
    case 8 => 0xd80d2bda case 9 => 0xaf0a1b4c case 10 => 0x36034af6 case 11 => 0x41047a60
    case 12 => 0xdf60efc3 case 13 => 0xa867df55 case 14 => 0x316e8eef case _ => 0x4669be79
  }

  function Row11(j: bv32): (r: bv32)
    requires j < 16
    ensures r == Shift8(0xb0 | j)
  {
    match j
    case 0 => 0xcb61b38c case 1 => 0xbc66831a case 2 => 0x256fd2a0 case 3 => 0x5268e236
    case 4 => 0xcc0c7795 case 5 => 0xbb0b4703 case 6 => 0x220216b9 case 7 => 0x5505262f
    case 8 => 0xc5ba3bbe case 9 => 0xb2bd0b28 case 10 => 0x2bb45a92 case 11 => 0x5cb36a04
    case 12 => 0xc2d7ffa7 case 13 => 0xb5d0cf31 case 14 => 0x2cd99e8b case _ => 0x5bdeae1d
  }

  function Row12(j: bv32): (r: bv32)
    requires j < 16
    ensures r == Shift8(0xc0 | j)
  {
    match j
    case 0 => 0x9b64c2b0 case 1 => 0xec63f226 case 2 => 0x756aa39c case 3 => 0x026d930a
    case 4 => 0x9c0906a9 case 5 => 0xeb0e363f case 6 => 0x72076785 case 7 => 0x05005713
    case 8 => 0x95bf4a82 case 9 => 0xe2b87a14 case 10 => 0x7bb12bae case 11 => 0x0cb61b38
    case 12 => 0x92d28e9b case 13 => 0xe5d5be0d case 14 => 0x7cdcefb7 case _ => 0x0bdbdf21
  }

  function Row13(j: bv32): (r: bv32)
    requires j < 16
    ensures r == Shift8(0xd0 | j)
  {
    match j
    case 0 => 0x86d3d2d4 case 1 => 0xf1d4e242 case 2 => 0x68ddb3f8 case 3 => 0x1fda836e
    case 4 => 0x81be16cd case 5 => 0xf6b9265b case 6 => 0x6fb077e1 case 7 => 0x18b74777
    case 8 => 0x88085ae6 case 9 => 0xff0f6a70 case 10 => 0x66063bca case 11 => 0x11010b5c
    case 12 => 0x8f659eff case 13 => 0xf862ae69 case 14 => 0x616bffd3 case _ => 0x166ccf45
  }

  function Row14(j: bv32): (r: bv32)
    requires j < 16
    ensures r == Shift8(0xe0 | j)
  {
    match j
    case 0 => 0xa00ae278 case 1 => 0xd70dd2ee case 2 => 0x4e048354 case 3 => 0x3903b3c2
    case 4 => 0xa7672661 case 5 => 0xd06016f7 case 6 => 0x4969474d case 7 => 0x3e6e77db
    case 8 => 0xaed16a4a case 9 => 0xd9d65adc case 10 => 0x40df0b66 case 11 => 0x37d83bf0
    case 12 => 0xa9bcae53 case 13 => 0xdebb9ec5 case 14 => 0x47b2cf7f case _ => 0x30b5ffe9
  }

  function Row15(j: bv32): (r: bv32)
    requires j < 16
    ensures r == Shift8(0xf0 | j)
  {
    match j
    case 0 => 0xbdbdf21c case 1 => 0xcabac28a case 2 => 0x53b39330 case 3 => 0x24b4a3a6
    case 4 => 0xbad03605 case 5 => 0xcdd70693 case 6 => 0x54de5729 case 7 => 0x23d967bf
    case 8 => 0xb3667a2e case 9 => 0xc4614ab8 case 10 => 0x5d681b02 case 11 => 0x2a6f2b94
    case 12 => 0xb40bbe37 case 13 => 0xc30c8ea1 case 14 => 0x5a05df1b case _ => 0x2d02ef8d
  }

  /** crc32_tab, in rows of 16: every entry is eight steps of the division of its index. */
  function Crc32Tab(i: bv32): (r: bv32)
    requires i < 256
    ensures r == Shift8(i)
  {
    var j := i & 15;
    match i >> 4
    case 0 => Row0(j) case 1 => Row1(j) case 2 => Row2(j) case 3 => Row3(j)
    case 4 => Row4(j) case 5 => Row5(j) case 6 => Row6(j) case 7 => Row7(j)
    case 8 => Row8(j) case 9 => Row9(j) case 10 => Row10(j) case 11 => Row11(j)
    case 12 => Row12(j) case 13 => Row13(j) case 14 => Row14(j) case _ => Row15(j)
  }

  /// Feeding bits.

  lemma {:induction false} FeedConcat(crc: bv32, a: seq<bool>, b: seq<bool>)
    ensures Feed(crc, a + b) == Feed(Feed(crc, a), b)
    decreases |a|
  {
    hide FeedBit;
    if a == [] {
      assert a + b == b;
    } else {
      assert (a + b)[1..] == a[1..] + b;
      FeedConcat(FeedBit(crc, a[0]), a[1..], b);
    }
  }

  lemma {:induction false} BitsConcat(a: seq<Byte>, b: seq<Byte>)
    ensures Bits(a + b) == Bits(a) + Bits(b)
    decreases |b|
  {
    hide BitsOf;
    if b == [] {
      assert a + b == a;
    } else {
      var c := b[..|b| - 1];
      assert (a + b)[..|a + b| - 1] == a + c;
      BitsConcat(a, c);
    }
  }

  /** Continuing from the CRC of a first part gives the CRC of the whole. */
  lemma CrcChains(crc: bv32, a: seq<Byte>, b: seq<Byte>)
    ensures CrcSpec(CrcSpec(crc, a), b) == CrcSpec(crc, a + b)
  {
    hide Xor, Feed, Bits;
    var mid := Feed(Xor(crc, ONES), Bits(a));
    XorTwice(mid, ONES);
    BitsConcat(a, b);
    FeedConcat(Xor(crc, ONES), Bits(a), Bits(b));
  }

  /// Up to 32 bits can be added to the register at once.

  function ShiftN(crc: bv32, n: nat): bv32
    decreases n
  {
    if n == 0 then crc else ShiftN(Shift(crc), n - 1)
  }

  /** The bits as one word, the first in the lowest place. */
  function Pack(bits: seq<bool>): bv32 {
    if bits == [] then 0 else Below(bits[0], Pack(bits[1..]))
  }

  /** The `n` lowest places. */
  function Low(n: nat): bv32 {
    if n == 0 then 0 else Below(true, Low(n - 1))
  }

  lemma LowPlaces()
    ensures Low(31) == 0x7fffffff
  {
    assert Low(4) == 0xf by { assert Low(2) == 3; }
    assert Low(8) == 0xff by { assert Low(6) == 0x3f; }
    assert Low(12) == 0xfff by { assert Low(10) == 0x3ff; }
    assert Low(16) == 0xffff by { assert Low(14) == 0x3fff; }
    assert Low(20) == 0xfffff by { assert Low(18) == 0x3ffff; }
    assert Low(24) == 0xffffff by { assert Low(22) == 0x3fffff; }
    assert Low(28) == 0xfffffff by { assert Low(26) == 0x3ffffff; }
    assert Low(30) == 0x3fffffff;
  }

  lemma {:induction false} LowGrows(n: nat, m: nat)
    requires n <= m
    ensures Within(Low(n), Low(m))
    decreases n
  {
    if n > 0 {
      hide Within, Below;
      LowGrows(n - 1, m - 1);
      WithinUp(true, Low(n - 1), Low(m - 1));
    }
  }

  lemma {:induction false} PackFits(bits: seq<bool>)
    ensures Within(Pack(bits), Low(|bits|))
    decreases |bits|
  {
    if bits != [] {
      hide Within, Below;
      PackFits(bits[1..]);
      WithinUp(bits[0], Pack(bits[1..]), Low(|bits| - 1));
    }
  }

  /** A word packed from fewer than 32 bits has a clear top bit. */
  lemma PackTopClear(bits: seq<bool>)
    requires |bits| <= 31
    ensures TopClear(Pack(bits))
  {
    hide Within, TopClear, Pack, Low;
    PackFits(bits);
    LowGrows(|bits|, 31);
    LowPlaces();
    WithinTopClear(Pack(bits), Low(|bits|));
  }

  lemma {:induction false} FeedIsPackedShift(crc: bv32, bits: seq<bool>)
    requires |bits| <= 32
    ensures Feed(crc, bits) == ShiftN(Xor(crc, Pack(bits)), |bits|)
    decreases |bits|
  {
    if bits == [] {
      XorZero(crc);
    } else {
      hide Xor, Below, TopClear, Shift, Word;
      var rest := bits[1..];
      PackTopClear(rest);
      FeedIsPackedShift(FeedBit(crc, bits[0]), rest);
      AddFirst(crc, bits[0], Pack(rest));
    }
  }

  /// The table-driven loop.

  /** The word moved up `n` places. */
  function UpN(w: bv32, n: nat): bv32 {
    if n == 0 then w else Up(UpN(w, n - 1))
  }

  lemma {:induction false} ShiftNAbsorbs(x: bv32, h: bv32, n: nat)
    requires forall i: nat :: i < n ==> TopClear(UpN(h, i))
    ensures ShiftN(Xor(x, UpN(h, n)), n) == Xor(ShiftN(x, n), h)
    decreases n
  {
    hide Xor, Up, TopClear, Shift;
    if n > 0 {
      ShiftAbsorbs(x, UpN(h, n - 1));
      ShiftNAbsorbs(Shift(x), h, n - 1);
    }
  }

  lemma UpEight(h: bv32)
    requires h < 0x1000000
    ensures UpN(h, 8) == Up8(h)
    ensures forall i: nat :: i < 8 ==> TopClear(UpN(h, i))
  {
    TopsClear(h);
    UpSteps(h);
    assert UpN(h, 1) == h << 1;
    hide Up, TopClear;
    assert UpN(h, 2) == h << 2;
    assert UpN(h, 3) == h << 3;
    assert UpN(h, 4) == h << 4;
    assert UpN(h, 5) == h << 5;
    assert UpN(h, 6) == h << 6;
    assert UpN(h, 7) == h << 7;
  }

  lemma PackEight(bits: seq<bool>)
    requires |bits| == 8
    ensures Pack(bits) == Below(bits[0], Below(bits[1], Below(bits[2], Below(bits[3],
                          Below(bits[4], Below(bits[5], Below(bits[6], Below(bits[7], 0))))))))
  {
    hide Below;
    assert Pack(bits[7..]) == Below(bits[7], 0);
    assert Pack(bits[6..]) == Below(bits[6], Pack(bits[7..])) by { assert bits[6..][1..] == bits[7..]; }
    assert Pack(bits[5..]) == Below(bits[5], Pack(bits[6..])) by { assert bits[5..][1..] == bits[6..]; }
    assert Pack(bits[4..]) == Below(bits[4], Pack(bits[5..])) by { assert bits[4..][1..] == bits[5..]; }
    assert Pack(bits[3..]) == Below(bits[3], Pack(bits[4..])) by { assert bits[3..][1..] == bits[4..]; }
    assert Pack(bits[2..]) == Below(bits[2], Pack(bits[3..])) by { assert bits[2..][1..] == bits[3..]; }
    assert Pack(bits[1..]) == Below(bits[1], Pack(bits[2..])) by { assert bits[1..][1..] == bits[2..]; }
  }

  lemma PackByte(b: Byte)
    ensures Pack(BitsOf(b)) == WordOf(b)
  {
    hide Pack, Below;
    PackEight(BitsOf(b));
    PackedByte(b);
  }

  lemma EightSteps(x: bv32)
    ensures ShiftN(x, 8) == Shift8(x)
  {
    hide Shift;
    assert ShiftN(x, 8) == ShiftN(Shift(Shift(x)), 6);
    assert ShiftN(Shift(Shift(x)), 6) == ShiftN(Shift(Shift(Shift(Shift(x)))), 4);
    assert ShiftN(Shift(Shift(Shift(Shift(x)))), 4) == ShiftN(Shift(Shift(Shift(Shift(Shift(Shift(x)))))), 2);
  }

  /** The body of the loop. */
  function TableNext(crc: bv32, b: Byte): bv32 {
    Xor(Crc32Tab(LowByte(crc, b)), Rest(crc))
  }

  /** One table step is the eight bits of a byte. */
  lemma TableStep(crc: bv32, b: Byte)
    ensures TableNext(crc, b) == Feed(crc, BitsOf(b))
  {
    hide Xor, LowByte, Rest, WordOf, Up8, BitsOf, TopClear, Shift8, ShiftN, UpN, Pack, Feed;
    var low, high := LowByte(crc, b), Rest(crc);
    PackByte(b);
    FeedIsPackedShift(crc, BitsOf(b));
    ByteSplit(crc, b);
    UpEight(high);
    ShiftNAbsorbs(low, high, 8);
    EightSteps(low);
  }

  lemma NextByte(start: bv32, data: seq<Byte>, b: Byte)
    ensures Feed(start, Bits(data + [b])) == Feed(Feed(start, Bits(data)), BitsOf(b))
  {
    assert (data + [b])[..|data|] == data;
    FeedConcat(start, Bits(data), BitsOf(b));
  }

  /** our_crc32_inc: the table-driven loop computes the bit-serial CRC. */
  method OurCrc32Inc(buf: array<Byte>, size: nat, crc: bv32) returns (r: bv32)
    requires size <= buf.Length
    ensures r == CrcSpec(crc, buf[..size])
  {
    assert Feed(Xor(crc, ONES), Bits([])) == Xor(crc, ONES) && buf[..0] == [];
    hide Xor, Feed, Bits, TableNext;
    var c := Xor(crc, ONES);
    var p := 0;
    while p < size
      invariant p <= size
      invariant c == Feed(Xor(crc, ONES), Bits(buf[..p]))
    {
      TableStep(c, buf[p]);
      NextByte(Xor(crc, ONES), buf[..p], buf[p]);
      assert buf[..p + 1] == buf[..p] + [buf[p]];
      c := TableNext(c, buf[p]);
      p := p + 1;
    }
    r := Xor(c, ONES);
  }

  method OurCrc32(buf: array<Byte>, size: nat) returns (r: bv32)
    requires size <= buf.Length
    ensures r == CrcSpec(0, buf[..size])
  {
    r := OurCrc32Inc(buf, size, 0);
  }

  /// Error detection.

  lemma {:induction false} ShiftNInjective(x: bv32, y: bv32, n: nat)
    requires ShiftN(x, n) == ShiftN(y, n)
    ensures x == y
    decreases n
  {
    hide Shift;
    if n > 0 {
      ShiftNInjective(Shift(x), Shift(y), n - 1);
      ShiftInjective(x, y);
    }
  }

  lemma {:induction false} PackInjective(a: seq<bool>, b: seq<bool>)
    requires |a| == |b| <= 32 && Pack(a) == Pack(b)
    ensures a == b
    decreases |a|
  {
    if a != [] {
      hide Below, TopClear;
      PackTopClear(a[1..]);
      PackTopClear(b[1..]);
      BelowInjective(a[0], Pack(a[1..]), b[0], Pack(b[1..]));
      PackInjective(a[1..], b[1..]);
    }
  }

  /** From one state, different stretches of at most 32 bits lead to different states. */
  lemma WindowInjective(crc: bv32, a: seq<bool>, b: seq<bool>)
    requires |a| == |b| <= 32 && Feed(crc, a) == Feed(crc, b)
    ensures a == b
  {
    hide Feed, ShiftN, Pack, Xor;
    FeedIsPackedShift(crc, a);
    FeedIsPackedShift(crc, b);
    ShiftNInjective(Xor(crc, Pack(a)), Xor(crc, Pack(b)), |a|);
    XorInjective(crc, Pack(a), Pack(b));
    PackInjective(a, b);
  }

  /** Different states stay different under the same bits. */
  lemma {:induction false} FeedInjective(x: bv32, y: bv32, bits: seq<bool>)
    requires Feed(x, bits) == Feed(y, bits)
    ensures x == y
    decreases |bits|
  {
    if bits != [] {
      FeedInjective(FeedBit(x, bits[0]), FeedBit(y, bits[0]), bits[1..]);
      hide Xor, Shift;
      ShiftInjective(Xor(x, Word(bits[0])), Xor(y, Word(bits[0])));
      XorTwice(x, Word(bits[0]));
      XorTwice(y, Word(bits[0]));
    }
  }

  lemma BitsOfInjective(a: Byte, b: Byte)
    requires BitsOf(a) == BitsOf(b)
    ensures a == b
  {
    PackByte(a);
    PackByte(b);
  }

  lemma {:induction false} BitsInjective(a: seq<Byte>, b: seq<Byte>)
    requires |a| == |b| && Bits(a) == Bits(b)
    ensures a == b
    decreases |a|
  {
    hide BitsOf;
    if a != [] {
      var n := |Bits(a[..|a| - 1])|;
      assert Bits(a)[..n] == Bits(a[..|a| - 1]) && Bits(b)[..n] == Bits(b[..|a| - 1]);
      assert Bits(a)[n..] == BitsOf(a[|a| - 1]) && Bits(b)[n..] == BitsOf(b[|a| - 1]);
      BitsInjective(a[..|a| - 1], b[..|a| - 1]);
      BitsOfInjective(a[|a| - 1], b[|a| - 1]);
      assert a == a[..|a| - 1] + [a[|a| - 1]] == b;
    }
  }

  /** Bit strings that agree outside a window of 32 bits and lead to one state are equal. */
  lemma WindowDecides(start: bv32, p: seq<bool>, q: seq<bool>, lo: nat, hi: nat)
    requires |p| == |q| && lo <= hi <= |p| && hi - lo <= 32
    requires p[..lo] == q[..lo] && p[hi..] == q[hi..]
    requires Feed(start, p) == Feed(start, q)
    ensures p == q
  {
    hide Feed;
    assert p == p[..lo] + (p[lo..hi] + p[hi..]) && q == q[..lo] + (q[lo..hi] + q[hi..]);
    FeedConcat(start, p[..lo], p[lo..hi] + p[hi..]);
    FeedConcat(start, q[..lo], q[lo..hi] + q[hi..]);
    var mid := Feed(start, p[..lo]);
    FeedConcat(mid, p[lo..hi], p[hi..]);
    FeedConcat(mid, q[lo..hi], q[hi..]);
    FeedInjective(Feed(mid, p[lo..hi]), Feed(mid, q[lo..hi]), p[hi..]);
    WindowInjective(mid, p[lo..hi], q[lo..hi]);
  }

  /** Burst errors are always caught: two different messages of one length whose bits differ
      only within 32 consecutive places have different CRCs, from any start value. */
  lemma BurstDetected(crc: bv32, a: seq<Byte>, b: seq<Byte>, i: nat)
    requires |a| == |b| && a != b
    requires forall k :: 0 <= k < 8 * |a| && !(i <= k < i + 32) ==> Bits(a)[k] == Bits(b)[k]
    ensures CrcSpec(crc, a) != CrcSpec(crc, b)
  {
    hide Feed, Bits, Xor;
    var n, start, p, q := 8 * |a|, Xor(crc, ONES), Bits(a), Bits(b);
    var lo := if i < n then i else n;
    var hi := if i + 32 < n then i + 32 else n;
    if CrcSpec(crc, a) == CrcSpec(crc, b) {
      XorTwice(Feed(start, p), ONES);
      XorTwice(Feed(start, q), ONES);
      assert p[..lo] == q[..lo] && p[hi..] == q[hi..];
      WindowDecides(start, p, q, lo, hi);
      BitsInjective(a, b);
    }
  }
}
