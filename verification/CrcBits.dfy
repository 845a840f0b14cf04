/** One step of the division behind CRC-32, on the 32-bit register, as bit-vector algebra. */
module CrcBits {
  const POLY: bv32 := 0xedb88320

  function Xor(a: bv32, b: bv32): bv32 {
    a ^ b
  }

  /** The word one place up. */
  function Up(w: bv32): bv32 {
    w << 1
  }

  /** One step, with a zero bit coming in. */
  function Shift(crc: bv32): bv32 {
    if crc & 1 == 1 then (crc >> 1) ^ POLY else crc >> 1
  }

  function Word(bit: bool): bv32 {
    if bit then 1 else 0
  }

  /** A bit put below a word. */
  function Below(bit: bool, w: bv32): bv32 {
    Xor(Word(bit), Up(w))
  }

  /** No bit in the top place. */
  predicate TopClear(w: bv32) {
    w & 0x80000000 == 0
  }

  predicate Within(w: bv32, l: bv32) {
    w & l == w
  }

  lemma XorAssociates(a: bv32, b: bv32, c: bv32)
    ensures Xor(a, Xor(b, c)) == Xor(Xor(a, b), c)
  {
  }

  lemma XorZero(a: bv32)
    ensures Xor(a, 0) == a
  {
  }

  lemma XorInjective(x: bv32, a: bv32, b: bv32)
    requires Xor(x, a) == Xor(x, b)
    ensures a == b
  {
  }

  lemma XorTwice(a: bv32, b: bv32)
    ensures Xor(Xor(a, b), b) == a
  {
  }

  /** The step loses nothing: its top bit tells whether the polynomial was added. */
  lemma ShiftInjective(x: bv32, y: bv32)
    requires Shift(x) == Shift(y)
    ensures x == y
  {
  }

  lemma ShiftAbsorbsRaw(x: bv32, w: bv32)
    requires w & 0x80000000 == 0
    ensures Shift(x ^ (w << 1)) == Shift(x) ^ w
  {
  }

  /** Linearity: a word one place up comes through unchanged, one place down. */
  lemma ShiftAbsorbs(x: bv32, w: bv32)
    requires TopClear(w)
    ensures Shift(Xor(x, Up(w))) == Xor(Shift(x), w)
  {
    hide Shift;
    ShiftAbsorbsRaw(x, w);
  }

  /** Adding a bit and a word above it, then stepping, is stepping the bit and adding the word. */
  lemma AddFirst(crc: bv32, bit: bool, w: bv32)
    requires TopClear(w)
    ensures Shift(Xor(crc, Below(bit, w))) == Xor(Shift(Xor(crc, Word(bit))), w)
  {
    hide Xor, Up, Shift, Word, TopClear;
    XorAssociates(crc, Word(bit), Up(w));
    ShiftAbsorbs(Xor(crc, Word(bit)), w);
  }

  lemma BelowInjective(a: bool, v: bv32, b: bool, w: bv32)
    requires TopClear(v) && TopClear(w) && Below(a, v) == Below(b, w)
    ensures a == b && v == w
  {
  }

  lemma WithinUp(a: bool, w: bv32, l: bv32)
    requires Within(w, l)
    ensures Within(Below(a, w), Below(true, l))
  {
    if a {
      OneUp(w, l);
    } else {
      ZeroUp(w, l);
    }
  }

  lemma OneUp(w: bv32, l: bv32)
    requires w & l == w
    ensures (1 ^ (w << 1)) & (1 ^ (l << 1)) == 1 ^ (w << 1)
  {
  }

  lemma ZeroUp(w: bv32, l: bv32)
    requires w & l == w
    ensures (0 ^ (w << 1)) & (1 ^ (l << 1)) == 0 ^ (w << 1)
  {
  }

  lemma WithinTopClear(w: bv32, l: bv32)
    requires Within(w, l) && Within(l, 0x7fffffff)
    ensures TopClear(w)
  {
  }

  function WordOf(b: bv8): bv32 {
    b as bv32
  }

  /** The low byte of the register with a message byte added: the table index. */
  function LowByte(crc: bv32, b: bv8): (r: bv32)
    ensures r < 256
  {
    (crc ^ (b as bv32)) & 0xff
  }

  function Rest(crc: bv32): (r: bv32)
    ensures r < 0x1000000
  {
    crc >> 8
  }

  function Up8(w: bv32): bv32 {
    w << 8
  }

  lemma ByteSplitRaw(crc: bv32, b: bv8)
    ensures crc ^ (b as bv32) == ((crc ^ (b as bv32)) & 0xff) ^ ((crc >> 8) << 8)
  {
  }

  lemma ByteSplit(crc: bv32, b: bv8)
    ensures Xor(crc, WordOf(b)) == Xor(LowByte(crc, b), Up8(Rest(crc)))
  {
    ByteSplitRaw(crc, b);
  }

  lemma TopsClear(h: bv32)
    requires h < 0x1000000
    ensures TopClear(h) && TopClear(h << 1) && TopClear(h << 2) && TopClear(h << 3)
    ensures TopClear(h << 4) && TopClear(h << 5) && TopClear(h << 6) && TopClear(h << 7)
  {
  }

  lemma UpSteps(h: bv32)
    ensures Up(h << 1) == h << 2 && Up(h << 2) == h << 3 && Up(h << 3) == h << 4 && Up(h << 4) == h << 5
    ensures Up(h << 5) == h << 6 && Up(h << 6) == h << 7 && Up(h << 7) == h << 8
  {
  }

  lemma PackedByte(b: bv8)
    ensures Below(b & 1 != 0, Below(b & 2 != 0, Below(b & 4 != 0, Below(b & 8 != 0,
            Below(b & 16 != 0, Below(b & 32 != 0, Below(b & 64 != 0, Below(b & 128 != 0, 0)))))))) == b as bv32
  {
  }
}
