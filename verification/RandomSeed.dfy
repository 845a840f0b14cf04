/** Where the numbers of `libpi/libc/random.c` start from: the seed in closed form, with the
    constants written out. */
module RandomSeed {
  import opened Words
  import opened Random

  function Pow(b: nat, n: nat): nat {
    if n == 0 then 1 else b * Pow(b, n - 1)
  }

  lemma PowNext(b: nat, n: nat, x: int)
    requires n > 0
    ensures Pow(b, n) * x == b * (Pow(b, n - 1) * x)
  {
  }

  lemma NextWord(seed: Word, i: nat)
    requires i > 0
    ensures SeedWord(seed, i) == 16807 * SeedWord(seed, i - 1) % 0x7fff_ffff
  {
    hide Schrage;
    SchrageIsModular(SeedWord(seed, i - 1));
  }

  /** Word `i` behind the seed is the seed times the `i`-th power of 16807, modulo 2^31 - 1. */
  lemma {:induction false} SeedIsPower(seed: Word, i: nat)
    ensures i > 0 ==> SeedWord(seed, i) == Pow(16807, i) * Signed(seed) % 0x7fff_ffff
    ensures i == 0 ==> SeedWord(seed, i) == Signed(seed)
  {
    if i > 0 {
      PowNext(16807, i, Signed(seed));
      NextWord(seed, i);
      SeedIsPower(seed, i - 1);
      ghost var x := Pow(16807, i - 1) * Signed(seed);
      hide Signed, SeedWord;
      if i > 1 {
        ModTimes(16807, x, 0x7fff_ffff);
      } else {
        assert Pow(16807, 0) == 1;
      }
    }
  }

  /** Value `c` of the table that srandom_r fills. */
  function FirstValue(seed: Word, c: nat): Word {
    var s := if seed == 0 then 1 else seed;
    if c == 0 then s
    else Pow(16807, c) * (if s < 0x8000_0000 then s else s - 0x1_0000_0000) % 0x7fff_ffff
  }

  /** The stream from those values on, the one at the front pointer first. */
  function Stream(seed: Word, deg: nat, sep: nat, k: nat): Word
    requires 0 < sep < deg
  {
    if k < deg then FirstValue(seed, if k + sep < deg then k + sep else k + sep - deg)
    else (Stream(seed, deg, sep, k - deg) + Stream(seed, deg, sep, k - sep)) % 0x1_0000_0000
  }

  lemma CellIsFirstValue(seed: Word, c: nat)
    ensures SeedCell(if seed == 0 then 1 else seed, c) == FirstValue(seed, c)
  {
    hide Pow;
    SeedIsPower(if seed == 0 then 1 else seed, c);
  }

  lemma TableIsFirstValues(typ: nat, seed: Word, k: nat)
    requires 0 < typ < MAX_TYPES && k < Degree(typ)
    ensures Unrolled(SeedState(typ, seed))[k] == FirstValue(seed, if k + Sep(typ) < Degree(typ) then k + Sep(typ) else k + Sep(typ) - Degree(typ))
  {
    hide FirstValue, SeedCell;
    var c := if k + Sep(typ) < Degree(typ) then k + Sep(typ) else k + Sep(typ) - Degree(typ);
    AroundAt(SeedState(typ, seed).tbl, Sep(typ), k);
    CellIsFirstValue(seed, c);
  }

  lemma {:induction false} StreamIsY(typ: nat, seed: Word, k: nat)
    requires 0 < typ < MAX_TYPES
    ensures Y(Unrolled(SeedState(typ, seed)), Sep(typ), k) == Stream(seed, Degree(typ), Sep(typ), k)
    decreases k
  {
    hide Unrolled, FirstValue, SeedState;
    if k < Degree(typ) {
      TableIsFirstValues(typ, seed, k);
    } else {
      StreamIsY(typ, seed, k - Degree(typ));
      StreamIsY(typ, seed, k - Sep(typ));
    }
  }

  /** Number `n` after seeding is bits 1 to 31 of value n + 11 * deg of the stream: the table is
      value 0 to deg-1, and ten for each cell are thrown away. The trinomials are x^7 + x^3 + 1,
      x^15 + x + 1, x^31 + x^3 + 1 and x^63 + x + 1. */
  lemma SeededStream(typ: nat, seed: Word, n: nat)
    requires typ in {1, 2, 3, 4}
    ensures Output(Iter(Seeded(typ, seed), n)) ==
      match typ
      case 1 => Stream(seed, 7, 3, n + 77) / 2
      case 2 => Stream(seed, 15, 1, n + 165) / 2
      case 3 => Stream(seed, 31, 3, n + 341) / 2
      case _ => Stream(seed, 63, 1, n + 693) / 2
  {
    hide Iter, Output, Stream, Unrolled, Y, SeedState;
    var g, d := SeedState(typ, seed), Degree(typ);
    IterAdd(g, 10 * d, n);
    OutputIsStream(g, 10 * d + n);
    StreamIsY(typ, seed, 10 * d + n + d);
  }

  /** What is added up in `n` rounds of the congruential generator. */
  function Geometric(n: nat): nat {
    if n == 0 then 0 else 1103515245 * Geometric(n - 1) + 1
  }

  lemma OneCell(g: Gen)
    requires Proper(g) && g.typ == 0
    ensures |g.tbl| == 1 && Output(g) == Next(g).tbl[0]
    ensures var x: int := g.tbl[0]; Next(g).tbl[0] as int == (x * 1103515245 + 12345) % 0x8000_0000
  {
  }

  lemma LinearStep(x: nat, s: nat, n: nat)
    requires n > 0
    requires var y := Pow(1103515245, n - 1) * s + 12345 * Geometric(n - 1); x == y || x == y % 0x8000_0000
    ensures (x * 1103515245 + 12345) % 0x8000_0000 == (Pow(1103515245, n) * s + 12345 * Geometric(n)) % 0x8000_0000
  {
    PowNext(1103515245, n, s);
    assert Geometric(n) == 1103515245 * Geometric(n - 1) + 1;
    hide Pow, Geometric;
    LcgModulo(Pow(1103515245, n - 1) * s + 12345 * Geometric(n - 1));
  }

  /** With 8 to 31 bytes of state the n-th number is 1103515245^n * seed plus the sum of the
      powers below it times 12345, modulo 2^31, and none are thrown away. */
  lemma {:induction false} SeededLinear(seed: Word, n: nat)
    requires n > 0
    ensures Iter(Seeded(0, seed), n).tbl[0] == Output(Iter(Seeded(0, seed), n - 1)) ==
      (Pow(1103515245, n) * (if seed == 0 then 1 else seed) + 12345 * Geometric(n)) % 0x8000_0000
  {
    var s: nat := if seed == 0 then 1 else seed;
    var g := Seeded(0, seed);
    OneCell(Iter(g, n - 1));
    if n == 1 {
      SeedStateZero(seed);
      assert Geometric(0) == 0 && Pow(1103515245, 0) == 1;
      LinearStep(s, s, 1);
    } else {
      hide Seeded, Next, Output, Pow, Geometric, Proper;
      SeededLinear(seed, n - 1);
      LinearStep(Iter(g, n - 1).tbl[0], s, n);
    }
  }

  lemma LcgModulo(x: nat)
    ensures (x % 0x8000_0000 * 1103515245 + 12345) % 0x8000_0000 == (x * 1103515245 + 12345) % 0x8000_0000
  {
    var y := x % 0x8000_0000;
    ModTimes(1103515245, x, 0x8000_0000);
    AddModulo(1103515245 * y, 12345, 0x8000_0000);
    AddModulo(1103515245 * x, 12345, 0x8000_0000);
  }

  /** As a client sees it: seed, throw `n` numbers away, take one. */
  method NumberAfterSeeding(buf: RandomData, seed: Word, n: nat) returns (result: Word)
    requires buf.randType in {1, 2, 3, 4} && buf.Shaped()
    modifies buf`fptr, buf`rptr, buf.arg
    ensures buf.Valid()
    ensures result == match buf.randType
      case 1 => Stream(seed, 7, 3, n + 77) / 2
      case 2 => Stream(seed, 15, 1, n + 165) / 2
      case 3 => Stream(seed, 31, 3, n + 341) / 2
      case _ => Stream(seed, 63, 1, n + 693) / 2
  {
    hide Iter, Output, Stream, Next, Seeded;
    var _ := buf.SrandomR(seed);
    buf.Draw(n);
    SeededStream(buf.randType, seed, n);
    var _, x := buf.RandomR();
    return x;
  }

  /** The type initstate_r picks is the largest whose state, at least 8, 32, 64, 128 or 256
      bytes, fits. */
  lemma BestType(n: nat)
    requires n >= 8
    ensures TypeFor(n) == 4 <==> n >= 256
    ensures TypeFor(n) >= 3 <==> n >= 128
    ensures TypeFor(n) >= 2 <==> n >= 64
    ensures TypeFor(n) >= 1 <==> n >= 32
  {
  }
}
