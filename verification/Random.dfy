/** The additive feedback generator of `libpi/libc/random.c`: a table that is updated in
    place through two moving pointers, against the number stream it stands for. Table words
    are the `int32_t` cells read as unsigned; sums are modulo 2^32. */
module Random {
  import opened Words

  const MAX_TYPES := 5

  function Degree(typ: nat): (d: nat)
    requires typ < MAX_TYPES
    ensures d < 64
  {
    match typ case 0 => 0 case 1 => 7 case 2 => 15 case 3 => 31 case _ => 63
  }

  function Sep(typ: nat): (s: nat)
    requires typ < MAX_TYPES
    ensures 0 < typ ==> 0 < s < Degree(typ)
  {
    match typ case 0 => 0 case 1 => 3 case 2 => 1 case 3 => 3 case _ => 1
  }

  /** Words of state: type 0 keeps one although its degree is 0. */
  function Cells(typ: nat): (c: nat)
    requires typ < MAX_TYPES
    ensures 0 < typ ==> c == Degree(typ)
  {
    if typ == 0 then 1 else Degree(typ)
  }

  function Wrap(i: nat, n: nat): nat {
    if i >= n then i - n else i
  }

  /// The generator as a value.

  datatype Gen = Gen(typ: nat, tbl: seq<Word>, front: nat, rear: nat)

  /** The two pointers are `Sep` cells apart, around the table. */
  ghost predicate Proper(g: Gen) {
    && g.typ < MAX_TYPES && |g.tbl| == Cells(g.typ)
    && (g.typ == 0 ==> g.front == 0 && g.rear == 0)
    && (g.typ > 0 ==> g.rear < |g.tbl| && g.front == Wrap(g.rear + Sep(g.typ), |g.tbl|))
  }

  function Lcg(w: Word): (r: Word) {
    (w * 1103515245 + 12345) % 0x80000000
  }

  function Next(g: Gen): (g': Gen)
    requires Proper(g)
    ensures Proper(g') && g'.typ == g.typ && |g'.tbl| == |g.tbl|
  {
    if g.typ == 0 then g.(tbl := [Lcg(g.tbl[0])])
    else
      var n := |g.tbl|;
      Gen(g.typ, g.tbl[g.front := Add32(g.tbl[g.front], g.tbl[g.rear])], Wrap(g.front + 1, n), Wrap(g.rear + 1, n))
  }

  function Output(g: Gen): Word
    requires Proper(g)
  {
    if g.typ == 0 then Next(g).tbl[0] else Next(g).tbl[g.front] / 2
  }

  function Iter(g: Gen, n: nat): (g': Gen)
    requires Proper(g)
    ensures Proper(g') && g'.typ == g.typ && |g'.tbl| == |g.tbl|
  {
    if n == 0 then g else Next(Iter(g, n - 1))
  }

  lemma {:induction false} IterAdd(g: Gen, a: nat, b: nat)
    requires Proper(g)
    ensures Iter(g, a + b) == Iter(Iter(g, a), b)
  {
    hide Proper, Next;
    if b > 0 {
      IterAdd(g, a, b - 1);
    }
  }

  /// The stream.

  /** y(k) = y(k - degree) + y(k - sep) mod 2^32, from the first `degree` values. */
  function Y(init: seq<Word>, sep: nat, k: nat): Word
    requires 0 < sep < |init|
  {
    if k < |init| then init[k] else Add32(Y(init, sep, k - |init|), Y(init, sep, k - sep))
  }

  /** A table read from index `f` on, around its end. */
  function Around(tbl: seq<Word>, f: nat): (u: seq<Word>)
    requires f < |tbl|
    ensures |u| == |tbl|
  {
    tbl[f..] + tbl[..f]
  }

  /** The table from the front pointer on: its oldest value first. */
  function Unrolled(g: Gen): (u: seq<Word>)
    requires Proper(g) && g.typ > 0
    ensures |u| == |g.tbl|
  {
    Around(g.tbl, g.front)
  }

  lemma AroundStep(tbl: seq<Word>, f: nat, v: Word)
    requires f < |tbl|
    ensures Around(tbl[f := v], Wrap(f + 1, |tbl|)) == Around(tbl, f)[1..] + [v]
  {
  }

  lemma AroundAt(tbl: seq<Word>, f: nat, j: nat)
    requires f < |tbl| && j < |tbl|
    ensures Around(tbl, f)[j] == tbl[Wrap(f + j, |tbl|)]
  {
  }

  /** One step forgets the oldest value and adds the newest at the other end. */
  lemma StepShifts(g: Gen)
    requires Proper(g) && g.typ > 0
    ensures var u, n := Unrolled(g), |g.tbl|;
      Unrolled(Next(g)) == u[1..] + [Add32(u[0], u[n - Sep(g.typ)])]
  {
    var n, sep := |g.tbl|, Sep(g.typ);
    AroundAt(g.tbl, g.front, 0);
    AroundAt(g.tbl, g.front, n - sep);
    AroundStep(g.tbl, g.front, Add32(g.tbl[g.front], g.tbl[g.rear]));
  }

  /** After `n` calls the table holds the window of the stream that starts at y(n). */
  lemma {:induction false} TableIsWindow(g: Gen, n: nat, j: nat)
    requires Proper(g) && g.typ > 0 && j < |g.tbl|
    ensures Unrolled(Iter(g, n))[j] == Y(Unrolled(g), Sep(g.typ), n + j)
  {
    hide Next, Unrolled, Sep, Degree;
    if n > 0 {
      var deg, sep := |g.tbl|, Sep(g.typ);
      var h := Iter(g, n - 1);
      StepShifts(h);
      if j < deg - 1 {
        TableIsWindow(g, n - 1, j + 1);
      } else {
        TableIsWindow(g, n - 1, 0);
        TableIsWindow(g, n - 1, deg - sep);
      }
    }
  }

  /** The in-place generator refines the stream: call number `n` returns bits 1 to 31 of
      y(n + degree). */
  lemma OutputIsStream(g: Gen, n: nat)
    requires Proper(g) && g.typ > 0
    ensures Output(Iter(g, n)) == Y(Unrolled(g), Sep(g.typ), n + |g.tbl|) / 2
  {
    TableIsWindow(g, n + 1, |g.tbl| - 1);
    NewestIsLast(Iter(g, n));
  }

  lemma NewestIsLast(h: Gen)
    requires Proper(h) && h.typ > 0
    ensures Output(h) == Unrolled(Next(h))[|h.tbl| - 1] / 2
  {
    AroundStep(h.tbl, h.front, Add32(h.tbl[h.front], h.tbl[h.rear]));
  }

  /// Seeding.

  /** C's truncating division. */
  function Quot(a: int, b: int): int
    requires b > 0
  {
    if a >= 0 then a / b else -(-a / b)
  }

  function Signed(w: Word): int {
    if w < 0x80000000 then w else w - TWO32
  }

  const M31 := 0x7fffffff

  /** The step that "avoids overflowing 31 bits". */
  function Schrage(word: int): int {
    var hi := Quot(word, 127773);
    var lo := word - 127773 * hi;
    var w := 16807 * lo - 2836 * hi;
    if w < 0 then w + M31 else w
  }

  /** It is multiplication by 16807 modulo 2^31 - 1 on every 32-bit word, negative ones
      included, and no intermediate value leaves 32 bits. */
  lemma SchrageIsModular(word: int)
    requires -0x80000000 <= word < 0x80000000
    ensures Schrage(word) == 16807 * word % M31
    ensures var hi := Quot(word, 127773);
      var lo := word - 127773 * hi;
      && -0x80000000 <= 16807 * lo < 0x80000000 && -0x80000000 <= 2836 * hi < 0x80000000
      && -0x80000000 <= 16807 * lo - 2836 * hi < 0x80000000
  {
    var hi := Quot(word, 127773);
    var lo := word - 127773 * hi;
    assert 16807 * word == M31 * hi + (16807 * lo - 2836 * hi);
  }

  /** Word `i` of the seeding sequence; word 0 is the seed read as signed. */
  function SeedWord(seed: Word, i: nat): (w: int)
    ensures -0x80000000 <= w < 0x80000000
    ensures i > 0 ==> 0 <= w < M31
  {
    if i == 0 then Signed(seed)
    else
      SchrageIsModular(SeedWord(seed, i - 1));
      Schrage(SeedWord(seed, i - 1))
  }

  function SeedCell(seed: Word, i: nat): Word {
    if i == 0 then seed else SeedWord(seed, i)
  }

  /** The table before the first values are thrown away; seed 0 is taken as 1. */
  function SeedState(typ: nat, seed: Word): (g: Gen)
    requires typ < MAX_TYPES
    ensures Proper(g) && g.typ == typ
  {
    var s := if seed == 0 then 1 else seed;
    Gen(typ, seq(Cells(typ), i requires 0 <= i => SeedCell(s, i)), Sep(typ), 0)
  }

  lemma SeedStateZero(seed: Word)
    ensures SeedState(0, seed).tbl == [if seed == 0 then 1 else seed]
  {
    assert SeedState(0, seed).tbl[0] == SeedCell(if seed == 0 then 1 else seed, 0);
  }

  lemma TableFilled(a: seq<Word>, typ: nat, seed: Word, first: Word)
    requires 0 < typ < MAX_TYPES && |a| > Degree(typ) && first == if seed == 0 then 1 else seed
    requires forall i :: 0 <= i < Degree(typ) ==> a[1 + i] == SeedCell(first, i)
    ensures SeedState(typ, seed) == Gen(typ, a[1..1 + Degree(typ)], Sep(typ), 0)
  {
    hide SeedCell;
  }

  /** The generator that srandom_r leaves: a function of type and seed alone. */
  function Seeded(typ: nat, seed: Word): (g: Gen)
    requires typ < MAX_TYPES
    ensures Proper(g) && g.typ == typ
  {
    Iter(SeedState(typ, seed), 10 * Degree(typ))
  }

  /** Every call moves the rear pointer one cell around the table. */
  lemma {:induction false} RearAfter(g: Gen, k: nat)
    requires Proper(g) && g.typ > 0
    ensures Iter(g, k).rear == (g.rear + k) % |g.tbl|
  {
    if k > 0 {
      hide Proper, Sep, Degree, Cells;
      RearAfter(g, k - 1);
      WrapIsModulo(g.rear + k - 1, |g.tbl|);
    }
  }

  lemma WrapIsModulo(i: nat, n: nat)
    requires n > 0
    ensures (i + 1) % n == Wrap(i % n + 1, n)
  {
    var q := i / n;
    assert i == q * n + i % n;
    if i % n + 1 == n {
      assert (q + 1) * n == q * n + n;
      ModUnique(i + 1, q + 1, 0, n);
    } else {
      ModUnique(i + 1, q, i % n + 1, n);
    }
  }

  lemma TurnsAround(r: nat, k: nat, n: nat)
    requires r < n
    ensures (r + k) % n == r <==> k % n == 0
  {
    var q, m := k / n, k % n;
    assert k == q * n + m;
    if r + m < n {
      ModUnique(r + k, q, r + m, n);
    } else {
      assert (q + 1) * n == q * n + n;
      ModUnique(r + k, q + 1, r + m - n, n);
    }
  }

  /** Throwing away ten values for every cell brings the rear pointer back to the start. */
  lemma SeededRear(typ: nat, seed: Word)
    requires typ < MAX_TYPES
    ensures Seeded(typ, seed).rear == 0
  {
    if typ > 0 {
      RearAfter(SeedState(typ, seed), 10 * Degree(typ));
    }
  }

  /// Saved states.

  /** What initstate_r and setstate_r put in front of a state: type and rear pointer. */
  function Tag(g: Gen): Word
    requires Proper(g)
  {
    if g.typ == 0 then 0 else MAX_TYPES * g.rear + g.typ
  }

  /** C's remainder by MAX_TYPES of the tag read as signed. */
  function TagType(tag: Word): (t: int)
    ensures -MAX_TYPES < t < MAX_TYPES
  {
    Signed(tag) - MAX_TYPES * Quot(Signed(tag), MAX_TYPES)
  }

  function TagRear(tag: Word): (r: int)
    ensures TagType(tag) > 0 ==> r >= 0
  {
    Quot(Signed(tag), MAX_TYPES)
  }

  /** The array holds a tag and the cells that go with it. */
  ghost predicate Loadable(a: seq<Word>) {
    && |a| > 0 && 0 <= TagType(a[0])
    && |a| > Cells(TagType(a[0]))
    && (TagType(a[0]) > 0 ==> TagRear(a[0]) < Degree(TagType(a[0])))
  }

  function Load(a: seq<Word>): (g: Gen)
    requires Loadable(a)
    ensures Proper(g)
  {
    var typ := TagType(a[0]);
    var rear := if typ == 0 then 0 else TagRear(a[0]);
    Gen(typ, a[1..1 + Cells(typ)], if typ == 0 then 0 else (rear + Sep(typ)) % Degree(typ), rear)
  }

  /** What the fields of the structure make of an array with a valid tag. */
  lemma TakenUp(a: seq<Word>, typ: nat)
    requires |a| > 0 && typ == TagType(a[0])
    ensures |a| <= Cells(typ) ==> !Loadable(a)
    ensures |a| > Cells(typ) && typ == 0 ==> Loadable(a) && Load(a) == Gen(0, a[1..2], 0, 0)
    ensures |a| > Cells(typ) && typ > 0 ==>
      var g := Gen(typ, a[1..1 + Degree(typ)], (TagRear(a[0]) + Sep(typ)) % Degree(typ), TagRear(a[0]));
      (Loadable(a) <==> Proper(g)) && (Loadable(a) ==> Load(a) == g)
  {
    hide TagRear;
  }

  /** A tag gives back the type and the place of the rear pointer. */
  lemma TagRoundTrip(g: Gen)
    requires Proper(g)
    ensures TagType(Tag(g)) == g.typ && (g.typ > 0 ==> TagRear(Tag(g)) == g.rear)
    ensures Tag(g) == if g.typ == 0 then 0 else 5 * g.rear + g.typ
  {
  }

  /** Loading what was saved gives the same generator, hence the same stream. */
  lemma SaveLoad(g: Gen, a: seq<Word>)
    requires Proper(g) && |a| > |g.tbl| && a[0] == Tag(g) && a[1..1 + |g.tbl|] == g.tbl
    ensures Loadable(a) && Load(a) == g
  {
    TagRoundTrip(g);
  }

  /** The same when only the tag was written since the cells were in place. */
  lemma SavedLoads(g: Gen, before: seq<Word>, a: seq<Word>)
    requires Proper(g) && |a| == |before| > |g.tbl| && before[1..1 + |g.tbl|] == g.tbl
    requires a[0] == Tag(g) && a[1..] == before[1..]
    ensures Loadable(a) && Load(a) == g
    ensures TagType(a[0]) >= 0
  {
    assert a[1..1 + |g.tbl|] == a[1..][..|g.tbl|] == before[1..][..|g.tbl|];
    SaveLoad(g, a);
  }

  /** With a tag that was not brought up to date, what is loaded is the generator in the cells
      exactly when there are no pointers or the rear one is where the tag says. */
  lemma StaleTag(h: Gen, a: seq<Word>)
    requires Proper(h) && Loadable(a) && TagType(a[0]) == h.typ && a[1..1 + |h.tbl|] == h.tbl
    ensures Load(a) == h <==> h.typ == 0 || TagRear(a[0]) == h.rear
  {
  }

  /** A state whose tag is from `k` calls ago loads as the generator it is now exactly when
      those calls brought the pointers round to where they were. */
  lemma OldTag(g: Gen, k: nat, a: seq<Word>)
    requires Proper(g) && |a| > |g.tbl| && a[0] == Tag(g) && a[1..1 + |g.tbl|] == Iter(g, k).tbl
    ensures Loadable(a) && (Load(a) == Iter(g, k) <==> g.typ == 0 || k % |g.tbl| == 0)
  {
    hide Load, Tag;
    TagRoundTrip(g);
    StaleTag(Iter(g, k), a);
    if g.typ > 0 {
      RearAfter(g, k);
      TurnsAround(g.rear, k, |g.tbl|);
    }
  }

  lemma TwoCells(g: Gen)
    requires Proper(g) && g.typ > 0
    ensures |g.tbl| > 1
  {
  }

  /** So one number drawn since the tag was written is enough to lose the stream, whatever the
      seed and whatever the type, but for the one without a table. */
  lemma OneDrawIsLost(typ: nat, seed: Word)
    requires 0 < typ < MAX_TYPES
    ensures var g := Seeded(typ, seed);
      var a := [Tag(g)] + Iter(g, 1).tbl;
      Loadable(a) && Load(a) != Iter(g, 1)
  {
    hide Seeded, Iter, Load, Tag, Loadable, Proper, Next;
    var g := Seeded(typ, seed);
    TwoCells(g);
    var a := [Tag(g)] + Iter(g, 1).tbl;
    assert a[1..1 + |g.tbl|] == Iter(g, 1).tbl;
    OldTag(g, 1, a);
  }

  /** The rear pointer needs no test when the front pointer wraps: they are `Sep` apart. */
  lemma PointersTurn(g: Gen)
    requires Proper(g) && g.typ > 0
    ensures var n, val := |g.tbl|, Add32(g.tbl[g.front], g.tbl[g.rear]);
      && n == Degree(g.typ) && g.front < n && g.rear < n
      && Next(g) == Gen(g.typ, g.tbl[g.front := val],
                        if g.front + 1 >= n then 0 else g.front + 1,
                        if g.front + 1 < n && g.rear + 1 >= n then 0 else g.rear + 1)
      && Output(g) == val / 2
  {
  }

  /// The routines on their structure.

  class RandomData {
    var randType: nat
    var randDeg: nat
    var randSep: nat
    var arg: array<Word>     // the caller's array; `state` is &arg[1]
    var fptr: nat            // pointers into `state`, as indices
    var rptr: nat
    var endPtr: nat

    ghost predicate Shaped()
      reads this
    {
      && randType < MAX_TYPES && randDeg == endPtr == Degree(randType) && randSep == Sep(randType)
      && arg.Length > Cells(randType)
    }

    ghost predicate Valid()
      reads this, arg
    {
      Shaped() && (randType > 0 ==> Proper(Value()))
    }

    /** The generator this structure stands for. */
    ghost function Value(): Gen
      requires Shaped()
      reads this, arg
    {
      if randType == 0 then Gen(0, arg[1..2], 0, 0)
      else Gen(randType, arg[1..1 + randDeg], fptr, rptr)
    }

    lemma TableInPlace()
      requires Valid()
      ensures Proper(Value()) && arg.Length > |Value().tbl| && arg[1..1 + |Value().tbl|] == Value().tbl
      ensures Value().typ == randType && (randType > 0 ==> Value().rear == rptr)
    {
    }

    /** random_r. */
    method RandomR() returns (ret: int, result: Word)
      requires Valid()
      modifies this`fptr, this`rptr, arg
      ensures Valid() && ret == 0
      ensures Value() == Next(old(Value())) && result == Output(old(Value()))
      ensures arg[0] == old(arg[0])
      ensures forall i :: Cells(randType) < i < arg.Length ==> arg[i] == old(arg[i])
    {
      if randType == 0 {
        var val := Lcg(arg[1]);
        arg[1] := val;
        result := val;
      } else {
        result := Feedback();
      }
      ret := 0;
    }

    method Feedback() returns (result: Word)
      requires Valid() && randType > 0
      modifies this`fptr, this`rptr, arg
      ensures Valid()
      ensures Value() == Next(old(Value())) && result == Output(old(Value()))
      ensures arg[0] == old(arg[0])
      ensures forall i :: randDeg < i < arg.Length ==> arg[i] == old(arg[i])
    {
      ghost var g := Value();
      PointersTurn(g);
      var f, r := fptr, rptr;
      var val := Add32(arg[1 + f], arg[1 + r]);
      hide Next, Proper;
      arg[1 + f] := val;
      assert arg[1..1 + randDeg] == g.tbl[f := val];
      result := val / 2;
      f := f + 1;
      if f >= endPtr {
        f := 0;
        r := r + 1;
      } else {
        r := r + 1;
        if r >= endPtr {
          r := 0;
        }
      }
      fptr, rptr := f, r;
      assert Value() == Next(g);
    }

    /** srandom_r: nothing of the old pointers or table survives. */
    method SrandomR(seed: Word) returns (ret: int)
      requires randType < MAX_TYPES ==> Shaped()
      modifies this`fptr, this`rptr, arg
      ensures randType >= MAX_TYPES ==> ret == -1 && arg[..] == old(arg[..])
      ensures randType < MAX_TYPES ==> ret == 0 && Valid() && Value() == Seeded(randType, seed)
      ensures randType < MAX_TYPES ==> arg[0] == old(arg[0])
      ensures randType < MAX_TYPES ==> forall i :: Cells(randType) < i < arg.Length ==> arg[i] == old(arg[i])
    {
      if randType >= MAX_TYPES {
        return -1;
      }
      var s := if seed == 0 then 1 else seed;
      arg[1] := s;
      if randType == 0 {
        SeedStateZero(seed);
        assert arg[1..2] == [s];
        return 0;
      }
      FillTable(s);
      fptr := randSep;
      rptr := 0;
      TableFilled(arg[..], randType, seed, s);
      Draw(10 * randDeg);
      return 0;
    }

    /** `count` calls in a row. */
    method Draw(count: nat)
      requires Valid()
      modifies this`fptr, this`rptr, arg
      ensures Valid() && Value() == Iter(old(Value()), count) && arg[0] == old(arg[0])
      ensures forall i :: Cells(randType) < i < arg.Length ==> arg[i] == old(arg[i])
    {
      hide Next, Output;
      ghost var g, n := Value(), 0;
      var kc := count;
      while kc > 0
        invariant Valid() && n + kc == count && Value() == Iter(g, n)
        invariant arg[0] == old(arg[0])
        invariant forall i :: Cells(randType) < i < arg.Length ==> arg[i] == old(arg[i])
      {
        var _, _ := RandomR();
        kc := kc - 1;
        n := n + 1;
      }
    }

    /** The congruential sequence that fills the table from its first word on. */
    method FillTable(seed: Word)
      requires Shaped() && randType > 0 && arg[1] == seed
      modifies arg
      ensures forall i :: 0 <= i < randDeg ==> arg[1 + i] == SeedCell(seed, i)
      ensures arg[0] == old(arg[0])
      ensures forall i :: randDeg < i < arg.Length ==> arg[i] == old(arg[i])
    {
      var word := Signed(seed);
      var i := 1;
      while i < randDeg
        invariant 1 <= i <= randDeg && word == SeedWord(seed, i - 1)
        invariant forall j :: 0 <= j < i ==> arg[1 + j] == SeedCell(seed, j)
        invariant arg[0] == old(arg[0])
        invariant forall k :: randDeg < k < arg.Length ==> arg[k] == old(arg[k])
      {
        SchrageIsModular(word);
        var hi := Quot(word, 127773);
        var lo := word - 127773 * hi;
        word := 16807 * lo - 2836 * hi;
        if word < 0 {
          word := word + M31;
        }
        arg[1 + i] := word;
        i := i + 1;
      }
    }

    /** initstate_r: `n` is the size of the array in bytes. */
    method InitstateR(seed: Word, argState: array<Word>, n: nat) returns (ret: int)
      requires n <= 4 * argState.Length
      modifies this, argState
      ensures n < 8 ==> ret == -1 && unchanged(this) && argState[..] == old(argState[..])
      ensures n >= 8 ==> ret == 0 && Valid() && arg == argState && randType == TypeFor(n)
      ensures n >= 8 ==> Value() == Seeded(TypeFor(n), seed) && arg[0] == Tag(Value())
    {
      var typ;
      if n >= 128 {
        typ := if n < 256 then 3 else 4;
      } else if n < 32 {
        if n < 8 {
          return -1;
        }
        typ := 0;
      } else {
        typ := if n < 64 then 1 else 2;
      }
      SetUp(typ, seed, argState);
      return 0;
    }

    method SetUp(typ: nat, seed: Word, argState: array<Word>)
      requires typ < MAX_TYPES && argState.Length > Cells(typ)
      modifies this, argState
      ensures Valid() && arg == argState && randType == typ
      ensures Value() == Seeded(typ, seed) && arg[0] == Tag(Value())
    {
      randType, randSep, randDeg := typ, Sep(typ), Degree(typ);
      arg := argState;
      endPtr := randDeg;
      var _ := SrandomR(seed);
      SeededRear(typ, seed);
      hide Seeded;
      ghost var g := Value();
      arg[0] := 0;
      if typ != 0 {
        arg[0] := rptr * MAX_TYPES + typ;
      }
      assert Value() == g;
    }

    /** setstate_r: saves the current state in its own array, then takes up the one in
        `argState`, which may be the same array. A tag with a type below 5 is accepted whatever
        its rear index: both pointers are in the table exactly when that is below the degree,
        and the structure is a generator, the one saved, exactly when the array is Loadable. */
    method SetstateR(argState: array<Word>) returns (ret: int)
      requires Valid() && argState.Length > 0
      modifies this, arg
      ensures old(arg)[0] == Tag(old(Value())) && old(arg)[1..] == old(arg[1..])
      ensures ret == if argState == old(arg) || old(TagType(argState[0])) >= 0 then 0 else -1
      ensures arg == if ret == 0 then argState else old(arg)
      ensures argState == old(arg) || ret == -1 ==> Valid() && Value() == old(Value())
      ensures ret == 0 && argState != old(arg) ==>
        && randType == TagType(old(argState[0])) && (Valid() <==> Loadable(old(argState[..])))
        && (Valid() ==> Value() == Load(old(argState[..])))
        && (randType > 0 ==> fptr < randDeg && (rptr < randDeg <==> TagRear(old(argState[0])) < randDeg))
    {
      ghost var g, old_arg := Value(), arg;
      if randType == 0 {
        arg[0] := 0;
      } else {
        arg[0] := MAX_TYPES * rptr + randType;
      }
      TagRoundTrip(g);
      assert Value() == g;
      SaveLoad(g, arg[..]);
      var word := Signed(argState[0]);
      var typ := word - MAX_TYPES * Quot(word, MAX_TYPES);
      if typ < 0 || typ > 4 {
        return -1;
      }
      TakeUp(argState, typ, word);
      return 0;
    }

    method TakeUp(argState: array<Word>, typ: nat, word: int)
      requires argState.Length > 0 && typ == TagType(argState[0]) && word == Signed(argState[0])
      modifies this
      ensures arg == argState && randType == typ
      ensures Valid() <==> Loadable(argState[..])
      ensures Valid() ==> Value() == Load(argState[..])
      ensures typ > 0 ==> fptr < randDeg && (rptr < randDeg <==> TagRear(argState[0]) < randDeg)
    {
      hide Quot, Signed, Loadable, Load, Proper;
      TakenUp(argState[..], typ);
      randDeg, randSep, randType := Degree(typ), Sep(typ), typ;
      if typ != 0 {
        var rear := Quot(word, MAX_TYPES);
        assert rear == TagRear(argState[0]) >= 0;
        rptr := rear;
        fptr := (rear + randSep) % randDeg;
      }
      arg := argState;
      endPtr := randDeg;
    }
  }

  /** A stream that is put aside for another array, in use for `k` numbers, goes on as if it
      had never been interrupted; and so does the other one. */
  method SwitchAndBack(buf: RandomData, other: array<Word>, k: nat)
    requires buf.Valid() && other != buf.arg && Loadable(other[..])
    modifies buf, buf.arg, other
    ensures buf.Valid() && buf.arg == old(buf.arg) && buf.Value() == old(buf.Value())
    ensures Loadable(other[..]) && Load(other[..]) == Iter(old(Load(other[..])), k)
  {
    hide Next, Load, Proper, Tag, buf.Value;
    var first := buf.arg;
    buf.TableInPlace();
    ghost var g, h, was := buf.Value(), Load(other[..]), first[..];
    var _ := buf.SetstateR(other);
    SavedLoads(g, was, first[..]);
    buf.Draw(k);
    buf.TableInPlace();
    ghost var now := other[..];
    var _ := buf.SetstateR(first);
    SavedLoads(Iter(h, k), now, other[..]);
  }

  /** The old stream is not saved by initstate_r: coming back to it with setstate_r resumes it
      exactly when nothing was initialised, or it has no pointers, or its tag happens to be
      right. */
  method InitstateAndBack(buf: RandomData, seed: Word, other: array<Word>, n: nat)
    requires buf.Valid() && Loadable(buf.arg[..]) && TagType(buf.arg[0]) == buf.randType
    requires other != buf.arg && other.Length > 0 && n <= 4 * other.Length
    modifies buf, buf.arg, other
    ensures buf.Valid() && buf.arg == old(buf.arg)
    ensures buf.Value() == old(buf.Value()) <==>
      n < 8 || old(buf.randType) == 0 || TagRear(old(buf.arg[0])) == old(buf.rptr)
  {
    hide Next, Load, Tag, Seeded, buf.Value;
    var first := buf.arg;
    buf.TableInPlace();
    StaleTag(buf.Value(), first[..]);
    var _ := buf.InitstateR(seed, other, n);
    var _ := buf.SetstateR(first);
  }

  /** As a client meets it: a state that was initialised and drawn from `k` times comes back
      after another initstate_r exactly when nothing was initialised, it keeps a single word,
      or `k` is a multiple of its degree. */
  method TwoStreams(buf: RandomData, first: array<Word>, n1: nat, seed1: Word, k: nat,
                    other: array<Word>, n2: nat, seed2: Word)
    requires 8 <= n1 <= 4 * first.Length && n2 <= 4 * other.Length && other.Length > 0 && other != first
    modifies buf, first, other
    ensures buf.Valid() && buf.arg == first
    ensures var typ := TypeFor(n1);
      buf.Value() == Iter(Seeded(typ, seed1), k) <==> n2 < 8 || typ == 0 || k % Degree(typ) == 0
  {
    hide Next, Iter, Load, Loadable, Tag, Seeded, Proper, buf.Value;
    var _ := buf.InitstateR(seed1, first, n1);
    ghost var g := buf.Value();
    buf.Draw(k);
    buf.TableInPlace();
    OldTag(g, k, first[..]);
    TagRoundTrip(g);
    ghost var h := buf.Value();
    StaleTag(h, first[..]);
    InitstateAndBack(buf, seed2, other, n2);
  }

  /** The best type that `n` bytes of state allow. */
  function TypeFor(n: nat): (typ: nat)
    requires n >= 8
    ensures typ < MAX_TYPES && 4 * (1 + Cells(typ)) <= n
  {
    if n < 32 then 0 else if n < 64 then 1 else if n < 128 then 2 else if n < 256 then 3 else 4
  }
}
