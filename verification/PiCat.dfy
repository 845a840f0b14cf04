/** The matcher that ends the terminal session when the Pi prints "DONE!!!\n":
    `libunix/pi-cat.c`. */
module PiCat {
  const EXIT: string := "DONE!!!\n"
  const N := 8
  const NUL := '\0'

  datatype Match = Found | Looking(pos: nat)

  /** The text seen by a matcher that stands at `pos`, up to the end of the text or the end of
      the first match. A character that does not fit is dropped, not looked at again. */
  function Scan(pos: nat, s: string): (m: Match)
    requires pos < N
    ensures m.Looking? ==> m.pos < N
    decreases |s|
  {
    if s == [] then Looking(pos)
    else if s[0] != EXIT[pos] then Scan(0, s[1..])
    else if pos + 1 == N then Found
    else Scan(pos + 1, s[1..])
  }

  /** The part of a C string before its terminator. */
  function CStr(s: string): (r: string)
    ensures NUL !in r && r <= s
  {
    if s == [] || s[0] == NUL then [] else [s[0]] + CStr(s[1..])
  }

  function Flatten(chunks: seq<string>): string {
    if chunks == [] then [] else Flatten(chunks[..|chunks| - 1]) + chunks[|chunks| - 1]
  }

  /** It makes no difference where the text is cut. */
  lemma {:induction false} ScanConcat(pos: nat, a: string, b: string)
    requires pos < N
    ensures Scan(pos, a + b) == match Scan(pos, a) case Found => Found case Looking(q) => Scan(q, b)
    decreases |a|
  {
    if a == [] {
      assert a + b == b;
    } else {
      assert (a + b)[1..] == a[1..] + b;
      if a[0] != EXIT[pos] {
        ScanConcat(0, a[1..], b);
      } else if pos + 1 < N {
        ScanConcat(pos + 1, a[1..], b);
      }
    }
  }

  /// Which occurrences are seen.

  /** `s` ends with the first `k` characters of the exit string. */
  predicate Ends(s: string, k: nat)
    requires k <= N
  {
    k <= |s| && s[|s| - k..] == EXIT[..k]
  }

  /** The length of the unfinished exit string that `s` ends with, or 0. */
  function Partial(s: string): (k: nat)
    ensures k < N && k <= |s|
  {
    PartialUpTo(s, N - 1)
  }

  function PartialUpTo(s: string, k: nat): (r: nat)
    requires k < N
    ensures r <= k && r <= |s|
  {
    if k == 0 || Ends(s, k) then (if Ends(s, k) then k else 0) else PartialUpTo(s, k - 1)
  }

  /** How many unfinished exit strings stand one after the other at the end of `s`. */
  function Chain(s: string): nat
    decreases |s|
  {
    if Partial(s) == 0 then 0 else 1 + Chain(s[..|s| - Partial(s)])
  }

  predicate Occurs(s: string, i: nat) {
    i + 8 <= |s| && s[i..i + 8] == "DONE!!!\n"
  }

  lemma ExitShape()
    ensures |EXIT| == N && EXIT[0] == 'D' && EXIT[N - 1] == '\n'
    ensures forall k :: 1 <= k < N ==> EXIT[k] != 'D'
    ensures forall k :: 0 <= k < N - 1 ==> EXIT[k] != '\n'
  {
  }

  /** At most one unfinished exit string can stand at the end: its only 'D' is its first
      character. */
  lemma EndsUnique(s: string, j: nat, k: nat)
    requires 1 <= j <= k < N && Ends(s, j) && Ends(s, k)
    ensures j == k
  {
    ExitShape();
    assert s[|s| - j] == s[|s| - j..][0] == EXIT[0];
    assert s[|s| - j] == s[|s| - k..][k - j] == EXIT[k - j];
  }

  lemma {:induction false} PartialUpToIs(s: string, n: nat, k: nat)
    requires n < N && 1 <= k <= n && Ends(s, k)
    ensures PartialUpTo(s, n) == k
  {
    if Ends(s, n) {
      EndsUnique(s, k, n);
    } else {
      PartialUpToIs(s, n - 1, k);
    }
  }

  lemma {:induction false} PartialUpToEnds(s: string, n: nat)
    requires n < N
    ensures Ends(s, PartialUpTo(s, n))
  {
    if n > 0 && !Ends(s, n) {
      PartialUpToEnds(s, n - 1);
    }
  }

  lemma PartialIs(s: string, k: nat)
    requires 1 <= k < N
    ensures Ends(s, k) <==> Partial(s) == k
  {
    PartialUpToEnds(s, N - 1);
    if Ends(s, k) {
      PartialUpToIs(s, N - 1, k);
    }
  }

  lemma EndsSnoc(s: string, c: char, k: nat)
    requires k < N
    ensures Ends(s + [c], k + 1) <==> Ends(s, k) && c == EXIT[k]
  {
    ExitShape();
    var t := s + [c];
    if k <= |s| {
      assert t[|t| - (k + 1)..] == s[|s| - k..] + [c];
      assert EXIT[..k + 1] == EXIT[..k] + [EXIT[k]];
      assert t[|t| - (k + 1)..][..k] == s[|s| - k..];
      assert EXIT[..k + 1][..k] == EXIT[..k];
      assert t[|t| - (k + 1)..][k] == c && EXIT[..k + 1][k] == EXIT[k];
    }
  }

  lemma PartialRange(s: string)
    ensures Partial(s) < N
  {
  }

  lemma PartialSnoc(s: string, c: char)
    ensures Partial(s + [c]) ==
      if c == 'D' then 1
      else if Partial(s) != 0 && c == EXIT[Partial(s)] && Partial(s) + 1 < N then Partial(s) + 1
      else 0
  {
    hide Partial, PartialUpTo;
    ExitShape();
    PartialRange(s);
    PartialRange(s + [c]);
    var p, p' := Partial(s), Partial(s + [c]);
    EndsSnoc(s, c, 0);
    PartialIs(s + [c], 1);
    if p != 0 {
      PartialIs(s, p);
      EndsSnoc(s, c, p);
      if p + 1 < N {
        PartialIs(s + [c], p + 1);
      }
    }
    if p' > 1 {
      PartialIs(s + [c], p');
      EndsSnoc(s, c, p' - 1);
      PartialIs(s, p' - 1);
    }
  }

  /** Until the first match, the matcher stands inside the unfinished exit string at the end of
      the text when an odd number of them follow each other there, and at 0 otherwise. */
  lemma {:induction false} PosIsChain(s: string)
    requires Scan(0, s).Looking?
    ensures Scan(0, s).pos == if Chain(s) % 2 == 1 then Partial(s) else 0
    decreases |s|
  {
    if s != [] {
      var t, c := s[..|s| - 1], s[|s| - 1];
      assert s == t + [c];
      hide Chain, Partial, Scan;
      ScanConcat(0, t, [c]);
      PosIsChain(t);
      ScanOne(Scan(0, t).pos, c);
      PartialSnoc(t, c);
      ChainSnoc(t, c);
      ExitShape();
    }
  }

  lemma ChainSnoc(t: string, c: char)
    ensures Chain(t + [c]) ==
      if c == 'D' then 1 + Chain(t) else if Partial(t + [c]) != 0 then Chain(t) else 0
  {
    hide Partial;
    PartialSnoc(t, c);
    var s, p := t + [c], Partial(t);
    if c == 'D' {
      assert s[..|s| - 1] == t;
    } else if Partial(s) != 0 {
      assert s[..|s| - (p + 1)] == t[..|t| - p];
    }
  }

  lemma ScanOne(pos: nat, c: char)
    requires pos < N
    ensures Scan(pos, [c]) ==
      if c != EXIT[pos] then Looking(0) else if pos + 1 == N then Found else Looking(pos + 1)
  {
  }

  /** A matcher at 0 takes a whole exit string. */
  lemma {:induction false} TakesExit(pos: nat)
    requires pos < N
    ensures Scan(pos, EXIT[pos..]) == Found
    decreases N - pos
  {
    if pos + 1 < N {
      TakesExit(pos + 1);
      assert EXIT[pos..][1..] == EXIT[pos + 1..];
    }
  }

  /** A position is reached only by as many fitting characters from a position 0. */
  lemma {:induction false} PosCameFrom(s: string)
    requires Scan(0, s).Looking?
    ensures var q := Scan(0, s).pos; q <= |s| && Ends(s, q) && Scan(0, s[..|s| - q]) == Looking(0)
    decreases |s|
  {
    ExitShape();
    if s == [] {
      assert s[..0] == s;
    } else {
      var t, c := s[..|s| - 1], s[|s| - 1];
      assert s == t + [c];
      ScanConcat(0, t, [c]);
      PosCameFrom(t);
      var q := Scan(0, t).pos;
      ScanOne(q, c);
      EndsSnoc(t, c, q);
      if c == EXIT[q] {
        assert s[..|s| - (q + 1)] == t[..|t| - q];
      } else {
        assert s[..|s|] == s;
      }
    }
  }

  /** A match is found exactly when the text holds the exit string somewhere with an even
      number of unfinished ones right before it. */
  lemma {:induction false} FoundIff(s: string)
    ensures Scan(0, s) == Found <==> exists i: nat :: Occurs(s, i) && Chain(s[..i]) % 2 == 0
  {
    if Scan(0, s) == Found {
      FoundAt(s);
    }
    if i: nat :| Occurs(s, i) && Chain(s[..i]) % 2 == 0 {
      assert s == s[..i] + EXIT[0..] + s[i + N..];
      ScanConcat(0, s[..i] + EXIT[0..], s[i + N..]);
      ScanConcat(0, s[..i], EXIT[0..]);
      if Scan(0, s[..i]).Looking? {
        PosIsChain(s[..i]);
        TakesExit(0);
      }
    }
  }

  lemma ScanNothing(s: string)
    ensures s == [] ==> Scan(0, s) == Looking(0)
  {
  }

  lemma FoundNow(t: string, c: char)
    requires Scan(0, t).Looking? && Scan(0, t + [c]) == Found
    ensures |t| + 1 >= N && Occurs(t + [c], |t| + 1 - N) && Chain(t[..|t| + 1 - N]) % 2 == 0
  {
    hide Partial, Chain, Scan, Ends, Occurs;
    var q := Scan(0, t).pos;
    ScanConcat(0, t, [c]);
    ScanOne(q, c);
    PosCameFrom(t);
    EndsSnoc(t, c, N - 1);
    EndsWhole(t + [c]);
    PosIsChain(t[..|t| + 1 - N]);
    PartialIsZeroOrEven(t[..|t| + 1 - N]);
  }

  lemma EndsWhole(s: string)
    ensures Ends(s, N) ==> |s| >= N && Occurs(s, |s| - N)
  {
    if |s| >= N {
      assert s[|s| - N..] == s[|s| - N..|s| - N + N] && EXIT[..N] == EXIT;
    }
  }

  lemma {:induction false} FoundAt(s: string)
    requires Scan(0, s) == Found
    ensures exists i: nat :: Occurs(s, i) && Chain(s[..i]) % 2 == 0
    decreases |s|
  {
    ScanNothing(s);
    hide Partial, Chain, Scan;
    var t, c := s[..|s| - 1], s[|s| - 1];
    assert s == t + [c];
    if Scan(0, t) == Found {
      FoundAt(t);
      var i: nat :| Occurs(t, i) && Chain(t[..i]) % 2 == 0;
      OccursLonger(t, c, i);
      assert t[..i] == s[..i];
    } else {
      FoundNow(t, c);
      assert t[..|s| - N] == s[..|s| - N];
    }
  }

  lemma OccursLonger(t: string, c: char, i: nat)
    requires Occurs(t, i)
    ensures i <= |t| && Occurs(t + [c], i)
  {
    assert (t + [c])[i..i + N] == t[i..i + N];
  }

  lemma PartialIsZeroOrEven(s: string)
    ensures Chain(s) % 2 == 1 ==> Partial(s) != 0
  {
  }

  /** So it never misses one at the start of the text, after a newline, or after anything else
      that is not an unfinished exit string. */
  lemma NeverMissedWhenFresh(s: string, i: nat)
    requires Occurs(s, i) && (i == 0 || s[i - 1] == '\n' || Partial(s[..i]) == 0)
    ensures Scan(0, s) == Found
  {
    ExitShape();
    if i > 0 && s[i - 1] == '\n' {
      assert s[..i] == s[..i - 1] + ['\n'];
      PartialSnoc(s[..i - 1], '\n');
    }
    FoundIff(s);
  }

  /** And it does miss one: the second 'D' is dropped with the first. */
  lemma MissesDoubledD()
    ensures Occurs("D" + EXIT, 1) && Scan(0, "D" + EXIT).Looking?
  {
    var s := "D" + EXIT;
    assert s[1..1 + N] == EXIT;
    assert Scan(0, s) == Scan(1, s[1..]) == Scan(0, s[2..]);
    assert s[2..] == "ONE!!!\n";
    NoD(s[2..]);
  }

  lemma {:induction false} NoD(s: string)
    requires 'D' !in s
    ensures Scan(0, s) == Looking(0)
  {
    if s != [] {
      NoD(s[1..]);
    }
  }

  /// The routines.

  function CleanChar(c: char): char {
    if ' ' <= c <= '~' || ('\t' <= c <= '\r' && c != '\r') then c else ' '
  }

  function Clean(s: string): (r: string)
    ensures |r| == |s|
  {
    seq(|s|, i requires 0 <= i < |s| => CleanChar(s[i]))
  }

  /** remove_nonprint, in place; no terminator survives it. */
  method RemoveNonprint(buf: array<char>, n: nat)
    requires n <= buf.Length
    modifies buf
    ensures buf[..n] == Clean(old(buf[..n])) && buf[n..] == old(buf[n..])
    ensures forall k :: 0 <= k < n ==>
      buf[k] == old(if 32 <= buf[k] as int <= 126 || 9 <= buf[k] as int <= 12 then buf[k] else ' ')
  {
    var i := 0;
    while i < n
      invariant i <= n
      invariant forall k :: 0 <= k < i ==> buf[k] == CleanChar(old(buf[k]))
      invariant forall k :: i <= k < buf.Length ==> buf[k] == old(buf[k])
    {
      if !(' ' <= buf[i] <= '~' || ('\t' <= buf[i] <= '\r' && buf[i] != '\r')) {
        buf[i] := ' ';
      }
      i := i + 1;
    }
  }

  /** Cleaning the text neither makes nor breaks a match. */
  lemma {:induction false} CleanChangesNothing(pos: nat, s: string)
    requires pos < N
    ensures Scan(pos, Clean(s)) == Scan(pos, s)
    decreases |s|
  {
    if s != [] {
      assert Clean(s)[1..] == Clean(s[1..]);
      CleanCharFits(pos, s[0]);
      CleanChangesNothing(0, s[1..]);
      if pos + 1 < N {
        CleanChangesNothing(pos + 1, s[1..]);
      }
    }
  }

  lemma CleanCharFits(pos: nat, c: char)
    requires pos < N
    ensures CleanChar(c) == EXIT[pos] <==> c == EXIT[pos]
  {
  }

  datatype Answer = Done | NotDone | Aborted

  /** pi_done with its static position. */
  class Matcher {
    var pos: nat

    constructor ()
      ensures pos == 0
    {
      pos := 0;
    }

    ghost function State(): Match
      reads this
    {
      if pos == N then Found else Looking(pos)
    }

    /** Once it has answered 1, the assertion on `pos` stops any further call on a text that is
        not empty. */
    method PiDone(s: string) returns (r: Answer)
      requires pos <= N
      modifies this
      ensures pos <= N
      ensures old(pos) < N ==> State() == Scan(old(pos), CStr(s)) && r == if State() == Found then Done else NotDone
      ensures old(pos) == N ==> pos == N && r == if CStr(s) == [] then NotDone else Aborted
      decreases |s|
    {
      var i := 0;
      while i < |s| && s[i] != NUL
        invariant i <= |s| && pos <= N
        invariant old(pos) < N ==> pos < N && Scan(old(pos), CStr(s)) == Scan(pos, CStr(s[i..]))
        invariant old(pos) == N ==> pos == N && i == 0
      {
        if pos >= N {
          return Aborted;
        }
        var fits := s[i] == EXIT[pos];
        pos := pos + 1;
        assert CStr(s[i..]) == [s[i]] + CStr(s[i..][1..]) && s[i..][1..] == s[i + 1..];
        if !fits {
          pos := 0;
          r := PiDone(s[i + 1..]);
          return;
        }
        if pos == N {
          return Done;
        }
        i := i + 1;
      }
      return NotDone;
    }
  }

  lemma CStrOfText(s: string)
    requires NUL !in s
    ensures CStr(s + [NUL]) == s
  {
    if s != [] {
      assert (s + [NUL])[1..] == s[1..] + [NUL];
      CStrOfText(s[1..]);
    }
  }

  lemma OneMoreRead(reads_: seq<string>, k: nat, pos: nat)
    requires k < |reads_| && pos < N && Scan(0, Flatten(reads_[..k])) == Looking(pos)
    ensures Scan(0, Flatten(reads_[..k + 1])) == Scan(pos, CStr(Clean(reads_[k]) + [NUL]))
  {
    assert reads_[..k + 1][..k] == reads_[..k];
    ScanConcat(0, Flatten(reads_[..k]), reads_[k]);
    CleanChangesNothing(pos, reads_[k]);
    CStrOfText(Clean(reads_[k]));
  }

  /** pi_cat on the reads that deliver something, at most a buffer each: it leaves after the
      first one with which the stream so far holds an exit string that is not missed. */
  method PiCat(reads_: seq<string>) returns (seen: bool, used: nat)
    requires forall k :: 0 <= k < |reads_| ==> |reads_[k]| < 4096
    ensures used <= |reads_| && (!seen ==> used == |reads_|)
    ensures var text := Flatten(reads_[..used]);
      seen <==> exists i: nat :: Occurs(text, i) && Chain(text[..i]) % 2 == 0
    ensures forall k :: 0 <= k < used ==> Scan(0, Flatten(reads_[..k])).Looking?
  {
    hide Scan, Clean, Flatten, CStr, Occurs, Chain;
    var m := new Matcher();
    NothingYet(reads_);
    used := 0;
    while used < |reads_|
      invariant used <= |reads_| && fresh(m) && m.pos < N
      invariant Scan(0, Flatten(reads_[..used])) == Looking(m.pos)
      invariant forall k :: 0 <= k <= used ==> Scan(0, Flatten(reads_[..k])).Looking?
    {
      var n := |reads_[used]|;
      var buf := new char[4096];
      ReadInto(buf, reads_[used]);
      RemoveNonprint(buf, n);
      buf[n] := NUL;
      assert buf[..n + 1] == Clean(reads_[used]) + [NUL];
      OneMoreRead(reads_, used, m.pos);
      var r := m.PiDone(buf[..n + 1]);
      used := used + 1;
      if r == Done {
        FoundIff(Flatten(reads_[..used]));
        return true, used;
      }
    }
    FoundIff(Flatten(reads_[..used]));
    return false, used;
  }

  lemma NothingYet(reads_: seq<string>)
    ensures Scan(0, Flatten(reads_[..0])) == Looking(0)
  {
  }

  method ReadInto(buf: array<char>, s: string)
    requires |s| <= buf.Length
    modifies buf
    ensures buf[..|s|] == s
  {
    var i := 0;
    while i < |s|
      invariant i <= |s| && buf[..i] == s[..i]
    {
      buf[i] := s[i];
      i := i + 1;
    }
  }
}
