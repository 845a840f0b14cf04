/** Elapsed time over a 32-bit microsecond counter: `libpi/include/timeout.h`. Polls are
    known by their true times, which the code never sees: it reads them modulo 2^32. */
module Timeout {
  import opened Words

  const TWO64: int := 0x1_0000_0000_0000_0000

  /** True times of the polls, in order, none before `start`. */
  predicate InOrder(start: nat, polls: seq<nat>) {
    (forall i :: 0 <= i < |polls| ==> start <= polls[i]) &&
    forall i, j :: 0 <= i < j < |polls| ==> polls[i] <= polls[j]
  }

  function LastPoll(start: nat, polls: seq<nat>): nat {
    if polls == [] then start else polls[|polls| - 1]
  }

  /** What the free-running counter shows. */
  function Counter(at: nat): Word {
    at % TWO32
  }

  /** Time since `start` at the last poll. */
  function Elapsed(start: nat, polls: seq<nat>): int {
    LastPoll(start, polls) - start
  }

  /** Counter periods that passed whole between two polls, and so left no trace. */
  function Lost(start: nat, polls: seq<nat>): nat
    requires InOrder(start, polls)
  {
    if polls == [] then 0
    else
      var before := polls[..|polls| - 1];
      Lost(start, before) + (polls[|polls| - 1] - LastPoll(start, before)) / TWO32
  }

  /** What the code makes of the elapsed time, as long as it fits in 64 bits. */
  function Measured(start: nat, polls: seq<nat>): int
    requires InOrder(start, polls)
  {
    Elapsed(start, polls) - Lost(start, polls) * TWO32
  }

  /** Every poll comes less than a counter period after the one before it. */
  predicate Prompt(start: nat, polls: seq<nat>) {
    polls == [] ||
    var before := polls[..|polls| - 1];
    polls[|polls| - 1] - LastPoll(start, before) < TWO32 && Prompt(start, before)
  }

  lemma {:induction false} LostNothing(start: nat, polls: seq<nat>)
    requires InOrder(start, polls)
    ensures Lost(start, polls) == 0 <==> Prompt(start, polls)
    ensures Lost(start, polls) * TWO32 <= Elapsed(start, polls)
  {
    if polls != [] {
      LostNothing(start, polls[..|polls| - 1]);
    }
  }

  lemma Gap(before: nat, at: nat)
    requires before <= at
    ensures Sub32(Counter(at), Counter(before)) == at - before - (at - before) / TWO32 * TWO32
  {
  }

  /** One more poll adds the gap, less the periods lost in it. */
  lemma OnePoll(start: nat, polls: seq<nat>, at: nat, usecs: int)
    requires InOrder(start, polls) && LastPoll(start, polls) <= at
    requires usecs == (Elapsed(start, polls) - Lost(start, polls) * TWO32) % TWO64
    ensures var polls' := polls + [at];
      && InOrder(start, polls') && LastPoll(start, polls') == at
      && (usecs + Sub32(Counter(at), Counter(LastPoll(start, polls)))) % TWO64
         == (Elapsed(start, polls') - Lost(start, polls') * TWO32) % TWO64
  {
    hide Counter, Sub32;
    var last := LastPoll(start, polls);
    var polls' := polls + [at];
    assert polls'[..|polls|] == polls;
    assert polls != [] ==> last == polls[|polls| - 1];
    assert InOrder(start, polls') by {
      hide Lost;
    }
    Gap(last, at);
    AddModulo(Elapsed(start, polls) - Lost(start, polls) * TWO32, Sub32(Counter(at), Counter(last)), TWO64);
  }

  /** `timeout_t`. */
  class TimeoutT {
    var time_last: Word
    var time_usecs: nat
    ghost var start: nat
    ghost var polls: seq<nat>

    /** Whatever the polls were, the total is the elapsed time less the lost periods, modulo
        the 64 bits it is kept in. */
    ghost predicate Valid()
      reads this
    {
      && InOrder(start, polls)
      && time_last == Counter(LastPoll(start, polls))
      && time_usecs == (Elapsed(start, polls) - Lost(start, polls) * TWO32) % TWO64
    }

    /** timeout_start at true time `at`, when the counter shows `now`. */
    constructor (ghost at: nat, now: Word)
      requires now == Counter(at)
      ensures Valid() && start == at && polls == []
    {
      time_usecs := 0;
      time_last := now;
      start, polls := at, [];
    }

    /** timeout_get_usec. As long as 2^64 microseconds have not passed, the answer is the true
        elapsed time if and only if every gap between polls was shorter than 2^32. */
    method GetUsec(ghost at: nat, now: Word) returns (usecs: nat)
      requires Valid() && now == Counter(at) && LastPoll(start, polls) <= at
      modifies this
      ensures Valid() && start == old(start) && polls == old(polls) + [at]
      ensures usecs == time_usecs
      ensures at - start < TWO64 ==> usecs == at - start - Lost(start, polls) * TWO32
      ensures at - start < TWO64 ==> (usecs == at - start <==> Prompt(start, polls))
    {
      hide Lost, Counter, Sub32, InOrder, Prompt;
      OnePoll(start, polls, at, time_usecs);
      time_usecs := (time_usecs + Sub32(now, time_last)) % TWO64;
      time_last := now;
      polls := polls + [at];
      LostNothing(start, polls);
      usecs := time_usecs;
    }

    /** timeout_usec: true exactly when the deadline has passed, unless periods were lost. */
    method Usec(ghost at: nat, now: Word, max_usec: nat) returns (late: bool)
      requires Valid() && now == Counter(at) && LastPoll(start, polls) <= at
      requires at - start < TWO64
      modifies this
      ensures Valid() && start == old(start) && polls == old(polls) + [at]
      ensures late <==> at - start - Lost(start, polls) * TWO32 >= max_usec
      ensures Prompt(start, polls) ==> (late <==> at >= start + max_usec)
      ensures late ==> at >= start + max_usec
    {
      var usecs := GetUsec(at, now);
      LostNothing(start, polls);
      late := usecs >= max_usec;
    }

    /** timeout_msec: right for every deadline whose microseconds fit in 64 bits; a longer one
        is cut to its low 64 bits and reported early. */
    method Msec(ghost at: nat, now: Word, max_msec: nat) returns (late: bool)
      requires Valid() && now == Counter(at) && LastPoll(start, polls) <= at
      requires at - start < TWO64 && max_msec < TWO64
      modifies this
      ensures Valid() && start == old(start) && polls == old(polls) + [at]
      ensures Prompt(start, polls) ==> (late <==> at - start >= max_msec * 1000 % TWO64)
      ensures Prompt(start, polls) && max_msec * 1000 < TWO64 ==> (late <==> at >= start + max_msec * 1000)
    {
      hide Lost, Counter, InOrder, Prompt;
      late := Usec(at, now, max_msec * 1000 % TWO64);
    }

    /** timeout_sec. */
    method Sec(ghost at: nat, now: Word, max_sec: nat) returns (late: bool)
      requires Valid() && now == Counter(at) && LastPoll(start, polls) <= at
      requires at - start < TWO64 && max_sec < TWO64
      modifies this
      ensures Valid() && start == old(start) && polls == old(polls) + [at]
      ensures Prompt(start, polls) ==> (late <==> at - start >= max_sec * 1000000 % TWO64)
      ensures Prompt(start, polls) && max_sec * 1000000 < TWO64 ==> (late <==> at >= start + max_sec * 1000000)
    {
      hide Lost, Counter, InOrder, Prompt;
      MillionModulo(max_sec);
      late := Msec(at, now, max_sec * 1000 % TWO64);
    }
  }

  lemma MillionModulo(x: nat)
    ensures x * 1000 % TWO64 * 1000 % TWO64 == x * 1000000 % TWO64
  {
    var r := x * 1000 % TWO64;
    ModUnique(x * 1000000, x * 1000 / TWO64 * 1000 + r * 1000 / TWO64, r * 1000 % TWO64, TWO64);
  }

  /** Two polls one whole period apart see no time pass. */
  lemma APeriodIsLost(start: nat)
    ensures var polls := [start, start + TWO32];
      InOrder(start, polls) && Elapsed(start, polls) == TWO32 && Elapsed(start, polls) - Lost(start, polls) * TWO32 == 0
  {
    var polls := [start, start + TWO32];
    assert polls[..1] == [start];
    assert Lost(start, [start]) == 0;
    assert Lost(start, polls) == Lost(start, [start]) + 1;
  }
}
