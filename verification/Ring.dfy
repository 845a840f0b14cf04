/** Index arithmetic of the circular queue in `libpi/libc/circular.h`: `n` cells, `head`
    where the next push writes, `tail` where the next pop reads, all 32-bit unsigned. */
module Ring {
  import opened Words

  /** cq_nelem. */
  function Nelem(n: nat, head: Word, tail: Word): (r: nat)
    requires n > 0
    ensures r < n
  {
    Sub32(head, tail) % n
  }

  /** cq_nspace. */
  function Nspace(n: nat, head: Word, tail: Word): nat
    requires n > 0
  {
    n - 1 - Nelem(n, head, tail)
  }

  /** The index after `i`. */
  function Next(n: nat, i: Word): Word
    requires 0 < n <= TWO32
  {
    Add32(i, 1) % n
  }

  /** cq_full. */
  predicate Full(n: nat, head: Word, tail: Word)
    requires 0 < n <= TWO32
  {
    Next(n, head) == tail
  }

  /** A queue shape: the cell count divides 2^32 and both indices are cells. */
  predicate Shape(n: nat, head: Word, tail: Word) {
    0 < n <= TWO32 && TWO32 % n == 0 && head < n && tail < n
  }

  /** The cells pushed and not yet popped, oldest first. */
  function Unread<T>(buf: seq<T>, head: nat, tail: nat): (u: seq<T>)
    requires head < |buf| && tail < |buf|
    ensures |u| == if tail <= head then head - tail else |buf| - tail + head
    ensures u == [] <==> head == tail
  {
    if tail <= head then buf[tail..head] else buf[tail..] + buf[..head]
  }

  /** The wrapping subtraction counts right. */
  lemma NelemCounts<T>(buf: seq<T>, head: Word, tail: Word)
    requires Shape(|buf|, head, tail)
    ensures Nelem(|buf|, head, tail) == |Unread(buf, head, tail)|
    ensures Full(|buf|, head, tail) <==> |Unread(buf, head, tail)| == |buf| - 1
  {
    var n := |buf|;
    var q := TWO32 / n;
    assert q * n == TWO32;
    if head < tail {
      ModUnique(Sub32(head, tail), q - 1, head - tail + n, n) by {
        assert (q - 1) * n == TWO32 - n;
      }
    } else {
      ModUnique(Sub32(head, tail), 0, head - tail, n);
    }
    NextIsNext(n, head);
  }

  lemma NextIsNext(n: nat, i: Word)
    requires 0 < n <= TWO32 && i < n
    ensures Next(n, i) == if i + 1 == n then 0 else i + 1
  {
    if i + 1 == TWO32 {
      assert Add32(i, 1) == 0;
      ModUnique(0, 0, 0, n);
    } else if i + 1 == n {
      ModUnique(i + 1, 1, 0, n);
    } else {
      ModUnique(i + 1, 0, i + 1, n);
    }
  }

  /** cq_nelem is right for all indices exactly when the cell count divides 2^32. */
  lemma NelemRightIffDivides(n: nat)
    requires 1 < n <= TWO32
    ensures (forall head: Word, tail: Word :: head < n && tail < n ==>
               Nelem(n, head, tail) == if tail <= head then head - tail else n - tail + head)
       <==> TWO32 % n == 0
  {
    if TWO32 % n == 0 {
      forall head: Word, tail: Word | head < n && tail < n
        ensures Nelem(n, head, tail) == if tail <= head then head - tail else n - tail + head
      {
        NelemCounts(seq(n, _ => 0), head, tail);
      }
    } else {
      var r, q := TWO32 % n, TWO32 / n;
      assert TWO32 == q * n + r;
      ModUnique(TWO32 - 1, q, r - 1, n);
      assert Nelem(n, 0, 1) == r - 1;
    }
  }

  /** Filling the free cell at the head and then publishing it appends one element; until it
      is published, no unread cell is touched. */
  lemma PushAppends<T>(buf: seq<T>, head: Word, tail: Word, x: T)
    requires Shape(|buf|, head, tail) && !Full(|buf|, head, tail)
    ensures Unread(buf[head := x], head, tail) == Unread(buf, head, tail)
    ensures Unread(buf[head := x], Next(|buf|, head), tail) == Unread(buf, head, tail) + [x]
  {
    NextIsNext(|buf|, head);
  }

  lemma OldestFirst<T>(buf: seq<T>, head: nat, tail: nat, next: nat)
    requires head < |buf| && tail < |buf| && head != tail && next == if tail + 1 == |buf| then 0 else tail + 1
    ensures Unread(buf, head, tail) == [buf[tail]] + Unread(buf, head, next)
  {
  }

  /** Advancing the tail removes the oldest element, which is the cell at the tail. */
  lemma PopRemoves<T>(buf: seq<T>, head: Word, tail: Word)
    requires Shape(|buf|, head, tail) && head != tail
    ensures Unread(buf, head, tail) == [buf[tail]] + Unread(buf, head, Next(|buf|, tail))
  {
    hide Next;
    NextIsNext(|buf|, tail);
    OldestFirst(buf, head, tail, Next(|buf|, tail));
  }
}
