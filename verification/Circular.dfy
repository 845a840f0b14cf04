/** `libpi/libc/circular.h` used from one side at a time. */
module Circular {
  import opened Words
  import opened Ring

  class Cq<T(0)> {
    const n: nat           // CQ_N
    const c_buf: array<T>
    var head: Word
    var tail: Word

    ghost predicate Valid()
      reads this
    {
      c_buf.Length == n && Shape(n, head, tail)
    }

    /** The queued elements, oldest first. */
    ghost function Contents(): (c: seq<T>)
      requires Valid()
      reads this, c_buf
      ensures |c| < n
    {
      Unread(c_buf[..], head, tail)
    }

    constructor (n: nat, zero: T)
      requires 0 < n <= TWO32 && TWO32 % n == 0
      ensures Valid() && Contents() == [] && this.n == n && fresh(c_buf)
    {
      this.n := n;
      c_buf := new T[n](_ => zero);
      head, tail := 0, 0;
    }

    method Count() returns (r: nat)    // cq_nelem
      requires Valid()
      ensures r == |Contents()|
    {
      NelemCounts(c_buf[..], head, tail);
      r := Nelem(n, head, tail);
    }

    method Space() returns (r: nat)    // cq_nspace
      requires Valid()
      ensures r == n - 1 - |Contents()|
    {
      NelemCounts(c_buf[..], head, tail);
      r := Nspace(n, head, tail);
    }

    method Push(x: T) returns (ok: bool)
      requires Valid()
      modifies this`head, c_buf
      ensures Valid()
      ensures ok <==> old(|Contents()|) < n - 1
      ensures Contents() == if ok then old(Contents()) + [x] else old(Contents())
    {
      NelemCounts(c_buf[..], head, tail);
      if Full(n, head, tail) {
        return false;
      }
      PushAppends(c_buf[..], head, tail, x);
      var h := head;
      assert Nspace(n, head, tail) > 0;
      ghost var before := c_buf[..];
      c_buf[h] := x;
      assert c_buf[..] == before[h := x];
      head := Next(n, h);
      return true;
    }

    method PopNonblock() returns (ok: bool, e: T)
      requires Valid()
      modifies this`tail
      ensures Valid()
      ensures ok <==> old(Contents()) != []
      ensures ok ==> e == old(Contents())[0] && Contents() == old(Contents())[1..]
      ensures !ok ==> Contents() == []
    {
      e := *;
      if head == tail {
        return false, e;
      }
      PopRemoves(c_buf[..], head, tail);
      var t := tail;
      e := c_buf[t];
      tail := Next(n, t);
      return true, e;
    }

    /** cq_pop_n when nobody pushes meanwhile, so that it never waits on a queue that holds
        enough. On any other it empties the queue and then false stands for the panic of
        cq_pop with interrupts disabled, or for waiting forever with them enabled. */
    method PopN(data: array<T>, k: nat) returns (ok: bool)
      requires Valid() && k <= data.Length && data != c_buf
      modifies this`tail, data
      ensures Valid() && (ok <==> k <= old(|Contents()|))
      ensures var m := if ok then k else old(|Contents()|);
        && Contents() == old(Contents())[m..]
        && data[..m] == old(Contents())[..m] && data[m..] == old(data[m..])
    {
      ghost var c := Contents();
      var i := 0;
      while i < k
        invariant Valid() && i <= k && i <= |c| && Contents() == c[i..]
        invariant data[..i] == c[..i] && data[i..] == old(data[i..])
      {
        var some, e := PopNonblock();
        if !some {
          return false;
        }
        data[i] := e;
        assert data[i + 1..] == old(data[i..])[1..];
        i := i + 1;
      }
      return true;
    }

    method PopNNoblk(data: array<T>, k: nat) returns (ok: bool)
      requires Valid() && k <= data.Length && data != c_buf
      modifies this`tail, data
      ensures Valid() && (ok <==> k <= old(|Contents()|))
      ensures ok ==> Contents() == old(Contents())[k..] && data[..k] == old(Contents())[..k]
      ensures ok ==> data[k..] == old(data[k..])
      ensures !ok ==> Contents() == old(Contents()) && data[..] == old(data[..])
    {
      var sz := Count();
      if sz < k {
        return false;
      }
      ok := PopN(data, k);
    }

    /** Looks at the first `k` elements by popping them and moving the tail back. */
    method PeekN(data: array<T>, k: nat) returns (ok: bool)
      requires Valid() && k <= data.Length && data != c_buf
      modifies this`tail, data
      ensures Valid() && Contents() == old(Contents()) && tail == old(tail)
      ensures ok <==> k <= |Contents()|
      ensures ok ==> data[..k] == Contents()[..k] && data[k..] == old(data[k..])
      ensures !ok ==> data[..] == old(data[..])
    {
      var sz := Count();
      if sz < k {
        return false;
      }
      var t := tail;
      ok := PopNNoblk(data, k);
      tail := t;
    }

    method PushN(data: seq<T>) returns (ok: bool)
      requires Valid() && data != []
      modifies this`head, c_buf
      ensures Valid()
      ensures ok <==> old(|Contents()|) + |data| <= n - 1
      ensures Contents() == if ok then old(Contents()) + data else old(Contents())
    {
      var space := Space();
      if space < |data| {
        return false;
      }
      ghost var c := Contents();
      var i := 0;
      while i < |data|
        invariant Valid() && i <= |data|
        invariant Contents() == c + data[..i]
      {
        var pushed := Push(data[i]);
        assert pushed;   // the panic "impossible: buffer should have space"
        assert c + data[..i + 1] == c + data[..i] + [data[i]];
        i := i + 1;
      }
      assert data[..i] == data;
      return true;
    }
  }
}
