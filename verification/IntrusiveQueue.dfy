/** The intrusive singly linked queue of `libpi/libc/Q.h` and its template twin
    `libpi/libc/queue-ext-T.h` (the same operations, without the counter and
    without insert-after). */
module IntrusiveQueue {
  import opened Words

  /** A queue element: the link field lives in the element, `d` is everything else. */
  class Node<D> {
    var next: Node?<D>
    var d: D

    constructor (d: D)
      ensures this.d == d && next == null
    {
      this.d := d;
      next := null;
    }
  }

  /** The payloads of a list of nodes. */
  ghost function Payloads<D>(q: seq<Node<D>>): (c: seq<D>)
    reads q
    ensures |c| == |q| && forall i :: 0 <= i < |q| ==> c[i] == q[i].d
  {
    seq(|q|, i requires 0 <= i < |q| reads q => q[i].d)
  }

  /** Node number `k` on the chain that starts at `e`; null past its end. */
  ghost function Follow<D>(e: Node?<D>, k: nat, spine: seq<Node<D>>): Node?<D>
    reads spine
  {
    if e == null || k == 0 then e
    else if e in spine then Follow(e.next, k - 1, spine)
    else null
  }

  class Queue<D> {
    var head: Node?<D>
    var tail: Node?<D>
    var cnt: Word

    /** The queued nodes, in order. */
    ghost var spine: seq<Node<D>>

    ghost predicate Valid()
      reads this, spine
    {
      && (forall i, j :: 0 <= i < j < |spine| ==> spine[i] != spine[j])
      && cnt == |spine| % TWO32
      && (if spine == [] then head == null && tail == null
          else head == spine[0] && tail == spine[|spine| - 1] && spine[|spine| - 1].next == null)
      && forall i :: 0 <= i < |spine| - 1 ==> spine[i].next == spine[i + 1]
    }

    constructor ()
      ensures Valid() && spine == []
    {
      head, tail, cnt := null, null, 0;
      spine := [];
    }

    method Empty() returns (r: bool)
      requires Valid()
      ensures r <==> spine == []
    {
      if head != null {
        return false;
      }
      assert tail == null && cnt == 0;
      return true;
    }

    method Pop() returns (e: Node?<D>)
      requires Valid()
      modifies this
      ensures Valid()
      ensures old(spine) == [] ==> e == null && spine == []
      ensures old(spine) != [] ==> e == old(spine)[0] && spine == old(spine)[1..]
    {
      e := head;
      if e == null {
        return;
      }
      cnt := Sub32(cnt, 1);
      head := e.next;
      if head == null {
        tail := null;
      }
      spine := spine[1..];
    }

    method Append(e: Node<D>)
      requires Valid() && e !in spine
      modifies this, e`next, if spine == [] then {} else {spine[|spine| - 1]}`next
      ensures Valid() && spine == old(spine) + [e]
    {
      e.next := null;
      cnt := Add32(cnt, 1);
      if tail == null {
        head, tail := e, e;
      } else {
        tail.next := e;
        tail := e;
      }
      spine := spine + [e];
    }

    method Push(e: Node<D>)
      requires Valid() && e !in spine
      modifies this, e`next
      ensures Valid() && spine == [e] + old(spine)
    {
      cnt := Add32(cnt, 1);
      e.next := head;
      head := e;
      if tail == null {
        tail := e;
      }
      spine := [e] + spine;
    }

    /** Inserts `n` after `e`; a null `e` means at the head. `k` is the position of `e`. */
    method InsertAfter(e: Node?<D>, n: Node<D>, ghost k: nat)
      requires Valid() && n !in spine
      requires e != null ==> k < |spine| && spine[k] == e
      modifies this, n`next, if e == null then {} else {e}`next
      ensures Valid()
      ensures e == null ==> spine == [n] + old(spine)
      ensures e != null ==> spine == old(spine)[..k + 1] + [n] + old(spine)[k + 1..]
    {
      if e == null {
        Push(n);
      } else if tail == e {
        assert k == |spine| - 1;
        Append(n);
      } else {
        cnt := Add32(cnt, 1);
        n.next := e.next;
        e.next := n;
        spine := spine[..k + 1] + [n] + spine[k + 1..];
      }
    }

    /** Walking from the head along `next` meets exactly the spine, then null: the
        chain is acyclic and `tail` is its last node. */
    lemma {:induction false} ChainIsSpine(i: nat, k: nat)
      requires Valid() && i < |spine|
      ensures Follow(spine[i], k, spine) == if i + k < |spine| then spine[i + k] else null
      decreases k
    {
      if k > 0 && i + 1 < |spine| {
        ChainIsSpine(i + 1, k - 1);
      }
    }

    /** The traversal that clients write with Q_start and Q_next. */
    method Walk() returns (nodes: seq<Node<D>>)
      requires Valid()
      ensures nodes == spine
    {
      nodes := [];
      var e := head;
      while e != null
        invariant |nodes| <= |spine| && nodes == spine[..|nodes|]
        invariant e == if |nodes| < |spine| then spine[|nodes|] else null
        decreases |spine| - |nodes|
      {
        nodes := nodes + [e];
        e := e.next;
      }
    }
  }
}
