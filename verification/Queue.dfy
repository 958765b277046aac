/** The bounded queue of queue.c: a ring of slots, two indices and a length.  Its mutex and
    condition variable are part of the pool protocol, in Pool. */
module Queue {

  /** wrap: the remainder of two non-negative ints. */
  function Wrap(a: nat, n: nat): (r: nat)
    requires n > 0
    ensures r < n
    ensures a < n ==> r == a
    ensures n <= a < 2 * n ==> r == a - n
  {
    var r := a % n;
    assert n <= a < 2 * n ==> r == a - n by {
      if n <= a < 2 * n {
        assert a == 1 * n + (a - n);
        WrapOnce(a, n);
      }
    }
    r
  }

  lemma WrapOnce(a: nat, n: nat)
    requires n > 0 && n <= a < 2 * n
    ensures a % n == a - n
  {
    var q := a / n;
    assert a == q * n + a % n;
    assert q >= 2 ==> q * n >= 2 * n;
    assert q == 0 ==> q * n == 0;
  }

  /** Going round in two moves or in one comes to the same slot. */
  lemma WrapAgain(a: nat, i: nat, n: nat)
    requires a <= n && i <= n && n > 0
    ensures Wrap(Wrap(a, n) + i, n) == Wrap(a + i, n)
  {
    if a == n {
      assert Wrap(a, n) == 0;
      if i < n {
        assert Wrap(n + i, n) == i == Wrap(i, n);
      } else {
        assert (n + n) % n == 0;
      }
    }
  }

  class Queue<T> {
    const buf: array<T>
    const capacity: nat
    var head: nat   // the slot the next push fills
    var tail: nat   // the slot the next pop empties
    var len: nat

    ghost predicate Valid()
      reads this
    {
      && 0 < capacity == buf.Length
      && head < capacity && tail < capacity && len <= capacity
      && head == Wrap(tail + len, capacity)
    }

    /** The slot of the i-th oldest element. */
    ghost function Slot(i: nat): (k: nat)
      reads this
      requires Valid() && i <= capacity
      ensures k < capacity
    {
      Wrap(tail + i, capacity)
    }

    /** The elements, oldest first. */
    ghost function Contents(): (s: seq<T>)
      reads this, buf
      requires Valid()
      ensures |s| == len
    {
      seq(len, i requires 0 <= i < len && Valid() reads this, buf => buf[Slot(i)])
    }

    /** queue_new. */
    constructor (size: nat, filler: T)
      requires size > 0
      ensures Valid() && fresh(buf) && capacity == size && Contents() == []
    {
      buf := new T[size](_ => filler);
      capacity, head, tail, len := size, 0, 0, 0;
    }

    /** queue_push, once there is a free slot. */
    method Push(elem: T)
      requires Valid() && len < capacity
      modifies this, buf
      ensures Valid() && Contents() == old(Contents()) + [elem] && len == old(len) + 1
    {
      var spot := head;
      ghost var before := Contents();
      head := Wrap(spot + 1, capacity);
      buf[spot] := elem;
      len := len + 1;
      assert forall i | 0 <= i < len - 1 :: Slot(i) != spot && buf[Slot(i)] == before[i];
      assert Slot(len - 1) == spot;
    }

    /** queue_pop, once there is an element. */
    method Pop() returns (elem: T)
      requires Valid() && len > 0
      modifies this
      ensures Valid() && old(Contents()) == [elem] + Contents() && len == old(len) - 1
    {
      var spot := tail;
      ghost var before := Contents();
      tail := Wrap(spot + 1, capacity);
      elem := buf[spot];
      len := len - 1;
      hide Wrap;
      forall i | 0 <= i < len ensures buf[Slot(i)] == before[i + 1] {
        WrapAgain(spot + 1, i, capacity);
      }
      WrapAgain(spot + 1, len, capacity);
    }
  }

  // ---------------------------------------------------------------- any sequence of calls

  datatype Op<T> = Put(elem: T) | Take

  /** No call of the sequence would have to wait, from a queue of n elements on. */
  predicate NeverWaits<T>(ops: seq<Op<T>>, n: nat, capacity: nat) {
    ops == [] ||
    match ops[0]
    case Put(_) => n < capacity && NeverWaits(ops[1..], n + 1, capacity)
    case Take => n > 0 && NeverWaits(ops[1..], n - 1, capacity)
  }

  function Puts<T>(ops: seq<Op<T>>): seq<T> {
    if ops == [] then []
    else (match ops[0] case Put(e) => [e] case Take => []) + Puts(ops[1..])
  }

  function Takes<T>(ops: seq<Op<T>>): nat {
    if ops == [] then 0 else (if ops[0].Take? then 1 else 0) + Takes(ops[1..])
  }

  /** Any sequence of calls that never has to wait, through every wrap-around: what is taken is
      what was in the queue and then what was put, in that order, and the rest is still there. */
  method Replay<T>(q: Queue<T>, ops: seq<Op<T>>) returns (taken: seq<T>)
    requires q.Valid() && NeverWaits(ops, q.len, q.capacity)
    modifies q, q.buf
    ensures q.Valid() && |taken| == Takes(ops)
    ensures taken + q.Contents() == old(q.Contents()) + Puts(ops)
  {
    hide Queue.Contents, Queue.Valid, Queue.Slot;
    taken := [];
    var i := 0;
    ghost var start := q.Contents();
    assert ops[0..] == ops;
    while i < |ops|
      invariant 0 <= i <= |ops| && q.Valid()
      invariant NeverWaits(ops[i..], q.len, q.capacity)
      invariant |taken| + Takes(ops[i..]) == Takes(ops)
      invariant taken + q.Contents() + Puts(ops[i..]) == start + Puts(ops)
    {
      ghost var before, rest := q.Contents(), Puts(ops[i + 1..]);
      assert ops[i..][0] == ops[i] && ops[i..][1..] == ops[i + 1..];
      match ops[i] {
        case Put(e) =>
          assert taken + before + ([e] + rest) == taken + (before + [e]) + rest;
          q.Push(e);
        case Take =>
          ghost var was := taken;
          var e := q.Pop();
          taken := taken + [e];
          assert [] + rest == rest;
          assert was + ([e] + q.Contents()) + rest == taken + q.Contents() + rest;
      }
      i := i + 1;
    }
    assert Puts(ops[i..]) == [];
    assert taken + q.Contents() + [] == taken + q.Contents();
  }

  /** main's initialisation: the free queue holds every request record. */
  method FillFree(n: nat) returns (q: Queue<nat>)
    requires n > 0
    ensures fresh(q) && fresh(q.buf) && q.Valid() && q.capacity == n
    ensures q.Contents() == seq(n, i => i)
  {
    q := new Queue<nat>(n, 0);
    var i := 0;
    while i < n
      invariant 0 <= i <= n && fresh(q) && fresh(q.buf) && q.Valid() && q.capacity == n
      invariant q.Contents() == seq(i, k => k)
    {
      q.Push(i);
      i := i + 1;
    }
  }
}
