/** The circular connection queue of srclib/queue.c, without its locking. */
module Ring {

  /** The fields the queue operations work on; the capacity is |fds|. */
  datatype Ring = Ring(fds: seq<nat>, front: nat, rear: nat, size: nat)

  /** Index arithmetic agrees with the number of entries. A queue of capacity zero is
      always full and never indexed. */
  predicate Consistent(r: Ring) {
    && r.size <= |r.fds|
    && (|r.fds| > 0 ==> r.front < |r.fds| && r.rear == (r.front + r.size) % |r.fds|)
  }

  /** Entries in order of arrival. */
  function Items(r: Ring): (s: seq<nat>)
    requires Consistent(r)
    ensures |s| == r.size
  {
    seq(r.size, i requires 0 <= i < r.size => r.fds[(r.front + i) % |r.fds|])
  }

  function Empty(capacity: nat): Ring {
    Ring(seq(capacity, _ => 0), 0, 0, 0)
  }

  function Put(r: Ring, fd: nat): Ring
    requires Consistent(r) && r.size < |r.fds|
  {
    Ring(r.fds[r.rear := fd], r.front, (r.rear + 1) % |r.fds|, r.size + 1)
  }

  function Take(r: Ring): Ring
    requires Consistent(r) && r.size > 0
  {
    r.(front := (r.front + 1) % |r.fds|, size := r.size - 1)
  }

  function Next(r: Ring): nat
    requires Consistent(r) && r.size > 0
  {
    r.fds[r.front]
  }

  /** Reduction modulo the capacity of an index less than two laps ahead. */
  lemma Reduce(a: nat, m: nat)
    requires a < 2 * m
    ensures a % m == if a < m then a else a - m
  {
    var q, r := a / m, a % m;
    assert a == q * m + r;
    assert q >= 2 ==> q * m >= 2 * m;
  }

  lemma ModStep(a: nat, b: nat, m: nat)
    requires a + b < 2 * m
    ensures (a % m + b) % m == (a + b) % m
  {
    Reduce(a, m);
    Reduce(a + b, m);
    Reduce(a % m + b, m);
  }

  /** Distinct slots for distinct entries of a lap. */
  lemma SlotsDiffer(front: nat, i: nat, j: nat, m: nat)
    requires front < m && i < j < m
    ensures (front + i) % m != (front + j) % m
  {
    var a, b := front + i, front + j;
    Reduce(a, m);
    Reduce(b, m);
  }

  /** Putting appends at the end. */
  lemma PutAppends(r: Ring, fd: nat)
    requires Consistent(r) && r.size < |r.fds|
    ensures Consistent(Put(r, fd)) && Items(Put(r, fd)) == Items(r) + [fd]
  {
    var m, p := |r.fds|, Put(r, fd);
    ModStep(r.front + r.size, 1, m);
    forall i | 0 <= i < p.size
      ensures Items(p)[i] == (Items(r) + [fd])[i]
    {
      if i < r.size {
        SlotsDiffer(r.front, i, r.size, m);
      }
    }
  }

  /** Taking removes the oldest entry. */
  lemma TakeRemoves(r: Ring)
    requires Consistent(r) && r.size > 0
    ensures Consistent(Take(r)) && Items(r) == [Next(r)] + Items(Take(r))
  {
    var m, t := |r.fds|, Take(r);
    ModStep(r.front + 1, r.size - 1, m);
    Reduce(r.front, m);
    forall i | 0 <= i < r.size
      ensures Items(r)[i] == ([Next(r)] + Items(t))[i]
    {
      if i > 0 {
        ModStep(r.front + 1, i - 1, m);
      }
    }
  }

  /** The queue record. The callers hold its mutex. */
  class Queue {
    const fds: array<nat>
    var front: nat
    var rear: nat
    var size: nat

    ghost function Value(): Ring
      reads this, fds
    {
      Ring(fds[..], front, rear, size)
    }

    ghost predicate Valid()
      reads this, fds
    {
      Consistent(Value())
    }

    /** `queue_create`. */
    constructor (capacity: nat)
      ensures Valid() && fresh(fds) && Value() == Empty(capacity) && Items(Value()) == []
    {
      fds := new nat[capacity](_ => 0);
      front, rear, size := 0, 0, 0;
      new;
      assert fds[..] == seq(capacity, _ => 0);
    }

    /** The insertion done by `queue_push` under the lock. */
    method Insert(fd: nat)
      requires Valid() && size < fds.Length
      modifies this, fds
      ensures Valid() && Value() == Put(old(Value()), fd)
      ensures Items(Value()) == old(Items(Value())) + [fd]
    {
      PutAppends(Value(), fd);
      ghost var before := fds[..];
      fds[rear] := fd;
      assert fds[..] == before[rear := fd];
      rear := (rear + 1) % fds.Length;
      size := size + 1;
    }

    /** The removal done by `queue_pop` under the lock. */
    method Remove() returns (fd: nat)
      requires Valid() && size > 0
      modifies this
      ensures Valid() && Value() == Take(old(Value()))
      ensures old(Items(Value())) == [fd] + Items(Value())
    {
      TakeRemoves(Value());
      fd := fds[front];
      front := (front + 1) % fds.Length;
      size := size - 1;
    }
  }
}
