/** The FIFO queue of vertex ids behind the breadth-first search: a fixed
    array whose `head` and `tail` indices only move forward, so every value
    ever pushed stays in `data[..tail]` and the live part is `data[head..tail]`. */
module FifoQueue {

  class Queue {
    var data: array<int>
    var head: int
    var tail: int
    var capacity: int

    ghost predicate Valid()
      reads this
    {
      data.Length == capacity && 0 <= head <= tail <= capacity
    }

    /** The values waiting in the queue, oldest first. */
    ghost function Contents(): seq<int>
      reads this, data
      requires Valid()
    {
      data[head..tail]
    }

    /** An empty queue able to take `n` pushes in its lifetime. */
    constructor (n: nat)
      ensures Valid() && fresh(data)
      ensures capacity == n && head == 0 && tail == 0 && Contents() == []
    {
      data := new int[n];
      head, tail := 0, 0;
      capacity := n;
    }

    method Empty() returns (e: bool)
      requires Valid()
      ensures e <==> head == tail
      ensures e <==> Contents() == []
    {
      e := head == tail;
    }

    /** Appends `v`; the array has no bound check, so the caller keeps the
        number of pushes within `capacity`. */
    method Push(v: int)
      requires Valid() && tail < capacity
      modifies this, data
      ensures Valid() && data == old(data) && capacity == old(capacity)
      ensures head == old(head) && tail == old(tail) + 1
      ensures data[..tail] == old(data[..tail]) + [v]
      ensures Contents() == old(Contents()) + [v]
    {
      data[tail] := v;
      tail := tail + 1;
    }

    /** Removes and returns the oldest value; the caller only pops a non-empty queue. */
    method Pop() returns (x: int)
      requires Valid() && head < tail
      modifies this
      ensures Valid() && data == old(data) && capacity == old(capacity)
      ensures head == old(head) + 1 && tail == old(tail)
      ensures x == old(Contents())[0] && Contents() == old(Contents())[1..]
      ensures x == data[old(head)] && data[..tail] == old(data[..tail])
    {
      x := data[head];
      head := head + 1;
    }
  }

  /** Values come out in the order they went in. */
  method FifoOrder(a: int, b: int, c: int) returns (x: int, y: int, z: int)
    ensures x == a && y == b && z == c
  {
    var q := new Queue(3);
    q.Push(a);
    q.Push(b);
    x := q.Pop();
    q.Push(c);
    y := q.Pop();
    z := q.Pop();
    var e := q.Empty();
    assert e;
  }
}
