/** Callers' view: what a single thread can conclude about a LockFreeQueue from
    the contracts of its constructor, Enqueue and Dequeue alone. */
module QueueScenarios {
  import opened Fifo
  import opened LfQueue

  /** Four slots hold three items: the fourth enqueue is refused until a dequeue
      frees a slot, and the items come out in the order they went in, after
      which the queue is empty again. */
  method FourSlots<E>(a: E, b: E, c: E, d: E) returns (accepted: seq<bool>, taken: seq<Option<E>>)
    ensures accepted == [true, true, true, false, true]
    ensures taken == [Some(a), Some(b), Some(c), Some(d), None]
  {
    var q := new LockFreeQueue<E>(4);
    var ok1 := q.Enqueue(a);
    var ok2 := q.Enqueue(b);
    var ok3 := q.Enqueue(c);
    var ok4 := q.Enqueue(d);
    var _, x1 := q.Dequeue();
    var ok5 := q.Enqueue(d);
    var _, x2 := q.Dequeue();
    var _, x3 := q.Dequeue();
    var _, x4 := q.Dequeue();
    var _, x5 := q.Dequeue();
    accepted := [ok1, ok2, ok3, ok4, ok5];
    taken := [x1, x2, x3, x4, x5];
  }

  /** A capacity below 4 behaves as 4: three enqueues succeed and the fourth is refused. */
  method SmallCapacityIsRaised<E>(n: Int32, a: E, b: E, c: E, d: E) returns (accepted: seq<bool>)
    requires n < 4
    ensures accepted == [true, true, true, false]
  {
    var q := new LockFreeQueue<E>(n);
    var ok1 := q.Enqueue(a);
    var ok2 := q.Enqueue(b);
    var ok3 := q.Enqueue(c);
    var ok4 := q.Enqueue(d);
    accepted := [ok1, ok2, ok3, ok4];
  }

  /** A fresh queue of any capacity has nothing to hand out. */
  method FreshQueueIsEmpty<E>(n: Int32) returns (ok: bool, item: Option<E>)
    ensures !ok && item == None
  {
    var q := new LockFreeQueue<E>(n);
    ok, item := q.Dequeue();
  }
}
