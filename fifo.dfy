/** The sequential meaning of the lock-free queue: a first-in first-out queue
    kept in a ring of `cap` slots, one of which always stays free, so that at
    most `cap - 1` items are held at once. */
module Fifo {

  datatype Option<T> = None | Some(value: T)

  /** One call on the queue. */
  datatype Op<E> = Enq(x: E) | Deq

  /** What one call answered: whether an enqueue of `x` was accepted, or whether
      a dequeue succeeded and which item it handed out. */
  datatype Reply<E> = Enqueued(x: E, ok: bool) | Dequeued(ok: bool, item: Option<E>)

  /** The most items a ring of `cap` slots holds. */
  function Room(cap: int): int { cap - 1 }

  /** One call on a queue holding `q`: the reply and what the queue holds afterwards. */
  function Step<E>(q: seq<E>, cap: int, op: Op<E>): (Reply<E>, seq<E>)
  {
    match op
    case Enq(x) =>
      if |q| < Room(cap) then (Enqueued(x, true), q + [x]) else (Enqueued(x, false), q)
    case Deq =>
      if q != [] then (Dequeued(true, Some(q[0])), q[1..]) else (Dequeued(false, None), q)
  }

  /** A sequence of calls, one after the other: the replies in order and the final contents. */
  function Run<E>(q: seq<E>, cap: int, ops: seq<Op<E>>): (seq<Reply<E>>, seq<E>)
    decreases |ops|
  {
    if ops == [] then ([], q)
    else
      var (r, q1) := Step(q, cap, ops[0]);
      var (rs, qn) := Run(q1, cap, ops[1..]);
      ([r] + rs, qn)
  }

  /** The items whose enqueue was accepted, in the order of the calls. */
  function Admitted<E>(rs: seq<Reply<E>>): seq<E>
  {
    if rs == [] then []
    else (if rs[0].Enqueued? && rs[0].ok then [rs[0].x] else []) + Admitted(rs[1..])
  }

  /** The items handed out by successful dequeues, in the order of the calls. */
  function Delivered<E>(rs: seq<Reply<E>>): seq<E>
  {
    if rs == [] then []
    else (if rs[0].Dequeued? && rs[0].ok && rs[0].item.Some? then [rs[0].item.value] else []) + Delivered(rs[1..])
  }

  /** One enqueue call per item of `xs`, in order. */
  function Enqs<E>(xs: seq<E>): (ops: seq<Op<E>>)
    ensures |ops| == |xs|
  {
    if xs == [] then [] else [Enq(xs[0])] + Enqs(xs[1..])
  }

  /** Running `a` and then `b` is running `a + b`. */
  lemma {:induction false} RunAppend<E>(q: seq<E>, cap: int, a: seq<Op<E>>, b: seq<Op<E>>)
    ensures var (ra, qa) := Run(q, cap, a);
            var (rb, qb) := Run(qa, cap, b);
            Run(q, cap, a + b) == (ra + rb, qb)
    decreases |a|
  {
    if a == [] {
      assert a + b == b;
      assert [] + Run(q, cap, b).0 == Run(q, cap, b).0;
    } else {
      var (_, q1) := Step(q, cap, a[0]);
      assert (a + b)[0] == a[0] && (a + b)[1..] == a[1..] + b;
      RunAppend(q1, cap, a[1..], b);
      var (ra1, qa) := Run(q1, cap, a[1..]);
      var (rb, qb) := Run(qa, cap, b);
      assert Run(q, cap, a) == ([Step(q, cap, a[0]).0] + ra1, qa);
      assert Run(q, cap, a + b) == ([Step(q, cap, a[0]).0] + (ra1 + rb), qb);
      assert [Step(q, cap, a[0]).0] + (ra1 + rb) == ([Step(q, cap, a[0]).0] + ra1) + rb;
    }
  }

  /** First in, first out: what was held plus what was admitted, in order, is
      exactly what was handed out followed by what is still held. Nothing is
      lost, duplicated or reordered. */
  lemma {:induction false} RunIsFifo<E>(q: seq<E>, cap: int, ops: seq<Op<E>>)
    ensures var (rs, fin) := Run(q, cap, ops);
            |rs| == |ops| && q + Admitted(rs) == Delivered(rs) + fin
    decreases |ops|
  {
    if ops != [] {
      var (r, q1) := Step(q, cap, ops[0]);
      var (rs1, fin) := Run(q1, cap, ops[1..]);
      RunIsFifo(q1, cap, ops[1..]);
      assert q1 + Admitted(rs1) == Delivered(rs1) + fin;
      var rs := [r] + rs1;
      assert rs[1..] == rs1;
      assert Run(q, cap, ops) == (rs, fin);
      match ops[0]
      case Enq(x) =>
        if |q| < Room(cap) {
          assert r == Enqueued(x, true) && q1 == q + [x];
          assert Delivered(rs) == Delivered(rs1);
          assert Admitted(rs) == [x] + Admitted(rs1);
          calc {
            q + Admitted(rs);
            q + ([x] + Admitted(rs1));
            (q + [x]) + Admitted(rs1);
            Delivered(rs1) + fin;
            Delivered(rs) + fin;
          }
        } else {
          assert Admitted(rs) == Admitted(rs1) && Delivered(rs) == Delivered(rs1);
        }
      case Deq =>
        if q != [] {
          calc {
            q + Admitted(rs);
            ([q[0]] + q1) + Admitted(rs1);
            [q[0]] + (q1 + Admitted(rs1));
            [q[0]] + (Delivered(rs1) + fin);
            ([q[0]] + Delivered(rs1)) + fin;
          }
        }
    }
  }

  /** The count of items held is the count held before, plus the accepted
      enqueues, minus the successful dequeues. */
  lemma {:induction false} RunCount<E>(q: seq<E>, cap: int, ops: seq<Op<E>>)
    ensures var (rs, fin) := Run(q, cap, ops);
            |fin| == |q| + |Admitted(rs)| - |Delivered(rs)|
  {
    RunIsFifo(q, cap, ops);
  }

  /** A queue that starts within its room never holds more than `cap - 1` items. */
  lemma {:induction false} RunStaysWithinRoom<E>(q: seq<E>, cap: int, ops: seq<Op<E>>)
    requires |q| <= Room(cap)
    ensures |Run(q, cap, ops).1| <= Room(cap)
    decreases |ops|
  {
    if ops != [] {
      var (_, q1) := Step(q, cap, ops[0]);
      RunStaysWithinRoom(q1, cap, ops[1..]);
    }
  }

  /** Enqueues that fit in the room are all accepted and appended in order. */
  lemma {:induction false} EnqueuesFit<E>(q: seq<E>, cap: int, xs: seq<E>)
    requires |q| + |xs| <= Room(cap)
    ensures var (rs, fin) := Run(q, cap, Enqs(xs));
            fin == q + xs && |rs| == |xs| &&
            forall i :: 0 <= i < |xs| ==> rs[i] == Enqueued(xs[i], true)
    decreases |xs|
  {
    if xs != [] {
      var ops := Enqs(xs);
      assert ops[0] == Enq(xs[0]) && ops[1..] == Enqs(xs[1..]);
      EnqueuesFit(q + [xs[0]], cap, xs[1..]);
      assert q + [xs[0]] + xs[1..] == q + xs;
    }
  }

  /** Starting empty, the first `cap - 1` enqueues are accepted and the next one
      is refused: the ring holds one item fewer than it has slots. */
  lemma FillsToRoomThenRefuses<E>(cap: int, xs: seq<E>, y: E)
    requires cap >= 1 && |xs| == Room(cap)
    ensures var (rs, fin) := Run([], cap, Enqs(xs) + [Enq(y)]);
            fin == xs && |rs| == cap &&
            (forall i :: 0 <= i < |xs| ==> rs[i] == Enqueued(xs[i], true)) &&
            rs[cap - 1] == Enqueued(y, false)
  {
    EnqueuesFit([], cap, xs);
    RunAppend([], cap, Enqs(xs), [Enq(y)]);
    assert [] + xs == xs;
  }
}
