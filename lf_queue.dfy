/** The bounded lock-free queue of lfQueue.h, run by one thread at a time: a ring
    of element slots and three counters, `head` (next slot to consume), `tail`
    (next slot to claim) and `guard` (bound of what consumers may see). */
module LfQueue {
  import opened Fifo

  /** The source's 32-bit signed integer; a value that leaves this range is an error. */
  type Int32 = x: int | -0x8000_0000 <= x < 0x8000_0000

  /** A ring capacity after the constructor's clamp: never below 4. */
  type Capacity = c: Int32 | 4 <= c witness 4

  /** Reducing a value below two laps of the ring takes off at most one lap. */
  lemma ModWithinTwoLaps(v: int, c: int)
    requires 0 < c && 0 <= v
    ensures v < c ==> v % c == v
    ensures c <= v < 2 * c ==> v % c == v - c
  {
  }

  /** The three shared counters a compare-and-swap may target. */
  datatype Counter = Header | Tailer | Guard

  /** Forward distance from slot `from` to slot `to` in a ring of `cap` slots. */
  function Distance(from: int, to: int, cap: int): (d: int)
    requires 0 <= from < cap && 0 <= to < cap
    ensures 0 <= d < cap && (from + d == to || from + d == to + cap)
  {
    if from <= to then to - from else to + cap - from
  }

  /** The ring `s` holds `contents` from slot `head` up to slot `tail`: the slot
      `d` steps after `head` holds `contents[d]` when `d < |contents|` and is
      null otherwise. */
  ghost predicate RingHolds<E>(s: seq<Option<E>>, head: int, tail: int, contents: seq<E>)
  {
    0 <= head < |s| && 0 <= tail < |s| &&
    |contents| == Distance(head, tail, |s|) &&
    forall i :: 0 <= i < |s| ==>
      s[i] == (if Distance(head, i, |s|) < |contents| then Some(contents[Distance(head, i, |s|)]) else None)
  }

  /** Writing `x` into the free slot at `tail` and advancing `tail` one step around
      the ring appends `x`, as long as the reserved slot stays free. */
  lemma PushKeepsRing<E>(s: seq<Option<E>>, head: int, tail: int, contents: seq<E>, x: E)
    requires RingHolds(s, head, tail, contents) && |contents| < |s| - 1
    ensures s[tail] == None
    ensures RingHolds(s[tail := Some(x)], head, (tail + 1) % |s|, contents + [x])
  {
    ModWithinTwoLaps(tail + 1, |s|);
    var s', c' := s[tail := Some(x)], contents + [x];
    forall i | 0 <= i < |s|
      ensures s'[i] == (if Distance(head, i, |s|) < |c'| then Some(c'[Distance(head, i, |s|)]) else None)
    {
      if i != tail {
        assert Distance(head, i, |s|) != |contents|;
      }
    }
  }

  /** Clearing the slot at `head` and advancing `head` one step around the ring
      removes the front item, which that slot held. */
  lemma PopKeepsRing<E>(s: seq<Option<E>>, head: int, tail: int, contents: seq<E>)
    requires RingHolds(s, head, tail, contents) && contents != []
    ensures s[head] == Some(contents[0])
    ensures RingHolds(s[head := None], (head + 1) % |s|, tail, contents[1..])
  {
    ModWithinTwoLaps(head + 1, |s|);
    assert Distance(head, head, |s|) == 0;
    var h' := (head + 1) % |s|;
    var s', c' := s[head := None], contents[1..];
    forall i | 0 <= i < |s|
      ensures s'[i] == (if Distance(h', i, |s|) < |c'| then Some(c'[Distance(h', i, |s|)]) else None)
    {
      if i != head {
        assert Distance(h', i, |s|) == Distance(head, i, |s|) - 1;
      }
    }
  }

  class LockFreeQueue<Elem> {
    /** The items a consumer would receive, front first. */
    ghost var contents: seq<Elem>

    const cap: Capacity
    const slots: array<Option<Elem>>
    var head: Int32
    var tail: Int32
    var guard: Int32

    /** Object invariant: one slot per unit of capacity (at least 4, by the type of
        `cap`), `guard` equal to `tail` (no producer is midway), and the ring holds
        `contents` from `head` to `tail` with every other slot null. */
    ghost predicate Valid()
      reads this, slots
    {
      slots.Length == cap && guard == tail && RingHolds(slots[..], head, tail, contents)
    }

    /** A queue of `capacity` slots; a capacity below 4 is raised to 4. All slots
        start empty and all three counters at 0. */
    constructor (capacity: Int32)
      ensures Valid() && fresh(slots)
      ensures cap == if capacity < 4 then 4 else capacity
      ensures head == 0 && tail == 0 && guard == 0
      ensures contents == []
      ensures forall i :: 0 <= i < slots.Length ==> slots[i] == None
    {
      var c: Capacity := if capacity < 4 then 4 else capacity;
      var a := new Option<Elem>[c];
      for i := 0 to c
        invariant forall j :: 0 <= j < i ==> a[j] == None
      {
        a[i] := None;
      }
      cap := c;
      slots := a;
      head, tail, guard := 0, 0, 0;
      contents := [];
    }

    /** The current value of one counter. */
    function Load(c: Counter): Int32
      reads this
    {
      match c
      case Header => head
      case Tailer => tail
      case Guard => guard
    }

    /** Compare-and-swap on one counter: answers the value the counter held and
        stores `desired` only when that value equals `expected`. */
    method Cas(c: Counter, expected: Int32, desired: Int32) returns (prev: Int32)
      modifies this`head, this`tail, this`guard
      ensures prev == old(Load(c))
      ensures Load(c) == if prev == expected then desired else prev
      ensures c != Header ==> head == old(head)
      ensures c != Tailer ==> tail == old(tail)
      ensures c != Guard ==> guard == old(guard)
    {
      prev := Load(c);
      if prev == expected {
        match c
        case Header => head := desired;
        case Tailer => tail := desired;
        case Guard => guard := desired;
      }
    }

    /** Wraps a counter value into the ring with C's remainder, which takes the
        sign of `v`: a non-negative value lands on a slot index in `[0, cap)`, a
        value already inside the ring is left as it is, and one lap past the end
        comes back to the start. */
    function InternalIndex(v: Int32): (r: Int32)
      ensures 0 <= v ==> 0 <= r < cap
      ensures v < 0 ==> -(cap as int) < r <= 0
      ensures -(cap as int) < v < cap ==> r == v
      ensures cap <= v < 2 * cap ==> r == v - cap
    {
      var n: int := v;
      var m: int := if n >= 0 then n else -n;
      ModWithinTwoLaps(m, cap);
      if n >= 0 then m % cap else -(m % cap)
    }

    /** No published item awaits a consumer. */
    function IsEmpty(): (r: bool)
      reads this, slots
      requires Valid()
      ensures r <==> contents == []
    {
      head == guard
    }

    /** Advancing `tail` would reach `head`: the one reserved slot is all that is left. */
    function IsFull(): (r: bool)
      reads this, slots
      requires Valid()
      ensures r <==> |contents| == Room(cap)
    {
      InternalIndex(tail + 1) == head
    }

    /** At most `cap - 1` items, and their count is the distance from `head` to `tail`. */
    lemma HoldsAtMostRoom()
      requires Valid()
      ensures |contents| == (tail - head + cap) % cap
      ensures |contents| <= Room(cap)
    {
      ModWithinTwoLaps(tail - head + cap, cap);
    }

    /** Puts `item` at the back. A full queue refuses it and stays as it was; otherwise
        the slot at the old `tail` takes the item, `tail` and `guard` advance by one
        around the ring, and nothing else changes. */
    method Enqueue(item: Elem) returns (ok: bool)
      requires Valid()
      modifies this, slots
      ensures Valid()
      ensures ok <==> |old(contents)| < Room(cap)
      ensures contents == if ok then old(contents) + [item] else old(contents)
      ensures (Enqueued(item, ok), contents) == Step(old(contents), cap, Enq(item))
      ensures head == old(head)
      ensures tail == (if ok then (old(tail) + 1) % cap else old(tail))
      ensures guard == (if ok then (old(guard) + 1) % cap else old(guard))
      ensures slots[..] == if ok then old(slots[..])[old(tail) := Some(item)] else old(slots[..])
    {
      ok := true;
      var claimed := false;
      while !claimed
        invariant Valid() && head == old(head)
        invariant !claimed ==> contents == old(contents) && tail == old(tail) && slots[..] == old(slots[..])
        invariant claimed ==> |old(contents)| < Room(cap) && contents == old(contents) + [item]
        invariant claimed ==> tail == (old(tail) + 1) % cap && slots[..] == old(slots[..])[old(tail) := Some(item)]
        decreases !claimed
      {
        var temp := tail;
        var g := guard;
        if IsFull() {
          ok := false;
          return;
        }
        var prev := Cas(Tailer, temp, InternalIndex(temp + 1));
        claimed := prev == temp;
        if claimed {
          PushKeepsRing(slots[..], head, temp, contents, item);
          slots[temp] := Some(item);
          var _ := Cas(Guard, g, InternalIndex(g + 1));
          contents := contents + [item];
        }
      }
    }

    /** Takes the front item. An empty queue answers false with no item and stays as
        it was; otherwise the item in the slot at the old `head` is handed out, that
        slot is cleared, `head` advances by one around the ring, and nothing else
        changes. */
    method Dequeue() returns (ok: bool, item: Option<Elem>)
      requires Valid()
      modifies this, slots
      ensures Valid()
      ensures ok <==> old(contents) != []
      ensures ok ==> item == old(slots[head]) == Some(old(contents)[0]) && contents == old(contents)[1..]
      ensures !ok ==> item == None && contents == old(contents)
      ensures (Dequeued(ok, item), contents) == Step(old(contents), cap, Deq)
      ensures tail == old(tail) && guard == old(guard)
      ensures head == (if ok then (old(head) + 1) % cap else old(head))
      ensures slots[..] == if ok then old(slots[..])[old(head) := None] else old(slots[..])
    {
      ok := true;
      item := None;
      var claimed := false;
      while !claimed
        invariant Valid() && tail == old(tail)
        invariant !claimed ==> contents == old(contents) && head == old(head) && slots[..] == old(slots[..])
        invariant claimed ==> old(contents) != [] && item == old(slots[head]) == Some(old(contents)[0])
        invariant claimed ==> contents == old(contents)[1..] && head == (old(head) + 1) % cap
        invariant claimed ==> slots[..] == old(slots[..])[old(head) := None]
        decreases !claimed
      {
        var temp := head;
        item := None;
        if IsEmpty() {
          ok := false;
          return;
        }
        item := slots[temp];
        var prev := Cas(Header, temp, InternalIndex(temp + 1));
        claimed := prev == temp;
        if claimed {
          PopKeepsRing(slots[..], temp, tail, contents);
          slots[temp] := None;
          contents := contents[1..];
        }
      }
    }
  }
}
