/**
 The bounded drop-oldest queues of the OTLP exporter, as sequential objects: the mutex-based
 one and the lock-free one, both proved against one specification.  `OtlpMachine` treats the
 lock-free queue under every interleaving of its atomic steps.
 */
module OtlpQueue {
  import opened Wrappers

  /** Contents, oldest first, and the number of items dropped to make room. */
  datatype Bounded<T> = Bounded(cap: nat, items: seq<T>, dropped: nat) {

    /** A full queue drops its oldest item; with capacity 0 it is counted as dropping even when empty. */
    function Enqueue(x: T): (r: (Bounded<T>, bool))
      ensures r.1 <==> |items| >= cap
      ensures cap >= 1 && |items| <= cap ==> |r.0.items| <= cap
      ensures items + [x] == (if r.1 && items != [] then [items[0]] else []) + r.0.items
      ensures r.0.cap == cap && r.0.dropped == dropped + if r.1 then 1 else 0
    {
      if |items| >= cap then
        var rest := if items == [] then [] else items[1..];
        (Bounded(cap, rest + [x], dropped + 1), true)
      else
        (Bounded(cap, items + [x], dropped), false)
    }

    function Dequeue(): (r: (Bounded<T>, Option<T>))
      ensures r.1.None? <==> items == []
      ensures r.1.Some? ==> items == [r.1.value] + r.0.items
      ensures r.1.None? ==> r.0.items == []
      ensures r.0.cap == cap && r.0.dropped == dropped
    {
      if items == [] then (this, None) else (Bounded(cap, items[1..], dropped), Some(items[0]))
    }
  }

  class MutexQueue<T> {
    var queue: seq<T>
    const capacity: nat
    var droppedCount: nat

    function View(): Bounded<T>
      reads this
    {
      Bounded(capacity, queue, droppedCount)
    }

    constructor (capacity: nat)
      ensures View() == Bounded(capacity, [], 0)
    {
      this.capacity := capacity;
      queue := [];
      droppedCount := 0;
    }

    method Enqueue(item: T) returns (dropped: bool)
      modifies this
      ensures (View(), dropped) == old(View()).Enqueue(item)
    {
      if |queue| >= capacity {
        if |queue| > 0 {
          queue := queue[1..];
        }
        droppedCount := droppedCount + 1;
        dropped := true;
      } else {
        dropped := false;
      }
      queue := queue + [item];
    }

    method Dequeue() returns (item: Option<T>)
      modifies this
      ensures (View(), item) == old(View()).Dequeue()
    {
      if |queue| == 0 {
        item := None;
      } else {
        item := Some(queue[0]);
        queue := queue[1..];
      }
    }

    method Len() returns (n: nat)
      ensures n == |View().items|
    {
      n := |queue|;
    }
  }

  /** The lock-free queue used by one thread at a time; `ArrayQueue` refuses a zero capacity. */
  class LockFreeQueue<T> {
    var queue: seq<T>
    const capacity: nat
    var currentLen: int
    var droppedCount: nat

    ghost predicate Valid()
      reads this
    {
      capacity >= 1 && |queue| <= capacity && currentLen == |queue|
    }

    function View(): Bounded<T>
      reads this
    {
      Bounded(capacity, queue, droppedCount)
    }

    constructor (capacity: nat)
      requires capacity >= 1
      ensures Valid() && View() == Bounded(capacity, [], 0)
    {
      this.capacity := capacity;
      queue := [];
      currentLen := 0;
      droppedCount := 0;
    }

    /** `ArrayQueue::push`. */
    method Push(item: T) returns (ok: bool)
      modifies this`queue
      ensures ok <==> |old(queue)| < capacity
      ensures queue == if ok then old(queue) + [item] else old(queue)
    {
      ok := |queue| < capacity;
      if ok { queue := queue + [item]; }
    }

    /** `ArrayQueue::pop`. */
    method Pop() returns (item: Option<T>)
      modifies this`queue
      ensures item.None? <==> old(queue) == []
      ensures if item.Some? then old(queue) == [item.value] + queue else queue == []
    {
      if queue == [] {
        item := None;
      } else {
        item := Some(queue[0]);
        queue := queue[1..];
      }
    }

    /** Alone, the lock-free queue does what the mutex queue does; in particular no retry fails. */
    method Enqueue(item: T) returns (dropped: bool)
      requires Valid()
      modifies this
      ensures Valid()
      ensures (View(), dropped) == old(View()).Enqueue(item)
    {
      dropped := false;
      var ok := Push(item);
      if ok {
        currentLen := currentLen + 1;
        return false;
      }
      var oldest := Pop();
      if oldest.Some? {
        droppedCount := droppedCount + 1;
        currentLen := currentLen - 1;
        dropped := true;
        ok := Push(item);
        if !ok { return dropped; }
      } else {
        assert false; // a push has just failed, so the queue is not empty
      }
      currentLen := currentLen + 1;
    }

    method Dequeue() returns (item: Option<T>)
      requires Valid()
      modifies this
      ensures Valid()
      ensures (View(), item) == old(View()).Dequeue()
    {
      item := Pop();
      if item.Some? {
        currentLen := currentLen - 1;
      }
    }

    method Len() returns (n: int)
      requires Valid()
      ensures n == |View().items|
    {
      n := currentLen;
    }
  }

  datatype Call<T> = Enqueue(item: T) | Dequeue
  datatype Return<T> = Enqueued(dropped: bool) | Dequeued(item: Option<T>)

  /** The specification over a whole sequence of calls: final queue and returned values. */
  function Serve<T>(q: Bounded<T>, calls: seq<Call<T>>): (Bounded<T>, seq<Return<T>>)
    decreases |calls|
  {
    if calls == [] then (q, [])
    else
      var (q', r) := ServeOne(q, calls[0]);
      var (q'', rest) := Serve(q', calls[1..]);
      (q'', [r] + rest)
  }

  function ServeOne<T>(q: Bounded<T>, call: Call<T>): (Bounded<T>, Return<T>) {
    match call
    case Enqueue(x) => var (q', d) := q.Enqueue(x); (q', Enqueued(d))
    case Dequeue => var (q', o) := q.Dequeue(); (q', Dequeued(o))
  }
}
