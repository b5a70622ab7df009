/**
 Producers and consumers sharing the scheduler's global queue.  Each producer pushes a fixed
 number of items; consumers pop and count until the shared count reaches the total.  The queue
 is modelled at the level of its atomic accesses: `push` adds to the advisory count, enqueues
 and then publishes; `pop` reserves a published item, dequeues and then decrements the count.
 */
module Mpmc {
  import opened Arithmetic
  import opened Counting

  /**
   Items base, base + 1, ...: `pushed` of them are done; stage 0, 1, 2: about to count, to enqueue,
   to publish the next one.
   */
  datatype Producer = Producer(base: nat, pushed: nat, stage: nat)

  datatype Consumer =
    | Load      // consumed.load
    | Reserve   // try_reserve_published
    | Dequeue   // inner.dequeue
    | Uncount   // decrement_count
    | Tally     // consumed.fetch_add
    | Exited

  datatype State = State(
    perProducer: nat,
    total: nat,
    producers: seq<Producer>,
    consumers: seq<Consumer>,
    count: nat,
    published: nat,
    inner: seq<nat>,
    consumed: nat,
    enqueued: seq<nat>,
    popped: seq<nat>)

  datatype Event = P(id: nat) | C(id: nat)

  function Init(producers: nat, consumers: nat, perProducer: nat): State {
    State(perProducer, producers * perProducer,
          seq(producers, (i: nat) => Producer(i * perProducer, 0, 0)), seq(consumers, _ => Load),
          0, 0, [], 0, [], [])
  }

  function Step(s: State, e: Event): State {
    match e
    case P(i) => if Moves(s, i) then StepProducer(s, i) else s
    case C(i) => if i < |s.consumers| then StepConsumer(s, i) else s
  }

  function StepProducer(s: State, i: nat): State
    requires i < |s.producers|
  {
    var p := s.producers[i];
    if p.stage == 0 then
      s.(count := s.count + 1, producers := s.producers[i := p.(stage := 1)])
    else if p.stage == 1 then
      var item := p.base + p.pushed;
      s.(inner := s.inner + [item], enqueued := s.enqueued + [item],
         producers := s.producers[i := p.(stage := 2)])
    else
      s.(published := s.published + 1, producers := s.producers[i := p.(pushed := p.pushed + 1, stage := 0)])
  }

  function StepConsumer(s: State, i: nat): State
    requires i < |s.consumers|
  {
    match s.consumers[i]
    case Load =>
      s.(consumers := s.consumers[i := if s.consumed >= s.total then Exited else Reserve])
    case Reserve =>
      if s.published == 0 then s.(consumers := s.consumers[i := Load])
      else s.(published := s.published - 1, consumers := s.consumers[i := Dequeue])
    case Dequeue =>
      if s.inner == [] then s.(published := s.published + 1, consumers := s.consumers[i := Load])
      else
        s.(inner := s.inner[1..], popped := s.popped + [s.inner[0]],
           consumers := s.consumers[i := Uncount])
    case Uncount =>
      s.(count := if s.count == 0 then 0 else s.count - 1, consumers := s.consumers[i := Tally])
    case Tally =>
      s.(consumed := s.consumed + 1,
         consumers := s.consumers[i := if s.consumed + 1 >= s.total then Exited else Load])
    case Exited => s
  }

  function Run(s: State, schedule: seq<Event>): State
    decreases |schedule|
  {
    if schedule == [] then s else Run(Step(s, schedule[0]), schedule[1..])
  }

  // The invariant.

  function Placed(p: Producer): nat { p.pushed + Bit(p.stage == 2) }
  predicate Announced(p: Producer) { p.stage == 1 }
  predicate Publishing(p: Producer) { p.stage == 2 }
  predicate Reserved(c: Consumer) { c.Dequeue? }
  predicate Uncounting(c: Consumer) { c.Uncount? }
  predicate Untallied(c: Consumer) { c.Uncount? || c.Tally? }

  ghost predicate ProducersOk(s: State) {
    forall i :: 0 <= i < |s.producers| ==>
      s.producers[i].stage <= 2 && Placed(s.producers[i]) <= s.perProducer
      && (s.producers[i].stage > 0 ==> s.producers[i].pushed < s.perProducer)
      && s.producers[i].base == i * s.perProducer
  }

  /** Every queued item is published, reserved, or about to be published; the count is off by what is owed. */
  ghost predicate QueueOk(s: State) {
    && |s.inner| == s.published + Count(s.consumers, Reserved) + Count(s.producers, Publishing)
    && s.count == |s.inner| + Count(s.producers, Announced) + Count(s.consumers, Uncounting)
  }

  ghost predicate TallyOk(s: State) {
    && s.enqueued == s.popped + s.inner
    && |s.enqueued| == Sum(s.producers, Placed)
    && s.consumed + Count(s.consumers, Untallied) == |s.popped|
    && (forall i :: 0 <= i < |s.consumers| && s.consumers[i].Exited? ==> s.consumed >= s.total)
  }

  /** Item x has been enqueued: its producer is past it. */
  ghost predicate Past(s: State, x: nat) {
    s.perProducer > 0 && x / s.perProducer < |s.producers|
    && x % s.perProducer < Placed(s.producers[x / s.perProducer])
  }

  ghost predicate ItemsOk(s: State) {
    forall x: nat :: Times(s.enqueued, x) == Bit(Past(s, x))
  }

  ghost predicate Inv(s: State) {
    ProducersOk(s) && QueueOk(s) && TallyOk(s) && ItemsOk(s)
  }

  predicate Moves(s: State, i: nat) {
    i < |s.producers| && s.producers[i].pushed < s.perProducer
  }

  lemma Shape(s: State, e: Event)
    ensures var s' := Step(s, e);
      && |s'.producers| == |s.producers| && |s'.consumers| == |s.consumers|
      && s'.perProducer == s.perProducer && s'.total == s.total
  {
  }

  lemma ProducersOkStep(s: State, e: Event)
    requires ProducersOk(s)
    ensures ProducersOk(Step(s, e))
  {
  }

  lemma QueueOkProducer(s: State, i: nat)
    requires ProducersOk(s) && QueueOk(s) && i < |s.producers|
    ensures QueueOk(StepProducer(s, i))
  {
    var p := StepProducer(s, i).producers[i];
    CountUpdate(s.producers, i, p, Announced);
    CountUpdate(s.producers, i, p, Publishing);
  }

  /** A reserved item is there to be dequeued, and a dequeued one is still counted. */
  lemma ReservationBacked(s: State, i: nat)
    requires QueueOk(s) && i < |s.consumers|
    ensures s.consumers[i].Dequeue? ==> s.inner != []
    ensures s.consumers[i].Uncount? ==> s.count > 0
  {
    CountUpdate(s.consumers, i, s.consumers[i], Reserved);
    CountUpdate(s.consumers, i, s.consumers[i], Uncounting);
  }

  /** What one consumer step does to the counters, against the consumer's own debts. */
  lemma ConsumerDelta(s: State, i: nat)
    requires i < |s.consumers|
    requires (s.consumers[i].Dequeue? ==> s.inner != []) && (s.consumers[i].Uncount? ==> s.count > 0)
    ensures var s' := StepConsumer(s, i);
      var c, c' := s.consumers[i], s'.consumers[i];
      && s'.consumers == s.consumers[i := c'] && s'.producers == s.producers
      && |s'.inner| - s'.published - Bit(Reserved(c')) == |s.inner| - s.published - Bit(Reserved(c))
      && s'.count - |s'.inner| - Bit(Uncounting(c')) == s.count - |s.inner| - Bit(Uncounting(c))
      && s'.consumed - |s'.popped| + Bit(Untallied(c')) == s.consumed - |s.popped| + Bit(Untallied(c))
  {
  }

  lemma QueueOkConsumer(s: State, i: nat)
    requires QueueOk(s) && i < |s.consumers|
    ensures QueueOk(StepConsumer(s, i))
  {
    ReservationBacked(s, i);
    ConsumerDelta(s, i);
    var c := StepConsumer(s, i).consumers[i];
    CountUpdate(s.consumers, i, c, Reserved);
    CountUpdate(s.consumers, i, c, Uncounting);
  }

  lemma TallyOkProducer(s: State, i: nat)
    requires ProducersOk(s) && TallyOk(s) && i < |s.producers|
    ensures TallyOk(StepProducer(s, i))
  {
    var s' := StepProducer(s, i);
    SumUpdate(s.producers, i, s'.producers[i], Placed);
    if s.producers[i].stage == 1 {
      var item := s'.inner[|s.inner|];
      assert s.popped + (s.inner + [item]) == (s.popped + s.inner) + [item];
    }
  }

  lemma ConsumerKeeps(s: State, i: nat)
    requires i < |s.consumers|
    ensures var s' := StepConsumer(s, i);
      && s'.popped + s'.inner == s.popped + s.inner && s'.enqueued == s.enqueued
      && s'.producers == s.producers && s'.total == s.total && s'.perProducer == s.perProducer
      && s.consumed <= s'.consumed && (s'.consumers[i].Exited? && !s.consumers[i].Exited? ==> s'.consumed >= s'.total)
  {
    if s.inner != [] {
      assert s.popped + s.inner == (s.popped + [s.inner[0]]) + s.inner[1..];
    }
  }

  lemma TallyOkConsumer(s: State, i: nat)
    requires QueueOk(s) && TallyOk(s) && i < |s.consumers|
    ensures TallyOk(StepConsumer(s, i))
  {
    ReservationBacked(s, i);
    ConsumerDelta(s, i);
    ConsumerKeeps(s, i);
    CountUpdate(s.consumers, i, StepConsumer(s, i).consumers[i], Untallied);
  }

  lemma ItemsOkConsumer(s: State, i: nat)
    requires ItemsOk(s) && i < |s.consumers|
    ensures ItemsOk(StepConsumer(s, i))
  {
    ConsumerKeeps(s, i);
    forall x: nat ensures Times(StepConsumer(s, i).enqueued, x) == Bit(Past(StepConsumer(s, i), x)) {
      assert Times(s.enqueued, x) == Bit(Past(s, x));
    }
  }

  /** Enqueueing takes a producer past exactly the item it enqueues. */
  lemma PastProducer(s: State, i: nat, x: nat)
    requires ProducersOk(s) && Moves(s, i)
    ensures var p := s.producers[i];
      Past(StepProducer(s, i), x) <==> Past(s, x) || (p.stage == 1 && x == p.base + p.pushed)
    ensures s.producers[i].stage == 1 && x == s.producers[i].base + s.producers[i].pushed ==> !Past(s, x)
  {
    ItemOwner(s.perProducer, i, s.producers[i].pushed, x);
    PastMoved(s, StepProducer(s, i), i, x);
  }

  lemma PastMoved(s: State, s': State, i: nat, x: nat)
    requires i < |s.producers| == |s'.producers| && s'.perProducer == s.perProducer
    requires forall j :: 0 <= j < |s.producers| && j != i ==> s'.producers[j] == s.producers[j]
    requires Placed(s.producers[i]) <= Placed(s'.producers[i]) <= Placed(s.producers[i]) + 1
    ensures Past(s', x) <==>
      (Past(s, x) ||
       (s.perProducer > 0 && x / s.perProducer == i && x % s.perProducer == Placed(s.producers[i]) &&
        Placed(s'.producers[i]) == Placed(s.producers[i]) + 1))
  {
  }

  lemma ItemsOkProducer(s: State, i: nat)
    requires ProducersOk(s) && ItemsOk(s) && Moves(s, i)
    ensures ItemsOk(StepProducer(s, i))
  {
    var p := s.producers[i];
    forall x: nat ensures Times(StepProducer(s, i).enqueued, x) == Bit(Past(StepProducer(s, i), x)) {
      PastProducer(s, i, x);
      TimesAppend(s.enqueued, p.base + p.pushed, x);
      assert Times(s.enqueued, x) == Bit(Past(s, x));
    }
  }

  /** Item e*k + p is the p-th item of producer e, and no other's. */
  lemma ItemOwner(k: nat, e: nat, p: nat, x: nat)
    requires p < k
    ensures x == e * k + p <==> x / k == e && x % k == p
  {
    if x == e * k + p {
      RemainderUnique(x, e, p, k);
      assert k * (x / k) == k * e;
    }
  }

  lemma InvStep(s: State, e: Event)
    requires Inv(s)
    ensures Inv(Step(s, e))
  {
    ProducersOkStep(s, e);
    match e
    case P(i) =>
      if Moves(s, i) {
        QueueOkProducer(s, i);
        TallyOkProducer(s, i);
        ItemsOkProducer(s, i);
      }
    case C(i) =>
      if i < |s.consumers| {
        QueueOkConsumer(s, i);
        TallyOkConsumer(s, i);
        ItemsOkConsumer(s, i);
      }
  }

  lemma InvInit(producers: nat, consumers: nat, perProducer: nat)
    ensures Inv(Init(producers, consumers, perProducer))
  {
    var s := Init(producers, consumers, perProducer);
    CountNone(s.consumers, Reserved);
    CountNone(s.consumers, Uncounting);
    CountNone(s.consumers, Untallied);
    CountNone(s.producers, Announced);
    CountNone(s.producers, Publishing);
    SumBounds(s.producers, Placed, 0);
    forall x: nat ensures Times(s.enqueued, x) == Bit(Past(s, x)) {
      assert !Past(s, x);
    }
  }

  /** The invariant holds in every state of every run. */
  lemma {:induction false} InvRun(s: State, schedule: seq<Event>)
    requires Inv(s)
    ensures Inv(Run(s, schedule))
    ensures var s' := Run(s, schedule);
      && |s'.producers| == |s.producers| && |s'.consumers| == |s.consumers|
      && s'.perProducer == s.perProducer && s'.total == s.total
    decreases |schedule|
  {
    if schedule != [] {
      InvStep(s, schedule[0]);
      Shape(s, schedule[0]);
      InvRun(Step(s, schedule[0]), schedule[1..]);
    }
  }

  // Exact-once consumption and correct exit.

  ghost predicate Sized(s: State) {
    s.total == |s.producers| * s.perProducer
  }

  lemma PoppedWithinTotal(s: State)
    requires Inv(s) && Sized(s)
    ensures s.consumed <= |s.popped| <= |s.enqueued| <= s.total
  {
    SumBounds(s.producers, Placed, s.perProducer);
  }

  lemma AllPlaced(s: State)
    requires Inv(s) && Sized(s) && s.consumed >= s.total
    ensures s.inner == [] && s.popped == s.enqueued && |s.popped| == s.total == s.consumed
    ensures Count(s.consumers, Untallied) == 0
    ensures forall i :: 0 <= i < |s.producers| ==> Placed(s.producers[i]) == s.perProducer
  {
    PoppedWithinTotal(s);
    SumBounds(s.producers, Placed, s.perProducer);
    assert s.inner == [] && s.popped + [] == s.popped;
  }

  lemma PastIff(s: State, x: nat)
    requires Sized(s) && forall i :: 0 <= i < |s.producers| ==> Placed(s.producers[i]) == s.perProducer
    ensures Past(s, x) <==> x < s.total
  {
    if s.perProducer > 0 { QuotientBelow(x, s.perProducer, |s.producers|); }
  }

  /** Once the shared count has reached the total, every item has been popped exactly once. */
  lemma AllConsumedOnce(s: State, x: nat)
    requires Inv(s) && Sized(s) && s.consumed >= s.total
    ensures s.inner == [] && s.popped == s.enqueued && |s.popped| == s.total == s.consumed
    ensures Times(s.popped, x) == Bit(x < s.total)
    ensures Count(s.consumers, Untallied) == 0
    ensures forall i :: 0 <= i < |s.producers| ==>
      s.producers[i].pushed + Bit(s.producers[i].stage == 2) == s.perProducer
  {
    AllPlaced(s);
    assert Times(s.enqueued, x) == Bit(Past(s, x));
    PastIff(s, x);
  }

  lemma QuotientBelow(x: nat, k: nat, n: nat)
    requires k > 0
    ensures x / k < n <==> x < n * k
  {
    var q, r := x / k, x % k;
    assert x == k * q + r;
    if q < n {
      Scaled(k, q + 1, n);
    } else {
      Scaled(k, n, q);
    }
  }

  lemma Scaled(k: nat, a: nat, b: nat)
    requires a <= b
    ensures k * a <= k * b && k * a == a * k && k * b == b * k
    ensures k * (a + 1) == k * a + k
  {
    assert k * b == k * a + k * (b - a);
  }

  /**
   In every reachable state the shared count is at most the total, a consumer has exited only if
   it is the total, and then every item has been popped exactly once.
   */
  lemma ConsumersExitOnlyWhenDone(producers: nat, consumers: nat, perProducer: nat, schedule: seq<Event>)
    ensures var s := Run(Init(producers, consumers, perProducer), schedule);
      && s.consumed <= s.total == producers * perProducer
      && ((exists i :: 0 <= i < |s.consumers| && s.consumers[i].Exited?) ==>
           s.consumed == s.total && forall x: nat :: Times(s.popped, x) == Bit(x < s.total))
  {
    InvInit(producers, consumers, perProducer);
    InvRun(Init(producers, consumers, perProducer), schedule);
    var s := Run(Init(producers, consumers, perProducer), schedule);
    PoppedWithinTotal(s);
    if exists i :: 0 <= i < |s.consumers| && s.consumers[i].Exited? {
      forall x: nat ensures Times(s.popped, x) == Bit(x < s.total) {
        AllConsumedOnce(s, x);
      }
    }
  }

  /**
   In every reachable state a consumer that holds a reservation finds an item, and a consumer
   that took one finds a positive count: neither the give-back nor the saturation ever happens.
   */
  lemma ReservationsHonoured(producers: nat, consumers: nat, perProducer: nat, schedule: seq<Event>, i: nat)
    requires i < consumers
    ensures var s := Run(Init(producers, consumers, perProducer), schedule);
      && |s.consumers| == consumers
      && (s.consumers[i].Dequeue? ==> s.inner != [])
      && (s.consumers[i].Uncount? ==> s.count > 0)
  {
    InvInit(producers, consumers, perProducer);
    InvRun(Init(producers, consumers, perProducer), schedule);
    ReservationBacked(Run(Init(producers, consumers, perProducer), schedule), i);
  }
}
