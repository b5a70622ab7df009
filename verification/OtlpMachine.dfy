/**
 The lock-free queue under concurrency.  Any number of threads run enqueue and dequeue; each
 atomic access (a push, a pop, a counter update) is one indivisible step, and steps of
 different threads interleave freely.  `ArrayQueue` is an atomic bounded FIFO.
 */
module OtlpMachine {
  import opened Arithmetic
  import opened Counting
  import opened OtlpQueue
  import opened Wrappers

  /** Where a thread stands: the next atomic access it will make. */
  datatype Pc<T> =
    | Idle
    | Push(item: T)
    | AddAfterPush
    | PopOldest(item: T)
    | CountDropped(item: T)
    | SubAfterDrop(item: T)
    | RetryAfterDrop(item: T)
    | RetryAfterEmpty(item: T)
    | AddAfterRetry(dropped: bool)
    | PopFront
    | SubAfterPop(item: T)

  /** The shared fields, the threads, and a record of what has happened. */
  datatype State<T> = State(
    cap: nat,
    queue: seq<T>,
    currentLen: int,
    droppedCount: nat,
    threads: seq<Pc<T>>,
    submitted: seq<T>,
    pushed: seq<T>,
    removed: seq<T>,
    dequeued: seq<T>,
    evicted: seq<T>,
    discarded: seq<T>,
    results: seq<Return<T>>)

  datatype Event<T> = Begin(thread: nat, call: Call<T>) | Go(thread: nat)

  function Init<T>(cap: nat, n: nat): State<T> {
    State(cap, [], 0, 0, seq(n, _ => Idle), [], [], [], [], [], [], [])
  }

  /** An idle thread can begin a call; a busy one makes its next access.  Other events change nothing. */
  function Step<T>(s: State<T>, e: Event<T>): State<T> {
    if e.thread >= |s.threads| then s
    else match e
    case Begin(t, call) =>
      if !s.threads[t].Idle? then s
      else (match call
        case Enqueue(x) => s.(threads := s.threads[t := Push(x)], submitted := s.submitted + [x])
        case Dequeue => s.(threads := s.threads[t := PopFront]))
    case Go(t) =>
      match s.threads[t]
      case Idle => s
      case Push(x) =>
        if |s.queue| < s.cap then PushOk(s, t, x, AddAfterPush)
        else s.(threads := s.threads[t := PopOldest(x)])
      case AddAfterPush =>
        s.(currentLen := s.currentLen + 1, threads := s.threads[t := Idle],
           results := s.results + [Enqueued(false)])
      case PopOldest(x) =>
        if s.queue == [] then s.(threads := s.threads[t := RetryAfterEmpty(x)])
        else
          s.(queue := s.queue[1..], removed := s.removed + [s.queue[0]],
             evicted := s.evicted + [s.queue[0]], threads := s.threads[t := CountDropped(x)])
      case CountDropped(x) =>
        s.(droppedCount := s.droppedCount + 1, threads := s.threads[t := SubAfterDrop(x)])
      case SubAfterDrop(x) =>
        s.(currentLen := s.currentLen - 1, threads := s.threads[t := RetryAfterDrop(x)])
      case RetryAfterDrop(x) =>
        if |s.queue| < s.cap then PushOk(s, t, x, AddAfterRetry(true)) else Discard(s, t, x, true)
      case RetryAfterEmpty(x) =>
        if |s.queue| < s.cap then PushOk(s, t, x, AddAfterRetry(false)) else Discard(s, t, x, false)
      case AddAfterRetry(dropped) =>
        s.(currentLen := s.currentLen + 1, threads := s.threads[t := Idle],
           results := s.results + [Enqueued(dropped)])
      case PopFront =>
        if s.queue == [] then
          s.(threads := s.threads[t := Idle], results := s.results + [Dequeued(None)])
        else
          s.(queue := s.queue[1..], removed := s.removed + [s.queue[0]],
             dequeued := s.dequeued + [s.queue[0]], threads := s.threads[t := SubAfterPop(s.queue[0])])
      case SubAfterPop(x) =>
        s.(currentLen := s.currentLen - 1, threads := s.threads[t := Idle],
           results := s.results + [Dequeued(Some(x))])
  }

  function PushOk<T>(s: State<T>, t: nat, x: T, next: Pc<T>): State<T>
    requires t < |s.threads|
  {
    s.(queue := s.queue + [x], pushed := s.pushed + [x], threads := s.threads[t := next])
  }

  /** A failed retry: the call returns and the item is gone. */
  function Discard<T>(s: State<T>, t: nat, x: T, dropped: bool): State<T>
    requires t < |s.threads|
  {
    s.(discarded := s.discarded + [x], threads := s.threads[t := Idle],
       results := s.results + [Enqueued(dropped)])
  }

  function Run<T>(s: State<T>, schedule: seq<Event<T>>): State<T>
    decreases |schedule|
  {
    if schedule == [] then s else Run(Step(s, schedule[0]), schedule[1..])
  }

  /** The item a thread has been given and not yet placed. */
  function Hand<T>(pc: Pc<T>): Option<T> {
    match pc
    case Push(x) => Some(x)
    case PopOldest(x) => Some(x)
    case CountDropped(x) => Some(x)
    case SubAfterDrop(x) => Some(x)
    case RetryAfterDrop(x) => Some(x)
    case RetryAfterEmpty(x) => Some(x)
    case _ => None
  }

  predicate Holding<T>(pc: Pc<T>) { Hand(pc).Some? }
  function Holds<T(==)>(x: T): Pc<T> -> bool { (pc: Pc<T>) => Hand(pc) == Some(x) }

  predicate OwesAdd<T>(pc: Pc<T>) { pc.AddAfterPush? || pc.AddAfterRetry? }
  predicate OwesSub<T>(pc: Pc<T>) { pc.CountDropped? || pc.SubAfterDrop? || pc.SubAfterPop? }
  predicate OwesCount<T>(pc: Pc<T>) { pc.CountDropped? }
  predicate OwesTrue<T>(pc: Pc<T>) {
    pc.CountDropped? || pc.SubAfterDrop? || pc.RetryAfterDrop? || pc == AddAfterRetry(true)
  }
  predicate Busy<T>(pc: Pc<T>) { !pc.Idle? }

  function TrueReturns<T>(results: seq<Return<T>>): nat {
    if results == [] then 0
    else TrueReturns(results[..|results| - 1]) + Bit(results[|results| - 1] == Enqueued(true))
  }

  /** How often x is in a hand, in the queue, dequeued, evicted or discarded. */
  ghost function Places<T>(s: State<T>, x: T): nat {
    Count(s.threads, Holds(x)) + Times(s.queue, x) + Times(s.dequeued, x)
    + Times(s.evicted, x) + Times(s.discarded, x)
  }

  ghost predicate SizesAgree<T>(s: State<T>) {
    |s.submitted| == Count(s.threads, Holding) + |s.queue| + |s.dequeued| + |s.evicted| + |s.discarded|
  }

  /** Every submitted item is in exactly one place. */
  ghost predicate Conserved<T(!new)>(s: State<T>) {
    && (forall x :: Times(s.submitted, x) == Places(s, x))
    && SizesAgree(s)
  }

  ghost predicate Fifo<T>(s: State<T>) {
    && 1 <= s.cap && |s.queue| <= s.cap
    && s.pushed == s.removed + s.queue
    && multiset(s.removed) == multiset(s.dequeued) + multiset(s.evicted)
  }

  /** The length counter is off by exactly the updates that threads still owe. */
  ghost predicate LengthCounted<T>(s: State<T>) {
    s.currentLen == |s.queue| - Count(s.threads, OwesAdd) + Count(s.threads, OwesSub)
  }

  /** So is the drop counter, and so are the calls that have returned true. */
  ghost predicate DropsCounted<T>(s: State<T>) {
    && s.droppedCount == |s.evicted| - Count(s.threads, OwesCount)
    && TrueReturns(s.results) == |s.evicted| - Count(s.threads, OwesTrue)
  }

  ghost predicate Inv<T(!new)>(s: State<T>) {
    Fifo(s) && LengthCounted(s) && DropsCounted(s) && Conserved(s)
  }

  lemma FifoStep<T>(s: State<T>, e: Event<T>)
    requires Fifo(s)
    ensures Fifo(Step(s, e))
  {
    if s.queue != [] {
      assert s.removed + s.queue == (s.removed + [s.queue[0]]) + s.queue[1..];
    }
    if e.thread < |s.threads| && e.Go? {
      var pc := s.threads[e.thread];
      if !pc.Idle? && !pc.AddAfterPush? && !pc.AddAfterRetry? && !pc.PopFront? && !pc.SubAfterPop? {
        assert s.removed + (s.queue + [pc.item]) == (s.removed + s.queue) + [pc.item];
      }
    }
  }

  lemma OneThreadMoves<T>(s: State<T>, e: Event<T>)
    requires e.thread < |s.threads|
    ensures |Step(s, e).threads| == |s.threads|
    ensures Step(s, e).threads == s.threads[e.thread := Step(s, e).threads[e.thread]]
  {
  }

  /** What one step does to the length counter, against the queue and the thread's debts. */
  lemma LengthDelta<T>(s: State<T>, e: Event<T>)
    requires e.thread < |s.threads|
    ensures var s' := Step(s, e);
      var pc, pc' := s.threads[e.thread], s'.threads[e.thread];
      s'.currentLen - |s'.queue| + Bit(OwesAdd(pc')) - Bit(OwesSub(pc'))
      == s.currentLen - |s.queue| + Bit(OwesAdd(pc)) - Bit(OwesSub(pc))
  {
  }

  lemma LengthCountedStep<T>(s: State<T>, e: Event<T>)
    requires LengthCounted(s)
    ensures LengthCounted(Step(s, e))
  {
    if e.thread < |s.threads| {
      OneThreadMoves(s, e);
      LengthDelta(s, e);
      var pc := Step(s, e).threads[e.thread];
      CountUpdate(s.threads, e.thread, pc, OwesAdd);
      CountUpdate(s.threads, e.thread, pc, OwesSub);
    }
  }

  lemma DroppedDelta<T>(s: State<T>, e: Event<T>)
    requires e.thread < |s.threads|
    ensures var s' := Step(s, e);
      s'.droppedCount - |s'.evicted| + Bit(OwesCount(s'.threads[e.thread]))
      == s.droppedCount - |s.evicted| + Bit(OwesCount(s.threads[e.thread]))
  {
  }

  lemma ReturnsAppend<T>(results: seq<Return<T>>, r: Return<T>)
    ensures TrueReturns(results + [r]) == TrueReturns(results) + Bit(r == Enqueued(true))
  {
    assert (results + [r])[..|results|] == results;
  }

  lemma ReturnsDelta<T>(s: State<T>, e: Event<T>)
    requires e.thread < |s.threads|
    ensures var s' := Step(s, e);
      TrueReturns(s'.results) - |s'.evicted| + Bit(OwesTrue(s'.threads[e.thread]))
      == TrueReturns(s.results) - |s.evicted| + Bit(OwesTrue(s.threads[e.thread]))
  {
    ResultsGrow(s, e);
    var s' := Step(s, e);
    if s'.results != s.results {
      ReturnsAppend(s.results, s'.results[|s.results|]);
    }
    ReturnDebt(s, e);
  }

  lemma ResultsGrow<T>(s: State<T>, e: Event<T>)
    ensures var r, r' := s.results, Step(s, e).results;
      r' == r || (|r'| == |r| + 1 && r' == r + [r'[|r|]])
  {
  }

  /** A call that returns true has an eviction to show for it, and so has one that is going to. */
  lemma ReturnDebt<T>(s: State<T>, e: Event<T>)
    requires e.thread < |s.threads|
    ensures var s' := Step(s, e);
      var returned := |s'.results| > |s.results| && s'.results[|s.results|] == Enqueued(true);
      Bit(returned) + Bit(OwesTrue(s'.threads[e.thread]))
      == |s'.evicted| - |s.evicted| + Bit(OwesTrue(s.threads[e.thread]))
  {
  }

  lemma DropsCountedStep<T>(s: State<T>, e: Event<T>)
    requires DropsCounted(s)
    ensures DropsCounted(Step(s, e))
  {
    if e.thread < |s.threads| {
      OneThreadMoves(s, e);
      DroppedDelta(s, e);
      ReturnsDelta(s, e);
      var pc := Step(s, e).threads[e.thread];
      CountUpdate(s.threads, e.thread, pc, OwesCount);
      CountUpdate(s.threads, e.thread, pc, OwesTrue);
    }
  }

  /** Nothing but the thread's position and the counters change, and its hand stays the same. */
  ghost predicate Stays<T>(s: State<T>, s': State<T>, t: nat) {
    && |s'.threads| == |s.threads| && t < |s.threads|
    && s'.threads == s.threads[t := s'.threads[t]]
    && Hand(s'.threads[t]) == Hand(s.threads[t])
    && s'.submitted == s.submitted && s'.queue == s.queue && s'.dequeued == s.dequeued
    && s'.evicted == s.evicted && s'.discarded == s.discarded
  }

  lemma PlacesStay<T>(s: State<T>, s': State<T>, t: nat, x: T)
    requires Stays(s, s', t)
    ensures Places(s', x) == Places(s, x)
  {
    CountUpdate(s.threads, t, s'.threads[t], Holds(x));
  }

  lemma PlacesPushOk<T>(s: State<T>, t: nat, next: Pc<T>, x: T)
    requires t < |s.threads| && Hand(s.threads[t]).Some? && Hand(next).None?
    ensures Places(PushOk(s, t, Hand(s.threads[t]).value, next), x) == Places(s, x)
  {
    CountUpdate(s.threads, t, next, Holds(x));
    TimesAppend(s.queue, Hand(s.threads[t]).value, x);
  }

  lemma PlacesDiscard<T>(s: State<T>, t: nat, dropped: bool, x: T)
    requires t < |s.threads| && Hand(s.threads[t]).Some?
    ensures Places(Discard(s, t, Hand(s.threads[t]).value, dropped), x) == Places(s, x)
  {
    CountUpdate(s.threads, t, Idle, Holds(x));
    TimesAppend(s.discarded, Hand(s.threads[t]).value, x);
  }

  lemma PlacesEvict<T>(s: State<T>, t: nat, x: T)
    requires t < |s.threads| && s.queue != [] && s.threads[t].PopOldest?
    ensures Places(Step(s, Go(t)), x) == Places(s, x)
  {
    CountUpdate(s.threads, t, CountDropped(s.threads[t].item), Holds(x));
    TimesFirst(s.queue, x);
    TimesAppend(s.evicted, s.queue[0], x);
  }

  lemma PlacesPop<T>(s: State<T>, t: nat, x: T)
    requires t < |s.threads| && s.queue != [] && s.threads[t].PopFront?
    ensures Places(Step(s, Go(t)), x) == Places(s, x)
  {
    CountUpdate(s.threads, t, SubAfterPop(s.queue[0]), Holds(x));
    TimesFirst(s.queue, x);
    TimesAppend(s.dequeued, s.queue[0], x);
  }

  lemma PlacesGo<T>(s: State<T>, t: nat, x: T)
    requires t < |s.threads|
    ensures Places(Step(s, Go(t)), x) == Places(s, x)
    ensures Step(s, Go(t)).submitted == s.submitted
  {
    var pc := s.threads[t];
    var room := |s.queue| < s.cap;
    match pc
    case Push(y) =>
      if room { PlacesPushOk(s, t, AddAfterPush, x); } else { PlacesStay(s, Step(s, Go(t)), t, x); }
    case RetryAfterDrop(y) =>
      if room { PlacesPushOk(s, t, AddAfterRetry(true), x); } else { PlacesDiscard(s, t, true, x); }
    case RetryAfterEmpty(y) =>
      if room { PlacesPushOk(s, t, AddAfterRetry(false), x); } else { PlacesDiscard(s, t, false, x); }
    case PopOldest(y) =>
      if s.queue != [] { PlacesEvict(s, t, x); } else { PlacesStay(s, Step(s, Go(t)), t, x); }
    case PopFront =>
      if s.queue != [] { PlacesPop(s, t, x); } else { PlacesStay(s, Step(s, Go(t)), t, x); }
    case _ => PlacesStay(s, Step(s, Go(t)), t, x);
  }

  lemma PlacesStep<T>(s: State<T>, e: Event<T>, x: T)
    requires Times(s.submitted, x) == Places(s, x)
    ensures Times(Step(s, e).submitted, x) == Places(Step(s, e), x)
  {
    if e.thread < |s.threads| {
      if e.Go? {
        PlacesGo(s, e.thread, x);
      } else if s.threads[e.thread].Idle? {
        CountUpdate(s.threads, e.thread, Step(s, e).threads[e.thread], Holds(x));
        if e.call.Enqueue? { TimesAppend(s.submitted, e.call.item, x); }
      }
    }
  }

  lemma HeldDelta<T>(s: State<T>, e: Event<T>)
    requires e.thread < |s.threads|
    ensures var s' := Step(s, e);
      |s'.submitted| - |s'.queue| - |s'.dequeued| - |s'.evicted| - |s'.discarded| - Bit(Holding(s'.threads[e.thread]))
      == |s.submitted| - |s.queue| - |s.dequeued| - |s.evicted| - |s.discarded| - Bit(Holding(s.threads[e.thread]))
  {
  }

  lemma SizesStep<T>(s: State<T>, e: Event<T>)
    requires SizesAgree(s)
    ensures SizesAgree(Step(s, e))
  {
    if e.thread < |s.threads| {
      OneThreadMoves(s, e);
      HeldDelta(s, e);
      CountUpdate(s.threads, e.thread, Step(s, e).threads[e.thread], Holding);
    }
  }

  lemma ConservedStep<T(!new)>(s: State<T>, e: Event<T>)
    requires Conserved(s)
    ensures Conserved(Step(s, e))
  {
    forall x ensures Times(Step(s, e).submitted, x) == Places(Step(s, e), x) {
      PlacesStep(s, e, x);
    }
    SizesStep(s, e);
  }

  /** The invariants hold in every state of every run, for any capacity >= 1 and any number of threads. */
  lemma {:induction false} EveryRun<T(!new)>(s: State<T>, schedule: seq<Event<T>>)
    requires Inv(s)
    ensures Inv(Run(s, schedule))
    decreases |schedule|
  {
    if schedule != [] {
      FifoStep(s, schedule[0]);
      LengthCountedStep(s, schedule[0]);
      DropsCountedStep(s, schedule[0]);
      ConservedStep(s, schedule[0]);
      EveryRun(Step(s, schedule[0]), schedule[1..]);
    }
  }

  ghost predicate Quiet<T>(s: State<T>) {
    forall t :: 0 <= t < |s.threads| ==> s.threads[t].Idle?
  }

  lemma QuietCounts<T(!new)>(s: State<T>)
    requires Quiet(s)
    ensures Count(s.threads, OwesAdd) == 0 && Count(s.threads, OwesSub) == 0
    ensures Count(s.threads, OwesCount) == 0 && Count(s.threads, OwesTrue) == 0
    ensures Count(s.threads, Holding) == 0
    ensures forall x :: Count(s.threads, Holds(x)) == 0
  {
    CountNone(s.threads, OwesAdd);
    CountNone(s.threads, OwesSub);
    CountNone(s.threads, OwesCount);
    CountNone(s.threads, OwesTrue);
    CountNone(s.threads, Holding);
    forall x ensures Count(s.threads, Holds(x)) == 0 {
      CountNone(s.threads, Holds(x));
    }
  }

  lemma InitInvariants<T(!new)>(cap: nat, n: nat)
    requires cap >= 1
    ensures Inv(Init<T>(cap, n))
  {
    QuietCounts(Init<T>(cap, n));
  }

  /**
   Whenever all threads are idle, after any run: the counters are exact, and what was submitted
   is queued, dequeued, counted as dropped, or lost to a failed retry.  Only the last goes
   uncounted.
   */
  lemma QuietRun<T(!new)>(cap: nat, n: nat, schedule: seq<Event<T>>)
    requires cap >= 1
    requires Quiet(Run(Init(cap, n), schedule))
    ensures var s := Run(Init(cap, n), schedule);
      && s.currentLen == |s.queue| <= cap
      && s.droppedCount == |s.evicted| == TrueReturns(s.results)
      && |s.submitted| == |s.queue| + |s.dequeued| + s.droppedCount + |s.discarded|
  {
    InitInvariants<T>(cap, n);
    EveryRun(Init(cap, n), schedule);
    var s := Run(Init(cap, n), schedule);
    CapConstant(Init<T>(cap, n), schedule);
    QuietCounts(s);
  }

  lemma {:induction false} CapConstant<T>(s: State<T>, schedule: seq<Event<T>>)
    ensures Run(s, schedule).cap == s.cap
    ensures |Run(s, schedule).threads| == |s.threads|
    decreases |schedule|
  {
    if schedule != [] { CapConstant(Step(s, schedule[0]), schedule[1..]); }
  }

  /** In every reachable state the length counter is off by at most the number of busy threads. */
  lemma LengthDrift<T(!new)>(cap: nat, n: nat, schedule: seq<Event<T>>)
    requires cap >= 1
    ensures var s := Run(Init(cap, n), schedule);
      && s.currentLen - |s.queue| <= Count(s.threads, Busy)
      && |s.queue| - s.currentLen <= Count(s.threads, Busy)
  {
    InitInvariants<T>(cap, n);
    EveryRun(Init(cap, n), schedule);
    var s := Run(Init(cap, n), schedule);
    CountWithin(s.threads, OwesAdd, OwesSub, Busy);
  }

  /** What `len()` returns: the counter as an unsigned machine word. */
  function Len<T>(s: State<T>): nat {
    s.currentLen % WORDS
  }
}
