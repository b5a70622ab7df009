/** Runs of the lock-free queue: how long a call takes, calls made one at a time, and what `len` shows. */
module OtlpRuns {
  import opened Arithmetic
  import opened Counting
  import opened OtlpQueue
  import opened OtlpMachine
  import opened Wrappers

  lemma {:induction false} RunConcat<T>(s: State<T>, a: seq<Event<T>>, b: seq<Event<T>>)
    ensures Run(s, a + b) == Run(Run(s, a), b)
    decreases |a|
  {
    if a == [] {
      assert a + b == b;
    } else {
      assert (a + b)[1..] == a[1..] + b;
      RunConcat(Step(s, a[0]), a[1..], b);
    }
  }

  // Wait-freedom.

  /** The most accesses the current call can still make. */
  function StepsLeft<T>(pc: Pc<T>): nat {
    match pc
    case Idle => 0
    case Push(_) => 6
    case PopOldest(_) => 5
    case CountDropped(_) => 4
    case SubAfterDrop(_) => 3
    case RetryAfterDrop(_) => 2
    case RetryAfterEmpty(_) => 2
    case AddAfterPush => 1
    case AddAfterRetry(_) => 1
    case PopFront => 2
    case SubAfterPop(_) => 1
  }

  function Goes<T>(t: nat, schedule: seq<Event<T>>): nat {
    if schedule == [] then 0
    else (if schedule[0] == Go(t) then 1 else 0) + Goes(t, schedule[1..])
  }

  /** A call ends after at most six of its own accesses, whatever the other threads do meanwhile. */
  lemma {:induction false} WaitFree<T>(s: State<T>, t: nat, schedule: seq<Event<T>>)
    requires t < |s.threads|
    requires forall e :: e in schedule && e.Begin? ==> e.thread != t
    requires StepsLeft(s.threads[t]) <= Goes(t, schedule)
    ensures |Run(s, schedule).threads| == |s.threads|
    ensures Run(s, schedule).threads[t].Idle?
    decreases |schedule|
  {
    if schedule != [] {
      var s' := Step(s, schedule[0]);
      assert |s'.threads| == |s.threads|;
      if schedule[0].thread == t {
        assert schedule[0] in schedule;
        assert s.threads[t].Idle? || StepsLeft(s'.threads[t]) < StepsLeft(s.threads[t]);
      } else {
        assert s'.threads[t] == s.threads[t];
      }
      WaitFree(s', t, schedule[1..]);
    }
  }

  // One call at a time.

  /** Thread t makes one call with nobody else running; a call needs at most six accesses. */
  function Solo<T>(t: nat, call: Call<T>): seq<Event<T>> {
    [Begin(t, call), Go(t), Go(t), Go(t), Go(t), Go(t), Go(t)]
  }

  function SoloAll<T>(t: nat, calls: seq<Call<T>>): seq<Event<T>> {
    if calls == [] then [] else Solo(t, calls[0]) + SoloAll(t, calls[1..])
  }

  function View<T>(s: State<T>): Bounded<T> {
    Bounded(s.cap, s.queue, s.droppedCount)
  }

  /** No update of the length is owed; other threads may be anywhere else in their calls. */
  ghost predicate Steady<T>(s: State<T>) {
    1 <= s.cap && |s.queue| <= s.cap && s.currentLen == |s.queue|
  }

  /** Seven steps, each on the named state. */
  lemma SevenSteps<T>(s: State<T>, t: nat, call: Call<T>)
    ensures Run(s, Solo(t, call)) ==
      Step(Step(Step(Step(Step(Step(Step(s, Begin(t, call)), Go(t)), Go(t)), Go(t)), Go(t)), Go(t)), Go(t))
  {
    var g := Go(t);
    RunConcat(s, [Begin(t, call)], [g, g, g, g, g, g]);
    RunConcat(Step(s, Begin(t, call)), [g, g, g], [g, g, g]);
    ThreeSteps(Step(s, Begin(t, call)), g);
    ThreeSteps(Step(Step(Step(Step(s, Begin(t, call)), g), g), g), g);
    assert Solo(t, call) == [Begin(t, call)] + [g, g, g, g, g, g];
    assert [g, g, g, g, g, g] == [g, g, g] + [g, g, g];
  }

  lemma ThreeSteps<T>(s: State<T>, e: Event<T>)
    ensures Run(s, [e, e, e]) == Step(Step(Step(s, e), e), e)
  {
    assert [e, e, e][1..] == [e, e] && [e, e][1..] == [e] && [e][1..] == [];
    assert Run(Step(s, e), [e, e]) == Run(Step(Step(s, e), e), [e]);
    assert Run(Step(Step(s, e), e), [e]) == Run(Step(Step(Step(s, e), e), e), []);
  }

  lemma IdleStays<T>(s: State<T>, t: nat)
    requires t < |s.threads| && s.threads[t].Idle?
    ensures Step(s, Go(t)) == s
  {
  }

  /** The two accesses of an enqueue that finds room, and four that do nothing. */
  lemma RoomyEnqueue<T>(s: State<T>, t: nat, x: T)
    requires t < |s.threads| && s.threads[t] == Push(x) && |s.queue| < s.cap
    ensures var g := Go(t);
      Step(Step(Step(Step(Step(Step(s, g), g), g), g), g), g) == s.(
        queue := s.queue + [x], pushed := s.pushed + [x], currentLen := s.currentLen + 1,
        threads := s.threads[t := Idle], results := s.results + [Enqueued(false)])
  {
    var g := Go(t);
    var s2 := Step(Step(s, g), g);
    assert s2.threads == s.threads[t := Idle];
    IdleStays(s2, t);
  }

  /** The six accesses of an enqueue that finds the queue full. */
  lemma FullEnqueue<T>(s: State<T>, t: nat, x: T)
    requires t < |s.threads| && s.threads[t] == Push(x) && 1 <= s.cap == |s.queue|
    ensures var g := Go(t);
      Step(Step(Step(Step(Step(Step(s, g), g), g), g), g), g) == s.(
        queue := s.queue[1..] + [x], pushed := s.pushed + [x],
        removed := s.removed + [s.queue[0]], evicted := s.evicted + [s.queue[0]],
        droppedCount := s.droppedCount + 1, threads := s.threads[t := Idle],
        results := s.results + [Enqueued(true)])
  {
    var g := Go(t);
    var s1 := Step(s, g);
    var s2 := Step(s1, g);
    var s3 := Step(s2, g);
    var s4 := Step(s3, g);
    var s5 := Step(s4, g);
    assert s1.threads[t] == PopOldest(x) && s2.threads[t] == CountDropped(x);
    assert s3.threads[t] == SubAfterDrop(x) && s4.threads[t] == RetryAfterDrop(x);
    assert s5.threads[t] == AddAfterRetry(true);
    assert Step(s5, g).threads == s.threads[t := Idle];
  }

  lemma SoloRoomy<T>(s: State<T>, t: nat, x: T)
    requires t < |s.threads| && s.threads[t].Idle? && |s.queue| < s.cap
    ensures Run(s, Solo(t, Enqueue(x))) == s.(
        submitted := s.submitted + [x], queue := s.queue + [x], pushed := s.pushed + [x],
        currentLen := s.currentLen + 1, results := s.results + [Enqueued(false)])
  {
    SevenSteps(s, t, Enqueue(x));
    RoomyEnqueue(Step(s, Begin(t, Enqueue(x))), t, x);
    assert s.threads[t := Push(x)][t := Idle] == s.threads;
  }

  lemma SoloFull<T>(s: State<T>, t: nat, x: T)
    requires t < |s.threads| && s.threads[t].Idle? && 1 <= s.cap == |s.queue|
    ensures Run(s, Solo(t, Enqueue(x))) == s.(
        submitted := s.submitted + [x], queue := s.queue[1..] + [x], pushed := s.pushed + [x],
        removed := s.removed + [s.queue[0]], evicted := s.evicted + [s.queue[0]],
        droppedCount := s.droppedCount + 1, results := s.results + [Enqueued(true)])
  {
    SevenSteps(s, t, Enqueue(x));
    FullEnqueue(Step(s, Begin(t, Enqueue(x))), t, x);
    assert s.threads[t := Push(x)][t := Idle] == s.threads;
  }

  lemma SoloEnqueue<T>(s: State<T>, t: nat, x: T)
    requires Steady(s) && t < |s.threads| && s.threads[t].Idle?
    ensures var (q, dropped) := View(s).Enqueue(x); Served(s, Run(s, Solo(t, Enqueue(x))), q, [Enqueued(dropped)])
  {
    if |s.queue| < s.cap {
      SoloRoomy(s, t, x);
    } else {
      SoloFull(s, t, x);
    }
  }

  lemma SoloPop<T>(s: State<T>, t: nat)
    requires t < |s.threads| && s.threads[t].Idle? && s.queue != []
    ensures Run(s, Solo(t, Dequeue)) == s.(
        queue := s.queue[1..], removed := s.removed + [s.queue[0]], dequeued := s.dequeued + [s.queue[0]],
        currentLen := s.currentLen - 1, results := s.results + [Dequeued(Some(s.queue[0]))])
  {
    SevenSteps(s, t, Dequeue);
    var g := Go(t);
    var s2 := Step(Step(s, Begin(t, Dequeue)), g);
    assert s2.threads[t] == SubAfterPop(s.queue[0]);
    var s3 := Step(s2, g);
    assert s3.threads == s.threads;
    IdleStays(s3, t);
  }

  lemma SoloPopNone<T>(s: State<T>, t: nat)
    requires t < |s.threads| && s.threads[t].Idle? && s.queue == []
    ensures Run(s, Solo(t, Dequeue)) == s.(results := s.results + [Dequeued(None)])
  {
    SevenSteps(s, t, Dequeue);
    var s2 := Step(Step(s, Begin(t, Dequeue)), Go(t));
    assert s2.threads == s.threads;
    IdleStays(s2, t);
  }

  lemma SoloDequeue<T>(s: State<T>, t: nat)
    requires Steady(s) && t < |s.threads| && s.threads[t].Idle?
    ensures var (q, item) := View(s).Dequeue(); Served(s, Run(s, Solo(t, Dequeue)), q, [Dequeued(item)])
  {
    if s.queue == [] {
      SoloPopNone(s, t);
    } else {
      SoloPop(s, t);
    }
  }

  /** From s the queue has come to hold q and has returned rs, with nothing lost and the threads where they were. */
  ghost predicate Served<T>(s: State<T>, s': State<T>, q: Bounded<T>, rs: seq<Return<T>>) {
    && Steady(s') && s'.threads == s.threads && s'.discarded == s.discarded
    && View(s') == q && s'.results == s.results + rs
  }

  lemma ServedOne<T>(s: State<T>, t: nat, call: Call<T>)
    requires Steady(s) && t < |s.threads| && s.threads[t].Idle?
    ensures var (q, r) := ServeOne(View(s), call); Served(s, Run(s, Solo(t, call)), q, [r])
  {
    match call {
      case Enqueue(x) => SoloEnqueue(s, t, x);
      case Dequeue => SoloDequeue(s, t);
    }
  }

  lemma ServedThen<T>(s: State<T>, mid: State<T>, end: State<T>, q: Bounded<T>, q': Bounded<T>,
                      rs: seq<Return<T>>, rs': seq<Return<T>>)
    requires Served(s, mid, q, rs) && Served(mid, end, q', rs')
    ensures Served(s, end, q', rs + rs')
  {
    assert (s.results + rs) + rs' == s.results + (rs + rs');
  }

  /**
   Over every sequence of calls that one thread makes while the others stand still, owing nothing,
   the lock-free queue refines the mutex queue: same contents, same returned values, same drop
   count, exact length, and nothing discarded.
   */
  lemma {:induction false} SoloRefinesMutex<T>(s: State<T>, t: nat, calls: seq<Call<T>>)
    requires Steady(s) && t < |s.threads| && s.threads[t].Idle?
    ensures var (q, rs) := Serve(View(s), calls); Served(s, Run(s, SoloAll(t, calls)), q, rs)
    decreases |calls|
  {
    if calls != [] {
      ServedOne(s, t, calls[0]);
      var (q, r) := ServeOne(View(s), calls[0]);
      var (q', rs) := Serve(q, calls[1..]);
      var mid := Run(s, Solo(t, calls[0]));
      SoloRefinesMutex(mid, t, calls[1..]);
      var end := Run(mid, SoloAll(t, calls[1..]));
      RunConcat(s, Solo(t, calls[0]), SoloAll(t, calls[1..]));
      ServedThen(s, mid, end, q, q', [r], rs);
    }
  }

  // What the length counter shows.

  /** `len()` shows a huge number exactly when more additions are owed than the queue and the owed subtractions hold. */
  lemma LenWrapsIff<T(!new)>(cap: nat, n: nat, schedule: seq<Event<T>>)
    requires 1 <= cap && cap + n < WORDS / 2
    ensures var s := Run(Init(cap, n), schedule);
      var adds, subs := Count(s.threads, OwesAdd), Count(s.threads, OwesSub);
      if |s.queue| + subs < adds
      then Len(s) == WORDS - (adds - subs - |s.queue|) && Len(s) > WORDS / 2
      else Len(s) == |s.queue| + subs - adds && Len(s) <= cap + n
  {
    InitInvariants<T>(cap, n);
    EveryRun(Init(cap, n), schedule);
    CapConstant(Init<T>(cap, n), schedule);
    var s := Run(Init(cap, n), schedule);
    CountAtMost(s.threads, OwesAdd);
    CountAtMost(s.threads, OwesSub);
    Wrapped(s.currentLen, cap + n);
  }

  lemma Wrapped(x: int, bound: nat)
    requires 0 - bound <= x <= bound < WORDS / 2
    ensures x % WORDS == if x < 0 then WORDS + x else x
  {
  }
}
