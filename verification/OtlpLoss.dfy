/**
 Runs in which the lock-free queue misleads its callers: `len` of an empty queue reads as a huge
 number, and an enqueue loses its item while answering that nothing was dropped.  Each is possible
 exactly when there are two threads or more, whatever the capacity.
 */
module OtlpLoss {
  import opened Arithmetic
  import opened Counting
  import opened OtlpQueue
  import opened OtlpMachine
  import opened OtlpRuns

  // A single thread.

  /** Alone, a thread finds the queue as it left it. */
  ghost predicate Alone<T>(s: State<T>) {
    && 1 <= s.cap && |s.queue| <= s.cap && |s.threads| <= 1 && s.discarded == []
    && forall t :: 0 <= t < |s.threads| ==>
      var pc := s.threads[t];
      && !pc.RetryAfterEmpty? && (pc.PopOldest? ==> |s.queue| == s.cap)
      && (pc.CountDropped? || pc.SubAfterDrop? || pc.RetryAfterDrop? ==> |s.queue| < s.cap)
      && (OwesAdd(pc) ==> s.queue != [])
  }

  lemma AloneStep<T>(s: State<T>, e: Event<T>)
    requires Alone(s)
    ensures Alone(Step(s, e))
  {
  }

  lemma {:induction false} AloneRun<T>(s: State<T>, schedule: seq<Event<T>>)
    requires Alone(s)
    ensures Alone(Run(s, schedule))
    decreases |schedule|
  {
    if schedule != [] {
      AloneStep(s, schedule[0]);
      AloneRun(Step(s, schedule[0]), schedule[1..]);
    }
  }

  // Two threads and the length.

  ghost predicate ReadsHuge(cap: nat, n: nat, schedule: seq<Event<int>>) {
    var s := Run(Init(cap, n), schedule);
    s.queue == [] && Len(s) > WORDS / 2
  }

  /** A dequeue overtakes the addition that an enqueue still owes. */
  function Overtaking(): seq<Event<int>> { [Begin(0, Enqueue(7)), Go(0), Begin(1, Dequeue), Go(1), Go(1)] }

  lemma HalfEnqueued(cap: nat, n: nat)
    requires 1 <= cap && 2 <= n
    ensures var s := Run(Init(cap, n), [Begin(0, Enqueue(7)), Go(0)]);
      s.queue == [7] && s.currentLen == 0 && |s.threads| == n && s.threads[1] == Idle
  {
    var s0: State<int> := Init(cap, n);
    RunSplit(s0, Begin(0, Enqueue(7)), [Go(0)]);
    RunSplit(Step(s0, Begin(0, Enqueue(7))), Go(0), []);
  }

  lemma OtherDequeues(s: State<int>)
    requires |s.threads| >= 2 && s.threads[1] == Idle && s.queue == [7]
    ensures var s' := Run(s, [Begin(1, Dequeue), Go(1), Go(1)]); s'.queue == [] && s'.currentLen == s.currentLen - 1
  {
    var s1 := Step(s, Begin(1, Dequeue));
    var s2 := Step(s1, Go(1));
    RunSplit(s, Begin(1, Dequeue), [Go(1), Go(1)]);
    RunSplit(s1, Go(1), [Go(1)]);
    RunSplit(s2, Go(1), []);
    assert s2.threads[1] == SubAfterPop(7);
  }

  lemma OvertakingRun(cap: nat, n: nat)
    requires 1 <= cap && 2 <= n
    ensures ReadsHuge(cap, n, Overtaking())
  {
    var a: seq<Event<int>>, b: seq<Event<int>> := [Begin(0, Enqueue(7)), Go(0)], [Begin(1, Dequeue), Go(1), Go(1)];
    HalfEnqueued(cap, n);
    OtherDequeues(Run(Init(cap, n), a));
    RunConcat(Init(cap, n), a, b);
    assert Overtaking() == a + b;
  }

  lemma RunSplit<T>(s: State<T>, e: Event<T>, rest: seq<Event<T>>)
    ensures Run(s, [e] + rest) == Run(Step(s, e), rest)
  {
    assert ([e] + rest)[1..] == rest;
  }

  /** `len` of an empty queue can read as a huge number exactly when there are two threads. */
  lemma EmptyReadsHugeIff(cap: nat, n: nat)
    requires 1 <= cap && cap + n < WORDS / 2
    ensures (exists schedule: seq<Event<int>> :: ReadsHuge(cap, n, schedule)) <==> n >= 2
  {
    if n >= 2 {
      OvertakingRun(cap, n);
    } else {
      forall schedule: seq<Event<int>> ensures !ReadsHuge(cap, n, schedule) {
        AloneRun(Init<int>(cap, n), schedule);
        LenWrapsIff<int>(cap, n, schedule);
        var s := Run(Init<int>(cap, n), schedule);
        if s.queue == [] { OneOwes(s); }
      }
    }
  }

  lemma OneOwes<T>(s: State<T>)
    requires Alone(s) && s.queue == []
    ensures Count(s.threads, OwesAdd) == 0
  {
  }

  // Two threads and a lost item.

  /** All calls have returned, an item is gone, and nobody was told. */
  ghost predicate SilentLoss(cap: nat, n: nat, schedule: seq<Event<int>>) {
    Misled(Run(Init(cap, n), schedule))
  }

  ghost predicate Misled(s: State<int>) {
    Quiet(s) && s.discarded != [] && s.droppedCount == 0 && Enqueued(true) !in s.results
  }

  function Repeat<T>(x: T, k: nat): (xs: seq<T>)
    ensures |xs| == k
  {
    if k == 0 then [] else [x] + Repeat(x, k - 1)
  }

  lemma {:induction false} RepeatMore<T>(x: T, k: nat)
    ensures Repeat(x, k) + [x] == Repeat(x, k + 1)
  {
    if k > 0 {
      RepeatMore(x, k - 1);
      assert [x] + Repeat(x, k - 1) + [x] == [x] + (Repeat(x, k - 1) + [x]);
    }
  }

  /** Thread 0 puts in k items, or takes out k items, one after another. */
  function Fill(k: nat): seq<Event<int>> { SoloAll(0, Repeat(Enqueue(1), k)) }
  function Drain(k: nat): seq<Event<int>> { SoloAll(0, Repeat(Dequeue, k)) }

  /** Thread 1 has come to the given point of its call, the others are idle; nothing has gone wrong so far. */
  ghost predicate Stage(s: State<int>, cap: nat, n: nat, items: nat, pc: Pc<int>) {
    && s.cap == cap && s.queue == Repeat(1, items) && s.currentLen == items
    && s.droppedCount == 0 && Enqueued(true) !in s.results
    && |s.threads| == n && n >= 2 && s.threads[1] == pc
    && forall t :: 0 <= t < n && t != 1 ==> s.threads[t].Idle?
  }

  lemma OneMore(s: State<int>, cap: nat, n: nat, items: nat, pc: Pc<int>)
    requires Stage(s, cap, n, items, pc) && items < cap
    ensures var s' := Run(s, Solo(0, Enqueue(1))); Stage(s', cap, n, items + 1, pc) && s'.discarded == s.discarded
  {
    SoloRoomy(s, 0, 1);
    RepeatMore(1, items);
  }

  lemma OneLess(s: State<int>, cap: nat, n: nat, items: nat, pc: Pc<int>)
    requires Stage(s, cap, n, items, pc) && items > 0
    ensures var s' := Run(s, Solo(0, Dequeue)); Stage(s', cap, n, items - 1, pc) && s'.discarded == s.discarded
  {
    SoloPop(s, 0);
  }

  lemma {:induction false} Filled(s: State<int>, cap: nat, n: nat, items: nat, pc: Pc<int>, k: nat)
    requires Stage(s, cap, n, items, pc) && items + k <= cap
    ensures var s' := Run(s, Fill(k)); Stage(s', cap, n, items + k, pc) && s'.discarded == s.discarded
    decreases k
  {
    if k > 0 {
      OneMore(s, cap, n, items, pc);
      Filled(Run(s, Solo(0, Enqueue(1))), cap, n, items + 1, pc, k - 1);
      RunConcat(s, Solo(0, Enqueue(1)), Fill(k - 1));
      SoloNext(Enqueue(1), k);
    }
  }

  lemma {:induction false} Drained(s: State<int>, cap: nat, n: nat, pc: Pc<int>, k: nat)
    requires Stage(s, cap, n, k, pc)
    ensures var s' := Run(s, Drain(k)); Stage(s', cap, n, 0, pc) && s'.discarded == s.discarded
    decreases k
  {
    if k > 0 {
      OneLess(s, cap, n, k, pc);
      Drained(Run(s, Solo(0, Dequeue)), cap, n, pc, k - 1);
      RunConcat(s, Solo(0, Dequeue), Drain(k - 1));
      SoloNext(Dequeue, k);
    }
  }

  lemma SoloNext(call: Call<int>, k: nat)
    requires k > 0
    ensures SoloAll(0, Repeat(call, k)) == Solo(0, call) + SoloAll(0, Repeat(call, k - 1))
  {
    assert Repeat(call, k)[1..] == Repeat(call, k - 1);
  }

  /** Thread 1 finds the queue full. */
  lemma PushFails(s: State<int>, cap: nat, n: nat)
    requires 1 <= cap && Stage(s, cap, n, cap, Idle)
    ensures var s' := Run(s, [Begin(1, Enqueue(2)), Go(1)]);
      Stage(s', cap, n, cap, PopOldest(2)) && s'.discarded == s.discarded
  {
    RunSplit(s, Begin(1, Enqueue(2)), [Go(1)]);
    RunSplit(Step(s, Begin(1, Enqueue(2))), Go(1), []);
  }

  /** When it makes room there is room already. */
  lemma PopFails(s: State<int>, cap: nat, n: nat)
    requires Stage(s, cap, n, 0, PopOldest(2))
    ensures var s' := Run(s, [Go(1)]); Stage(s', cap, n, 0, RetryAfterEmpty(2)) && s'.discarded == s.discarded
  {
    RunSplit(s, Go(1), []);
  }

  /** And when it tries again there is none. */
  lemma RetryFails(s: State<int>, cap: nat, n: nat)
    requires 1 <= cap && Stage(s, cap, n, cap, RetryAfterEmpty(2)) && s.discarded == []
    ensures Misled(Run(s, [Go(1)]))
  {
    RunSplit(s, Go(1), []);
  }

  lemma LossRun(cap: nat, n: nat) returns (schedule: seq<Event<int>>)
    requires 1 <= cap && 2 <= n
    ensures SilentLoss(cap, n, schedule)
  {
    var s0: State<int> := Init(cap, n);
    assert Stage(s0, cap, n, 0, Idle);
    Filled(s0, cap, n, 0, Idle, cap);
    var a := Fill(cap);
    PushFails(Run(s0, a), cap, n);
    var b := a + [Begin(1, Enqueue(2)), Go(1)];
    RunConcat(s0, a, [Begin(1, Enqueue(2)), Go(1)]);
    Drained(Run(s0, b), cap, n, PopOldest(2), cap);
    var c := b + Drain(cap);
    RunConcat(s0, b, Drain(cap));
    PopFails(Run(s0, c), cap, n);
    var d := c + [Go(1)];
    RunConcat(s0, c, [Go(1)]);
    Filled(Run(s0, d), cap, n, 0, RetryAfterEmpty(2), cap);
    var e := d + Fill(cap);
    RunConcat(s0, d, Fill(cap));
    RetryFails(Run(s0, e), cap, n);
    RunConcat(s0, e, [Go(1)]);
    schedule := e + [Go(1)];
  }

  /**
   An enqueue can lose its item and still return false, the answer for "nothing dropped", exactly
   when there are two threads: its push finds the queue full, its pop finds it emptied, its retry
   finds it refilled.
   */
  lemma SilentLossIff(cap: nat, n: nat)
    requires 1 <= cap
    ensures (exists schedule: seq<Event<int>> :: SilentLoss(cap, n, schedule)) <==> n >= 2
  {
    if n >= 2 {
      var schedule := LossRun(cap, n);
    } else {
      forall schedule: seq<Event<int>> ensures !SilentLoss(cap, n, schedule) {
        AloneRun(Init<int>(cap, n), schedule);
      }
    }
  }
}
