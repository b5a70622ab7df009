/**
 What the configured range and the longest timer decide.  Three promises, each kept on every run
 exactly when the two limits meet a bound: `next_deadline` reports the earliest timer,
 `collect_expired` fires all that is due, and the loop of `refill_overflow` ends.
 */
module WheelRanges {
  import opened Wrappers
  import opened WheelAdvance
  import opened WheelClock
  import opened WheelDeadline
  import opened WheelDrain
  import opened WheelGroup
  import opened WheelReach
  import opened WheelRuns
  import opened WheelStorage
  import opened WheelTurn

  /** The wheel after a run from a fresh start. */
  ghost function After(config: Config, start: nat, ops: seq<Op<int>>): (w: Wheel<int>)
    requires config.Settles()
    ensures Fit(config, w.storage)
  {
    FreshFacts<int>(start / MS, config.Reach());
    RunFit(config, Start(start), ops);
    Run(config, Start(start), ops)
  }

  lemma {:induction false} RunSnoc(config: Config, w: Wheel<int>, ops: seq<Op<int>>, op: Op<int>)
    requires Shaped(w.storage) && config.Settles()
    ensures Run(config, w, ops + [op]) == Do(config, Run(config, w, ops), op)
    decreases |ops|
  {
    if ops == [] {
      assert Run(config, Do(config, w, op), []) == Do(config, w, op);
    } else {
      assert (ops + [op])[1..] == ops[1..] + [op];
      RunSnoc(config, Do(config, w, ops[0]), ops[1..], op);
    }
  }

  lemma AfterSnoc(config: Config, start: nat, ops: seq<Op<int>>, op: Op<int>)
    requires config.Settles()
    ensures After(config, start, ops + [op]) == Do(config, After(config, start, ops), op)
  {
    RunSnoc(config, Start(start), ops, op);
  }

  lemma AfterFirst(config: Config, op: Op<int>)
    requires config.Settles()
    ensures Shaped(Start<int>(0).storage) && After(config, 0, [op]) == Do(config, Start(0), op)
  {
    AfterSnoc(config, 0, [], op);
    assert [] + [op] == [op];
    assert After(config, 0, []) == Start(0);
  }

  // Reporting the earliest timer.

  ghost predicate ReportsEarliest(config: Config, start: nat, ops: seq<Op<int>>, m: Option<nat>)
    requires config.Settles()
  {
    var w := After(config, start, ops);
    Reports(config, w, m) ==> IsEarliest(w.active, w.storage, m)
  }

  /**
   A timer due at 256 ms that is registered at tick 0, and one due half a millisecond later that is
   registered at tick 1, are on different levels.
   */
  function Sooner(): Entry<int> { Entry(SLOTS * MS, 1, 0, 0) }
  function Later(): Entry<int> { Entry(SLOTS * MS + MS / 2, 2, 1, 1) }

  function TwoTimers(): seq<Op<int>> {
    [Register(SLOTS * MS, 1, 0), Synchronize(MS), Register(SLOTS * MS + MS / 2, 2, 1)]
  }

  /** Both the range and the longest timer go beyond the finest level. */
  predicate Long(config: Config) {
    config.Settles() && SLOTS * MS < config.maxRange && SLOTS * MS <= config.maxTimer
  }

  lemma TwoPlaces(maxRange: nat)
    requires SLOTS * MS < maxRange
    ensures PlaceOf(0, maxRange, Sooner()) == Slot(1, 1) && PlaceOf(1, maxRange, Later()) == Slot(0, 0)
  {
    assert Res(0) == 1 && Res(1) == 256 && Res(2) == 65536;
  }

  ghost function SoonerStored(): Storage<int> {
    var st := FreshStorage<int>(0);
    st.(levels := st.levels[1 := PushSlot(st.levels[1], 1, Sooner())])
  }

  lemma SoonerRegistered(config: Config)
    requires Long(config)
    ensures After(config, 0, [Register(SLOTS * MS, 1, 0)]) == Wheel(SoonerStored(), map[0 := 0], 1)
  {
    AfterFirst(config, Register(SLOTS * MS, 1, 0));
    TwoPlaces(config.maxRange);
  }

  lemma SoonerQuiet(reach: nat)
    requires AtRest(SoonerStored(), reach)
    ensures QuietFor(SoonerStored(), reach, 1)
  {
    var st := SoonerStored();
    forall i: nat, s: nat, e | i < LEVELS && s < SLOTS && e in st.levels[i].slots[s]
      ensures 2 <= Hand(e.Due(), i) * Res(i)
    {
      assert i == 1 && e == Sooner() && Res(0) == 1 && Res(1) == 256;
    }
  }

  /** A tick in which nothing falls due only moves the hands. */
  lemma QuietSynchronized(config: Config, w: Wheel<int>)
    requires config.Settles() && w.storage.tick == 0 && QuietFor(w.storage, config.Reach(), 1)
    ensures Do(config, w, Synchronize(MS)) == w.(storage := JumpTo(w.storage, 1))
  {
    QuietTicks(w.storage, config.Reach(), w.active, 1);
  }

  lemma SoonerSynchronized(config: Config)
    requires Long(config)
    ensures After(config, 0, [Register(SLOTS * MS, 1, 0), Synchronize(MS)])
      == Wheel(JumpTo(SoonerStored(), 1), map[0 := 0], 1)
  {
    var ops: seq<Op<int>> := [Register(SLOTS * MS, 1, 0)];
    SoonerRegistered(config);
    SoonerQuiet(config.Reach());
    QuietSynchronized(config, Wheel(SoonerStored(), map[0 := 0], 1));
    AfterSnoc(config, 0, ops, Synchronize(MS));
    assert ops + [Synchronize(MS)] == [Register(SLOTS * MS, 1, 0), Synchronize(MS)];
  }

  ghost function WithLater(mid: Storage<int>): Storage<int>
    requires Shaped(mid)
  {
    mid.(levels := mid.levels[0 := PushSlot(mid.levels[0], 0, Later())])
  }

  lemma LaterRegistered(config: Config, mid: Storage<int>)
    requires Long(config) && Shaped(mid) && mid.tick == 1
    ensures Do(config, Wheel(mid, map[0 := 0], 1), Register(SLOTS * MS + MS / 2, 2, 1))
      == Wheel(WithLater(mid), map[0 := 0, 1 := 1], 2)
  {
    TwoPlaces(config.maxRange);
    assert Insert(mid, config.maxRange, Later()) == WithLater(mid);
  }

  /** The wheel with both timers, as the three operations leave it. */
  lemma BothRegistered(config: Config)
    requires Long(config)
    ensures After(config, 0, TwoTimers()) == Wheel(WithLater(JumpTo(SoonerStored(), 1)), map[0 := 0, 1 := 1], 2)
  {
    var ops: seq<Op<int>>, op: Op<int> :=
      [Register(SLOTS * MS, 1, 0), Synchronize(MS)], Register(SLOTS * MS + MS / 2, 2, 1);
    SoonerSynchronized(config);
    AfterSnoc(config, 0, ops, op);
    assert ops + [op] == TwoTimers();
    LaterRegistered(config, JumpTo(SoonerStored(), 1));
  }

  /** The later of the two is reported, and the earlier one is overslept. */
  lemma LongRangeOversleeps(config: Config)
    requires Long(config) && config.coalescing.window == 0
    ensures !ReportsEarliest(config, 0, TwoTimers(), Some(Later().deadline))
  {
    BothRegistered(config);
    BothStored();
    FoundLater(map[0 := 0, 1 := 1], WithLater(JumpTo(SoonerStored(), 1)));
    SoonerPending(map[0 := 0, 1 := 1], WithLater(JumpTo(SoonerStored(), 1)));
  }

  ghost predicate HoldsBoth(st: Storage<int>) {
    && Shaped(st) && st.tick == 1 && st.ready == [] && st.levels[0].slots[0] == [Later()]
    && (forall s :: 0 < s < SLOTS ==> st.levels[0].slots[s] == [])
    && Sooner() in st.levels[1].slots[1]
  }

  lemma BothStored()
    ensures HoldsBoth(WithLater(JumpTo(SoonerStored(), 1)))
  {
  }

  lemma SoonerPending(active: Active, st: Storage<int>)
    requires HoldsBoth(st) && active == map[0 := 0, 1 := 1]
    ensures !IsEarliest(active, st, Some(Later().deadline))
  {
    assert Holds(st.levels[1], Sooner());
    assert Pending(active, st, Sooner()) && Clamped(st, Sooner()) < Later().deadline;
  }

  lemma FoundLater(active: Active, st: Storage<int>)
    requires HoldsBoth(st) && active == map[0 := 0, 1 := 1]
    ensures Reported(active, st, Some(Later().deadline))
  {
    var lv := st.levels[0];
    var k := SlotIsRound(1, 0, lv, 0);
    assert Later() in lv.slots[0] && !NoneLive(active, WheelDeadline.Round(1, 0, lv, k));
    forall j: nat | j < k ensures NoneLive(active, WheelDeadline.Round(1, 0, lv, j)) {
      assert (Hand(1, 0) % SLOTS + j) % SLOTS != 0;
    }
    assert FoundAt(active, 1, 0, lv, Some(Later().deadline), k);
  }

  lemma {:induction false} IdleReport<W(!new)>(active: Active, st: Storage<W>, i: nat, m: Option<nat>)
    requires Shaped(st) && i <= LEVELS && LevelsIdle(active, st, i) && Least(active, st.overflow, m)
    ensures FromLevels(active, st, i, m)
    decreases LEVELS - i
  {
    if i < LEVELS { IdleReport(active, st, i + 1, m); }
  }

  function Instant(): Entry<int> { Entry(1, 1, 0, 0) }

  ghost function InstantStored(): Storage<int> { FreshStorage(0).(overflow := [Instant()]) }

  lemma InstantRegistered(config: Config)
    requires config.maxRange == 0 < config.maxTimer
    ensures After(config, 0, [Register(1, 1, 0)]) == Wheel(InstantStored(), map[0 := 0], 1)
  {
    AfterFirst(config, Register(1, 1, 0));
  }

  lemma InstantQuiet()
    ensures QuietFor(InstantStored(), 0, 1)
  {
  }

  lemma InstantSynchronized(config: Config)
    requires config.maxRange == 0 < config.maxTimer
    ensures After(config, 0, [Register(1, 1, 0), Synchronize(MS)])
      == Wheel(JumpTo(InstantStored(), 1), map[0 := 0], 1)
  {
    InstantRegistered(config);
    InstantQuiet();
    var ops: seq<Op<int>> := [Register(1, 1, 0)];
    QuietSynchronized(config, Wheel(InstantStored(), map[0 := 0], 1));
    AfterSnoc(config, 0, ops, Synchronize(MS));
    assert ops + [Synchronize(MS)] == [Register(1, 1, 0), Synchronize(MS)];
  }

  lemma FoundInstant(active: Active, st: Storage<int>)
    requires Shaped(st) && st.tick == 1 && st.ready == [] && st.overflow == [Instant()] && active == map[0 := 0]
    requires forall i, s :: 0 <= i < LEVELS && 0 <= s < SLOTS ==> st.levels[i].slots[s] == []
    ensures Reported(active, st, Some(1))
  {
    assert IsLive(active, Instant()) && Instant() in st.overflow;
    assert LevelsIdle(active, st, 0);
    IdleReport(active, st, 0, Some(1));
  }

  /** With no range at all a timer stays in the overflow for ever, and its past deadline is reported. */
  lemma NoRangeReportsPast(config: Config)
    requires config.maxRange == 0 < config.maxTimer && config.coalescing.window == 0
    ensures !ReportsEarliest(config, 0, [Register(1, 1, 0), Synchronize(MS)], Some(1))
  {
    InstantSynchronized(config);
    var w := After(config, 0, [Register(1, 1, 0), Synchronize(MS)]);
    FoundInstant(w.active, w.storage);
  }

  /**
   Without coalescing, `next_deadline` reports the earliest timer after every run exactly when the
   range or the longest timer keeps the wheel to its finest level, and a range of zero only if no
   timer is ever ahead.
   */
  lemma ReportsEarliestIff(config: Config)
    requires config.Settles() && config.coalescing.window == 0
    ensures (forall start: nat, ops: seq<Op<int>>, m: Option<nat> :: ReportsEarliest(config, start, ops, m))
      <==> ((config.maxRange <= SLOTS * MS || config.maxTimer < SLOTS * MS)
            && (config.maxRange > 0 || config.maxTimer == 0))
  {
    if 0 < config.Reach() <= SLOTS * MS {
      forall start: nat, ops: seq<Op<int>>, m: Option<nat> ensures ReportsEarliest(config, start, ops, m) {
        var w := After(config, start, ops);
        if Reported(w.active, w.storage, m) { ShortRangeReports(w.active, w.storage, config.Reach(), m); }
      }
    } else if config.maxRange == 0 {
      NoRangeReportsPast(config);
    } else {
      LongRangeOversleeps(config);
    }
  }

  // Firing what is due.

  /** No timer that is due is still pending after a collection. */
  ghost predicate CollectsAll(config: Config, start: nat, ops: seq<Op<int>>, now: nat)
    requires config.Settles()
  {
    var w := After(config, start, ops + [CollectExpired(now)]);
    forall e :: Pending(w.active, w.storage, e) ==> e.deadline > now
  }

  /** The range takes in everything less than a tick away, or every timer there is. */
  predicate TakesIn(config: Config) {
    MS <= config.maxRange || config.maxTimer < config.maxRange || config.maxTimer == 0
  }

  lemma TakesInReach<W(!new)>(config: Config, st: Storage<W>)
    requires Fit(config, st) && TakesIn(config)
    ensures MS <= config.Reach() || st.overflow == []
  {
    if config.maxTimer < config.Reach() { NothingBeyond(st, config.maxTimer, config.Reach()); }
  }

  /** A timer that is due is on the ready list, if what is less than a tick away is not in the overflow. */
  lemma DueIsReady<W>(st: Storage<W>, reach: nat, now: nat, e: Entry<W>)
    requires AtRest(st, reach) && Stored(st, e) && now / MS <= st.tick && e.deadline <= now
    requires MS <= reach || st.overflow == []
    ensures e in st.ready && !Stored(st.(ready := []), e)
  {
    TicksBelow(now, st.tick + 1);
    TicksBelow(e.deadline, st.tick + 1);
    if e in st.overflow {
      assert false;
    }
    if InLevels(st.levels, e) {
      var i :| 0 <= i < LEVELS && Holds(st.levels[i], e);
      var s :| 0 <= s < SLOTS && e in st.levels[i].slots[s];
      FitsLater(st.tick, i, s, e.Due());
      assert false;
    }
  }

  /** A timer whose deadline the wheel's own clock has passed is there for any reach but zero. */
  lemma PastIsReady<W>(st: Storage<W>, reach: nat, e: Entry<W>)
    requires AtRest(st, reach) && Stored(st, e) && e.deadline <= st.tick * MS && 0 < reach
    ensures e in st.ready
  {
    TicksBelow(e.deadline, st.tick + 1);
    if InLevels(st.levels, e) {
      var i :| 0 <= i < LEVELS && Holds(st.levels[i], e);
      var s :| 0 <= s < SLOTS && e in st.levels[i].slots[s];
      FitsLater(st.tick, i, s, e.Due());
      assert false;
    }
  }

  /** What is left in storage when the entries to look at are gathered is not due. */
  lemma GatheredDue<W(!new)>(config: Config, st: Storage<W>, now: nat, e: Entry<W>)
    requires Fit(config, st) && now / MS <= st.tick && (TakesIn(config) || config.coalescing.window > 0)
    ensures Shaped(st) && (Stored(Gathered(config.coalescing, st, now).storage, e) ==> e.deadline > now)
  {
    if config.coalescing.window > 0 {
      GatheredAll(config.coalescing, st, config.Reach(), now, e);
    } else if Stored(st, e) && e.deadline <= now {
      TakesInReach(config, st);
      DueIsReady(st, config.Reach(), now, e);
    }
  }

  lemma CollectedNotDue<W(!new)>(config: Config, w: Wheel<W>, now: nat, e: Entry<W>)
    requires Fit(config, w.storage) && now / MS <= w.storage.tick
    requires TakesIn(config) || config.coalescing.window > 0
    requires Shaped(w.storage) && Stored(Collected(config, w, now).storage, e)
    ensures e.deadline > now
  {
    var c, range := config.coalescing, config.maxRange;
    var g, r := Gathered(c, w.storage, now), DrainedAt(c, w.storage, w.active, range, now);
    if r.active == map[] {
      assert false;
    }
    DrainStored(g.storage, g.taken, w.active, range, Cutoff(c, w.active, g.taken, now), e);
    GatheredDue(config, w.storage, now, e);
  }

  lemma LongEnoughCollects(config: Config, start: nat, ops: seq<Op<int>>, now: nat)
    requires config.Settles() && (TakesIn(config) || config.coalescing.window > 0)
    ensures CollectsAll(config, start, ops, now)
  {
    AfterSnoc(config, start, ops, CollectExpired(now));
    SyncedCollects(config, After(config, start, ops), now);
  }

  lemma SyncedCollects(config: Config, w: Wheel<int>, now: nat)
    requires config.Settles() && (TakesIn(config) || config.coalescing.window > 0)
    requires Fit(config, w.storage)
    ensures Shaped(w.storage)
      && forall e :: Stored(Do(config, w, CollectExpired(now)).storage, e) ==> e.deadline > now
  {
    SynchronizedFit(config, w, now);
    var synced := Synchronized(config, w, now);
    forall e | Stored(Collected(config, synced, now).storage, e) ensures e.deadline > now {
      CollectedNotDue(config, synced, now, e);
    }
  }

  /** The least distance at which a timer is out of range. */
  function OutOfRange(config: Config): nat { if config.maxRange == 0 then 1 else config.maxRange }

  /** A timer just out of range is in the overflow, and a collection in the same tick does not find it there. */
  lemma ShortRangeMisses(config: Config)
    requires !TakesIn(config) && config.coalescing.window == 0
    ensures config.Settles() && !CollectsAll(config, 0, [Register(OutOfRange(config), 1, 0)], OutOfRange(config))
  {
    var due := OutOfRange(config);
    var op: Op<int>, e := Register(due, 1, 0), Entry(due, 1, 0, 0);
    AfterFirst(config, op);
    AfterSnoc(config, 0, [op], CollectExpired(due));
    var w := After(config, 0, [op]);
    assert w == Wheel(FreshStorage(0).(overflow := [e]), map[0 := 0], 1);
    assert due / MS == 0;
    var w' := After(config, 0, [op] + [CollectExpired(due)]);
    assert 0 in w.active && w' == w;
    assert Pending(w'.active, w'.storage, e);
  }

  /**
   `collect_expired` fires all that is due after every run exactly when the range is a tick or more,
   or no timer is out of range, or coalescing is on.
   */
  lemma CollectsAllIff(config: Config)
    requires config.Settles()
    ensures (forall start: nat, ops: seq<Op<int>>, now: nat :: CollectsAll(config, start, ops, now))
      <==> (MS <= config.maxRange || config.maxTimer < config.maxRange || config.maxTimer == 0
            || config.coalescing.window > 0)
  {
    if TakesIn(config) || config.coalescing.window > 0 {
      forall start: nat, ops: seq<Op<int>>, now: nat ensures CollectsAll(config, start, ops, now) {
        LongEnoughCollects(config, start, ops, now);
      }
    } else {
      ShortRangeMisses(config);
    }
  }

  // Ending the refill.

  /** A timer as registration on a fresh wheel lets it in. */
  function FirstTimer(config: Config, deadline: nat): Entry<int> {
    var w := Start<int>(0);
    NewEntry(w, Brought(config, w, deadline), 1, 0)
  }

  /** The storage that the first tick after the registration has to refill. */
  ghost function FirstRefill(config: Config, deadline: nat): (st: Storage<int>)
    ensures Shaped(st)
  {
    var st := Insert(FreshStorage(0), config.maxRange, FirstTimer(config, deadline));
    Turn(st.(tick := 1), config.maxRange, map[0 := 0], 0)
  }

  ghost predicate Circles(config: Config, deadline: nat) {
    var st := FirstRefill(config, deadline);
    RefillStep(st, config.maxRange, map[0 := 0]) == Some(st)
  }

  lemma EmptyTurn(maxRange: nat, active: Active, e: Entry<int>)
    ensures var st := FreshStorage(0).(tick := 1, overflow := [e]); var st' := Turn(st, maxRange, active, 0);
      st'.overflow == [e] && st'.tick == 1
  {
    var st := FreshStorage(0).(tick := 1, overflow := [e]);
    var s := (st.levels[0].cursor + 1) % SLOTS;
    assert Hand(0, 0) == 0 && s == 1 && st.levels[0].slots[1] == [];
  }

  lemma FarCircles(config: Config)
    requires !config.Settles()
    ensures Circles(config, PHYSICAL_RANGE + MS)
  {
    var e := Entry(PHYSICAL_RANGE + MS, 1, 0, 0);
    assert FirstTimer(config, PHYSICAL_RANGE + MS) == e;
    BeyondTheWheel(0, e, 0);
    BeyondTheWheel(1, e, 0);
    assert Insert(FreshStorage(0), config.maxRange, e) == FreshStorage(0).(overflow := [e]);
    EmptyTurn(config.maxRange, map[0 := 0], e);
    var st := FirstRefill(config, PHYSICAL_RANGE + MS);
    assert Top([e]) == 0 && Popped(st) == st.(overflow := []);
    assert Insert(Popped(st), config.maxRange, e) == st.(overflow := [] + [e]);
  }

  lemma NearSettles(config: Config, deadline: nat)
    requires config.Settles()
    ensures !Circles(config, deadline)
  {
    FreshFacts<int>(0, config.Reach());
    InsertedFit(config, Start(0), FirstTimer(config, deadline));
    var st := Insert(FreshStorage(0), config.maxRange, FirstTimer(config, deadline));
    var turned := TurnSettles(st, config.maxRange, config.maxTimer, map[0 := 0]);
    assert turned == FirstRefill(config, deadline);
  }

  /** After any tick of such a wheel the refill moves on. */
  lemma TurnSettles(st: Storage<int>, maxRange: nat, maxTimer: nat, active: Active) returns (turned: Storage<int>)
    requires InReach(st, maxRange, maxTimer)
    ensures Shaped(st) && turned == Turn(st.(tick := st.tick + 1), maxRange, active, 0)
    ensures RefillStep(turned, maxRange, active) != Some(turned)
  {
    TurnAlike(st, maxRange, maxTimer, active);
    turned := Turn(st.(tick := st.tick + 1), maxRange, active, 0);
    StillAlike(turned, maxRange, Reach(maxRange, maxTimer), active);
    RefillShrinks(turned, Reach(maxRange, maxTimer), active);
  }

  /**
   Some timer registered on a fresh wheel is taken out of the overflow at the first tick and put back
   there, over and over, exactly when both the range and the longest timer go so far beyond the span
   of the levels.
   */
  lemma RefillCirclesIff(config: Config)
    ensures (exists deadline: nat :: Circles(config, deadline))
      <==> PHYSICAL_RANGE < config.maxRange && PHYSICAL_RANGE + MS <= config.maxTimer
  {
    if config.Settles() {
      forall deadline: nat ensures !Circles(config, deadline) { NearSettles(config, deadline); }
    } else {
      FarCircles(config);
    }
  }
}
