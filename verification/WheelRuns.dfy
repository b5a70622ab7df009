/** Runs of the timer wheel: any operations, in any order.  Every run keeps every entry where it fits. */
module WheelRuns {
  import opened Wrappers
  import opened WheelBitmap
  import opened WheelClock
  import opened WheelReach
  import opened WheelStorage
  import opened WheelTurn
  import opened WheelAdvance
  import opened WheelDeadline
  import opened WheelGroup

  datatype Config = Config(maxRange: nat, maxTimer: nat, coalescing: Coalescing) {
    function Reach(): (reach: nat)
      ensures reach <= PHYSICAL_RANGE
    {
      WheelReach.Reach(maxRange, maxTimer)
    }

    predicate Settles() { WheelReach.Settles(maxRange, maxTimer) }
  }

  datatype Wheel<W> = Wheel(storage: Storage<W>, active: Active, nextGeneration: nat) {
    function Now(): nat { storage.tick * MS }
  }

  datatype Op<W> =
    | Register(deadline: nat, waker: W, vacant: nat)
    | TryRegister(deadline: nat, waker: W, vacant: nat)
    | Cancel(id: nat, generation: nat)
    | Synchronize(now: nat)
    | CollectExpired(now: nat)
    | NextDeadline

  // Empty storage.

  function EmptyLevel<W>(cursor: nat): (lv: Level<W>)
    ensures Marked(lv)
  {
    assert forall s: nat :: s < SLOTS ==> !IsSet(Clean(), s) by {
      forall s: nat | s < SLOTS ensures !IsSet(Clean(), s) { CleanIsClean(s); }
    }
    Level(seq(SLOTS, _ => []), Clean(), cursor)
  }

  function FreshStorage<W>(tick: nat): Storage<W> {
    Storage(tick, seq(LEVELS, i requires 0 <= i < LEVELS => EmptyLevel(Hand(tick, i) % SLOTS)), [], [])
  }

  lemma FreshFacts<W(!new)>(tick: nat, maxRange: nat)
    ensures AtRest(FreshStorage<W>(tick), maxRange) && forall e :: !Stored(FreshStorage<W>(tick), e)
  {
  }

  /** `purge_inactive_storage`. */
  function Emptied<W>(st: Storage<W>): Storage<W> {
    Storage(st.tick, seq(|st.levels|, i requires 0 <= i < |st.levels| => EmptyLevel(st.levels[i].cursor)), [], [])
  }

  lemma EmptiedFacts<W(!new)>(st: Storage<W>, maxRange: nat)
    requires AtRest(st, maxRange)
    ensures AtRest(Emptied(st), maxRange) && forall e :: !Stored(Emptied(st), e)
  {
  }

  /** Nothing is kept for nobody. */
  function Purged<W>(w: Wheel<W>): Wheel<W> {
    if w.active == map[] then w.(storage := Emptied(w.storage)) else w
  }

  // The operations.

  function Start<W>(now: nat): Wheel<W> { Wheel(FreshStorage(now / MS), map[], 0) }

  predicate TooFar<W>(config: Config, w: Wheel<W>, deadline: nat) { deadline > w.Now() + config.maxTimer }

  function NewEntry<W>(w: Wheel<W>, deadline: nat, waker: W, vacant: nat): Entry<W> {
    Entry(deadline, waker, vacant, w.nextGeneration)
  }

  /** `insert_validated`. */
  ghost function Inserted<W>(config: Config, w: Wheel<W>, e: Entry<W>): Wheel<W>
    requires Shaped(w.storage)
  {
    Wheel(Insert(w.storage, config.maxRange, e), w.active[e.id := e.generation], w.nextGeneration + 1)
  }

  /** A deadline too far ahead is brought nearer. */
  function Brought<W>(config: Config, w: Wheel<W>, deadline: nat): nat {
    if TooFar(config, w, deadline) then w.Now() + config.maxTimer else deadline
  }

  ghost function Registered<W>(config: Config, w: Wheel<W>, deadline: nat, waker: W, vacant: nat): Wheel<W>
    requires Shaped(w.storage)
  {
    Inserted(config, w, NewEntry(w, Brought(config, w, deadline), waker, vacant))
  }

  function Cancelled<W>(w: Wheel<W>, id: nat, generation: nat): Wheel<W> {
    if id in w.active && w.active[id] == generation then Purged(w.(active := w.active - {id})) else w
  }

  ghost function Synchronized<W>(config: Config, w: Wheel<W>, now: nat): Wheel<W>
  {
    if now / MS <= w.storage.tick then w
    else w.(storage := Ticks(w.storage, config.Reach(), w.active, now / MS - w.storage.tick))
  }

  ghost function Collected<W>(config: Config, w: Wheel<W>, now: nat): Wheel<W>
    requires Shaped(w.storage)
  {
    var r := DrainedAt(config.coalescing, w.storage, w.active, config.maxRange, now);
    Purged(w.(storage := r.storage, active := r.active))
  }

  /** Coalescing is on and a collection would fire something now. */
  ghost predicate Immediate<W>(config: Config, w: Wheel<W>)
    requires Shaped(w.storage)
  {
    config.coalescing.window > 0 && GroupSize(config.coalescing, w.active, w.storage, w.Now()) > 0
  }

  /** What `next_deadline` reports. */
  ghost predicate Reports<W(!new)>(config: Config, w: Wheel<W>, t: Option<nat>)
    requires Shaped(w.storage)
  {
    if Immediate(config, w) then t == Some(w.Now()) else Reported(w.active, w.storage, t)
  }

  /** And what it does to the wheel. */
  ghost function Asked<W(!new)>(config: Config, w: Wheel<W>): Wheel<W>
    requires Shaped(w.storage)
  {
    if Immediate(config, w) then w else w.(storage := w.storage.(overflow := AfterReport(w.active, w.storage)))
  }

  lemma SynchronizedShaped<W>(config: Config, w: Wheel<W>, now: nat)
    requires Shaped(w.storage)
    ensures Shaped(Synchronized(config, w, now).storage)
  {
    if now / MS > w.storage.tick {
      TicksShaped(w.storage, config.Reach(), w.active, now / MS - w.storage.tick);
    }
  }

  /** One operation; the slab never hands out an id that is in use. */
  ghost function Do<W(!new)>(config: Config, w: Wheel<W>, op: Op<W>): (w': Wheel<W>)
    requires Shaped(w.storage) && config.Settles()
    ensures Shaped(w'.storage)
  {
    match op
    case Register(deadline, waker, vacant) =>
      if vacant in w.active then w else Registered(config, w, deadline, waker, vacant)
    case TryRegister(deadline, waker, vacant) =>
      if vacant in w.active || TooFar(config, w, deadline) then w else Registered(config, w, deadline, waker, vacant)
    case Cancel(id, generation) => Cancelled(w, id, generation)
    case Synchronize(now) => SynchronizedShaped(config, w, now); Synchronized(config, w, now)
    case CollectExpired(now) =>
      SynchronizedShaped(config, w, now);
      Collected(config, Synchronized(config, w, now), now)
    case NextDeadline => Asked(config, w)
  }

  ghost function Run<W(!new)>(config: Config, w: Wheel<W>, ops: seq<Op<W>>): (w': Wheel<W>)
    requires Shaped(w.storage) && config.Settles()
    ensures Shaped(w'.storage)
    decreases |ops|
  {
    if ops == [] then w else Run(config, Do(config, w, ops[0]), ops[1..])
  }

  // Every run keeps every entry where it fits.

  /** Every entry is where its level, slot and range say, and none is further ahead than the longest timer. */
  ghost predicate Fit<W(!new)>(config: Config, st: Storage<W>) {
    AtRest(st, config.Reach()) && Within(st, config.maxTimer)
  }

  lemma PurgedFit<W(!new)>(config: Config, w: Wheel<W>)
    requires Fit(config, w.storage)
    ensures Fit(config, Purged(w).storage)
  {
    EmptiedFacts(w.storage, config.Reach());
  }

  lemma SynchronizedFit<W(!new)>(config: Config, w: Wheel<W>, now: nat)
    requires Fit(config, w.storage)
    ensures Fit(config, Synchronized(config, w, now).storage)
    ensures Keeps(w.active, w.storage, Synchronized(config, w, now).storage)
    ensures Synchronized(config, w, now).storage.tick == if now / MS > w.storage.tick then now / MS else w.storage.tick
  {
    if now / MS > w.storage.tick {
      var n := now / MS - w.storage.tick;
      TicksShaped(w.storage, config.Reach(), w.active, n);
      TicksKeep(w.storage, config.Reach(), w.active, n);
      WithinLater(w.storage, Ticks(w.storage, config.Reach(), w.active, n), config.maxTimer);
    }
  }

  lemma CollectedFit<W(!new)>(config: Config, w: Wheel<W>, now: nat)
    requires Fit(config, w.storage)
    ensures Shaped(w.storage) && Fit(config, Collected(config, w, now).storage)
  {
    DrainedInReach(config.coalescing, w.storage, w.active, config.maxRange, config.maxTimer, now);
    var r := DrainedAt(config.coalescing, w.storage, w.active, config.maxRange, now);
    PurgedFit(config, w.(storage := r.storage, active := r.active));
  }

  lemma ReportFit<W(!new)>(config: Config, active: Active, st: Storage<W>)
    requires Fit(config, st)
    ensures Shaped(st) && Fit(config, st.(overflow := AfterReport(active, st)))
  {
    var st' := st.(overflow := AfterReport(active, st));
    forall e ensures e in st'.overflow ==> e in st.overflow { PrunedKeeps(active, st.overflow, e); }
    WithinLater(st, st', config.maxTimer);
  }

  lemma InsertedFit<W(!new)>(config: Config, w: Wheel<W>, e: Entry<W>)
    requires Fit(config, w.storage) && e.deadline <= w.Now() + config.maxTimer
    ensures Shaped(w.storage) && Fit(config, Inserted(config, w, e).storage)
  {
    InsertInReach(w.storage, config.maxRange, config.maxTimer, e);
    InsertAtRest(w.storage, config.Reach(), e);
    forall x ensures Stored(Inserted(config, w, e).storage, x) <==> Stored(w.storage, x) || x == e {
      InsertStored(w.storage, config.maxRange, e, x);
    }
  }

  lemma RegisteredFit<W(!new)>(config: Config, w: Wheel<W>, deadline: nat, waker: W, vacant: nat)
    requires Fit(config, w.storage)
    ensures Shaped(w.storage) && Fit(config, Registered(config, w, deadline, waker, vacant).storage)
  {
    InsertedFit(config, w, NewEntry(w, Brought(config, w, deadline), waker, vacant));
  }

  lemma DoFit<W(!new)>(config: Config, w: Wheel<W>, op: Op<W>)
    requires Fit(config, w.storage) && config.Settles()
    ensures Shaped(w.storage) && Fit(config, Do(config, w, op).storage)
  {
    match op
    case Register(deadline, waker, vacant) => RegisteredFit(config, w, deadline, waker, vacant);
    case TryRegister(deadline, waker, vacant) => RegisteredFit(config, w, deadline, waker, vacant);
    case Cancel(id, generation) => PurgedFit(config, w.(active := w.active - {id}));
    case Synchronize(now) => SynchronizedFit(config, w, now);
    case CollectExpired(now) =>
      SynchronizedFit(config, w, now);
      CollectedFit(config, Synchronized(config, w, now), now);
    case NextDeadline => ReportFit(config, w.active, w.storage);
  }

  lemma {:induction false} RunFit<W(!new)>(config: Config, w: Wheel<W>, ops: seq<Op<W>>)
    requires Fit(config, w.storage) && config.Settles()
    ensures Shaped(w.storage) && Fit(config, Run(config, w, ops).storage)
    decreases |ops|
  {
    if ops != [] {
      DoFit(config, w, ops[0]);
      RunFit(config, Do(config, w, ops[0]), ops[1..]);
    }
  }
}
