/**
 The timer wheel as its callers see it.  `book` is what the wheel is for: the live timers by id.
 Collecting at any time fires exactly the timers of the book that are due, whatever has been
 registered, cancelled and collected before.
 */
module TimerWheel {
  import opened Sorting
  import opened Wrappers
  import opened WheelAdvance
  import opened WheelBook
  import opened WheelClock
  import opened WheelDeadline
  import opened WheelDrain
  import opened WheelGroup
  import opened WheelRanges
  import opened WheelRuns
  import opened WheelStorage
  import opened WheelTurn

  class TimerWheel<W(!new)> {
    var storage: Storage<W>
    var active: Active
    var nextGeneration: nat
    const config: Config
    ghost var book: Book<W>

    ghost predicate Valid()
      reads this
    {
      Sound(config, State(), book)
    }

    /** The fields, as one value: each operation does to it what `Do` of the same operation does. */
    ghost function State(): Wheel<W>
      reads this
    {
      Wheel(storage, active, nextGeneration)
    }

    constructor (now: nat, config: Config)
      ensures Valid() && book == map[] && State() == Start(now) && this.config == config
    {
      storage := FreshStorage(now / MS);
      active := map[];
      nextGeneration := 0;
      this.config := config;
      book := map[];
      new;
      FreshFacts<W>(now / MS, config.Reach());
      EmptySingles(storage);
    }

    /** The wheel's own clock, rounded down to a tick. */
    function CurrentTime(): nat
      reads this
    {
      storage.tick * MS
    }

    function Len(): (n: nat)
      requires Valid()
      reads this
      ensures n == |book|
    {
      assert active.Keys == book.Keys && |active| == |active.Keys| && |book| == |book.Keys|;
      |active|
    }

    /** `insert_validated`; the callers have clamped the deadline, and the slab picks a vacant id. */
    method InsertValidated(deadline: nat, waker: W, vacant: nat) returns (id: nat, generation: nat)
      requires Valid() && vacant !in active && deadline <= CurrentTime() + config.maxTimer
      modifies this
      ensures Valid() && id == vacant && id !in old(book) && generation == old(nextGeneration)
      ensures Shaped(old(storage))
      ensures State() == Inserted(config, old(State()), Entry(deadline, waker, id, generation))
      ensures book == old(book)[id := Entry(deadline, waker, id, generation)]
    {
      id, generation := vacant, nextGeneration;
      var e := Entry(deadline, waker, id, generation);
      InsertedSound(config, State(), book, e);
      nextGeneration := nextGeneration + 1;
      active := active[id := generation];
      storage := InsertEntry(storage, config.maxRange, e);
      book := book[id := e];
    }

    /** `register`: a deadline too far ahead is brought nearer. */
    method Register(deadline: nat, waker: W, vacant: nat) returns (id: nat, generation: nat)
      requires Valid() && vacant !in active
      modifies this
      ensures Valid() && id == vacant && id !in old(book)
      ensures Shaped(old(storage)) && State() == Registered(config, old(State()), deadline, waker, vacant)
      ensures var latest := old(CurrentTime()) + config.maxTimer;
        book == old(book)[id := Entry(if deadline > latest then latest else deadline, waker, id, generation)]
    {
      var due := deadline;
      if deadline > CurrentTime() && deadline - CurrentTime() > config.maxTimer {
        due := CurrentTime() + config.maxTimer;
      }
      assert due == Brought(config, State(), deadline);
      id, generation := InsertValidated(due, waker, vacant);
    }

    /** `try_register`: a deadline too far ahead is refused, with the duration asked for. */
    method TryRegister(deadline: nat, waker: W, vacant: nat) returns (r: Result<(nat, nat), nat>)
      requires Valid() && vacant !in active
      modifies this
      ensures Valid() && (r.Ok? <==> deadline <= old(CurrentTime()) + config.maxTimer)
      ensures r.Ok? ==> Shaped(old(storage)) && State() == Registered(config, old(State()), deadline, waker, vacant)
      ensures r.Ok? ==> r.value.0 == vacant && vacant !in old(book)
      ensures r.Ok? ==> book == old(book)[vacant := Entry(deadline, waker, vacant, r.value.1)]
      ensures r.Err? ==> unchanged(this) && r.error == deadline - CurrentTime()
    {
      if deadline > CurrentTime() && deadline - CurrentTime() > config.maxTimer {
        return Err(deadline - CurrentTime());
      }
      var id, generation := InsertValidated(deadline, waker, vacant);
      return Ok((id, generation));
    }

    /** `cancel`: only the handle the timer was registered with takes it off the book. */
    method Cancel(id: nat, generation: nat) returns (cancelled: bool)
      requires Valid()
      modifies this
      ensures Valid() && State() == Cancelled(old(State()), id, generation)
      ensures cancelled <==> id in old(book) && old(book)[id].generation == generation
      ensures book == if cancelled then old(book) - {id} else old(book)
    {
      CancelledSound(config, State(), book, id, generation);
      cancelled := id in active && active[id] == generation;
      if cancelled {
        active, book := active - {id}, book - {id};
        if active == map[] {
          storage := Emptied(storage);
        }
      }
    }

    /**
     `synchronize`: the clock moves up to `now`, the wheel is as if it had been turned one tick at a
     time, and no timer is lost or fired.
     */
    method Synchronize(now: nat)
      requires Valid() && config.Settles()
      modifies this`storage
      ensures Valid() && State() == Synchronized(config, old(State()), now)
      ensures storage.tick == if now / MS > old(storage.tick) then now / MS else old(storage.tick)
    {
      ghost var w' := SynchronizedSound(config, State(), book, now);
      var target := now / MS;
      if target > storage.tick {
        storage := AdvanceTo(storage, config.maxRange, config.maxTimer, active, target);
      }
    }

    /** `drain_ready`, at a time the wheel has been turned to. */
    method DrainAt(now: nat) returns (wakers: seq<W>, ghost fired: seq<Entry<W>>)
      requires Valid() && now / MS <= storage.tick
      modifies this
      ensures Valid() && wakers == WakersOf(fired)
      ensures Fired(old(book), book, fired, BookCutoff(config.coalescing, old(book), now))
      ensures Shaped(old(storage)) && State() == Collected(config, old(State()), now)
      ensures fired == Filter(Gathered(config.coalescing, old(storage), now).taken,
                              LiveBy(old(active), BookCutoff(config.coalescing, old(book), now)))
      ensures TakesIn(config) || config.coalescing.window > 0 ==>
        DueAhead(book, [], BookCutoff(config.coalescing, old(book), now))
    {
      fired := DrainedAt(config.coalescing, storage, active, config.maxRange, now).fired;
      CollectedInOrder(config, State(), book, now);
      book := CollectedSound(config, State(), book, now);
      storage, active, wakers := DrainReady(config.coalescing, storage, active, config.maxRange, now);
      if active == map[] {
        storage := Emptied(storage);
      }
    }

    /**
     `collect_expired`: exactly the timers fire that are due by the cutoff, each once, and exactly
     those leave the book, provided that coalescing is on or the wheel takes in whatever is less than
     a tick away or every timer there is.  The cutoff is now, or with coalescing the next multiple of
     the window if enough timers are due by then.
     */
    method CollectExpired(now: nat) returns (wakers: seq<W>, ghost fired: seq<Entry<W>>)
      requires Valid() && config.Settles()
      modifies this
      ensures Valid() && wakers == WakersOf(fired)
      ensures Fired(old(book), book, fired, BookCutoff(config.coalescing, old(book), now))
      ensures var synced := Synchronized(config, old(State()), now);
        Shaped(synced.storage) && State() == Collected(config, synced, now)
      ensures CutoffRule(config.coalescing, old(book), now, BookCutoff(config.coalescing, old(book), now))
      ensures TakesIn(config) || config.coalescing.window > 0 ==>
        var cutoff := BookCutoff(config.coalescing, old(book), now);
        && |wakers| == |DueBy(old(book), cutoff)|
        && forall id :: id in old(book) ==> (id in book <==> old(book)[id].deadline > cutoff)
    {
      ghost var book0, cutoff := book, BookCutoff(config.coalescing, book, now);
      BookCutoffRule(config.coalescing, book, now);
      Synchronize(now);
      wakers, fired := DrainAt(now);
      if TakesIn(config) || config.coalescing.window > 0 {
        FiredCount(book0, book, fired, cutoff);
      }
    }

    /** `coalescing_group_size`: how many timers a collection at that time would fire. */
    method GroupSizeAt(now: nat) returns (n: nat)
      requires Valid()
      ensures Shaped(storage) && n == GroupSize(config.coalescing, active, storage, now)
      ensures ReadyFor(config, State(), now) ==>
        n == |DueBy(book, BookCutoff(config.coalescing, book, now))|
    {
      n := CoalescingGroupSize(config.coalescing, active, storage, now);
      if ReadyFor(config, State(), now) {
        GroupSizeBooked(config, State(), book, now);
      }
    }

    /** `next_deadline`: reports, as `ReportRight` says, and prunes the overflow heap on the way. */
    method NextDeadline() returns (t: Option<nat>)
      requires Valid()
      modifies this`storage
      ensures Valid() && Shaped(old(storage)) && Reports(config, old(State()), t)
      ensures State() == Asked(config, old(State())) && ReportRight(config, old(State()), book, t)
    {
      AskedSound(config, State(), book);
      ghost var w := State();
      var n := GroupSizeAt(CurrentTime());
      if config.coalescing.window > 0 && n > 0 {
        t := Some(CurrentTime());
      } else {
        var overflow;
        t, overflow := Report(active, storage);
        storage := storage.(overflow := overflow);
      }
      assert State() == Asked(config, w);
      ReportBooked(config, w, book, t);
    }
  }
}
