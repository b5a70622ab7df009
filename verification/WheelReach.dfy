/**
 How far the wheel's own storage reaches under a configuration.  A range beyond the span of the four
 levels counts as that span, and one that no timer can exceed counts as the longest timer.
 */
module WheelReach {
  import opened WheelClock
  import opened WheelStorage
  import opened WheelTurn

  function Reach(maxRange: nat, maxTimer: nat): (reach: nat)
    ensures reach <= PHYSICAL_RANGE
  {
    var range := if maxTimer < maxRange || maxTimer == 0 then maxTimer + 1 else maxRange;
    if range > PHYSICAL_RANGE then PHYSICAL_RANGE else range
  }

  /** No timer that registration lets in can be taken out of the overflow and put back there for ever. */
  predicate Settles(maxRange: nat, maxTimer: nat) { maxRange <= PHYSICAL_RANGE || maxTimer < PHYSICAL_RANGE + MS }

  /** No entry is further ahead than the longest timer. */
  ghost predicate Within<W(!new)>(st: Storage<W>, maxTimer: nat) {
    forall e :: Stored(st, e) ==> e.deadline <= st.tick * MS + maxTimer
  }

  lemma WithinLater<W(!new)>(st: Storage<W>, st': Storage<W>, maxTimer: nat)
    requires Within(st, maxTimer) && st.tick <= st'.tick && forall e :: Stored(st', e) ==> Stored(st, e)
    ensures Within(st', maxTimer)
  {
  }

  lemma {:induction false} BeyondTheWheel<W>(tick: nat, e: Entry<W>, i: nat)
    requires e.deadline >= tick * MS + PHYSICAL_RANGE && i <= LEVELS
    ensures LevelPlace(tick, e, i).Overflow?
    decreases LEVELS - i
  {
    if i < LEVELS {
      PhysicalRange();
      ResMono(i + 1, LEVELS);
      BeyondTheWheel(tick, e, i + 1);
    }
  }

  // What the code does with its range is what it would do with the reach.

  lemma PlaceInReach<W>(tick: nat, maxRange: nat, maxTimer: nat, e: Entry<W>)
    requires e.deadline <= tick * MS + maxTimer
    ensures PlaceOf(tick, maxRange, e) == PlaceOf(tick, Reach(maxRange, maxTimer), e)
  {
    if e.deadline >= tick * MS + PHYSICAL_RANGE { BeyondTheWheel(tick, e, 0); }
  }

  lemma InsertInReach<W>(st: Storage<W>, maxRange: nat, maxTimer: nat, e: Entry<W>)
    requires Shaped(st) && e.deadline <= st.tick * MS + maxTimer
    ensures Insert(st, maxRange, e) == Insert(st, Reach(maxRange, maxTimer), e)
  {
    PlaceInReach(st.tick, maxRange, maxTimer, e);
  }

  lemma {:induction false} PutBackInReach<W>(st: Storage<W>, maxRange: nat, maxTimer: nat, active: Active,
                                             bucket: seq<Entry<W>>)
    requires Shaped(st) && forall e :: e in bucket ==> e.deadline <= st.tick * MS + maxTimer
    ensures PutBack(st, maxRange, active, bucket) == PutBack(st, Reach(maxRange, maxTimer), active, bucket)
  {
    if bucket != [] {
      var front := bucket[..|bucket| - 1];
      PutBackInReach(st, maxRange, maxTimer, active, front);
      InsertInReach(PutBack(st, maxRange, active, front), maxRange, maxTimer, bucket[|bucket| - 1]);
    }
  }

  lemma SlotStored<W>(st: Storage<W>, i: nat, s: nat, e: Entry<W>)
    requires i < |st.levels| && s < |st.levels[i].slots|
    ensures e in st.levels[i].slots[s] ==> Stored(st, e)
  {
    if e in st.levels[i].slots[s] { assert Holds(st.levels[i], e); }
  }

  lemma {:induction false} TurnInReach<W(!new)>(st: Storage<W>, maxRange: nat, maxTimer: nat, active: Active, k: nat)
    requires Shaped(st) && Within(st, maxTimer)
    ensures Turn(st, maxRange, active, k) == Turn(st, Reach(maxRange, maxTimer), active, k)
    decreases LEVELS - k
  {
    if k < LEVELS {
      var s := (st.levels[k].cursor + 1) % SLOTS;
      var bucket := st.levels[k].slots[s];
      forall e | e in bucket ensures e.deadline <= st.tick * MS + maxTimer { SlotStored(st, k, s, e); }
      SlotPutBack(active, st, maxRange, k, s);
      var mid := PutBack(TakeFrom(st, k, s), maxRange, active, bucket);
      assert mid == PutBack(TakeFrom(st, k, s), Reach(maxRange, maxTimer), active, bucket) by {
        PutBackInReach(TakeFrom(st, k, s), maxRange, maxTimer, active, bucket);
      }
      if s == 0 { TurnInReach(mid, maxRange, maxTimer, active, k + 1); }
    }
  }

  /** After a tick, an entry of the overflow is released under the range exactly when it is under the reach. */
  lemma ReleasedAlike<W>(tick: nat, maxRange: nat, maxTimer: nat, e: Entry<W>)
    requires tick >= 1 && Settles(maxRange, maxTimer) && e.deadline <= (tick - 1) * MS + maxTimer
    requires Reach(maxRange, maxTimer) <= e.Delta(tick - 1)
    ensures Alike(tick, maxRange, Reach(maxRange, maxTimer), e)
  {
    PlaceInReach(tick, maxRange, maxTimer, e);
  }

  lemma TurnedAlike<W(!new)>(st: Storage<W>, st': Storage<W>, maxRange: nat, maxTimer: nat)
    requires Within(st, maxTimer) && st'.tick == st.tick + 1 && forall e :: Stored(st', e) ==> Stored(st, e)
    requires OverflowOk(st.tick, Reach(maxRange, maxTimer), st'.overflow) && Settles(maxRange, maxTimer)
    ensures AllAlike(st', maxRange, Reach(maxRange, maxTimer))
  {
    forall e | e in st'.overflow ensures Alike(st'.tick, maxRange, Reach(maxRange, maxTimer), e) {
      assert Stored(st', e);
      ReleasedAlike(st'.tick, maxRange, maxTimer, e);
    }
  }

  /** The reach exceeds the range only if no timer is ever ahead, and then the overflow is empty. */
  lemma ReachOrEmpty<W(!new)>(st: Storage<W>, maxRange: nat, maxTimer: nat)
    requires Within(st, maxTimer) && OverflowOk(st.tick, Reach(maxRange, maxTimer), st.overflow)
    ensures Reach(maxRange, maxTimer) <= maxRange || st.overflow == []
  {
    if st.overflow != [] {
      var e := st.overflow[0];
      assert e in st.overflow && Stored(st, e);
    }
  }

  /** If no timer is longer than the reach, the overflow is empty. */
  lemma NothingBeyond<W(!new)>(st: Storage<W>, maxTimer: nat, reach: nat)
    requires Within(st, maxTimer) && OverflowOk(st.tick, reach, st.overflow) && maxTimer < reach
    ensures st.overflow == []
  {
    if st.overflow != [] { assert st.overflow[0] in st.overflow && Stored(st, st.overflow[0]); }
  }
}
