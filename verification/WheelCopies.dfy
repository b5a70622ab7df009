/** How often the wheel holds an entry.  Nothing it does with its entries makes a second copy of one. */
module WheelCopies {
  import opened Counting
  import opened Iteration
  import opened WheelAdvance
  import opened WheelClock
  import opened WheelDeadline
  import opened WheelDrain
  import opened WheelStorage
  import opened WheelTurn

  ghost function InSlot<W>(x: Entry<W>): seq<Entry<W>> -> nat { slot => Times(slot, x) }

  ghost function InLevel<W>(x: Entry<W>): Level<W> -> nat { (lv: Level<W>) => Sum(lv.slots, InSlot(x)) }

  ghost function Copies<W>(st: Storage<W>, x: Entry<W>): nat {
    Times(st.ready, x) + Times(st.overflow, x) + Sum(st.levels, InLevel(x))
  }

  lemma LevelStored<W>(lv: Level<W>, x: Entry<W>)
    ensures InLevel(x)(lv) > 0 <==> Holds(lv, x)
  {
    SumZero(lv.slots, InSlot(x));
    forall s | 0 <= s < |lv.slots| ensures InSlot(x)(lv.slots[s]) > 0 <==> x in lv.slots[s] {
      TimesPositive(lv.slots[s], x);
    }
  }

  lemma CopiesStored<W>(st: Storage<W>, x: Entry<W>)
    ensures Copies(st, x) > 0 <==> Stored(st, x)
  {
    TimesPositive(st.ready, x);
    TimesPositive(st.overflow, x);
    SumZero(st.levels, InLevel(x));
    forall i | 0 <= i < |st.levels| ensures InLevel(x)(st.levels[i]) > 0 <==> Holds(st.levels[i], x) {
      LevelStored(st.levels[i], x);
    }
  }

  /** Replacing a slot of a level. */
  lemma SlotCopies<W>(levels: seq<Level<W>>, k: nat, s: nat, lv': Level<W>, slot: seq<Entry<W>>, x: Entry<W>)
    requires k < |levels| && s < |levels[k].slots| && lv'.slots == levels[k].slots[s := slot]
    ensures Sum(levels[k := lv'], InLevel(x)) + Times(levels[k].slots[s], x) == Sum(levels, InLevel(x)) + Times(slot, x)
  {
    SumUpdate(levels, k, lv', InLevel(x));
    SumUpdate(levels[k].slots, s, slot, InSlot(x));
  }

  lemma InsertCopies<W>(st: Storage<W>, maxRange: nat, e: Entry<W>, x: Entry<W>)
    requires Shaped(st)
    ensures Copies(Insert(st, maxRange, e), x) == Copies(st, x) + Bit(e == x)
  {
    var p := PlaceOf(st.tick, maxRange, e);
    if st.tick * MS < e.deadline { LevelPlaceBounds(st.tick, e, 0); }
    match p
    case Ready => TimesAppend(st.ready, e, x);
    case Overflow => TimesAppend(st.overflow, e, x);
    case Slot(i, s) =>
      var bucket := st.levels[i].slots[s];
      TimesAppend(bucket, e, x);
      SlotCopies(st.levels, i, s, PushSlot(st.levels[i], s, e), bucket + [e], x);
  }

  lemma TakeCopies<W>(st: Storage<W>, k: nat, s: nat, x: Entry<W>)
    requires Shaped(st) && k < LEVELS && s < SLOTS
    ensures Copies(TakeFrom(st, k, s), x) + Times(st.levels[k].slots[s], x) == Copies(st, x)
  {
    SlotCopies(st.levels, k, s, TakeSlot(st.levels[k], s), [], x);
  }

  lemma {:induction false} PutBackCopies<W>(st: Storage<W>, maxRange: nat, active: Active, bucket: seq<Entry<W>>,
                                            x: Entry<W>)
    requires Shaped(st)
    ensures Copies(PutBack(st, maxRange, active, bucket), x) <= Copies(st, x) + Times(bucket, x)
  {
    if bucket != [] {
      var front, e := bucket[..|bucket| - 1], bucket[|bucket| - 1];
      PutBackCopies(st, maxRange, active, front, x);
      InsertCopies(PutBack(st, maxRange, active, front), maxRange, e, x);
    }
  }

  lemma {:induction false} TurnCopies<W>(st: Storage<W>, maxRange: nat, active: Active, k: nat, x: Entry<W>)
    requires Shaped(st)
    ensures Copies(Turn(st, maxRange, active, k), x) <= Copies(st, x)
    decreases LEVELS - k
  {
    if k < LEVELS {
      var s := (st.levels[k].cursor + 1) % SLOTS;
      var bucket := st.levels[k].slots[s];
      TakeCopies(st, k, s, x);
      PutBackCopies(TakeFrom(st, k, s), maxRange, active, bucket, x);
      if s == 0 { TurnCopies(PutBack(TakeFrom(st, k, s), maxRange, active, bucket), maxRange, active, k + 1, x); }
    }
  }

  lemma TimesMiddle<T>(a: seq<T>, y: T, b: seq<T>, x: T)
    ensures Times(a + [y] + b, x) == Times(a + b, x) + Bit(y == x)
  {
    TimesConcat(a + [y], b, x);
    TimesAppend(a, y, x);
    TimesConcat(a, b, x);
  }

  lemma WithoutTimes<T>(s: seq<T>, m: nat, x: T)
    requires m < |s|
    ensures Times(Without(s, m), x) + Bit(s[m] == x) == Times(s, x)
  {
    var a, y, b := s[..m], s[m], s[m + 1..];
    SplitMiddle(s, m);
    TimesMiddle(a, y, b, x);
  }

  lemma SplitMiddle<T>(s: seq<T>, m: nat)
    requires m < |s|
    ensures s == s[..m] + [s[m]] + s[m + 1..]
  {
  }

  lemma {:induction false} RefillCopies<W>(st: Storage<W>, maxRange: nat, active: Active, x: Entry<W>)
    requires Shaped(st) && maxRange <= PHYSICAL_RANGE
    ensures Copies(Refill(st, maxRange, active), x) <= Copies(st, x)
    decreases |st.overflow|
  {
    RefillShrinks(st, maxRange, active);
    var r := RefillStep(st, maxRange, active);
    if r.Some? {
      var m := Top(st.overflow);
      WithoutTimes(st.overflow, m, x);
      InsertCopies(Popped(st), maxRange, st.overflow[m], x);
      RefillCopies(r.value, maxRange, active, x);
    }
  }

  lemma TickCopies<W>(st: Storage<W>, tick: nat, x: Entry<W>)
    ensures Copies(st.(tick := tick), x) == Copies(st, x)
  {
  }

  lemma TickedCopies<W>(st: Storage<W>, maxRange: nat, active: Active, x: Entry<W>)
    requires Shaped(st) && maxRange <= PHYSICAL_RANGE
    ensures Copies(Ticked(st, maxRange, active), x) <= Copies(st, x)
  {
    var begun := st.(tick := st.tick + 1);
    calc {
      Copies(Refill(Turn(begun, maxRange, active, 0), maxRange, active), x);
      <= { RefillCopies(Turn(begun, maxRange, active, 0), maxRange, active, x); }
      Copies(Turn(begun, maxRange, active, 0), x);
      <= { TurnCopies(begun, maxRange, active, 0, x); }
      Copies(begun, x);
      { TickCopies(st, st.tick + 1, x); }
      Copies(st, x);
    }
  }

  ghost function CopiesOf<W>(x: Entry<W>): Storage<W> -> nat { (st: Storage<W>) => Copies(st, x) }

  lemma TicksCopies<W(!new)>(st: Storage<W>, maxRange: nat, active: Active, n: nat, x: Entry<W>)
    requires maxRange <= PHYSICAL_RANGE
    ensures Copies(Ticks(st, maxRange, active, n), x) <= Copies(st, x)
  {
    var tick := Tick<W>(maxRange, active);
    forall s ensures CopiesOf(x)(tick(s)) <= CopiesOf(x)(s) {
      if Shaped(s) { TickedCopies(s, maxRange, active, x); }
    }
    IterateShrinks(tick, CopiesOf(x), st, n);
  }

  lemma {:induction false} DrainCopies<W>(st: Storage<W>, ready: seq<Entry<W>>, active: Active, maxRange: nat, now: nat,
                                          x: Entry<W>)
    requires Shaped(st)
    ensures Copies(Drain(st, ready, active, maxRange, now).storage, x) <= Copies(st, x) + Times(ready, x)
    decreases |ready|
  {
    if ready != [] {
      var e := ready[0];
      TimesFirst(ready, x);
      if !IsLive(active, e) {
        DrainCopies(st, ready[1..], active, maxRange, now, x);
      } else if e.deadline <= now {
        DrainCopies(st, ready[1..], active - {e.id}, maxRange, now, x);
      } else {
        InsertCopies(st, maxRange, e, x);
        DrainCopies(Insert(st, maxRange, e), ready[1..], active, maxRange, now, x);
      }
    }
  }

  lemma {:induction false} PrunedCopies<W>(active: Active, overflow: seq<Entry<W>>, x: Entry<W>)
    ensures Times(Pruned(active, overflow), x) <= Times(overflow, x)
    decreases |overflow|
  {
    if overflow != [] && !IsLive(active, overflow[Top(overflow)]) {
      WithoutTimes(overflow, Top(overflow), x);
      PrunedCopies(active, Without(overflow, Top(overflow)), x);
    }
  }
}
