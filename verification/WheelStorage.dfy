/**
 Where the timer wheel keeps its entries: four levels of slots, the ready list and the overflow
 heap, and which entries may be where.  Entries of cancelled timers stay until they are met.
 */
module WheelStorage {
  import opened Arithmetic
  import opened WheelBitmap
  import opened WheelClock

  datatype Entry<W> = Entry(deadline: nat, waker: W, id: nat, generation: nat) {
    function Due(): nat { deadline / MS }

    /** How far ahead the deadline is, zero if it has passed. */
    function Delta(tick: nat): nat { if deadline <= tick * MS then 0 else deadline - tick * MS }
  }

  /** The bitmap says which slots have entries. */
  datatype Level<W> = Level(slots: seq<seq<Entry<W>>>, occupied: Bitmap, cursor: nat)

  datatype Storage<W> = Storage(tick: nat, levels: seq<Level<W>>, ready: seq<Entry<W>>, overflow: seq<Entry<W>>)

  // Contents.

  ghost predicate Holds<W>(lv: Level<W>, e: Entry<W>) {
    exists s :: 0 <= s < |lv.slots| && e in lv.slots[s]
  }

  ghost predicate InLevels<W>(levels: seq<Level<W>>, e: Entry<W>) {
    exists i :: 0 <= i < |levels| && Holds(levels[i], e)
  }

  ghost predicate Stored<W>(st: Storage<W>, e: Entry<W>) {
    e in st.ready || e in st.overflow || InLevels(st.levels, e)
  }

  ghost predicate Marked<W>(lv: Level<W>) {
    && |lv.slots| == SLOTS && IsBitmap(lv.occupied)
    && forall s: nat {:trigger IsSet(lv.occupied, s)} :: s < SLOTS ==> (IsSet(lv.occupied, s) <==> lv.slots[s] != [])
  }

  lemma PushMarked<W>(lv: Level<W>, s: nat, e: Entry<W>)
    requires Marked(lv) && s < SLOTS
    ensures Marked(lv.(slots := lv.slots[s := lv.slots[s] + [e]], occupied := Set(lv.occupied, s)))
  {
    forall t: nat | t < SLOTS ensures IsSet(Set(lv.occupied, s), t) <==> IsSet(lv.occupied, t) || t == s {
      SetIsSet(lv.occupied, s, t);
    }
    SetIsSet(lv.occupied, s, s);
  }

  lemma TakeMarked<W>(lv: Level<W>, s: nat, cursor: nat)
    requires Marked(lv) && s < SLOTS
    ensures Marked(lv.(slots := lv.slots[s := []], occupied := Clear(lv.occupied, s), cursor := cursor))
  {
    forall t: nat | t < SLOTS ensures IsSet(Clear(lv.occupied, s), t) <==> IsSet(lv.occupied, t) && t != s {
      ClearIsSet(lv.occupied, s, t);
    }
    ClearIsSet(lv.occupied, s, s);
  }

  function PushSlot<W>(lv: Level<W>, s: nat, e: Entry<W>): (lv': Level<W>)
    requires Marked(lv) && s < SLOTS
    ensures Marked(lv')
  {
    PushMarked(lv, s, e);
    lv.(slots := lv.slots[s := lv.slots[s] + [e]], occupied := Set(lv.occupied, s))
  }

  /** The cursor moves to a slot and the slot is emptied. */
  function TakeSlot<W>(lv: Level<W>, s: nat): (lv': Level<W>)
    requires Marked(lv) && s < SLOTS
    ensures Marked(lv')
  {
    TakeMarked(lv, s, s);
    lv.(slots := lv.slots[s := []], occupied := Clear(lv.occupied, s), cursor := s)
  }

  lemma PushHolds<W>(lv: Level<W>, s: nat, e: Entry<W>, x: Entry<W>)
    requires Marked(lv) && s < SLOTS
    ensures Holds(PushSlot(lv, s, e), x) <==> Holds(lv, x) || x == e
  {
    var lv' := PushSlot(lv, s, e);
    if Holds(lv, x) {
      var t :| 0 <= t < |lv.slots| && x in lv.slots[t];
      assert x in lv'.slots[t];
    }
    if x == e { assert x in lv'.slots[s]; }
    if Holds(lv', x) {
      var t :| 0 <= t < |lv'.slots| && x in lv'.slots[t];
      assert x in lv.slots[t] || x == e;
    }
  }

  lemma TakeHolds<W>(lv: Level<W>, s: nat, x: Entry<W>)
    requires Marked(lv) && s < SLOTS
    ensures Holds(lv, x) <==> Holds(TakeSlot(lv, s), x) || x in lv.slots[s]
  {
    var lv' := TakeSlot(lv, s);
    if Holds(lv, x) {
      var t :| 0 <= t < |lv.slots| && x in lv.slots[t];
      assert t == s || x in lv'.slots[t];
    }
    if Holds(lv', x) {
      var t :| 0 <= t < |lv'.slots| && x in lv'.slots[t];
      assert x in lv.slots[t];
    }
  }

  lemma LevelUpdate<W>(levels: seq<Level<W>>, i: nat, lv: Level<W>, x: Entry<W>)
    requires i < |levels|
    ensures InLevels(levels[i := lv], x) ==> InLevels(levels, x) || Holds(lv, x)
    ensures InLevels(levels, x) ==> InLevels(levels[i := lv], x) || Holds(levels[i], x)
    ensures Holds(lv, x) ==> InLevels(levels[i := lv], x)
    ensures Holds(levels[i], x) ==> InLevels(levels, x)
  {
    var after := levels[i := lv];
    if InLevels(after, x) {
      var j :| 0 <= j < |after| && Holds(after[j], x);
      assert j == i || Holds(levels[j], x);
    }
    if InLevels(levels, x) {
      var j :| 0 <= j < |levels| && Holds(levels[j], x);
      assert j == i || Holds(after[j], x);
    }
    if Holds(lv, x) { assert Holds(after[i], x); }
  }

  // Placement.

  /** In the right slot, within the wheel's range, and on a level the wheel has a use for. */
  ghost predicate Sits<W>(tick: nat, maxRange: nat, i: nat, s: nat, e: Entry<W>) {
    Fits(tick, i, s, e.Due()) && e.deadline < tick * MS + maxRange && (i > 0 ==> Res(i) * MS < maxRange)
  }

  /** Everything on a level fits it. */
  ghost predicate LevelFits<W>(tick: nat, maxRange: nat, i: nat, lv: Level<W>) {
    Marked(lv)
    && forall s: nat, e :: s < SLOTS && e in lv.slots[s] ==> Sits(tick, maxRange, i, s, e)
  }

  ghost predicate LevelOk<W>(tick: nat, maxRange: nat, i: nat, lv: Level<W>) {
    LevelFits(tick, maxRange, i, lv) && lv.cursor == Hand(tick, i) % SLOTS
  }

  /** Due by the end of this tick, and within range unless already past. */
  ghost predicate NearlyDue<W>(tick: nat, maxRange: nat, e: Entry<W>) {
    e.Due() <= tick && (e.deadline <= tick * MS || e.deadline < tick * MS + maxRange)
  }

  ghost predicate ReadyOk<W>(tick: nat, maxRange: nat, ready: seq<Entry<W>>) {
    forall e :: e in ready ==> NearlyDue(tick, maxRange, e)
  }

  ghost predicate OverflowOk<W>(tick: nat, maxRange: nat, overflow: seq<Entry<W>>) {
    forall e :: e in overflow ==> maxRange <= e.Delta(tick)
  }

  /** Between calls. */
  ghost predicate AtRest<W>(st: Storage<W>, maxRange: nat) {
    && |st.levels| == LEVELS && (forall i :: 0 <= i < LEVELS ==> LevelOk(st.tick, maxRange, i, st.levels[i]))
    && ReadyOk(st.tick, maxRange, st.ready) && OverflowOk(st.tick, maxRange, st.overflow)
  }

  datatype Place = Ready | Slot(level: nat, slot: nat) | Overflow

  /** The first level, from i on, whose span covers the deadline. */
  function LevelPlace<W>(tick: nat, e: Entry<W>, i: nat): Place
    requires tick * MS < e.deadline
    decreases LEVELS - i
  {
    if i >= LEVELS then Overflow
    else if e.deadline - tick * MS < Res(i + 1) * MS then
      if i == 0 && e.Due() <= tick then Ready else Slot(i, Hand(e.Due(), i) % SLOTS)
    else LevelPlace(tick, e, i + 1)
  }

  function PlaceOf<W>(tick: nat, maxRange: nat, e: Entry<W>): Place {
    if e.deadline <= tick * MS then Ready
    else if e.deadline - tick * MS >= maxRange then Overflow
    else LevelPlace(tick, e, 0)
  }

  /** A place suits an entry. */
  ghost predicate Suits<W>(tick: nat, maxRange: nat, e: Entry<W>, p: Place) {
    match p
    case Ready => NearlyDue(tick, maxRange, e)
    case Overflow => maxRange <= e.Delta(tick)
    case Slot(i, s) =>
      && i < LEVELS && s < SLOTS && Fits(tick, i, s, e.Due())
      && (i > 0 ==> (tick + Res(i)) * MS <= e.deadline) && e.deadline < tick * MS + maxRange
  }

  lemma {:induction false} LevelPlaceSuits<W>(tick: nat, maxRange: nat, e: Entry<W>, i: nat)
    requires i <= LEVELS && tick * MS < e.deadline < tick * MS + maxRange && maxRange <= PHYSICAL_RANGE
    requires i > 0 ==> (tick + Res(i)) * MS <= e.deadline
    ensures Suits(tick, maxRange, e, LevelPlace(tick, e, i)) && !LevelPlace(tick, e, i).Overflow?
    decreases LEVELS - i
  {
    if i == LEVELS {
      PhysicalRange();
    } else if e.deadline - tick * MS < Res(i + 1) * MS {
      if i > 0 || e.Due() > tick { FitsInsert(tick, i, e.deadline); }
    } else {
      LevelPlaceSuits(tick, maxRange, e, i + 1);
    }
  }

  lemma PlaceSuits<W>(tick: nat, maxRange: nat, e: Entry<W>)
    requires maxRange <= PHYSICAL_RANGE
    ensures Suits(tick, maxRange, e, PlaceOf(tick, maxRange, e))
    ensures e.Delta(tick) < maxRange ==> !PlaceOf(tick, maxRange, e).Overflow?
  {
    if e.deadline <= tick * MS {
      TicksBelow(e.deadline, tick + 1);
    } else if e.deadline < tick * MS + maxRange {
      LevelPlaceSuits(tick, maxRange, e, 0);
    }
  }

  ghost predicate Shaped<W>(st: Storage<W>) {
    |st.levels| == LEVELS && forall i :: 0 <= i < LEVELS ==> Marked(st.levels[i])
  }

  function Put<W>(st: Storage<W>, p: Place, e: Entry<W>): Storage<W>
    requires p.Slot? ==> p.level < |st.levels| && p.slot < SLOTS && Marked(st.levels[p.level])
  {
    match p
    case Ready => st.(ready := st.ready + [e])
    case Overflow => st.(overflow := st.overflow + [e])
    case Slot(i, s) => st.(levels := st.levels[i := PushSlot(st.levels[i], s, e)])
  }

  lemma {:induction false} LevelPlaceBounds<W>(tick: nat, e: Entry<W>, i: nat)
    requires tick * MS < e.deadline
    ensures var p := LevelPlace(tick, e, i); p.Slot? ==> p.level < LEVELS && p.slot < SLOTS
    decreases LEVELS - i
  {
    if i < LEVELS { LevelPlaceBounds(tick, e, i + 1); }
  }

  /** What `insert_entry` does. */
  ghost function Insert<W>(st: Storage<W>, maxRange: nat, e: Entry<W>): (st': Storage<W>)
    requires Shaped(st)
    ensures Shaped(st') && st'.tick == st.tick
  {
    if st.tick * MS < e.deadline then LevelPlaceBounds(st.tick, e, 0);
      Put(st, PlaceOf(st.tick, maxRange, e), e)
    else Put(st, Ready, e)
  }

  lemma InsertStored<W>(st: Storage<W>, maxRange: nat, e: Entry<W>, x: Entry<W>)
    requires Shaped(st)
    ensures Stored(Insert(st, maxRange, e), x) <==> Stored(st, x) || x == e
  {
    var p := PlaceOf(st.tick, maxRange, e);
    if st.tick * MS < e.deadline { LevelPlaceBounds(st.tick, e, 0); }
    if p.Slot? {
      PushHolds(st.levels[p.level], p.slot, e, x);
      LevelUpdate(st.levels, p.level, PushSlot(st.levels[p.level], p.slot, e), x);
    }
  }

  lemma PushFits<W>(tick: nat, maxRange: nat, i: nat, lv: Level<W>, s: nat, e: Entry<W>)
    requires LevelFits(tick, maxRange, i, lv) && s < SLOTS && Sits(tick, maxRange, i, s, e)
    ensures LevelFits(tick, maxRange, i, PushSlot(lv, s, e))
  {
  }

  /** `insert_entry`: the levels are tried from the finest up. */
  method InsertEntry<W>(st: Storage<W>, maxRange: nat, e: Entry<W>) returns (st': Storage<W>)
    requires Shaped(st)
    ensures st' == Insert(st, maxRange, e)
  {
    var current := st.tick * MS;
    if e.deadline <= current {
      return st.(ready := st.ready + [e]);
    }
    var delta := e.deadline - current;
    if delta >= maxRange {
      return st.(overflow := st.overflow + [e]);
    }
    var idx := 0;
    while idx < LEVELS
      invariant idx <= LEVELS && LevelPlace(st.tick, e, idx) == LevelPlace(st.tick, e, 0)
    {
      if delta < Res(idx + 1) * MS {
        if idx == 0 && e.deadline / MS <= st.tick {
          return st.(ready := st.ready + [e]);
        }
        DivDiv(e.deadline, MS, Res(idx));
        var slot := e.deadline / (MS * Res(idx)) % SLOTS;
        return st.(levels := st.levels[idx := PushSlot(st.levels[idx], slot, e)]);
      }
      idx := idx + 1;
    }
    st' := st.(overflow := st.overflow + [e]);
  }

  /** Insertion at rest leaves the storage at rest. */
  lemma InsertAtRest<W>(st: Storage<W>, maxRange: nat, e: Entry<W>)
    requires AtRest(st, maxRange) && maxRange <= PHYSICAL_RANGE
    ensures Shaped(st) && AtRest(Insert(st, maxRange, e), maxRange)
  {
    PlaceSuits(st.tick, maxRange, e);
    var p := PlaceOf(st.tick, maxRange, e);
    if p.Slot? {
      PushFits(st.tick, maxRange, p.level, st.levels[p.level], p.slot, e);
    }
  }
}
