/**
 Advancing the wheel to a later tick.  `advance_to` jumps over ticks at which nothing can happen;
 what it leaves is what turning the wheel one tick at a time would have left.
 */
module WheelAdvance {
  import opened Arithmetic
  import opened Iteration
  import opened Wrappers
  import opened WheelBitmap
  import opened WheelClock
  import opened WheelReach
  import opened WheelStorage
  import opened WheelTurn

  lemma HandTimesRes(tick: nat, i: nat)
    ensures tick - tick % Res(i) == Hand(tick, i) * Res(i)
  {
  }

  lemma TimesMono(a: nat, b: nat, m: nat)
    requires a <= b
    ensures a * m <= b * m
  {
    assert b * m == a * m + (b - a) * m;
  }

  /** No entry of a level turns up before the tick of its first occupied slot. */
  lemma NotBefore<W>(tick: nat, maxRange: nat, i: nat, lv: Level<W>, dist: Option<nat>, s: nat, e: Entry<W>)
    requires LevelOk(tick, maxRange, i, lv) && s < SLOTS && e in lv.slots[s]
    requires FirstAhead(lv.occupied, lv.cursor, dist)
    ensures dist.Some? && tick - tick % Res(i) + dist.value * Res(i) <= Hand(e.Due(), i) * Res(i)
  {
    assert Sits(tick, maxRange, i, s, e);
    var k: nat := Hand(e.Due(), i) - Hand(tick, i);
    SlotAhead(lv.cursor, Hand(tick, i), k);
    assert SetAhead(lv.occupied, lv.cursor, k);
    HandTimesRes(tick, i);
    TimesMono(Hand(tick, i) + dist.value, Hand(tick, i) + k, Res(i));
    assert (Hand(tick, i) + dist.value) * Res(i) == Hand(tick, i) * Res(i) + dist.value * Res(i);
  }

  /** Nothing on the level happens before that tick. */
  ghost predicate QuietUntil<W>(i: nat, lv: Level<W>, next: nat) {
    forall s: nat, e :: s < |lv.slots| && e in lv.slots[s] ==> next <= Hand(e.Due(), i) * Res(i)
  }

  /** A slot of the level is reached at that tick. */
  ghost predicate ReachedAt<W>(i: nat, lv: Level<W>, next: nat) {
    exists s: nat, e :: s < |lv.slots| && e in lv.slots[s] && Hand(e.Due(), i) * Res(i) == next
  }

  lemma AheadIs(here: nat, h: nat, dist: nat)
    requires here < h <= here + SLOTS && 1 <= dist <= SLOTS && h % SLOTS == (here % SLOTS + dist) % SLOTS
    ensures h == here + dist
  {
  }

  lemma HitIsReached<W>(tick: nat, maxRange: nat, i: nat, lv: Level<W>, dist: nat, hit: nat)
    requires LevelOk(tick, maxRange, i, lv) && 1 <= dist <= SLOTS && SetAhead(lv.occupied, lv.cursor, dist)
    requires hit == tick - tick % Res(i) + dist * Res(i)
    ensures ReachedAt(i, lv, hit)
  {
    var s := (lv.cursor + dist) % SLOTS;
    assert IsSet(lv.occupied, s);
    var e := lv.slots[s][0];
    assert e in lv.slots[s];
    assert Sits(tick, maxRange, i, s, e);
    AheadIs(Hand(tick, i), Hand(e.Due(), i), dist);
    HandTimesRes(tick, i);
    assert (Hand(tick, i) + dist) * Res(i) == Hand(tick, i) * Res(i) + dist * Res(i);
  }

  method NextHit<W>(tick: nat, ghost maxRange: nat, i: nat, lv: Level<W>, next: nat) returns (next': nat)
    requires LevelOk(tick, maxRange, i, lv) && tick < next
    ensures tick < next' <= next && QuietUntil(i, lv, next')
    ensures next' == next || ReachedAt(i, lv, next')
  {
    var dist := NextOccupiedDistance(lv.occupied, lv.cursor);
    next' := next;
    if dist.Some? {
      var hit := tick - tick % Res(i) + dist.value * Res(i);
      MultipleBounds(Res(i), dist.value);
      if hit < next {
        next' := hit;
        HitIsReached(tick, maxRange, i, lv, dist.value, hit);
      }
    }
    forall s: nat, e | s < |lv.slots| && e in lv.slots[s] ensures next' <= Hand(e.Due(), i) * Res(i) {
      NotBefore(tick, maxRange, i, lv, dist, s, e);
    }
  }

  /** Something happens at that tick, or in the next one an overflow entry is within range. */
  ghost predicate Busy<W>(st: Storage<W>, maxRange: nat, next: nat) {
    || (exists i: nat :: i < |st.levels| && ReachedAt(i, st.levels[i], next))
    || (exists e :: e in st.overflow && e.deadline < (next + 1) * MS + maxRange)
  }

  /**
   `next_skip_tick`: the next tick at which a slot is reached or before which an overflow entry may
   come into range; nothing happens earlier, and it is not earlier than need be.
   */
  method NextSkipTick<W>(st: Storage<W>, maxRange: nat, ghost reach: nat, limit: nat) returns (next: nat)
    requires AtRest(st, reach) && st.tick < limit && (reach <= maxRange || st.overflow == [])
    ensures st.tick <= next <= limit
    ensures forall i :: 0 <= i < LEVELS ==> QuietUntil(i, st.levels[i], next)
    ensures st.tick < next ==> OverflowOk(next, reach, st.overflow)
    ensures next == limit || Busy(st, maxRange, next)
  {
    next := limit;
    for i := 0 to LEVELS
      invariant st.tick < next <= limit && (next == limit || Busy(st, maxRange, next))
      invariant forall j :: 0 <= j < i ==> QuietUntil(j, st.levels[j], next)
    {
      next := NextHit(st.tick, reach, i, st.levels[i], next);
    }
    if st.overflow != [] {
      var first := st.overflow[Top(st.overflow)].deadline;
      var minEnter := if first < maxRange then 0 else (first - maxRange) / MS;
      assert first < (minEnter + 1) * MS + maxRange;
      if minEnter < next {
        if minEnter > st.tick { next := minEnter; } else { return st.tick; }
      }
      assert first < maxRange || next * MS <= first - maxRange;
    }
  }

  /** `realign_cursors_to_current_tick`. */
  function Realigned<W>(tick: nat, levels: seq<Level<W>>): seq<Level<W>> {
    seq(|levels|, i requires 0 <= i < |levels| => levels[i].(cursor := Hand(tick, i) % SLOTS))
  }

  function JumpTo<W>(st: Storage<W>, tick: nat): Storage<W> {
    st.(tick := tick, levels := Realigned(tick, st.levels))
  }

  lemma JumpLevel<W>(tick: nat, maxRange: nat, i: nat, lv: Level<W>, later: nat)
    requires LevelOk(tick, maxRange, i, lv) && tick <= later && QuietUntil(i, lv, later + 1)
    ensures LevelOk(later, maxRange, i, lv.(cursor := Hand(later, i) % SLOTS))
  {
    forall s: nat, e | s < SLOTS && e in lv.slots[s] ensures Sits(later, maxRange, i, s, e) {
      FitsJump(tick, i, s, e.Due(), later);
    }
  }

  lemma JumpAtRest<W>(st: Storage<W>, maxRange: nat, later: nat)
    requires AtRest(st, maxRange) && st.tick <= later
    requires forall i :: 0 <= i < LEVELS ==> QuietUntil(i, st.levels[i], later + 1)
    requires OverflowOk(later, maxRange, st.overflow)
    ensures AtRest(JumpTo(st, later), maxRange)
  {
    forall i | 0 <= i < LEVELS ensures LevelOk(later, maxRange, i, JumpTo(st, later).levels[i]) {
      JumpLevel(st.tick, maxRange, i, st.levels[i], later);
    }
  }

  lemma OverflowEarlier<W>(tick: nat, later: nat, maxRange: nat, overflow: seq<Entry<W>>)
    requires OverflowOk(later, maxRange, overflow) && tick <= later
    ensures OverflowOk(tick, maxRange, overflow)
  {
    TimesMono(tick, later, MS);
  }

  // One tick at a time.

  ghost function Ticked<W>(st: Storage<W>, maxRange: nat, active: Active): (st': Storage<W>)
    requires Shaped(st) && maxRange <= PHYSICAL_RANGE
    ensures Shaped(st') && st'.tick == st.tick + 1
  {
    Refill(Turn(st.(tick := st.tick + 1), maxRange, active, 0), maxRange, active)
  }

  ghost function Tick<W>(maxRange: nat, active: Active): Storage<W> -> Storage<W>
    requires maxRange <= PHYSICAL_RANGE
  {
    st => if Shaped(st) then Ticked(st, maxRange, active) else st
  }

  ghost function Ticks<W>(st: Storage<W>, maxRange: nat, active: Active, n: nat): Storage<W>
    requires maxRange <= PHYSICAL_RANGE
  {
    Iterate(Tick(maxRange, active), st, n)
  }

  lemma TicksNext<W>(st: Storage<W>, maxRange: nat, active: Active, n: nat)
    requires Shaped(st) && maxRange <= PHYSICAL_RANGE && n > 0
    ensures Ticks(st, maxRange, active, n) == Ticks(Ticked(st, maxRange, active), maxRange, active, n - 1)
  {
  }

  lemma TicksAdd<W>(st: Storage<W>, maxRange: nat, active: Active, n: nat, m: nat)
    requires maxRange <= PHYSICAL_RANGE
    ensures Ticks(Ticks(st, maxRange, active, n), maxRange, active, m) == Ticks(st, maxRange, active, n + m)
  {
    IterateAdd(Tick(maxRange, active), st, n, m);
  }

  lemma {:induction false} TicksShaped<W>(st: Storage<W>, maxRange: nat, active: Active, n: nat)
    requires Shaped(st) && maxRange <= PHYSICAL_RANGE
    ensures Shaped(Ticks(st, maxRange, active, n)) && Ticks(st, maxRange, active, n).tick == st.tick + n
    decreases n
  {
    if n > 0 {
      TicksNext(st, maxRange, active, n);
      TicksShaped(Ticked(st, maxRange, active), maxRange, active, n - 1);
    }
  }

  /** The tick has been counted and nothing has moved yet. */
  lemma Begun<W>(st: Storage<W>, maxRange: nat) returns (begun: Storage<W>)
    requires AtRest(st, maxRange)
    ensures begun == st.(tick := st.tick + 1) && MidTick(begun, maxRange, 0)
  {
    begun := st.(tick := st.tick + 1);
    ReadyLater(st.tick, maxRange, st.ready);
  }

  lemma TickStored<W>(st: Storage<W>, x: Entry<W>)
    ensures Stored(st.(tick := st.tick + 1), x) <==> Stored(st, x)
  {
  }

  lemma TickedKeeps<W(!new)>(st: Storage<W>, maxRange: nat, active: Active)
    requires AtRest(st, maxRange) && maxRange <= PHYSICAL_RANGE
    ensures Shaped(st) && AtRest(Ticked(st, maxRange, active), maxRange)
    ensures Keeps(active, st, Ticked(st, maxRange, active))
  {
    var begun := Begun(st, maxRange);
    TurnKeeps(begun, maxRange, active, 0);
    RefillKeeps(Turn(begun, maxRange, active, 0), maxRange, active);
    forall x ensures Stored(begun, x) <==> Stored(st, x) { TickStored(st, x); }
  }

  lemma ReadyLater<W>(tick: nat, maxRange: nat, ready: seq<Entry<W>>)
    requires ReadyOk(tick, maxRange, ready)
    ensures ReadyOk(tick + 1, maxRange, ready)
  {
    forall e | e in ready ensures NearlyDue(tick + 1, maxRange, e) { TicksBelow(e.deadline, tick + 1); }
  }

  /** However far the wheel turns, every entry is where it fits and no live one is lost. */
  lemma {:induction false} TicksKeep<W(!new)>(st: Storage<W>, maxRange: nat, active: Active, n: nat)
    requires AtRest(st, maxRange) && maxRange <= PHYSICAL_RANGE
    ensures AtRest(Ticks(st, maxRange, active, n), maxRange)
    ensures Keeps(active, st, Ticks(st, maxRange, active, n))
    decreases n
  {
    if n > 0 {
      TickedKeeps(st, maxRange, active);
      TicksNext(st, maxRange, active, n);
      TicksKeep(Ticked(st, maxRange, active), maxRange, active, n - 1);
    }
  }

  // Ticks at which nothing happens.

  /** No slot is reached before the given tick. */
  ghost predicate AllQuiet<W>(st: Storage<W>, next: nat) {
    forall i :: 0 <= i < |st.levels| ==> QuietUntil(i, st.levels[i], next)
  }

  lemma Aligned<W>(st: Storage<W>, maxRange: nat)
    requires Turned(st, maxRange)
    ensures JumpTo(st, st.tick) == st
  {
    assert Realigned(st.tick, st.levels) == st.levels;
  }

  lemma QuietSlot<W>(tick: nat, maxRange: nat, k: nat, lv: Level<W>, s: nat)
    requires tick >= 1 && LevelOk(tick - 1, maxRange, k, lv) && tick % Res(k) == 0 && s == (lv.cursor + 1) % SLOTS
    requires QuietUntil(k, lv, tick + 1)
    ensures lv.slots[s] == [] && TakeSlot(lv, s) == lv.(cursor := Hand(tick, k) % SLOTS)
  {
    TakeTurned(tick, maxRange, k, lv, s);
    if lv.slots[s] != [] {
      var e := lv.slots[s][0];
      assert Sits(tick - 1, maxRange, k, s, e) && e in lv.slots[s];
      HandNext(tick - 1, k);
      SameHand(tick - 1, k, s, e.Due());
      HandTimesRes(tick, k);
      assert false;
    }
    assert lv.slots[s := []] == lv.slots;
    ClearUnset(lv.occupied, s);
  }

  lemma SameHand(tick: nat, k: nat, s: nat, d: nat)
    requires Fits(tick, k, s, d) && (tick + 1) % Res(k) == 0 && s == Hand(tick + 1, k) % SLOTS
    ensures Hand(d, k) == Hand(tick + 1, k)
  {
    HandNext(tick, k);
  }

  lemma {:induction false} QuietTurn<W>(st: Storage<W>, maxRange: nat, active: Active, k: nat)
    requires MidTick(st, maxRange, k) && AllQuiet(st, st.tick + 1)
    requires k < LEVELS ==> st.tick % Res(k) == 0
    ensures Shaped(st) && Turn(st, maxRange, active, k) == JumpTo(st, st.tick)
    decreases LEVELS - k
  {
    if k >= LEVELS {
      TurnDone(st, maxRange, k);
      Aligned(st, maxRange);
    } else {
      var s := (st.levels[k].cursor + 1) % SLOTS;
      QuietSlot(st.tick, maxRange, k, st.levels[k], s);
      TakeMidTick(st, maxRange, k);
      var mid := TakeFrom(st, k, s);
      assert JumpTo(mid, st.tick) == JumpTo(st, st.tick) by {
        assert Realigned(st.tick, mid.levels) == Realigned(st.tick, st.levels);
      }
      CarryUp(st.tick, k);
      if s == 0 {
        QuietTurn(mid, maxRange, active, k + 1);
      } else {
        TurnDone(mid, maxRange, k + 1);
        Aligned(mid, maxRange);
      }
    }
  }

  lemma QuietTick<W>(st: Storage<W>, maxRange: nat, active: Active)
    requires AtRest(st, maxRange) && AllQuiet(st, st.tick + 2) && maxRange <= PHYSICAL_RANGE
    requires OverflowOk(st.tick + 1, maxRange, st.overflow)
    ensures Shaped(st) && Ticked(st, maxRange, active) == JumpTo(st, st.tick + 1)
  {
    var begun := Begun(st, maxRange);
    QuietTurn(begun, maxRange, active, 0);
    assert RefillStep(JumpTo(st, st.tick + 1), maxRange, active).None?;
  }

  ghost predicate QuietFor<W>(st: Storage<W>, maxRange: nat, n: nat) {
    AtRest(st, maxRange) && AllQuiet(st, st.tick + n + 1) && OverflowOk(st.tick + n, maxRange, st.overflow)
  }

  lemma JumpQuiet<W>(st: Storage<W>, maxRange: nat, n: nat)
    requires n > 0 && QuietFor(st, maxRange, n)
    ensures QuietFor(st, maxRange, 1) && QuietFor(JumpTo(st, st.tick + 1), maxRange, n - 1)
  {
    OverflowEarlier(st.tick + 1, st.tick + n, maxRange, st.overflow);
    JumpAtRest(st, maxRange, st.tick + 1);
  }

  lemma JumpTwice<W>(st: Storage<W>, t: nat, u: nat)
    ensures JumpTo(JumpTo(st, t), u) == JumpTo(st, u)
  {
    assert Realigned(u, Realigned(t, st.levels)) == Realigned(u, st.levels);
  }

  lemma JumpNowhere<W>(st: Storage<W>, maxRange: nat)
    requires AtRest(st, maxRange)
    ensures JumpTo(st, st.tick) == st
  {
    assert Realigned(st.tick, st.levels) == st.levels;
  }

  ghost predicate Skips<W>(f: Storage<W> -> Storage<W>, st: Storage<W>) { f(st) == JumpTo(st, st.tick + 1) }

  lemma {:induction false} QuietIterate<W(!new)>(f: Storage<W> -> Storage<W>, st: Storage<W>, maxRange: nat, n: nat)
    requires forall s :: QuietFor(s, maxRange, 1) ==> Skips(f, s)
    requires QuietFor(st, maxRange, n)
    ensures Iterate(f, st, n) == JumpTo(st, st.tick + n)
    decreases n
  {
    if n == 0 {
      JumpNowhere(st, maxRange);
    } else {
      JumpQuiet(st, maxRange, n);
      assert Skips(f, st);
      QuietIterate(f, JumpTo(st, st.tick + 1), maxRange, n - 1);
      JumpTwice(st, st.tick + 1, st.tick + n);
    }
  }

  /** A stretch of ticks at which nothing happens is a jump. */
  lemma QuietTicks<W(!new)>(st: Storage<W>, maxRange: nat, active: Active, n: nat)
    requires QuietFor(st, maxRange, n) && maxRange <= PHYSICAL_RANGE
    ensures Ticks(st, maxRange, active, n) == JumpTo(st, st.tick + n)
  {
    var tick := Tick<W>(maxRange, active);
    forall s | QuietFor(s, maxRange, 1) ensures Skips(tick, s) {
      QuietTick(s, maxRange, active);
    }
    QuietIterate(tick, st, maxRange, n);
  }

  // Advancing.

  /** A tick after n others. */
  lemma TickAfter<W>(st: Storage<W>, maxRange: nat, active: Active, n: nat, mid: Storage<W>)
    requires Shaped(mid) && maxRange <= PHYSICAL_RANGE && mid == Ticks(st, maxRange, active, n)
    ensures Ticks(st, maxRange, active, n + 1) == Ticked(mid, maxRange, active)
  {
    TicksAdd(st, maxRange, active, n, 1);
    TicksNext(mid, maxRange, active, 1);
  }

  /** What the methods that turn the wheel ask for and keep. */
  ghost predicate InReach<W(!new)>(st: Storage<W>, maxRange: nat, maxTimer: nat) {
    AtRest(st, Reach(maxRange, maxTimer)) && Within(st, maxTimer) && Settles(maxRange, maxTimer)
  }

  lemma TicksInReach<W(!new)>(st: Storage<W>, maxRange: nat, maxTimer: nat, active: Active, n: nat)
    requires InReach(st, maxRange, maxTimer)
    ensures InReach(Ticks(st, Reach(maxRange, maxTimer), active, n), maxRange, maxTimer)
    ensures Ticks(st, Reach(maxRange, maxTimer), active, n).tick == st.tick + n
  {
    var reach := Reach(maxRange, maxTimer);
    TicksShaped(st, reach, active, n);
    TicksKeep(st, reach, active, n);
    WithinLater(st, Ticks(st, reach, active, n), maxTimer);
  }

  /** A turn under the range is a turn under the reach, and leaves an overflow that both treat alike. */
  lemma TurnAlike<W(!new)>(st: Storage<W>, maxRange: nat, maxTimer: nat, active: Active)
    requires InReach(st, maxRange, maxTimer)
    ensures Shaped(st)
    ensures var reach, begun := Reach(maxRange, maxTimer), st.(tick := st.tick + 1);
      && Turn(begun, maxRange, active, 0) == Turn(begun, reach, active, 0)
      && AllAlike(Turn(begun, reach, active, 0), maxRange, reach)
  {
    var reach := Reach(maxRange, maxTimer);
    var begun := Begun(st, reach);
    forall x ensures Stored(begun, x) <==> Stored(st, x) { TickStored(st, x); }
    WithinLater(st, begun, maxTimer);
    TurnInReach(begun, maxRange, maxTimer, active, 0);
    TurnKeeps(begun, reach, active, 0);
    TurnedAlike(st, Turn(begun, reach, active, 0), maxRange, maxTimer);
  }

  method TickOnce<W(!new)>(st: Storage<W>, maxRange: nat, ghost maxTimer: nat, active: Active) returns (st': Storage<W>)
    requires InReach(st, maxRange, maxTimer)
    ensures Shaped(st) && st' == Ticked(st, Reach(maxRange, maxTimer), active)
  {
    TurnAlike(st, maxRange, maxTimer, active);
    st' := TickLevel0(st.(tick := st.tick + 1), maxRange, active);
    st' := RefillOverflow(st', maxRange, Reach(maxRange, maxTimer), active);
  }

  /** Up to just before the next tick at which something may happen. */
  method Skip<W(!new)>(st: Storage<W>, maxRange: nat, ghost maxTimer: nat, active: Active, target: nat)
      returns (st': Storage<W>)
    requires InReach(st, maxRange, maxTimer) && st.tick < target
    ensures st.tick <= st'.tick < target && st' == Ticks(st, Reach(maxRange, maxTimer), active, st'.tick - st.tick)
  {
    ghost var reach := Reach(maxRange, maxTimer);
    ReachOrEmpty(st, maxRange, maxTimer);
    var next := NextSkipTick(st, maxRange, reach, target);
    if next <= st.tick + 1 {
      return st;
    }
    OverflowEarlier(next - 1, next, reach, st.overflow);
    QuietTicks(st, reach, active, next - 1 - st.tick);
    st' := JumpTo(st, next - 1);
  }

  /** One round of `advance_to`: a jump if there is room for one, then a tick. */
  method Round<W(!new)>(st: Storage<W>, maxRange: nat, ghost maxTimer: nat, active: Active, target: nat)
      returns (st': Storage<W>)
    requires InReach(st, maxRange, maxTimer) && st.tick < target
    ensures st.tick < st'.tick <= target && st' == Ticks(st, Reach(maxRange, maxTimer), active, st'.tick - st.tick)
  {
    var mid := Skip(st, maxRange, maxTimer, active, target);
    TicksInReach(st, maxRange, maxTimer, active, mid.tick - st.tick);
    TickAfter(st, Reach(maxRange, maxTimer), active, mid.tick - st.tick, mid);
    st' := TickOnce(mid, maxRange, maxTimer, active);
  }

  /** With nothing stored, turning the wheel is a jump. */
  lemma EmptyTicks<W(!new)>(st: Storage<W>, maxRange: nat, active: Active, n: nat)
    requires AtRest(st, maxRange) && maxRange <= PHYSICAL_RANGE && forall e :: !Stored(st, e)
    ensures Ticks(st, maxRange, active, n) == JumpTo(st, st.tick + n)
  {
    forall i, s: nat, e | 0 <= i < LEVELS && s < |st.levels[i].slots| ensures e !in st.levels[i].slots[s] {
      SlotStored(st, i, s, e);
    }
    forall e ensures e !in st.overflow { assert e in st.overflow ==> Stored(st, e); }
    QuietTicks(st, maxRange, active, n);
  }

  /** The loop of `advance_to`. */
  method AdvanceBusy<W(!new)>(st: Storage<W>, maxRange: nat, ghost maxTimer: nat, active: Active, target: nat)
      returns (st': Storage<W>)
    requires InReach(st, maxRange, maxTimer) && st.tick <= target
    ensures st' == Ticks(st, Reach(maxRange, maxTimer), active, target - st.tick)
  {
    st' := st;
    ghost var reach := Reach(maxRange, maxTimer);
    while st'.tick < target
      invariant st.tick <= st'.tick <= target && st' == Ticks(st, reach, active, st'.tick - st.tick)
    {
      ghost var n := st'.tick - st.tick;
      TicksInReach(st, maxRange, maxTimer, active, n);
      st' := Round(st', maxRange, maxTimer, active, target);
      TicksAdd(st, reach, active, n, st'.tick - st.tick - n);
    }
  }

  /** `advance_to`: in one jump if no timer is active, and otherwise from one busy tick to the next. */
  method AdvanceTo<W(!new)>(st: Storage<W>, maxRange: nat, ghost maxTimer: nat, active: Active, target: nat)
      returns (st': Storage<W>)
    requires InReach(st, maxRange, maxTimer) && st.tick <= target
    requires active == map[] ==> forall e :: !Stored(st, e)
    ensures st' == Ticks(st, Reach(maxRange, maxTimer), active, target - st.tick)
  {
    if active == map[] {
      EmptyTicks(st, Reach(maxRange, maxTimer), active, target - st.tick);
      return JumpTo(st, target);
    }
    st' := AdvanceBusy(st, maxRange, maxTimer, active, target);
  }
}
