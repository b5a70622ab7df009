/** Turning the wheel: one tick, the cascade it sets off, and the refill from the overflow heap. */
module WheelTurn {
  import opened Wrappers
  import opened WheelClock
  import opened WheelStorage

  /** Which generation is active under each id. */
  type Active = map<nat, nat>

  predicate IsLive<W>(active: Active, e: Entry<W>) {
    e.id in active && active[e.id] == e.generation
  }

  /** Nothing appears, and nothing live disappears. */
  ghost predicate Keeps<W(!new)>(active: Active, st: Storage<W>, st': Storage<W>) {
    && (forall x :: Stored(st', x) ==> Stored(st, x))
    && (forall x :: Stored(st, x) && IsLive(active, x) ==> Stored(st', x))
  }

  // In the middle of a tick.

  /** The levels below k have been turned to st.tick, the others still stand at the tick before. */
  ghost predicate MidTick<W>(st: Storage<W>, maxRange: nat, k: nat) {
    && st.tick >= 1 && |st.levels| == LEVELS
    && (forall i: nat :: i < k && i < LEVELS ==> LevelOk(st.tick, maxRange, i, st.levels[i]))
    && (forall i: nat :: k <= i < LEVELS ==> LevelOk(st.tick - 1, maxRange, i, st.levels[i]))
    && ReadyOk(st.tick, maxRange, st.ready) && OverflowOk(st.tick - 1, maxRange, st.overflow)
  }

  /** All levels turned; overflow entries may have come into range. */
  ghost predicate Turned<W>(st: Storage<W>, maxRange: nat) {
    && st.tick >= 1 && |st.levels| == LEVELS
    && (forall i: nat :: i < LEVELS ==> LevelOk(st.tick, maxRange, i, st.levels[i]))
    && ReadyOk(st.tick, maxRange, st.ready) && OverflowOk(st.tick - 1, maxRange, st.overflow)
  }

  lemma {:induction false} ResMono(i: nat, j: nat)
    requires i <= j
    ensures Res(i) <= Res(j)
    decreases j
  {
    if i < j { ResMono(i, j - 1); }
  }

  lemma {:induction false} NoCarryAbove(tick: nat, k: nat, i: nat)
    requires k <= i && tick % Res(k) != 0
    ensures tick % Res(i) != 0
    decreases i
  {
    if k < i {
      NoCarryAbove(tick, k, i - 1);
      ZeroFiner(tick, i - 1);
    }
  }

  lemma ZeroFiner(tick: nat, i: nat)
    ensures tick % Res(i + 1) == 0 ==> tick % Res(i) == 0
  {
    if tick % Res(i + 1) == 0 {
      var m, q := Res(i), tick / Res(i + 1);
      assert Res(i + 1) == SLOTS * m;
      assert tick == (SLOTS * m) * q == m * (SLOTS * q);
      DivAdd(0, SLOTS * q, m);
      assert m * (SLOTS * q) == (SLOTS * q) * m;
      assert tick == m * (tick / m) + tick % m;
    }
  }

  lemma StillLevelOk<W>(tick: nat, maxRange: nat, i: nat, lv: Level<W>)
    requires LevelOk(tick, maxRange, i, lv) && (tick + 1) % Res(i) != 0
    ensures LevelOk(tick + 1, maxRange, i, lv)
  {
    HandNext(tick, i);
  }

  /** When the hand of level k does not move, neither do those above it. */
  lemma TurnDone<W>(st: Storage<W>, maxRange: nat, k: nat)
    requires MidTick(st, maxRange, k) && (k >= LEVELS || st.tick % Res(k) != 0)
    ensures Turned(st, maxRange)
  {
    forall i: nat | i < LEVELS ensures LevelOk(st.tick, maxRange, i, st.levels[i]) {
      if k <= i { StillAbove(st.tick, maxRange, k, i, st.levels[i]); }
    }
  }

  lemma StillAbove<W>(tick: nat, maxRange: nat, k: nat, i: nat, lv: Level<W>)
    requires tick >= 1 && k <= i && tick % Res(k) != 0 && LevelOk(tick - 1, maxRange, i, lv)
    ensures LevelOk(tick, maxRange, i, lv)
  {
    NoCarryAbove(tick, k, i);
    StillLevelOk(tick - 1, maxRange, i, lv);
  }

  /** The hand of level k moves on: its slot is emptied and the level is turned. */
  lemma TakeTurned<W>(tick: nat, maxRange: nat, k: nat, lv: Level<W>, s: nat)
    requires tick >= 1 && LevelOk(tick - 1, maxRange, k, lv) && tick % Res(k) == 0 && s == (lv.cursor + 1) % SLOTS
    ensures LevelOk(tick, maxRange, k, TakeSlot(lv, s)) && s == Hand(tick, k) % SLOTS
    ensures forall e :: e in lv.slots[s] ==> tick <= e.Due() < tick + Res(k)
  {
    HandNext(tick - 1, k);
    SlotAhead(lv.cursor, Hand(tick - 1, k), 1);
    assert s == Hand(tick, k) % SLOTS;
    var lv' := TakeSlot(lv, s);
    forall t: nat, e | t < SLOTS && e in lv'.slots[t] ensures Sits(tick, maxRange, k, t, e) {
      assert t != s && e in lv.slots[t];
      FitsNext(tick - 1, k, t, e.Due());
    }
    forall e | e in lv.slots[s] ensures tick <= e.Due() < tick + Res(k) {
      FitsDue(tick - 1, k, s, e.Due());
    }
  }

  lemma PushMidTick<W>(st: Storage<W>, maxRange: nat, k: nat, i: nat, s: nat, e: Entry<W>)
    requires MidTick(st, maxRange, k) && i < k && i < LEVELS && s < SLOTS && Sits(st.tick, maxRange, i, s, e)
    ensures Shaped(st) && MidTick(Put(st, Slot(i, s), e), maxRange, k)
  {
    PushFits(st.tick, maxRange, i, st.levels[i], s, e);
  }

  /** An entry that falls due within one slot of level k goes below level k. */
  lemma InsertBelow<W>(st: Storage<W>, maxRange: nat, k: nat, e: Entry<W>)
    requires MidTick(st, maxRange, k + 1) && k < LEVELS && maxRange <= PHYSICAL_RANGE
    requires e.Due() < st.tick + Res(k)
    ensures Shaped(st) && MidTick(Insert(st, maxRange, e), maxRange, k + 1)
  {
    PlaceSuits(st.tick, maxRange, e);
    var st' := PutBelow(st, maxRange, k, e, PlaceOf(st.tick, maxRange, e));
    assert st' == Insert(st, maxRange, e);
  }

  lemma PutBelow<W>(st: Storage<W>, maxRange: nat, k: nat, e: Entry<W>, p: Place) returns (st': Storage<W>)
    requires MidTick(st, maxRange, k + 1) && k < LEVELS && Suits(st.tick, maxRange, e, p)
    requires e.Due() < st.tick + Res(k)
    ensures Shaped(st) && st' == Put(st, p, e) && MidTick(st', maxRange, k + 1)
  {
    if p.Ready? {
      ReadyMidTick(st, maxRange, k + 1, e);
    } else if p.Overflow? {
      OverflowMidTick(st, maxRange, k + 1, e);
    } else {
      PlacedBelow(st.tick, maxRange, k, e, p);
      PushMidTick(st, maxRange, k + 1, p.level, p.slot, e);
    }
    st' := Put(st, p, e);
  }

  lemma ReadyMidTick<W>(st: Storage<W>, maxRange: nat, k: nat, e: Entry<W>)
    requires MidTick(st, maxRange, k) && NearlyDue(st.tick, maxRange, e)
    ensures Shaped(st) && MidTick(st.(ready := st.ready + [e]), maxRange, k)
  {
  }

  lemma OverflowMidTick<W>(st: Storage<W>, maxRange: nat, k: nat, e: Entry<W>)
    requires MidTick(st, maxRange, k) && maxRange <= e.Delta(st.tick)
    ensures Shaped(st) && MidTick(st.(overflow := st.overflow + [e]), maxRange, k)
  {
  }

  lemma PlacedBelow<W>(tick: nat, maxRange: nat, k: nat, e: Entry<W>, p: Place)
    requires Suits(tick, maxRange, e, p) && p.Slot? && e.Due() < tick + Res(k)
    ensures p.level <= k
  {
    TicksBelow(e.deadline, tick + Res(k));
    if p.level > k { ResMono(k, p.level); }
  }

  /** The live entries of an emptied slot are put back; dead ones are dropped. */
  ghost function PutBack<W>(st: Storage<W>, maxRange: nat, active: Active, bucket: seq<Entry<W>>): (st': Storage<W>)
    requires Shaped(st)
    ensures Shaped(st') && st'.tick == st.tick
  {
    if bucket == [] then st
    else
      var front, e := PutBack(st, maxRange, active, bucket[..|bucket| - 1]), bucket[|bucket| - 1];
      if IsLive(active, e) then Insert(front, maxRange, e) else front
  }

  lemma PutBackNext<W>(st: Storage<W>, maxRange: nat, active: Active, bucket: seq<Entry<W>>, j: nat)
    requires Shaped(st) && j < |bucket|
    ensures var front, e := PutBack(st, maxRange, active, bucket[..j]), bucket[j];
      PutBack(st, maxRange, active, bucket[..j + 1]) == if IsLive(active, e) then Insert(front, maxRange, e) else front
  {
    assert bucket[..j + 1][..j] == bucket[..j];
  }

  lemma {:induction false} PutBackMidTick<W>(st: Storage<W>, maxRange: nat, active: Active, bucket: seq<Entry<W>>,
                                             k: nat)
    requires k < LEVELS && MidTick(st, maxRange, k + 1) && maxRange <= PHYSICAL_RANGE
    requires forall e :: e in bucket ==> e.Due() < st.tick + Res(k)
    ensures Shaped(st) && MidTick(PutBack(st, maxRange, active, bucket), maxRange, k + 1)
  {
    if bucket != [] {
      var front := bucket[..|bucket| - 1];
      PutBackMidTick(st, maxRange, active, front, k);
      InsertBelow(PutBack(st, maxRange, active, front), maxRange, k, bucket[|bucket| - 1]);
    }
  }

  lemma {:induction false} PutBackStored<W>(st: Storage<W>, maxRange: nat, active: Active, bucket: seq<Entry<W>>,
                                            x: Entry<W>)
    requires Shaped(st)
    ensures var st' := PutBack(st, maxRange, active, bucket);
      && (Stored(st', x) ==> Stored(st, x) || x in bucket)
      && (Stored(st, x) || (x in bucket && IsLive(active, x)) ==> Stored(st', x))
  {
    if bucket != [] {
      var front, e := bucket[..|bucket| - 1], bucket[|bucket| - 1];
      assert bucket == front + [e];
      PutBackStored(st, maxRange, active, front, x);
      InsertStored(PutBack(st, maxRange, active, front), maxRange, e, x);
    }
  }

  /** The loop of `cascade`. */
  method Reinsert<W>(st: Storage<W>, maxRange: nat, active: Active, bucket: seq<Entry<W>>) returns (st': Storage<W>)
    requires Shaped(st)
    ensures st' == PutBack(st, maxRange, active, bucket)
  {
    st' := st;
    for j := 0 to |bucket|
      invariant st' == PutBack(st, maxRange, active, bucket[..j])
    {
      PutBackNext(st, maxRange, active, bucket, j);
      if IsLive(active, bucket[j]) {
        st' := InsertEntry(st', maxRange, bucket[j]);
      }
    }
    assert bucket[..|bucket|] == bucket;
  }

  /** `collect_bucket`: what has come due is ready, the rest is inserted again. */
  method CollectBucket<W>(st: Storage<W>, maxRange: nat, active: Active, bucket: seq<Entry<W>>)
      returns (st': Storage<W>)
    requires Shaped(st)
    ensures st' == PutBack(st, maxRange, active, bucket)
  {
    st' := st;
    for j := 0 to |bucket|
      invariant st' == PutBack(st, maxRange, active, bucket[..j])
    {
      PutBackNext(st, maxRange, active, bucket, j);
      var e := bucket[j];
      if IsLive(active, e) {
        if e.deadline <= st'.tick * MS {
          st' := st'.(ready := st'.ready + [e]);
        } else {
          st' := InsertEntry(st', maxRange, e);
        }
      }
    }
    assert bucket[..|bucket|] == bucket;
  }

  function TakeFrom<W>(st: Storage<W>, k: nat, s: nat): Storage<W>
    requires k < |st.levels| && s < SLOTS && Marked(st.levels[k])
  {
    st.(levels := st.levels[k := TakeSlot(st.levels[k], s)])
  }

  lemma TakeStored<W>(st: Storage<W>, k: nat, s: nat, x: Entry<W>)
    requires k < |st.levels| && s < SLOTS && Marked(st.levels[k])
    ensures Stored(st, x) <==> Stored(TakeFrom(st, k, s), x) || x in st.levels[k].slots[s]
  {
    TakeHolds(st.levels[k], s, x);
    LevelUpdate(st.levels, k, TakeSlot(st.levels[k], s), x);
  }

  lemma LevelTurned<W>(st: Storage<W>, maxRange: nat, k: nat, lv: Level<W>)
    requires MidTick(st, maxRange, k) && k < LEVELS && LevelOk(st.tick, maxRange, k, lv)
    ensures MidTick(st.(levels := st.levels[k := lv]), maxRange, k + 1)
  {
  }

  lemma TakeMidTick<W>(st: Storage<W>, maxRange: nat, k: nat)
    requires MidTick(st, maxRange, k) && k < LEVELS && st.tick % Res(k) == 0
    ensures var s := (st.levels[k].cursor + 1) % SLOTS;
      && Marked(st.levels[k]) && MidTick(TakeFrom(st, k, s), maxRange, k + 1)
      && (forall e :: e in st.levels[k].slots[s] ==> st.tick <= e.Due() < st.tick + Res(k))
      && s == Hand(st.tick, k) % SLOTS
  {
    assert LevelOk(st.tick - 1, maxRange, k, st.levels[k]);
    var s := (st.levels[k].cursor + 1) % SLOTS;
    TakeTurned(st.tick, maxRange, k, st.levels[k], s);
    LevelTurned(st, maxRange, k, TakeSlot(st.levels[k], s));
  }

  lemma SlotPutBack<W(!new)>(active: Active, st: Storage<W>, maxRange: nat, k: nat, s: nat)
    requires Shaped(st) && k < LEVELS && s < SLOTS
    ensures Shaped(TakeFrom(st, k, s))
    ensures Keeps(active, st, PutBack(TakeFrom(st, k, s), maxRange, active, st.levels[k].slots[s]))
  {
    var taken, bucket := TakeFrom(st, k, s), st.levels[k].slots[s];
    var st' := PutBack(taken, maxRange, active, bucket);
    forall x ensures Stored(st', x) ==> Stored(st, x) {
      TakeStored(st, k, s, x);
      PutBackStored(taken, maxRange, active, bucket, x);
    }
    forall x | Stored(st, x) && IsLive(active, x) ensures Stored(st', x) {
      TakeStored(st, k, s, x);
      PutBackStored(taken, maxRange, active, bucket, x);
    }
  }

  /** Level k moves on, and so does the next one when this one is back at slot zero. */
  ghost function Turn<W>(st: Storage<W>, maxRange: nat, active: Active, k: nat): (st': Storage<W>)
    requires Shaped(st)
    ensures Shaped(st') && st'.tick == st.tick
    decreases |st.levels| - k
  {
    if k >= |st.levels| then st
    else
      var s := (st.levels[k].cursor + 1) % SLOTS;
      var mid := PutBack(TakeFrom(st, k, s), maxRange, active, st.levels[k].slots[s]);
      if s == 0 then Turn(mid, maxRange, active, k + 1) else mid
  }

  /** A turn leaves every entry where it fits, and loses no live one. */
  lemma {:induction false} TurnKeeps<W(!new)>(st: Storage<W>, maxRange: nat, active: Active, k: nat)
    requires MidTick(st, maxRange, k) && maxRange <= PHYSICAL_RANGE
    requires k < LEVELS ==> st.tick % Res(k) == 0
    ensures Shaped(st) && Turned(Turn(st, maxRange, active, k), maxRange)
    ensures Keeps(active, st, Turn(st, maxRange, active, k))
    decreases LEVELS - k
  {
    if k >= LEVELS {
      TurnDone(st, maxRange, k);
    } else {
      TakeMidTick(st, maxRange, k);
      var s := (st.levels[k].cursor + 1) % SLOTS;
      var bucket := st.levels[k].slots[s];
      PutBackMidTick(TakeFrom(st, k, s), maxRange, active, bucket, k);
      SlotPutBack(active, st, maxRange, k, s);
      CarryUp(st.tick, k);
      var mid := PutBack(TakeFrom(st, k, s), maxRange, active, bucket);
      if s == 0 {
        TurnKeeps(mid, maxRange, active, k + 1);
      } else {
        TurnDone(mid, maxRange, k + 1);
      }
    }
  }

  method Cascade<W>(st: Storage<W>, maxRange: nat, active: Active, k: nat) returns (st': Storage<W>)
    requires Shaped(st)
    ensures st' == Turn(st, maxRange, active, k)
    decreases LEVELS - k
  {
    if k >= LEVELS {
      return st;
    }
    var cursor := (st.levels[k].cursor + 1) % SLOTS;
    st' := Reinsert(TakeFrom(st, k, cursor), maxRange, active, st.levels[k].slots[cursor]);
    if cursor == 0 {
      st' := Cascade(st', maxRange, active, k + 1);
    }
  }

  /** `tick_level0`, after the tick itself has been counted. */
  method TickLevel0<W>(st: Storage<W>, maxRange: nat, active: Active) returns (st': Storage<W>)
    requires Shaped(st)
    ensures st' == Turn(st, maxRange, active, 0)
  {
    var cursor := (st.levels[0].cursor + 1) % SLOTS;
    st' := CollectBucket(TakeFrom(st, 0, cursor), maxRange, active, st.levels[0].slots[cursor]);
    if cursor == 0 {
      st' := Cascade(st', maxRange, active, 1);
    }
  }

  // Overflow.

  /** The heap's order: the earlier deadline, and of equal ones the lower generation. */
  predicate Before<W>(a: Entry<W>, b: Entry<W>) {
    a.deadline < b.deadline || (a.deadline == b.deadline && a.generation < b.generation)
  }

  /** The heap's top. */
  function Top<W>(overflow: seq<Entry<W>>): (m: nat)
    requires overflow != []
    ensures m < |overflow| && forall e :: e in overflow ==> overflow[m].deadline <= e.deadline
  {
    var last := |overflow| - 1;
    if last == 0 then 0
    else
      var m := Top(overflow[..last]);
      assert forall e :: e in overflow ==> e in overflow[..last] || e == overflow[last];
      if Before(overflow[last], overflow[m]) then last else m
  }

  function Without<T>(s: seq<T>, m: nat): seq<T>
    requires m < |s|
  {
    s[..m] + s[m + 1..]
  }

  lemma WithoutElements<T>(s: seq<T>, m: nat, x: T)
    requires m < |s|
    ensures x in s <==> x in Without(s, m) || x == s[m]
  {
    assert s == s[..m] + [s[m]] + s[m + 1..];
  }

  function Popped<W>(st: Storage<W>): Storage<W>
    requires st.overflow != []
  {
    st.(overflow := Without(st.overflow, Top(st.overflow)))
  }

  /** One round of the loop of `refill_overflow`: the storage after it, or none if the loop ends. */
  ghost function RefillStep<W>(st: Storage<W>, maxRange: nat, active: Active): (r: Option<Storage<W>>)
    requires Shaped(st)
    ensures r.Some? ==> Shaped(r.value) && r.value.tick == st.tick
  {
    if st.overflow == [] then None
    else
      var e := st.overflow[Top(st.overflow)];
      if e.Delta(st.tick) >= maxRange then None
      else Some(if IsLive(active, e) then Insert(Popped(st), maxRange, e) else Popped(st))
  }

  lemma RefillShrinks<W>(st: Storage<W>, maxRange: nat, active: Active)
    requires Shaped(st) && maxRange <= PHYSICAL_RANGE
    ensures var r := RefillStep(st, maxRange, active); r.Some? ==> |r.value.overflow| < |st.overflow|
  {
    if st.overflow != [] { PlaceSuits(st.tick, maxRange, st.overflow[Top(st.overflow)]); }
  }

  /** Refilling until the loop ends. */
  ghost function Refill<W>(st: Storage<W>, maxRange: nat, active: Active): (st': Storage<W>)
    requires Shaped(st) && maxRange <= PHYSICAL_RANGE
    ensures Shaped(st') && st'.tick == st.tick
    decreases |st.overflow|
  {
    RefillShrinks(st, maxRange, active);
    var r := RefillStep(st, maxRange, active);
    if r.None? then st else Refill(r.value, maxRange, active)
  }

  lemma InsertTurned<W>(st: Storage<W>, maxRange: nat, e: Entry<W>)
    requires Turned(st, maxRange) && maxRange <= PHYSICAL_RANGE && e.Delta(st.tick) < maxRange
    ensures Shaped(st) && Turned(Insert(st, maxRange, e), maxRange)
  {
    PlaceSuits(st.tick, maxRange, e);
    var p := PlaceOf(st.tick, maxRange, e);
    if p.Slot? {
      PushFits(st.tick, maxRange, p.level, st.levels[p.level], p.slot, e);
    }
  }

  lemma RefillStepKeeps<W(!new)>(st: Storage<W>, maxRange: nat, active: Active)
    requires Turned(st, maxRange) && maxRange <= PHYSICAL_RANGE
    ensures Shaped(st)
    ensures var r := RefillStep(st, maxRange, active);
      if r.None? then AtRest(st, maxRange) else Turned(r.value, maxRange) && Keeps(active, st, r.value)
  {
    var r := RefillStep(st, maxRange, active);
    if r.None? {
      OverflowAtRest(st, maxRange, active);
    } else {
      var m := Top(st.overflow);
      var e, popped := st.overflow[m], Popped(st);
      forall x ensures Stored(st, x) <==> Stored(popped, x) || x == e {
        WithoutElements(st.overflow, m, x);
      }
      forall x | x in popped.overflow ensures maxRange <= x.Delta(st.tick - 1) {
        WithoutElements(st.overflow, m, x);
      }
      if IsLive(active, e) {
        InsertTurned(popped, maxRange, e);
        forall x ensures Stored(r.value, x) <==> Stored(popped, x) || x == e {
          InsertStored(popped, maxRange, e, x);
        }
      }
    }
  }

  lemma OverflowAtRest<W>(st: Storage<W>, maxRange: nat, active: Active)
    requires Shaped(st) && RefillStep(st, maxRange, active).None?
    ensures OverflowOk(st.tick, maxRange, st.overflow)
  {
  }

  /** After a refill the storage is at rest, and no live entry is lost. */
  lemma {:induction false} RefillKeeps<W(!new)>(st: Storage<W>, maxRange: nat, active: Active)
    requires Turned(st, maxRange) && maxRange <= PHYSICAL_RANGE
    ensures Shaped(st) && AtRest(Refill(st, maxRange, active), maxRange)
    ensures Keeps(active, st, Refill(st, maxRange, active))
    decreases |st.overflow|
  {
    RefillStepKeeps(st, maxRange, active);
    RefillShrinks(st, maxRange, active);
    var r := RefillStep(st, maxRange, active);
    if r.Some? { RefillKeeps(r.value, maxRange, active); }
  }

  /** Two ranges treat an entry of the overflow alike. */
  ghost predicate Alike<W>(tick: nat, maxRange: nat, reach: nat, e: Entry<W>) {
    && (e.Delta(tick) < maxRange <==> e.Delta(tick) < reach)
    && PlaceOf(tick, maxRange, e) == PlaceOf(tick, reach, e)
  }

  ghost predicate AllAlike<W>(st: Storage<W>, maxRange: nat, reach: nat) {
    forall e :: e in st.overflow ==> Alike(st.tick, maxRange, reach, e)
  }

  /** What is released does not come back, so what is left is still treated alike. */
  lemma StillAlike<W>(st: Storage<W>, maxRange: nat, reach: nat, active: Active)
    requires Shaped(st) && reach <= PHYSICAL_RANGE && AllAlike(st, maxRange, reach)
    ensures RefillStep(st, maxRange, active) == RefillStep(st, reach, active)
    ensures var r := RefillStep(st, reach, active); r.Some? ==> AllAlike(r.value, maxRange, reach)
  {
    if st.overflow != [] {
      var m := Top(st.overflow);
      var e := st.overflow[m];
      assert Alike(st.tick, maxRange, reach, e);
      PlaceSuits(st.tick, reach, e);
      forall x ensures x in Without(st.overflow, m) ==> x in st.overflow { WithoutElements(st.overflow, m, x); }
    }
  }

  /** `refill_overflow`: entries that have come into range go into the wheel. */
  method RefillOverflow<W>(st: Storage<W>, maxRange: nat, ghost reach: nat, active: Active) returns (st': Storage<W>)
    requires Shaped(st) && reach <= PHYSICAL_RANGE && AllAlike(st, maxRange, reach)
    ensures st' == Refill(st, reach, active)
  {
    st' := st;
    while st'.overflow != []
      invariant Shaped(st') && AllAlike(st', maxRange, reach)
      invariant Refill(st', reach, active) == Refill(st, reach, active)
      decreases |st'.overflow|
    {
      RefillShrinks(st', reach, active);
      StillAlike(st', maxRange, reach, active);
      var m := Top(st'.overflow);
      var e := st'.overflow[m];
      if e.Delta(st'.tick) >= maxRange {
        return;
      }
      st' := st'.(overflow := Without(st'.overflow, m));
      if IsLive(active, e) {
        st' := InsertEntry(st', maxRange, e);
      }
    }
  }
}
