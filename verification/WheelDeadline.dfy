/**
 What `next_deadline` reports: the earliest live entry of the ready list, else of the first slot of
 the finest level that has one, else of the overflow heap.  That is the earliest of all only while
 the wheel is configured to use no level but the finest.
 */
module WheelDeadline {
  import opened Wrappers
  import opened WheelBitmap
  import opened WheelClock
  import opened WheelStorage
  import opened WheelTurn

  /** m is the earliest deadline among the live entries of the bucket. */
  ghost predicate Least<W(!new)>(active: Active, bucket: seq<Entry<W>>, m: Option<nat>) {
    && (m.None? ==> forall e :: e in bucket ==> !IsLive(active, e))
    && (m.Some? ==> (exists e :: e in bucket && IsLive(active, e) && e.deadline == m.value)
                    && forall e :: e in bucket && IsLive(active, e) ==> m.value <= e.deadline)
  }

  method MinLive<W(!new)>(active: Active, bucket: seq<Entry<W>>) returns (m: Option<nat>)
    ensures Least(active, bucket, m)
  {
    m := None;
    for j := 0 to |bucket|
      invariant Least(active, bucket[..j], m)
    {
      var e := bucket[j];
      assert bucket[..j + 1] == bucket[..j] + [e];
      if IsLive(active, e) {
        if m.None? || e.deadline < m.value { m := Some(e.deadline); }
      }
    }
    assert bucket[..|bucket|] == bucket;
  }

  /** The slot k places round from the hand of level i. */
  function Round<W>(tick: nat, i: nat, lv: Level<W>, k: nat): seq<Entry<W>>
    requires |lv.slots| == SLOTS
  {
    lv.slots[(Hand(tick, i) % SLOTS + k) % SLOTS]
  }

  ghost predicate NoneLive<W(!new)>(active: Active, bucket: seq<Entry<W>>) {
    forall e :: e in bucket ==> !IsLive(active, e)
  }

  /** m comes from the first slot round from the hand that holds a live entry. */
  ghost predicate FirstRound<W(!new)>(active: Active, tick: nat, i: nat, lv: Level<W>, m: Option<nat>)
    requires |lv.slots| == SLOTS
  {
    && (m.None? ==> forall k: nat :: k < SLOTS ==> NoneLive(active, Round(tick, i, lv, k)))
    && (m.Some? ==> exists k: nat :: k < SLOTS && FoundAt(active, tick, i, lv, m, k))
  }

  ghost predicate FoundAt<W(!new)>(active: Active, tick: nat, i: nat, lv: Level<W>, m: Option<nat>, k: nat)
    requires |lv.slots| == SLOTS
  {
    Least(active, Round(tick, i, lv, k), m) && forall j: nat :: j < k ==> NoneLive(active, Round(tick, i, lv, j))
  }

  method ScanLevel<W(!new)>(active: Active, tick: nat, i: nat, lv: Level<W>) returns (m: Option<nat>)
    requires Marked(lv)
    ensures FirstRound(active, tick, i, lv, m)
  {
    for k := 0 to SLOTS
      invariant forall j: nat :: j < k ==> NoneLive(active, Round(tick, i, lv, j))
    {
      if IsSet(lv.occupied, (Hand(tick, i) % SLOTS + k) % SLOTS) {
        m := MinLive(active, Round(tick, i, lv, k));
        if m.Some? {
          assert FoundAt(active, tick, i, lv, m, k);
          return;
        }
      }
    }
    m := None;
  }

  /** What is reported from the levels and, failing those, from the overflow. */
  ghost predicate FromLevels<W(!new)>(active: Active, st: Storage<W>, i: nat, m: Option<nat>)
    requires Shaped(st)
    decreases LEVELS - i
  {
    if i >= LEVELS then Least(active, st.overflow, m)
    else if FirstRound(active, st.tick, i, st.levels[i], None) then FromLevels(active, st, i + 1, m)
    else FirstRound(active, st.tick, i, st.levels[i], m)
  }

  ghost predicate Reported<W(!new)>(active: Active, st: Storage<W>, m: Option<nat>)
    requires Shaped(st)
  {
    if exists e :: e in st.ready && IsLive(active, e) && e.deadline <= st.tick * MS then m == Some(st.tick * MS)
    else if Least(active, st.ready, None) then FromLevels(active, st, 0, m)
    else Least(active, st.ready, m)
  }

  /** The heap after its dead entries have been popped, up to the first live one. */
  function Pruned<W>(active: Active, overflow: seq<Entry<W>>): seq<Entry<W>>
    decreases |overflow|
  {
    if overflow == [] || IsLive(active, overflow[Top(overflow)]) then overflow
    else Pruned(active, Without(overflow, Top(overflow)))
  }

  lemma {:induction false} PrunedKeeps<W>(active: Active, overflow: seq<Entry<W>>, e: Entry<W>)
    ensures e in Pruned(active, overflow) ==> e in overflow
    ensures e in overflow && IsLive(active, e) ==> e in Pruned(active, overflow)
    decreases |overflow|
  {
    if overflow != [] && !IsLive(active, overflow[Top(overflow)]) {
      WithoutElements(overflow, Top(overflow), e);
      PrunedKeeps(active, Without(overflow, Top(overflow)), e);
    }
  }

  lemma PrunedLeast<W(!new)>(active: Active, overflow: seq<Entry<W>>, m: Option<nat>)
    ensures Least(active, Pruned(active, overflow), m) <==> Least(active, overflow, m)
  {
    forall e ensures e in overflow && IsLive(active, e) <==> e in Pruned(active, overflow) && IsLive(active, e) {
      PrunedKeeps(active, overflow, e);
    }
  }

  method TopLive<W(!new)>(active: Active, overflow0: seq<Entry<W>>) returns (overflow: seq<Entry<W>>, m: Option<nat>)
    ensures overflow == Pruned(active, overflow0) && Least(active, overflow0, m)
  {
    overflow := overflow0;
    while overflow != [] && !IsLive(active, overflow[Top(overflow)])
      invariant Pruned(active, overflow) == Pruned(active, overflow0)
      decreases |overflow|
    {
      overflow := Without(overflow, Top(overflow));
    }
    m := if overflow == [] then None else Some(overflow[Top(overflow)].deadline);
    PrunedLeast(active, overflow0, m);
  }

  /** The heap after a report: pruned if the report had to look there. */
  ghost function AfterReport<W(!new)>(active: Active, st: Storage<W>): seq<Entry<W>>
    requires Shaped(st)
  {
    if Least(active, st.ready, None) && LevelsIdle(active, st, 0) then Pruned(active, st.overflow) else st.overflow
  }

  ghost predicate LevelsIdle<W(!new)>(active: Active, st: Storage<W>, i: nat)
    requires Shaped(st)
  {
    forall j :: i <= j < LEVELS ==> FirstRound(active, st.tick, j, st.levels[j], None)
  }

  method Report<W(!new)>(active: Active, st: Storage<W>) returns (m: Option<nat>, overflow: seq<Entry<W>>)
    requires Shaped(st)
    ensures Reported(active, st, m) && overflow == AfterReport(active, st)
  {
    overflow := st.overflow;
    for j := 0 to |st.ready|
      invariant forall e :: e in st.ready[..j] && IsLive(active, e) ==> e.deadline > st.tick * MS
    {
      var e := st.ready[j];
      assert e in st.ready && st.ready[..j + 1] == st.ready[..j] + [e];
      if IsLive(active, e) && e.deadline <= st.tick * MS {
        return Some(st.tick * MS), overflow;
      }
    }
    assert st.ready[..|st.ready|] == st.ready;
    m := MinLive(active, st.ready);
    if m.None? {
      m, overflow := ReportFrom(active, st, 0);
    }
  }

  lemma IdleLevel<W(!new)>(active: Active, st: Storage<W>, i: nat, m: Option<nat>)
    requires Shaped(st) && i < LEVELS && FirstRound(active, st.tick, i, st.levels[i], None)
    ensures FromLevels(active, st, i, m) <==> FromLevels(active, st, i + 1, m)
    ensures LevelsIdle(active, st, i) <==> LevelsIdle(active, st, i + 1)
  {
  }

  lemma BusyLevel<W(!new)>(active: Active, st: Storage<W>, i: nat, m: Option<nat>)
    requires Shaped(st) && i < LEVELS && FirstRound(active, st.tick, i, st.levels[i], m) && m.Some?
    ensures FromLevels(active, st, i, m) && !LevelsIdle(active, st, i)
  {
  }

  method ReportFrom<W(!new)>(active: Active, st: Storage<W>, i: nat) returns (m: Option<nat>, overflow: seq<Entry<W>>)
    requires Shaped(st)
    ensures FromLevels(active, st, i, m)
    ensures overflow == if LevelsIdle(active, st, i) then Pruned(active, st.overflow) else st.overflow
    decreases LEVELS - i
  {
    if i >= LEVELS {
      overflow, m := TopLive(active, st.overflow);
    } else {
      overflow := st.overflow;
      m := ScanLevel(active, st.tick, i, st.levels[i]);
      if m.None? {
        m, overflow := ReportFrom(active, st, i + 1);
        IdleLevel(active, st, i, m);
      } else {
        BusyLevel(active, st, i, m);
      }
    }
  }

  // When the report is right.

  function NoEarlier(deadline: nat, current: nat): nat { if deadline < current then current else deadline }

  function Clamped<W>(st: Storage<W>, e: Entry<W>): nat { NoEarlier(e.deadline, st.tick * MS) }

  ghost predicate Pending<W>(active: Active, st: Storage<W>, e: Entry<W>) { Stored(st, e) && IsLive(active, e) }

  /** The earliest pending deadline, or the current time if that has passed. */
  ghost predicate IsEarliest<W(!new)>(active: Active, st: Storage<W>, m: Option<nat>) {
    && (m.None? ==> forall e :: !Pending(active, st, e))
    && (m.Some? ==> (exists e :: Pending(active, st, e) && Clamped(st, e) == m.value)
                    && forall e :: Pending(active, st, e) ==> m.value <= Clamped(st, e))
  }

  /** Whatever is reported is the deadline of a pending timer, or the current time if one has passed. */
  lemma ReportedPending<W(!new)>(active: Active, st: Storage<W>, m: Option<nat>) returns (e: Entry<W>)
    requires Shaped(st) && Reported(active, st, m) && m.Some?
    ensures Pending(active, st, e) && Clamped(st, e) <= NoEarlier(m.value, st.tick * MS)
  {
    if e' :| e' in st.ready && IsLive(active, e') && e'.deadline <= st.tick * MS {
      e := e';
    } else if Least(active, st.ready, None) {
      e := LevelsPending(active, st, 0, m);
    } else {
      e :| e in st.ready && IsLive(active, e) && e.deadline == m.value;
    }
  }

  lemma {:induction false} LevelsPending<W(!new)>(active: Active, st: Storage<W>, i: nat, m: Option<nat>)
      returns (e: Entry<W>)
    requires Shaped(st) && FromLevels(active, st, i, m) && m.Some?
    ensures Pending(active, st, e) && e.deadline == m.value
    decreases LEVELS - i
  {
    if i >= LEVELS {
      e :| e in st.overflow && IsLive(active, e) && e.deadline == m.value;
    } else if FirstRound(active, st.tick, i, st.levels[i], None) {
      e := LevelsPending(active, st, i + 1, m);
    } else {
      var k: nat :| k < SLOTS && FoundAt(active, st.tick, i, st.levels[i], m, k);
      e :| e in Round(st.tick, i, st.levels[i], k) && IsLive(active, e) && e.deadline == m.value;
      RoundHolds(st.tick, i, st.levels[i], k, e);
    }
  }

  lemma SlotIsRound<W>(tick: nat, i: nat, lv: Level<W>, s: nat) returns (k: nat)
    requires |lv.slots| == SLOTS && s < SLOTS
    ensures k < SLOTS && Round(tick, i, lv, k) == lv.slots[s]
  {
    k := (s + SLOTS - Hand(tick, i) % SLOTS) % SLOTS;
  }

  lemma RoundHolds<W>(tick: nat, i: nat, lv: Level<W>, k: nat, e: Entry<W>)
    requires |lv.slots| == SLOTS
    ensures e in Round(tick, i, lv, k) ==> Holds(lv, e)
  {
  }

  lemma RoundLive<W(!new)>(active: Active, tick: nat, i: nat, lv: Level<W>, e: Entry<W>)
    requires |lv.slots| == SLOTS && FirstRound(active, tick, i, lv, None) && Holds(lv, e)
    ensures !IsLive(active, e)
  {
    var s :| 0 <= s < |lv.slots| && e in lv.slots[s];
    var k := SlotIsRound(tick, i, lv, s);
    assert NoneLive(active, Round(tick, i, lv, k));
  }

  /** Everything on level zero is fewer than 256 ticks ahead, as far as its slot is from the hand. */
  lemma RoundIsDue<W>(tick: nat, maxRange: nat, lv: Level<W>, k: nat, e: Entry<W>)
    requires LevelOk(tick, maxRange, 0, lv) && maxRange <= SLOTS * MS && k < SLOTS && e in Round(tick, 0, lv, k)
    ensures e.Due() == tick + k && k > 0
  {
    var s := (Hand(tick, 0) % SLOTS + k) % SLOTS;
    assert Sits(tick, maxRange, 0, s, e) && Res(0) == 1;
    TicksBelow(e.deadline, tick + SLOTS);
    WindowIndex(tick, e.Due(), k);
  }

  lemma WindowIndex(tick: nat, d: nat, k: nat)
    requires tick < d < tick + SLOTS && k < SLOTS && d % SLOTS == (tick % SLOTS + k) % SLOTS
    ensures d == tick + k
  {
  }

  lemma RoundOf<W>(tick: nat, maxRange: nat, lv: Level<W>, e: Entry<W>) returns (k: nat)
    requires LevelOk(tick, maxRange, 0, lv) && maxRange <= SLOTS * MS && Holds(lv, e)
    ensures k < SLOTS && e in Round(tick, 0, lv, k) && e.Due() == tick + k && k > 0
    ensures e.deadline < tick * MS + maxRange
  {
    var s :| 0 <= s < |lv.slots| && e in lv.slots[s];
    k := SlotIsRound(tick, 0, lv, s);
    assert Sits(tick, maxRange, 0, s, e);
    RoundIsDue(tick, maxRange, lv, k, e);
  }

  lemma FirstIsEarliest<W(!new)>(active: Active, tick: nat, maxRange: nat, lv: Level<W>, m: Option<nat>, k: nat,
                                 e: Entry<W>)
    requires LevelOk(tick, maxRange, 0, lv) && maxRange <= SLOTS * MS && k < SLOTS && m.Some?
    requires FoundAt(active, tick, 0, lv, m, k) && Holds(lv, e) && IsLive(active, e)
    ensures m.value <= e.deadline
  {
    var j := RoundOf(tick, maxRange, lv, e);
    if j < k {
      assert false;
    }
    var f :| f in Round(tick, 0, lv, k) && IsLive(active, f) && f.deadline == m.value;
    RoundIsDue(tick, maxRange, lv, k, f);
    TicksBelow(f.deadline, tick + k + 1);
    TicksBelow(e.deadline, tick + k + 1);
  }

  lemma UpperEmpty<W>(st: Storage<W>, maxRange: nat, i: nat, e: Entry<W>)
    requires AtRest(st, maxRange) && maxRange <= SLOTS * MS && 0 < i < LEVELS
    ensures !Holds(st.levels[i], e)
  {
    if Holds(st.levels[i], e) {
      var s :| 0 <= s < |st.levels[i].slots| && e in st.levels[i].slots[s];
      assert Sits(st.tick, maxRange, i, s, e);
      ResMono(1, i);
      assert false;
    }
  }

  lemma UpperReport<W(!new)>(active: Active, st: Storage<W>, maxRange: nat, i: nat, m: Option<nat>)
    requires AtRest(st, maxRange) && maxRange <= SLOTS * MS && 0 < i <= LEVELS
    requires Shaped(st) && FromLevels(active, st, i, m)
    ensures Least(active, st.overflow, m)
    decreases LEVELS - i
  {
    if i < LEVELS {
      forall k: nat | k < SLOTS ensures NoneLive(active, Round(st.tick, i, st.levels[i], k)) {
        forall e ensures e !in Round(st.tick, i, st.levels[i], k) {
          UpperEmpty(st, maxRange, i, e);
          RoundHolds(st.tick, i, st.levels[i], k, e);
        }
      }
      UpperReport(active, st, maxRange, i + 1, m);
    }
  }

  /** With only level zero in use, what is not ready is still to come. */
  lemma WhereLate<W>(st: Storage<W>, maxRange: nat, e: Entry<W>)
    requires AtRest(st, maxRange) && 0 < maxRange <= SLOTS * MS && Stored(st, e) && e !in st.ready
    ensures Holds(st.levels[0], e) || e in st.overflow
    ensures st.tick * MS < e.deadline && (e.Due() <= st.tick ==> st.tick * MS + maxRange <= e.deadline)
  {
    if e !in st.overflow {
      var i :| 0 <= i < |st.levels| && Holds(st.levels[i], e);
      if i > 0 {
        UpperEmpty(st, maxRange, i, e);
        assert false;
      }
      var k := RoundOf(st.tick, maxRange, st.levels[0], e);
      TicksBelow(e.deadline, st.tick + 1);
    }
  }

  /** And later than what is on the ready list but not yet past. */
  lemma ReadyFirst<W>(st: Storage<W>, maxRange: nat, f: Entry<W>, e: Entry<W>)
    requires AtRest(st, maxRange) && 0 < maxRange <= SLOTS * MS
    requires f in st.ready && f.deadline > st.tick * MS && Stored(st, e) && e !in st.ready
    ensures f.deadline < e.deadline
  {
    WhereLate(st, maxRange, e);
    TicksBelow(f.deadline, st.tick + 1);
    TicksBelow(e.deadline, st.tick + 1);
  }

  lemma ReadyReport<W(!new)>(active: Active, st: Storage<W>, maxRange: nat, m: Option<nat>)
    requires AtRest(st, maxRange) && 0 < maxRange <= SLOTS * MS && m.Some?
    requires Least(active, st.ready, m) && forall e :: e in st.ready && IsLive(active, e) ==> e.deadline > st.tick * MS
    ensures IsEarliest(active, st, m)
  {
    var f :| f in st.ready && IsLive(active, f) && f.deadline == m.value;
    assert Pending(active, st, f) && Clamped(st, f) == m.value;
    forall e | Pending(active, st, e) ensures m.value <= Clamped(st, e) {
      if e !in st.ready { ReadyFirst(st, maxRange, f, e); }
    }
  }

  lemma LevelReport<W(!new)>(active: Active, st: Storage<W>, maxRange: nat, m: Option<nat>)
    requires AtRest(st, maxRange) && 0 < maxRange <= SLOTS * MS
    requires Least(active, st.ready, None) && Shaped(st) && FromLevels(active, st, 0, m)
    ensures IsEarliest(active, st, m)
  {
    var lv := st.levels[0];
    if FirstRound(active, st.tick, 0, lv, None) {
      UpperReport(active, st, maxRange, 1, m);
      forall e | Pending(active, st, e) ensures e in st.overflow && Clamped(st, e) == e.deadline {
        WhereLate(st, maxRange, e);
        if Holds(lv, e) { RoundLive(active, st.tick, 0, lv, e); }
      }
      if m.Some? {
        var f :| f in st.overflow && IsLive(active, f) && f.deadline == m.value;
        assert Pending(active, st, f);
      }
    } else {
      var k :| 0 <= k < SLOTS && FoundAt(active, st.tick, 0, lv, m, k);
      var f :| f in Round(st.tick, 0, lv, k) && IsLive(active, f) && f.deadline == m.value;
      assert Holds(lv, f);
      var j := RoundOf(st.tick, maxRange, lv, f);
      assert Pending(active, st, f);
      forall e | Pending(active, st, e) ensures m.value <= Clamped(st, e) {
        WhereLate(st, maxRange, e);
        if Holds(lv, e) { FirstIsEarliest(active, st.tick, maxRange, lv, m, k, e); }
      }
      WhereLate(st, maxRange, f);
    }
  }

  /** A wheel with a range of at most 256 ticks always reports the earliest pending deadline. */
  lemma ShortRangeReports<W(!new)>(active: Active, st: Storage<W>, maxRange: nat, m: Option<nat>)
    requires AtRest(st, maxRange) && 0 < maxRange <= SLOTS * MS && Shaped(st) && Reported(active, st, m)
    ensures IsEarliest(active, st, m)
  {
    if e :| e in st.ready && IsLive(active, e) && e.deadline <= st.tick * MS {
      assert Pending(active, st, e) && Clamped(st, e) == m.value;
    } else if Least(active, st.ready, None) {
      LevelReport(active, st, maxRange, m);
    } else {
      ReadyReport(active, st, maxRange, m);
    }
  }
}
