/**
 Which timer `next_deadline` reports, whatever the range: the first in the order of the places it
 looks at.  Those are the ready list, then each level from the finest up, where the timers a full
 turn ahead of the hand come before the others, and last the overflow heap.
 */
module WheelOrder {
  import opened Counting
  import opened Wrappers
  import opened WheelClock
  import opened WheelDeadline
  import opened WheelStorage
  import opened WheelTurn

  /** Due in the slot the hand of level i stands at, one turn from now. */
  predicate FullTurn<W>(tick: nat, i: nat, e: Entry<W>) { Hand(e.Due(), i) == Hand(tick, i) + SLOTS }

  function LevelRank<W>(tick: nat, i: nat, e: Entry<W>): nat { 2 * i + 1 + Bit(!FullTurn(tick, i, e)) }

  /** The entry is at the place of rank r. */
  ghost predicate Ranked<W>(st: Storage<W>, e: Entry<W>, r: nat) {
    || (r == 0 && e in st.ready)
    || (exists i: nat :: i < LEVELS && i < |st.levels| && Holds(st.levels[i], e) && r == LevelRank(st.tick, i, e))
    || (r == 2 * LEVELS + 1 && e in st.overflow)
  }

  /** What is reported for an entry there: on the ready list a past deadline counts as now. */
  function Shown<W>(st: Storage<W>, e: Entry<W>, r: nat): nat { if r == 0 then Clamped(st, e) else e.deadline }

  /** f, at rank r, comes before every other live entry, and by deadline among those of its rank. */
  ghost predicate Leads<W(!new)>(active: Active, st: Storage<W>, f: Entry<W>, r: nat) {
    && IsLive(active, f) && Ranked(st, f, r)
    && forall e, q: nat :: IsLive(active, e) && Ranked(st, e, q) ==>
         r < q || (r == q && Shown(st, f, r) <= Shown(st, e, q))
  }

  ghost predicate FirstInOrder<W(!new)>(active: Active, st: Storage<W>, m: Option<nat>) {
    && (m.None? ==> forall e :: !Pending(active, st, e))
    && (m.Some? ==> exists f, r: nat :: Leads(active, st, f, r) && Shown(st, f, r) == m.value)
  }

  // The slots of one level.

  /** How far round from the hand an entry is, and that this is zero only a full turn ahead. */
  lemma RoundIndex<W>(tick: nat, maxRange: nat, i: nat, lv: Level<W>, k: nat, e: Entry<W>)
    requires LevelOk(tick, maxRange, i, lv) && k < SLOTS && e in Round(tick, i, lv, k)
    ensures Hand(e.Due(), i) == Hand(tick, i) + (if k == 0 then SLOTS else k)
  {
    var s := (Hand(tick, i) % SLOTS + k) % SLOTS;
    assert Sits(tick, maxRange, i, s, e);
    TurnIndex(Hand(tick, i), Hand(e.Due(), i), k);
  }

  lemma TurnIndex(here: nat, h: nat, k: nat)
    requires here < h <= here + SLOTS && k < SLOTS && h % SLOTS == (here % SLOTS + k) % SLOTS
    ensures h == here + (if k == 0 then SLOTS else k)
  {
  }

  lemma LaterHand<W>(i: nat, f: Entry<W>, e: Entry<W>)
    requires Hand(f.Due(), i) < Hand(e.Due(), i)
    ensures f.deadline < e.deadline
  {
    if e.deadline <= f.deadline {
      DivMono(e.deadline, f.deadline, MS);
      DivMono(e.Due(), f.Due(), Res(i));
      assert false;
    }
  }

  lemma HeldIndex<W>(tick: nat, maxRange: nat, i: nat, lv: Level<W>, e: Entry<W>) returns (j: nat)
    requires LevelOk(tick, maxRange, i, lv) && Holds(lv, e)
    ensures j < SLOTS && e in Round(tick, i, lv, j)
    ensures Hand(e.Due(), i) == Hand(tick, i) + (if j == 0 then SLOTS else j)
  {
    var s :| 0 <= s < |lv.slots| && e in lv.slots[s];
    j := SlotIsRound(tick, i, lv, s);
    RoundIndex(tick, maxRange, i, lv, j, e);
  }

  /** The entry the scan finds comes first on its level. */
  lemma FoundFirst<W(!new)>(active: Active, tick: nat, maxRange: nat, i: nat, lv: Level<W>, m: Option<nat>, k: nat,
                            f: Entry<W>, e: Entry<W>)
    requires LevelOk(tick, maxRange, i, lv) && k < SLOTS && m.Some? && FoundAt(active, tick, i, lv, m, k)
    requires f in Round(tick, i, lv, k) && f.deadline == m.value && Holds(lv, e) && IsLive(active, e)
    ensures LevelRank(tick, i, f) <= LevelRank(tick, i, e)
    ensures LevelRank(tick, i, f) == LevelRank(tick, i, e) ==> f.deadline <= e.deadline
  {
    RoundIndex(tick, maxRange, i, lv, k, f);
    var j := HeldIndex(tick, maxRange, i, lv, e);
    if j < k {
      assert false;
    }
    if 0 < k < j { LaterHand(i, f, e); }
  }

  // All places.

  ghost predicate NoneBelow<W(!new)>(active: Active, st: Storage<W>, i: nat) {
    && (forall e :: e in st.ready ==> !IsLive(active, e))
    && (forall j: nat, e :: j < i && j < |st.levels| && Holds(st.levels[j], e) ==> !IsLive(active, e))
  }

  lemma LevelLeads<W(!new)>(active: Active, st: Storage<W>, maxRange: nat, i: nat, m: Option<nat>)
    requires AtRest(st, maxRange) && i < LEVELS && NoneBelow(active, st, i)
    requires m.Some? && FirstRound(active, st.tick, i, st.levels[i], m)
    ensures FirstInOrder(active, st, m)
  {
    var lv := st.levels[i];
    var k: nat :| k < SLOTS && FoundAt(active, st.tick, i, lv, m, k);
    var f :| f in Round(st.tick, i, lv, k) && IsLive(active, f) && f.deadline == m.value;
    RoundHolds(st.tick, i, lv, k, f);
    var r := LevelRank(st.tick, i, f);
    forall e, q: nat | IsLive(active, e) && Ranked(st, e, q)
      ensures r < q || (r == q && f.deadline <= Shown(st, e, q))
    {
      LevelBefore(active, st, maxRange, i, m, k, f, e, q);
    }
    assert Ranked(st, f, r) && Shown(st, f, r) == m.value;
    assert Leads(active, st, f, r);
  }

  lemma LevelBefore<W(!new)>(active: Active, st: Storage<W>, maxRange: nat, i: nat, m: Option<nat>, k: nat,
                             f: Entry<W>, e: Entry<W>, q: nat)
    requires AtRest(st, maxRange) && i < LEVELS && NoneBelow(active, st, i) && k < SLOTS && m.Some?
    requires FoundAt(active, st.tick, i, st.levels[i], m, k)
    requires f in Round(st.tick, i, st.levels[i], k) && f.deadline == m.value
    requires IsLive(active, e) && Ranked(st, e, q)
    ensures LevelRank(st.tick, i, f) < q || (LevelRank(st.tick, i, f) == q && f.deadline <= Shown(st, e, q))
  {
    if j: nat :| j < LEVELS && j < |st.levels| && Holds(st.levels[j], e) && q == LevelRank(st.tick, j, e) {
      if j == i { FoundFirst(active, st.tick, maxRange, i, st.levels[i], m, k, f, e); }
    }
  }

  lemma OverflowLeads<W(!new)>(active: Active, st: Storage<W>, m: Option<nat>)
    requires |st.levels| == LEVELS && NoneBelow(active, st, LEVELS) && Least(active, st.overflow, m)
    ensures FirstInOrder(active, st, m)
  {
    if m.Some? {
      var f :| f in st.overflow && IsLive(active, f) && f.deadline == m.value;
      assert Ranked(st, f, 2 * LEVELS + 1);
      assert Leads(active, st, f, 2 * LEVELS + 1);
    }
  }

  lemma {:induction false} LevelsLead<W(!new)>(active: Active, st: Storage<W>, maxRange: nat, i: nat, m: Option<nat>)
    requires AtRest(st, maxRange) && i <= LEVELS && NoneBelow(active, st, i)
    requires Shaped(st) && FromLevels(active, st, i, m)
    ensures FirstInOrder(active, st, m)
    decreases LEVELS - i
  {
    if i >= LEVELS {
      OverflowLeads(active, st, m);
    } else if FirstRound(active, st.tick, i, st.levels[i], None) {
      forall e | Holds(st.levels[i], e) ensures !IsLive(active, e) {
        RoundLive(active, st.tick, i, st.levels[i], e);
      }
      LevelsLead(active, st, maxRange, i + 1, m);
    } else {
      LevelLeads(active, st, maxRange, i, m);
    }
  }

  lemma ReadyLeads<W(!new)>(active: Active, st: Storage<W>, f: Entry<W>)
    requires f in st.ready && IsLive(active, f)
    requires forall e :: e in st.ready && IsLive(active, e) ==> Clamped(st, f) <= Clamped(st, e)
    ensures FirstInOrder(active, st, Some(Clamped(st, f)))
  {
    assert Ranked(st, f, 0) && Leads(active, st, f, 0) && Shown(st, f, 0) == Clamped(st, f);
  }

  /** For any range and in every state at rest, the report is the first in order. */
  lemma ReportedFirst<W(!new)>(active: Active, st: Storage<W>, maxRange: nat, m: Option<nat>)
    requires AtRest(st, maxRange) && Shaped(st) && Reported(active, st, m)
    ensures FirstInOrder(active, st, m)
  {
    if e :| e in st.ready && IsLive(active, e) && e.deadline <= st.tick * MS {
      ReadyLeads(active, st, e);
    } else if Least(active, st.ready, None) {
      LevelsLead(active, st, maxRange, 0, m);
    } else {
      var f :| f in st.ready && IsLive(active, f) && f.deadline == m.value;
      ReadyLeads(active, st, f);
    }
  }

  // What that says about earlier timers.

  lemma PendingRanked<W>(active: Active, st: Storage<W>, e: Entry<W>) returns (q: nat)
    requires |st.levels| == LEVELS && Pending(active, st, e)
    ensures Ranked(st, e, q) && q <= 2 * LEVELS + 1
  {
    if e in st.ready {
      q := 0;
    } else if e in st.overflow {
      q := 2 * LEVELS + 1;
    } else {
      var i: nat :| i < |st.levels| && Holds(st.levels[i], e);
      q := LevelRank(st.tick, i, e);
    }
  }

  /** e is on a coarser level than f, or on the same level with f, but not e, a full turn ahead. */
  ghost predicate FurtherUp<W>(st: Storage<W>, f: Entry<W>, e: Entry<W>) {
    exists j: nat, i: nat :: j <= i < |st.levels| && Holds(st.levels[j], f) && Holds(st.levels[i], e)
      && (i == j ==> FullTurn(st.tick, j, f) && !FullTurn(st.tick, i, e))
  }

  lemma NotPast<W>(st: Storage<W>, maxRange: nat, f: Entry<W>, r: nat)
    requires AtRest(st, maxRange) && Ranked(st, f, r) && r < 2 * LEVELS + 1 && Shown(st, f, r) > st.tick * MS
    ensures Shown(st, f, r) == f.deadline < st.tick * MS + maxRange
    ensures r == 0 ==> f.Due() <= st.tick
  {
    if r > 0 {
      var i: nat :| i < LEVELS && i < |st.levels| && Holds(st.levels[i], f) && r == LevelRank(st.tick, i, f);
      var s :| 0 <= s < |st.levels[i].slots| && f in st.levels[i].slots[s];
      assert Sits(st.tick, maxRange, i, s, f);
    }
  }

  lemma HeldLater<W>(st: Storage<W>, maxRange: nat, i: nat, e: Entry<W>)
    requires AtRest(st, maxRange) && i < LEVELS && Holds(st.levels[i], e)
    ensures st.tick < e.Due()
  {
    var s :| 0 <= s < |st.levels[i].slots| && e in st.levels[i].slots[s];
    assert Sits(st.tick, maxRange, i, s, e);
    FitsLater(st.tick, i, s, e.Due());
  }

  lemma ReadyBefore<W>(st: Storage<W>, maxRange: nat, f: Entry<W>, e: Entry<W>, q: nat)
    requires AtRest(st, maxRange) && f in st.ready && f.deadline > st.tick * MS
    requires Ranked(st, e, q) && 0 < q <= 2 * LEVELS + 1
    ensures f.deadline <= e.deadline
  {
    NotPast(st, maxRange, f, 0);
    if q < 2 * LEVELS + 1 {
      var i: nat :| i < LEVELS && i < |st.levels| && Holds(st.levels[i], e) && q == LevelRank(st.tick, i, e);
      HeldLater(st, maxRange, i, e);
      TicksBelow(f.deadline, st.tick + 1);
      TicksBelow(e.deadline, st.tick + 1);
    }
  }

  /** Nothing in the overflow is earlier, and nothing on a level is earlier than what is ready. */
  lemma EarlierIsUp<W>(st: Storage<W>, maxRange: nat, f: Entry<W>, r: nat, e: Entry<W>, q: nat)
    requires AtRest(st, maxRange) && Ranked(st, f, r) && Ranked(st, e, q) && r < q <= 2 * LEVELS + 1
    requires Shown(st, f, r) > st.tick * MS && e.deadline < Shown(st, f, r)
    ensures FurtherUp(st, f, e)
  {
    NotPast(st, maxRange, f, r);
    if r == 0 { ReadyBefore(st, maxRange, f, e, q); }
    if q == 2 * LEVELS + 1 {
      assert false;
    }
    var i: nat :| i < LEVELS && i < |st.levels| && Holds(st.levels[i], e) && q == LevelRank(st.tick, i, e);
    var j: nat :| j < LEVELS && j < |st.levels| && Holds(st.levels[j], f) && r == LevelRank(st.tick, j, f);
    assert j <= i && (i == j ==> FullTurn(st.tick, j, f) && !FullTurn(st.tick, i, e));
  }

  /**
   For any range: if a time after now is reported, it is the deadline of a pending timer, and every
   pending timer with an earlier deadline is on a coarser level, or on the same level while the
   reported one is a full turn ahead of the hand.
   */
  lemma EarlierWhere<W(!new)>(active: Active, st: Storage<W>, maxRange: nat, m: nat) returns (f: Entry<W>)
    requires AtRest(st, maxRange) && FirstInOrder(active, st, Some(m)) && m > st.tick * MS
    ensures Pending(active, st, f) && f.deadline == m
    ensures forall e :: Pending(active, st, e) && e.deadline < m ==> FurtherUp(st, f, e)
  {
    var r: nat;
    f, r :| Leads(active, st, f, r) && Shown(st, f, r) == m;
    LeadsPending(active, st, f, r);
    forall e | Pending(active, st, e) && e.deadline < m ensures FurtherUp(st, f, e) {
      var q := PendingRanked(active, st, e);
      EarlierIsUp(st, maxRange, f, r, e, q);
    }
  }

  lemma LeadsPending<W(!new)>(active: Active, st: Storage<W>, f: Entry<W>, r: nat)
    requires Leads(active, st, f, r)
    ensures Pending(active, st, f) && (Shown(st, f, r) > st.tick * MS ==> f.deadline == Shown(st, f, r))
  {
  }

  /** All live entries are on level j, none of them a full turn ahead of its hand. */
  ghost predicate OnOneLevel<W(!new)>(active: Active, st: Storage<W>, j: nat) {
    && (forall e :: e in st.ready || e in st.overflow ==> !IsLive(active, e))
    && (forall i: nat, e :: i < |st.levels| && Holds(st.levels[i], e) && IsLive(active, e) ==>
          i == j && !FullTurn(st.tick, i, e))
  }

  lemma OneLevelAhead<W(!new)>(active: Active, st: Storage<W>, maxRange: nat, j: nat, e: Entry<W>)
    requires AtRest(st, maxRange) && OnOneLevel(active, st, j) && Pending(active, st, e)
    ensures Clamped(st, e) == e.deadline > st.tick * MS
  {
    var i: nat :| i < |st.levels| && Holds(st.levels[i], e);
    HeldLater(st, maxRange, i, e);
    TicksBelow(e.deadline, st.tick + 1);
  }

  lemma OneLevelLevel<W(!new)>(active: Active, st: Storage<W>, j: nat, f: Entry<W>, e: Entry<W>)
    requires OnOneLevel(active, st, j) && IsLive(active, f) && IsLive(active, e)
    ensures !FurtherUp(st, f, e)
  {
  }

  lemma OneLevelLead<W(!new)>(active: Active, st: Storage<W>, maxRange: nat, j: nat, m: nat)
    requires AtRest(st, maxRange) && FirstInOrder(active, st, Some(m)) && OnOneLevel(active, st, j)
    ensures m > st.tick * MS
  {
    var f, r: nat :| Leads(active, st, f, r) && Shown(st, f, r) == m;
    LeadsPending(active, st, f, r);
    OneLevelAhead(active, st, maxRange, j, f);
  }

  /** Then the earliest is reported. */
  lemma OneLevelEarliest<W(!new)>(active: Active, st: Storage<W>, maxRange: nat, j: nat, m: Option<nat>)
    requires AtRest(st, maxRange) && FirstInOrder(active, st, m) && OnOneLevel(active, st, j)
    ensures IsEarliest(active, st, m)
  {
    if m.Some? {
      OneLevelLead(active, st, maxRange, j, m.value);
      var f := EarlierWhere(active, st, maxRange, m.value);
      OneLevelAhead(active, st, maxRange, j, f);
      forall e | Pending(active, st, e) ensures m.value <= Clamped(st, e) {
        OneLevelAhead(active, st, maxRange, j, e);
        OneLevelLevel(active, st, j, f, e);
      }
    }
  }

  /** So it is, for any range, while a live entry is on the ready list. */
  lemma ReadyEarliest<W(!new)>(active: Active, st: Storage<W>, maxRange: nat, g: Entry<W>, m: Option<nat>)
    requires AtRest(st, maxRange) && FirstInOrder(active, st, m) && g in st.ready && IsLive(active, g)
    ensures IsEarliest(active, st, m)
  {
    assert Pending(active, st, g) && Ranked(st, g, 0);
    var f, r: nat :| Leads(active, st, f, r) && Shown(st, f, r) == m.value;
    assert r == 0 && Clamped(st, f) == m.value;
    LeadsPending(active, st, f, r);
    forall e | Pending(active, st, e) ensures m.value <= Clamped(st, e) {
      var q := PendingRanked(active, st, e);
      if m.value > st.tick * MS && e.deadline < m.value && q > 0 { ReadyBefore(st, maxRange, f, e, q); }
    }
  }
}
