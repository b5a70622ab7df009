/** Which timers a collection fires together, and how many they are. */
module WheelGroup {
  import opened Arithmetic
  import opened Counting
  import opened WheelBitmap
  import opened WheelClock
  import opened WheelCoalesce
  import opened WheelCopies
  import opened WheelDrain
  import opened WheelReach
  import opened WheelStorage
  import opened WheelTurn

  /** A window of zero stands for coalescing being off. */
  datatype Coalescing = Coalescing(window: nat, minGroup: nat) {
    function Needed(): nat { if minGroup == 0 then 1 else minGroup }
  }

  function LiveBy<W>(active: Active, t: nat): Entry<W> -> bool { (e: Entry<W>) => IsLive(active, e) && e.deadline <= t }

  method CountLive<W>(active: Active, list: seq<Entry<W>>, t: nat) returns (n: nat)
    ensures n == Count(list, LiveBy(active, t))
  {
    n := 0;
    for j := 0 to |list|
      invariant n + Count(list[j..], LiveBy(active, t)) == Count(list, LiveBy(active, t))
    {
      assert list[j..][1..] == list[j + 1..];
      if IsLive(active, list[j]) && list[j].deadline <= t { n := n + 1; }
    }
  }

  // A collection.

  /** The storage without the entries a collection looks at, and those entries. */
  ghost function Gathered<W>(c: Coalescing, st: Storage<W>, now: nat): (r: Promoted<W>)
    requires Shaped(st)
    ensures Shaped(r.storage) && r.storage.tick == st.tick
  {
    if c.window == 0 then Promoted(st.(ready := []), st.ready)
    else
      var r := Promote(st.(ready := []), Boundary(c.window, now));
      Promoted(r.storage, st.ready + r.taken)
  }

  /** The time up to which they fire: the end of the window if enough of them are live and due by then. */
  ghost function Cutoff<W>(c: Coalescing, active: Active, list: seq<Entry<W>>, now: nat): nat {
    if c.window > 0 && Count(list, LiveBy(active, Boundary(c.window, now))) >= c.Needed()
    then Boundary(c.window, now)
    else now
  }

  ghost function DrainedAt<W>(c: Coalescing, st: Storage<W>, active: Active, maxRange: nat, now: nat): Drained<W>
    requires Shaped(st)
  {
    var g := Gathered(c, st, now);
    Drain(g.storage, g.taken, active, maxRange, Cutoff(c, active, g.taken, now))
  }

  /** `drain_ready`. */
  method DrainReady<W>(c: Coalescing, st0: Storage<W>, active0: Active, maxRange: nat, now: nat)
      returns (st: Storage<W>, active: Active, wakers: seq<W>)
    requires Shaped(st0)
    ensures var r := DrainedAt(c, st0, active0, maxRange, now);
      st == r.storage && active == r.active && wakers == WakersOf(r.fired)
  {
    var ready, cutoff := st0.ready, now;
    st := st0.(ready := []);
    if c.window > 0 {
      var boundary := Boundary(c.window, now);
      st, ready := PromoteWindow(st, boundary, ready);
      var n := CountLive(active0, ready, boundary);
      if n >= c.Needed() { cutoff := boundary; }
    }
    st, active, wakers := DrainList(st, ready, active0, maxRange, cutoff);
  }

  lemma GatheredCopies<W>(c: Coalescing, st: Storage<W>, now: nat, x: Entry<W>)
    requires Shaped(st)
    ensures var g := Gathered(c, st, now); Copies(g.storage, x) + Times(g.taken, x) == Copies(st, x)
  {
    var rest := st.(ready := []);
    if c.window > 0 {
      PromoteCopies(rest, Boundary(c.window, now), x);
      TimesConcat(st.ready, Promote(rest, Boundary(c.window, now)).taken, x);
    }
  }

  lemma GatheredAtRest<W(!new)>(c: Coalescing, st: Storage<W>, maxRange: nat, now: nat)
    requires AtRest(st, maxRange)
    ensures Shaped(st) && AtRest(Gathered(c, st, now).storage, maxRange)
  {
    if c.window > 0 { PromoteAtRest(st.(ready := []), maxRange, Boundary(c.window, now)); }
  }

  /** With a window, nothing that is due by its end stays behind. */
  lemma GatheredAll<W(!new)>(c: Coalescing, st: Storage<W>, maxRange: nat, now: nat, x: Entry<W>)
    requires AtRest(st, maxRange) && c.window > 0
    ensures Shaped(st) && (Stored(Gathered(c, st, now).storage, x) ==> x.deadline > Boundary(c.window, now))
  {
    PromoteExactly(st.(ready := []), maxRange, Boundary(c.window, now), x);
  }

  /** What has been gathered and what is left in storage make up the whole. */
  lemma GatheredStored<W>(c: Coalescing, st: Storage<W>, now: nat, x: Entry<W>)
    requires Shaped(st)
    ensures var g := Gathered(c, st, now); Stored(st, x) <==> Stored(g.storage, x) || x in g.taken
  {
    var g := Gathered(c, st, now);
    GatheredCopies(c, st, now, x);
    CopiesStored(st, x);
    CopiesStored(g.storage, x);
    TimesPositive(g.taken, x);
  }

  lemma DrainedStored<W>(c: Coalescing, st: Storage<W>, active: Active, maxRange: nat, now: nat, x: Entry<W>)
    requires Shaped(st)
    ensures Stored(DrainedAt(c, st, active, maxRange, now).storage, x) ==> Stored(st, x)
  {
    var g := Gathered(c, st, now);
    GatheredStored(c, st, now, x);
    DrainStored(g.storage, g.taken, active, maxRange, Cutoff(c, active, g.taken, now), x);
  }

  /** A collection under the range is a collection under the reach, and keeps everything in order. */
  lemma DrainedInReach<W(!new)>(c: Coalescing, st: Storage<W>, active: Active, maxRange: nat, maxTimer: nat, now: nat)
    requires AtRest(st, Reach(maxRange, maxTimer)) && Within(st, maxTimer)
    ensures Shaped(st)
    ensures DrainedAt(c, st, active, maxRange, now) == DrainedAt(c, st, active, Reach(maxRange, maxTimer), now)
    ensures var st' := DrainedAt(c, st, active, maxRange, now).storage;
      AtRest(st', Reach(maxRange, maxTimer)) && Within(st', maxTimer)
  {
    var reach, g := Reach(maxRange, maxTimer), Gathered(c, st, now);
    var cutoff := Cutoff(c, active, g.taken, now);
    forall e | e in g.taken ensures e.deadline <= g.storage.tick * MS + maxTimer { GatheredStored(c, st, now, e); }
    DrainInReach(g.storage, g.taken, active, maxRange, maxTimer, cutoff);
    GatheredAtRest(c, st, reach, now);
    DrainAtRest(g.storage, g.taken, active, reach, cutoff);
    var st' := DrainedAt(c, st, active, maxRange, now).storage;
    forall x ensures Stored(st', x) ==> Stored(st, x) { DrainedStored(c, st, active, maxRange, now, x); }
    WithinLater(st, st', maxTimer);
  }

  // The size of the group.

  /** How many timers a collection at this time would fire. */
  ghost function GroupSize<W>(c: Coalescing, active: Active, st: Storage<W>, now: nat): nat
    requires Shaped(st)
  {
    var list := Gathered(c, st, now).taken;
    if c.window > 0 && Count(list, LiveBy(active, Boundary(c.window, now))) >= c.Needed()
    then Count(list, LiveBy(active, Boundary(c.window, now)))
    else Count(st.ready, LiveBy(active, now))
  }

  lemma SwapRemoveIs<T>(s: seq<T>, j: nat)
    requires j < |s|
    ensures var front := s[..|s| - 1]; SwapRemove(s, j) == if j < |s| - 1 then front[j := s[|s| - 1]] else front
  {
  }

  lemma SwapRemoveCount<T>(s: seq<T>, j: nat, p: T -> bool)
    requires j < |s|
    ensures Count(SwapRemove(s, j), p) + Bit(p(s[j])) == Count(s, p)
  {
    var front, last := s[..|s| - 1], s[|s| - 1];
    assert Count(s, p) == Count(front, p) + Bit(p(last)) by {
      assert s == front + [last];
      CountSnoc(front, last, p);
    }
    SwapRemoveIs(s, j);
    if j < |s| - 1 { CountUpdate(front, j, last, p); }
  }

  lemma CountFirst<T>(x: T, s: seq<T>, p: T -> bool)
    ensures Count([x] + s, p) == Bit(p(x)) + Count(s, p)
  {
    assert ([x] + s)[1..] == s;
  }

  lemma {:induction false} SiftCount<W>(slot: seq<Entry<W>>, j: nat, boundary: nat, p: Entry<W> -> bool)
    requires j <= |slot|
    ensures var r := Sift(slot, j, boundary); Count(r.left, p) + Count(r.taken, p) == Count(slot, p)
    decreases |slot| - j
  {
    if j < |slot| {
      if slot[j].deadline <= boundary {
        SiftCount(SwapRemove(slot, j), j, boundary, p);
        SwapRemoveCount(slot, j, p);
        CountFirst(slot[j], Sift(SwapRemove(slot, j), j, boundary).taken, p);
      } else {
        SiftCount(slot, j + 1, boundary, p);
      }
    }
  }

  lemma NoneAfter<W>(active: Active, list: seq<Entry<W>>, boundary: nat)
    requires AllAfter(list, boundary)
    ensures Count(list, LiveBy(active, boundary)) == 0
  {
    forall i | 0 <= i < |list| ensures !LiveBy(active, boundary)(list[i]) { assert list[i] in list; }
    CountNone(list, LiveBy(active, boundary));
  }

  lemma SiftTakenCount<W>(active: Active, slot: seq<Entry<W>>, boundary: nat)
    ensures Count(Sift(slot, 0, boundary).taken, LiveBy(active, boundary)) == Count(slot, LiveBy(active, boundary))
  {
    SiftCount(slot, 0, boundary, LiveBy(active, boundary));
    SiftSplits(slot, 0, boundary);
    NoneAfter(active, Sift(slot, 0, boundary).left, boundary);
  }

  lemma {:induction false} SkimCount<W>(overflow: seq<Entry<W>>, boundary: nat, p: Entry<W> -> bool)
    ensures var r := Skim(overflow, boundary); Count(r.left, p) + Count(r.taken, p) == Count(overflow, p)
    decreases |overflow|
  {
    if overflow != [] && overflow[Top(overflow)].deadline <= boundary {
      var m := Top(overflow);
      SkimCount(Without(overflow, m), boundary, p);
      CountWithout(overflow, m, p);
      CountFirst(overflow[m], Skim(Without(overflow, m), boundary).taken, p);
    }
  }

  lemma SkimTakenCount<W>(active: Active, overflow: seq<Entry<W>>, boundary: nat)
    ensures Count(Skim(overflow, boundary).taken, LiveBy(active, boundary)) == Count(overflow, LiveBy(active, boundary))
  {
    SkimCount(overflow, boundary, LiveBy(active, boundary));
    SkimSplits(overflow, boundary);
    NoneAfter(active, Skim(overflow, boundary).left, boundary);
  }

  /** Counting over the slots that a sweep comes to. */
  function SlotsCount<W>(lv: Level<W>, first: nat, k: nat, n: nat, p: Entry<W> -> bool): nat
    requires |lv.slots| == SLOTS
    decreases n - k
  {
    if k >= n then 0 else Count(lv.slots[(first + k) % SLOTS], p) + SlotsCount(lv, first, k + 1, n, p)
  }

  lemma OtherSlot(first: nat, j: nat, k: nat)
    requires j < k < SLOTS
    ensures (first + j) % SLOTS != (first + k) % SLOTS
  {
  }

  lemma {:induction false} SlotsCountFrame<W>(lv: Level<W>, lv': Level<W>, first: nat, j: nat, k: nat, n: nat,
                                              p: Entry<W> -> bool)
    requires |lv.slots| == |lv'.slots| == SLOTS && j < k && n <= SLOTS
    requires forall s: nat :: s < SLOTS && s != (first + j) % SLOTS ==> lv'.slots[s] == lv.slots[s]
    ensures SlotsCount(lv', first, k, n, p) == SlotsCount(lv, first, k, n, p)
    decreases n - k
  {
    if k < n {
      OtherSlot(first, j, k);
      SlotsCountFrame(lv, lv', first, j, k + 1, n, p);
    }
  }

  lemma SweepTakenParts<W>(lv: Level<W>, first: nat, k: nat, n: nat, boundary: nat, p: Entry<W> -> bool)
    requires Marked(lv) && k < n
    ensures var s := (first + k) % SLOTS;
      var here, rest := Sift(lv.slots[s], 0, boundary), Sweep(SiftAt(lv, s, boundary), first, k + 1, n, boundary);
      Count(Sweep(lv, first, k, n, boundary).taken, p) == Count(here.taken, p) + Count(rest.taken, p)
  {
    var s := (first + k) % SLOTS;
    var here, rest := Sift(lv.slots[s], 0, boundary), Sweep(SiftAt(lv, s, boundary), first, k + 1, n, boundary);
    CountConcat(here.taken, rest.taken, p);
  }

  lemma SlotsCountNext<W>(lv: Level<W>, first: nat, k: nat, n: nat, boundary: nat, p: Entry<W> -> bool)
    requires Marked(lv) && k < n <= SLOTS
    ensures var s := (first + k) % SLOTS;
      SlotsCount(lv, first, k, n, p) == Count(lv.slots[s], p) + SlotsCount(SiftAt(lv, s, boundary), first, k + 1, n, p)
  {
    SlotsCountFrame(lv, SiftAt(lv, (first + k) % SLOTS, boundary), first, k, k + 1, n, p);
  }

  ghost predicate CountsAlike<W>(slot: seq<Entry<W>>, boundary: nat, p: Entry<W> -> bool) {
    Count(Sift(slot, 0, boundary).taken, p) == Count(slot, p)
  }

  lemma {:induction false} SweepCountOf<W(!new)>(lv: Level<W>, first: nat, k: nat, n: nat, boundary: nat,
                                                 p: Entry<W> -> bool)
    requires Marked(lv) && n <= SLOTS && forall slot :: CountsAlike(slot, boundary, p)
    ensures Count(Sweep(lv, first, k, n, boundary).taken, p) == SlotsCount(lv, first, k, n, p)
    decreases n - k
  {
    if k < n {
      var s := (first + k) % SLOTS;
      var here, next := Sift(lv.slots[s], 0, boundary), SiftAt(lv, s, boundary);
      calc {
        Count(Sweep(lv, first, k, n, boundary).taken, p);
      == { SweepTakenParts(lv, first, k, n, boundary, p); }
        Count(here.taken, p) + Count(Sweep(next, first, k + 1, n, boundary).taken, p);
      == { SweepCountOf(next, first, k + 1, n, boundary, p); }
        Count(here.taken, p) + SlotsCount(next, first, k + 1, n, p);
      == { assert CountsAlike(lv.slots[s], boundary, p); }
        Count(lv.slots[s], p) + SlotsCount(next, first, k + 1, n, p);
      == { SlotsCountNext(lv, first, k, n, boundary, p); }
        SlotsCount(lv, first, k, n, p);
      }
    }
  }

  lemma SweepCount<W(!new)>(active: Active, lv: Level<W>, first: nat, n: nat, boundary: nat)
    requires Marked(lv) && n <= SLOTS
    ensures Count(Sweep(lv, first, 0, n, boundary).taken, LiveBy(active, boundary))
      == SlotsCount(lv, first, 0, n, LiveBy(active, boundary))
  {
    var p := LiveBy<W>(active, boundary);
    forall slot ensures CountsAlike(slot, boundary, p) { SiftTakenCount(active, slot, boundary); }
    SweepCountOf(lv, first, 0, n, boundary, p);
  }

  /** Counting over the levels from i on, as far as the window reaches. */
  function LevelsCount<W>(tick: nat, levels: seq<Level<W>>, i: nat, boundary: nat, p: Entry<W> -> bool): nat
    requires forall j :: 0 <= j < |levels| ==> |levels[j].slots| == SLOTS
    decreases |levels| - i
  {
    if i >= |levels| then 0
    else
      var here := SlotsCount(levels[i], Hand(tick, i) % SLOTS, 0, Reached(tick, i, boundary), p);
      here + LevelsCount(tick, levels, i + 1, boundary, p)
  }

  lemma {:induction false} LevelsCountFrame<W>(tick: nat, levels: seq<Level<W>>, levels': seq<Level<W>>, i: nat,
                                               boundary: nat, p: Entry<W> -> bool)
    requires |levels| == |levels'| && forall j: nat :: i <= j < |levels| ==> levels'[j] == levels[j]
    requires forall j :: 0 <= j < |levels| ==> |levels[j].slots| == SLOTS && |levels'[j].slots| == SLOTS
    ensures LevelsCount(tick, levels', i, boundary, p) == LevelsCount(tick, levels, i, boundary, p)
    decreases |levels| - i
  {
    if i < |levels| { LevelsCountFrame(tick, levels, levels', i + 1, boundary, p); }
  }

  lemma {:induction false} SweepFromCount<W(!new)>(active: Active, st: Storage<W>, i: nat, boundary: nat)
    requires Shaped(st)
    ensures Count(SweepFrom(st, i, boundary).taken, LiveBy(active, boundary))
      == LevelsCount(st.tick, st.levels, i, boundary, LiveBy(active, boundary))
    decreases LEVELS - i
  {
    if i < LEVELS {
      var p := LiveBy<W>(active, boundary);
      var here := SweepLevel(st.tick, i, st.levels[i], boundary);
      var st' := st.(levels := st.levels[i := here.level]);
      var rest := SweepFrom(st', i + 1, boundary).taken;
      calc {
        Count(SweepFrom(st, i, boundary).taken, p);
        Count(here.taken + rest, p);
        { CountConcat(here.taken, rest, p); }
        Count(here.taken, p) + Count(rest, p);
        { SweepFromCount(active, st', i + 1, boundary); }
        Count(here.taken, p) + LevelsCount(st.tick, st'.levels, i + 1, boundary, p);
        { LevelsCountFrame(st.tick, st.levels, st'.levels, i + 1, boundary, p); }
        Count(here.taken, p) + LevelsCount(st.tick, st.levels, i + 1, boundary, p);
        { SweepCount(active, st.levels[i], Hand(st.tick, i) % SLOTS, Reached(st.tick, i, boundary), boundary); }
        LevelsCount(st.tick, st.levels, i, boundary, p);
      }
    }
  }

  /** The three places that `coalescing_group_size` counts in. */
  lemma GatheredCount<W(!new)>(c: Coalescing, active: Active, st: Storage<W>, now: nat)
    requires Shaped(st) && c.window > 0
    ensures var b := Boundary(c.window, now);
      var p := LiveBy<W>(active, b);
      Count(Gathered(c, st, now).taken, p)
        == Count(st.ready, p) + LevelsCount(st.tick, st.levels, 0, b, p) + Count(st.overflow, p)
  {
    var b := Boundary(c.window, now);
    var p := LiveBy<W>(active, b);
    var rest := st.(ready := []);
    var swept, skimmed := SweepFrom(rest, 0, b).taken, Skim(st.overflow, b).taken;
    calc {
      Count(Gathered(c, st, now).taken, p);
      Count(st.ready + (swept + skimmed), p);
      { CountConcat(st.ready, swept + skimmed, p); CountConcat(swept, skimmed, p); }
      Count(st.ready, p) + Count(swept, p) + Count(skimmed, p);
      { SweepFromCount(active, rest, 0, b); SkimTakenCount(active, st.overflow, b); }
      Count(st.ready, p) + LevelsCount(st.tick, st.levels, 0, b, p) + Count(st.overflow, p);
    }
  }

  method CountSlots<W>(active: Active, lv: Level<W>, first: nat, n: nat, boundary: nat) returns (count: nat)
    requires Marked(lv)
    ensures count == SlotsCount(lv, first, 0, n, LiveBy(active, boundary))
  {
    count := 0;
    for k := 0 to n
      invariant count + SlotsCount(lv, first, k, n, LiveBy(active, boundary))
        == SlotsCount(lv, first, 0, n, LiveBy(active, boundary))
    {
      var s := (first + k) % SLOTS;
      if IsSet(lv.occupied, s) {
        var here := CountLive(active, lv.slots[s], boundary);
        count := count + here;
      }
    }
  }

  method CountLevels<W>(active: Active, st: Storage<W>, boundary: nat) returns (count: nat)
    requires Shaped(st)
    ensures count == LevelsCount(st.tick, st.levels, 0, boundary, LiveBy(active, boundary))
  {
    count := 0;
    for i := 0 to LEVELS
      invariant count + LevelsCount(st.tick, st.levels, i, boundary, LiveBy(active, boundary))
        == LevelsCount(st.tick, st.levels, 0, boundary, LiveBy(active, boundary))
    {
      var here := st.tick * MS / (MS * Res(i));
      var there := boundary / (MS * Res(i));
      DivDiv(st.tick * MS, MS, Res(i));
      DivDiv(boundary, MS, Res(i));
      if there >= here {
        var diff := if there - here >= SLOTS then SLOTS - 1 else there - here;
        var n := CountSlots(active, st.levels[i], here % SLOTS, diff + 1, boundary);
        count := count + n;
      }
    }
  }

  /** `coalescing_group_size`. */
  method CoalescingGroupSize<W(!new)>(c: Coalescing, active: Active, st: Storage<W>, now: nat) returns (n: nat)
    requires Shaped(st)
    ensures n == GroupSize(c, active, st, now)
  {
    var expired := CountLive(active, st.ready, now);
    if c.window == 0 {
      return expired;
    }
    var boundary := Boundary(c.window, now);
    var ready := CountLive(active, st.ready, boundary);
    var levels := CountLevels(active, st, boundary);
    var overflow := CountLive(active, st.overflow, boundary);
    GatheredCount(c, active, st, now);
    n := ready + levels + overflow;
    if n < c.Needed() { n := expired; }
  }
}
