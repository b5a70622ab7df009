/**
 Coalescing: at a collection, the timers that fall due by the end of the current window are taken
 out of the levels and the overflow heap to be fired together, if there are enough of them.
 */
module WheelCoalesce {
  import opened Arithmetic
  import opened Counting
  import opened Wrappers
  import opened WheelBitmap
  import opened WheelClock
  import opened WheelCopies
  import opened WheelStorage
  import opened WheelTurn

  /** The end of the window that a time is in: the least multiple of the window after it. */
  function Boundary(window: nat, now: nat): (b: nat)
    requires window > 0
    ensures b % window == 0 && b - window <= now < b
  {
    MultipleAfter(window, now);
    (now / window + 1) * window
  }

  lemma MultipleAfter(window: nat, now: nat)
    requires window > 0
    ensures var b := (now / window + 1) * window; b % window == 0 && b - window <= now < b
  {
    var q := now / window;
    assert now == window * q + now % window;
    assert (q + 1) * window == window * q + window;
    RemainderUnique((q + 1) * window, q + 1, 0, window);
  }

  /** There is only one such multiple. */
  lemma BoundaryUnique(window: nat, now: nat, b: nat)
    requires window > 0 && b % window == 0 && b - window <= now < b
    ensures b == Boundary(window, now)
  {
    var a := Boundary(window, now);
    DivMod(a, window);
    DivMod(b, window);
    var d := a / window - b / window;
    assert window * d == a - b;
    MultipleBounds(window, d);
  }

  // One slot.

  /** `swap_remove`: the last element takes the place of the removed one. */
  function SwapRemove<T>(s: seq<T>, j: nat): seq<T>
    requires j < |s|
  {
    s[j := s[|s| - 1]][..|s| - 1]
  }

  lemma SwapRemoveTimes<T>(s: seq<T>, j: nat, x: T)
    requires j < |s|
    ensures Times(SwapRemove(s, j), x) + Bit(s[j] == x) == Times(s, x)
  {
    var front, last := s[..|s| - 1], s[|s| - 1];
    if j < |s| - 1 {
      TimesReplace(front, j, last, x);
      assert SwapRemove(s, j) == front[j := last];
    } else {
      assert SwapRemove(s, j) == front;
    }
  }

  lemma TimesReplace<T>(s: seq<T>, j: nat, y: T, x: T)
    requires j < |s|
    ensures Times(s[j := y], x) + Bit(s[j] == x) == Times(s, x) + Bit(y == x)
  {
    SplitMiddle(s, j);
    SplitMiddle(s[j := y], j);
    TimesMiddle(s[..j], s[j], s[j + 1..], x);
    TimesMiddle(s[..j], y, s[j + 1..], x);
    assert s[j := y][..j] == s[..j] && s[j := y][j + 1..] == s[j + 1..];
  }

  datatype Sifted<W> = Sifted(left: seq<Entry<W>>, taken: seq<Entry<W>>)

  /** What is due by the boundary is taken, from position j on. */
  function Sift<W>(slot: seq<Entry<W>>, j: nat, boundary: nat): Sifted<W>
    requires j <= |slot|
    decreases |slot| - j
  {
    if j == |slot| then Sifted(slot, [])
    else if slot[j].deadline <= boundary then
      var r := Sift(SwapRemove(slot, j), j, boundary);
      r.(taken := [slot[j]] + r.taken)
    else Sift(slot, j + 1, boundary)
  }

  method SiftSlot<W>(slot: seq<Entry<W>>, boundary: nat, ready: seq<Entry<W>>)
      returns (left: seq<Entry<W>>, ready': seq<Entry<W>>)
    ensures left == Sift(slot, 0, boundary).left && ready' == ready + Sift(slot, 0, boundary).taken
  {
    left, ready' := slot, ready;
    ghost var taken: seq<Entry<W>> := [];
    ghost var whole := Sift(slot, 0, boundary);
    var j := 0;
    while j < |left|
      invariant j <= |left| && ready' == ready + taken
      invariant var r := Sift(left, j, boundary); whole == r.(taken := taken + r.taken)
      decreases |left| - j
    {
      if left[j].deadline <= boundary {
        ghost var rest := Sift(SwapRemove(left, j), j, boundary).taken;
        assert taken + ([left[j]] + rest) == (taken + [left[j]]) + rest;
        ready', taken := ready' + [left[j]], taken + [left[j]];
        left := SwapRemove(left, j);
      } else {
        j := j + 1;
      }
    }
    assert taken + [] == taken;
  }

  lemma {:induction false} SiftTimes<W>(slot: seq<Entry<W>>, j: nat, boundary: nat, x: Entry<W>)
    requires j <= |slot|
    ensures var r := Sift(slot, j, boundary); Times(r.left, x) + Times(r.taken, x) == Times(slot, x)
    decreases |slot| - j
  {
    if j < |slot| {
      if slot[j].deadline <= boundary {
        SiftTimes(SwapRemove(slot, j), j, boundary, x);
        SwapRemoveTimes(slot, j, x);
        TimesConcat([slot[j]], Sift(SwapRemove(slot, j), j, boundary).taken, x);
        TimesAppend([], slot[j], x);
        assert [] + [slot[j]] == [slot[j]];
      } else {
        SiftTimes(slot, j + 1, boundary, x);
      }
    }
  }

  ghost predicate AllAfter<W>(es: seq<Entry<W>>, boundary: nat) { forall e :: e in es ==> e.deadline > boundary }

  ghost predicate AllBy<W>(es: seq<Entry<W>>, boundary: nat) { forall e :: e in es ==> e.deadline <= boundary }

  lemma {:induction false} SiftSplits<W>(slot: seq<Entry<W>>, j: nat, boundary: nat)
    requires j <= |slot| && AllAfter(slot[..j], boundary)
    ensures var r := Sift(slot, j, boundary); AllAfter(r.left, boundary) && AllBy(r.taken, boundary)
    decreases |slot| - j
  {
    if j == |slot| {
      assert slot[..j] == slot;
    } else if slot[j].deadline <= boundary {
      assert SwapRemove(slot, j)[..j] == slot[..j];
      SiftSplits(SwapRemove(slot, j), j, boundary);
    } else {
      assert slot[..j + 1] == slot[..j] + [slot[j]];
      SiftSplits(slot, j + 1, boundary);
    }
  }

  lemma SiftLeft<W>(slot: seq<Entry<W>>, boundary: nat, x: Entry<W>)
    ensures x in Sift(slot, 0, boundary).left <==> x in slot && x.deadline > boundary
    ensures x in Sift(slot, 0, boundary).taken <==> x in slot && x.deadline <= boundary
  {
    var r := Sift(slot, 0, boundary);
    SiftTimes(slot, 0, boundary, x);
    SiftSplits(slot, 0, boundary);
    TimesPositive(slot, x);
    TimesPositive(r.left, x);
    TimesPositive(r.taken, x);
  }

  // One level.

  ghost function SiftAt<W>(lv: Level<W>, s: nat, boundary: nat): (lv': Level<W>)
    requires Marked(lv) && s < SLOTS
    ensures Marked(lv')
  {
    var left := Sift(lv.slots[s], 0, boundary).left;
    SiftMarked(lv, s, left);
    lv.(slots := lv.slots[s := left], occupied := if left == [] then Clear(lv.occupied, s) else lv.occupied)
  }

  lemma SiftMarked<W>(lv: Level<W>, s: nat, left: seq<Entry<W>>)
    requires Marked(lv) && s < SLOTS && (lv.slots[s] == [] ==> left == [])
    ensures var occupied := if left == [] then Clear(lv.occupied, s) else lv.occupied;
      Marked(lv.(slots := lv.slots[s := left], occupied := occupied))
  {
    forall t: nat | t < SLOTS ensures IsSet(Clear(lv.occupied, s), t) <==> IsSet(lv.occupied, t) && t != s {
      ClearIsSet(lv.occupied, s, t);
    }
    ClearIsSet(lv.occupied, s, s);
  }

  lemma SiftAtHolds<W>(lv: Level<W>, s: nat, boundary: nat, t: nat, x: Entry<W>)
    requires Marked(lv) && s < SLOTS && t < SLOTS
    ensures x in SiftAt(lv, s, boundary).slots[t] <==> x in lv.slots[t] && (t == s ==> x.deadline > boundary)
  {
    if t == s { SiftLeft(lv.slots[s], boundary, x); }
  }

  datatype Swept<W> = Swept(level: Level<W>, taken: seq<Entry<W>>)

  /** The slots from the k-th to the n-th after the first, going round. */
  ghost function Sweep<W>(lv: Level<W>, first: nat, k: nat, n: nat, boundary: nat): (r: Swept<W>)
    requires Marked(lv)
    ensures Marked(r.level) && r.level.cursor == lv.cursor
    decreases n - k
  {
    if k >= n then Swept(lv, [])
    else
      var s := (first + k) % SLOTS;
      var r := Sweep(SiftAt(lv, s, boundary), first, k + 1, n, boundary);
      r.(taken := Sift(lv.slots[s], 0, boundary).taken + r.taken)
  }

  method SiftInto<W>(lv: Level<W>, s: nat, boundary: nat, ready: seq<Entry<W>>)
      returns (lv': Level<W>, ready': seq<Entry<W>>)
    requires Marked(lv) && s < SLOTS
    ensures lv' == SiftAt(lv, s, boundary) && ready' == ready + Sift(lv.slots[s], 0, boundary).taken
  {
    if IsSet(lv.occupied, s) {
      var left;
      left, ready' := SiftSlot(lv.slots[s], boundary, ready);
      lv' := lv.(slots := lv.slots[s := left], occupied := if left == [] then Clear(lv.occupied, s) else lv.occupied);
    } else {
      ClearUnset(lv.occupied, s);
      assert lv.slots[s := []] == lv.slots;
      lv', ready' := lv, ready + [];
    }
  }

  /** Part of the way through: what has been taken so far, and what is still to be done. */
  ghost predicate SweptOn<W>(whole: Swept<W>, rest: Swept<W>, taken: seq<Entry<W>>) {
    whole == Swept(rest.level, taken + rest.taken)
  }

  lemma SweptOnNext<W>(lv: Level<W>, first: nat, k: nat, n: nat, boundary: nat, whole: Swept<W>, taken: seq<Entry<W>>)
    requires Marked(lv) && k < n && SweptOn(whole, Sweep(lv, first, k, n, boundary), taken)
    ensures var s := (first + k) % SLOTS;
      var here := Sift(lv.slots[s], 0, boundary).taken;
      SweptOn(whole, Sweep(SiftAt(lv, s, boundary), first, k + 1, n, boundary), taken + here)
  {
    var s := (first + k) % SLOTS;
    var here := Sift(lv.slots[s], 0, boundary).taken;
    var rest := Sweep(SiftAt(lv, s, boundary), first, k + 1, n, boundary).taken;
    assert taken + (here + rest) == (taken + here) + rest;
  }

  method SweepSlots<W>(lv: Level<W>, first: nat, n: nat, boundary: nat, ready: seq<Entry<W>>)
      returns (lv': Level<W>, ready': seq<Entry<W>>)
    requires Marked(lv)
    ensures var r := Sweep(lv, first, 0, n, boundary); lv' == r.level && ready' == ready + r.taken
  {
    lv', ready' := lv, ready;
    ghost var taken: seq<Entry<W>> := [];
    ghost var whole := Sweep(lv, first, 0, n, boundary);
    assert [] + whole.taken == whole.taken;
    for k := 0 to n
      invariant Marked(lv') && ready' == ready + taken && SweptOn(whole, Sweep(lv', first, k, n, boundary), taken)
    {
      SweptOnNext(lv', first, k, n, boundary, whole, taken);
      var s := (first + k) % SLOTS;
      ghost var here := Sift(lv'.slots[s], 0, boundary).taken;
      ConcatAssoc(ready, taken, here);
      lv', ready' := SiftInto(lv', s, boundary, ready');
      taken := taken + here;
    }
    assert taken + [] == taken;
  }

  /** A sweep only takes out, and only what is due. */
  lemma {:induction false} SweepOnlyTakes<W>(lv: Level<W>, first: nat, k: nat, n: nat, boundary: nat,
                                             s: nat, x: Entry<W>)
    requires Marked(lv) && s < SLOTS
    ensures var r := Sweep(lv, first, k, n, boundary);
      (x in r.level.slots[s] ==> x in lv.slots[s]) && (x in r.taken ==> x.deadline <= boundary)
    decreases n - k
  {
    if k < n {
      var t := (first + k) % SLOTS;
      SiftAtHolds(lv, t, boundary, s, x);
      SiftLeft(lv.slots[t], boundary, x);
      SweepOnlyTakes(SiftAt(lv, t, boundary), first, k + 1, n, boundary, s, x);
    }
  }

  /** And all of that, in the slots it comes to. */
  lemma {:induction false} SweepTakesAll<W>(lv: Level<W>, first: nat, k: nat, n: nat, boundary: nat,
                                            j: nat, x: Entry<W>)
    requires Marked(lv) && k <= j < n
    ensures x in Sweep(lv, first, k, n, boundary).level.slots[(first + j) % SLOTS] ==> x.deadline > boundary
    decreases n - k
  {
    var s := (first + k) % SLOTS;
    if j == k {
      SweepOnlyTakes(SiftAt(lv, s, boundary), first, k + 1, n, boundary, s, x);
      SiftAtHolds(lv, s, boundary, s, x);
    } else {
      SweepTakesAll(SiftAt(lv, s, boundary), first, k + 1, n, boundary, j, x);
    }
  }

  lemma SiftAtCopies<W>(lv: Level<W>, s: nat, boundary: nat, x: Entry<W>)
    requires Marked(lv) && s < SLOTS
    ensures InLevel(x)(SiftAt(lv, s, boundary)) + Times(Sift(lv.slots[s], 0, boundary).taken, x) == InLevel(x)(lv)
  {
    SumUpdate(lv.slots, s, Sift(lv.slots[s], 0, boundary).left, InSlot(x));
    SiftTimes(lv.slots[s], 0, boundary, x);
  }

  lemma {:induction false} SweepCopies<W>(lv: Level<W>, first: nat, k: nat, n: nat, boundary: nat, x: Entry<W>)
    requires Marked(lv)
    ensures var r := Sweep(lv, first, k, n, boundary); InLevel(x)(r.level) + Times(r.taken, x) == InLevel(x)(lv)
    decreases n - k
  {
    if k < n {
      var s := (first + k) % SLOTS;
      SiftAtCopies(lv, s, boundary, x);
      var lv' := SiftAt(lv, s, boundary);
      SweepCopies(lv', first, k + 1, n, boundary, x);
      TimesConcat(Sift(lv.slots[s], 0, boundary).taken, Sweep(lv', first, k + 1, n, boundary).taken, x);
    }
  }

  /** How many slots of level i the window reaches. */
  function Reached(tick: nat, i: nat, boundary: nat): nat {
    var here, there := Hand(tick, i), Hand(boundary / MS, i);
    if there < here then 0 else if there - here >= SLOTS then SLOTS else there - here + 1
  }

  ghost function SweepLevel<W>(tick: nat, i: nat, lv: Level<W>, boundary: nat): (r: Swept<W>)
    requires Marked(lv)
    ensures Marked(r.level) && r.level.cursor == lv.cursor
  {
    Sweep(lv, Hand(tick, i) % SLOTS, 0, Reached(tick, i, boundary), boundary)
  }

  lemma OffsetReached(tick: nat, i: nat, s: nat, d: nat, boundary: nat) returns (j: nat)
    requires Fits(tick, i, s, d) && d <= boundary / MS
    ensures j < Reached(tick, i, boundary) && (Hand(tick, i) % SLOTS + j) % SLOTS == s
  {
    DivMono(d, boundary / MS, Res(i));
    j := WindowOffset(Hand(tick, i), Hand(d, i));
  }

  lemma WindowOffset(here: nat, h: nat) returns (j: nat)
    requires here < h <= here + SLOTS
    ensures (here % SLOTS + j) % SLOTS == h % SLOTS && j == if h == here + SLOTS then 0 else h - here
  {
    j := if h == here + SLOTS then 0 else h - here;
    SlotAhead(here % SLOTS, here, h - here);
  }

  lemma SweepTakesSlot<W>(lv: Level<W>, first: nat, n: nat, boundary: nat, j: nat, s: nat, x: Entry<W>)
    requires Marked(lv) && j < n && s == (first + j) % SLOTS && x in Sweep(lv, first, 0, n, boundary).level.slots[s]
    ensures x.deadline > boundary
  {
    SweepTakesAll(lv, first, 0, n, boundary, j, x);
  }

  lemma DueOffset<W>(tick: nat, i: nat, s: nat, x: Entry<W>, boundary: nat) returns (j: nat)
    requires Fits(tick, i, s, x.Due()) && x.deadline <= boundary
    ensures j < Reached(tick, i, boundary) && (Hand(tick, i) % SLOTS + j) % SLOTS == s
  {
    DivMono(x.deadline, boundary, MS);
    j := OffsetReached(tick, i, s, x.Due(), boundary);
  }

  /** No entry of a level that is due by the boundary is left there. */
  lemma SweepLevelAll<W>(tick: nat, maxRange: nat, i: nat, lv: Level<W>, boundary: nat, s: nat, x: Entry<W>)
    requires LevelOk(tick, maxRange, i, lv) && s < SLOTS && x in SweepLevel(tick, i, lv, boundary).level.slots[s]
    ensures x.deadline > boundary
  {
    var first, n := Hand(tick, i) % SLOTS, Reached(tick, i, boundary);
    SweepOnlyTakes(lv, first, 0, n, boundary, s, x);
    assert Sits(tick, maxRange, i, s, x);
    if x.deadline <= boundary {
      var j := DueOffset(tick, i, s, x, boundary);
      SweepTakesSlot(lv, first, n, boundary, j, s, x);
    }
  }

  lemma SweepLevelOk<W>(tick: nat, maxRange: nat, i: nat, lv: Level<W>, boundary: nat)
    requires LevelOk(tick, maxRange, i, lv)
    ensures SweptOk(tick, maxRange, i, SweepLevel(tick, i, lv, boundary).level, boundary)
  {
    var lv' := SweepLevel(tick, i, lv, boundary).level;
    forall s: nat, e | s < SLOTS && e in lv'.slots[s] ensures Sits(tick, maxRange, i, s, e) && e.deadline > boundary {
      SweepOnlyTakes(lv, Hand(tick, i) % SLOTS, 0, Reached(tick, i, boundary), boundary, s, e);
      SweepLevelAll(tick, maxRange, i, lv, boundary, s, e);
    }
  }

  ghost predicate SweptOk<W>(tick: nat, maxRange: nat, i: nat, lv: Level<W>, boundary: nat) {
    LevelOk(tick, maxRange, i, lv) && forall s: nat, e :: s < SLOTS && e in lv.slots[s] ==> e.deadline > boundary
  }

  // All levels.

  datatype Promoted<W> = Promoted(storage: Storage<W>, taken: seq<Entry<W>>)

  ghost function SweepFrom<W>(st: Storage<W>, i: nat, boundary: nat): (r: Promoted<W>)
    requires Shaped(st)
    ensures Shaped(r.storage) && r.storage == st.(levels := r.storage.levels)
    decreases |st.levels| - i
  {
    if i >= |st.levels| then Promoted(st, [])
    else
      var r := SweepLevel(st.tick, i, st.levels[i], boundary);
      var rest := SweepFrom(st.(levels := st.levels[i := r.level]), i + 1, boundary);
      rest.(taken := r.taken + rest.taken)
  }

  lemma {:induction false} SweepFromCopies<W>(st: Storage<W>, i: nat, boundary: nat, x: Entry<W>)
    requires Shaped(st)
    ensures var r := SweepFrom(st, i, boundary);
      Sum(r.storage.levels, InLevel(x)) + Times(r.taken, x) == Sum(st.levels, InLevel(x))
    decreases LEVELS - i
  {
    if i < LEVELS {
      var r := SweepLevel(st.tick, i, st.levels[i], boundary);
      var st' := st.(levels := st.levels[i := r.level]);
      SweepCopies(st.levels[i], Hand(st.tick, i) % SLOTS, 0, Reached(st.tick, i, boundary), boundary, x);
      SumUpdate(st.levels, i, r.level, InLevel(x));
      SweepFromCopies(st', i + 1, boundary, x);
      TimesConcat(r.taken, SweepFrom(st', i + 1, boundary).taken, x);
    }
  }

  /** The levels from i on are in order and have nothing left that is due; the others are as they were. */
  ghost predicate SweptFrom<W>(st: Storage<W>, maxRange: nat, i: nat, levels: seq<Level<W>>, boundary: nat) {
    && |levels| == |st.levels| && (forall j: nat :: j < i && j < |levels| ==> levels[j] == st.levels[j])
    && (forall j: nat :: i <= j < |levels| ==> SweptOk(st.tick, maxRange, j, levels[j], boundary))
  }

  lemma {:induction false} SweepFromOk<W(!new)>(st: Storage<W>, maxRange: nat, i: nat, boundary: nat)
    requires Shaped(st) && forall j: nat :: i <= j < LEVELS ==> LevelOk(st.tick, maxRange, j, st.levels[j])
    ensures SweptFrom(st, maxRange, i, SweepFrom(st, i, boundary).storage.levels, boundary)
    decreases LEVELS - i
  {
    if i < LEVELS {
      var lv := SweepLevel(st.tick, i, st.levels[i], boundary).level;
      SweepLevelOk(st.tick, maxRange, i, st.levels[i], boundary);
      var st' := st.(levels := st.levels[i := lv]);
      SweepFromOk(st', maxRange, i + 1, boundary);
      assert SweepFrom(st, i, boundary).storage == SweepFrom(st', i + 1, boundary).storage;
    }
  }

  lemma {:induction false} SweepFromBy<W>(st: Storage<W>, i: nat, boundary: nat, x: Entry<W>)
    requires Shaped(st) && x in SweepFrom(st, i, boundary).taken
    ensures x.deadline <= boundary
    decreases LEVELS - i
  {
    if i < LEVELS {
      var r := SweepLevel(st.tick, i, st.levels[i], boundary);
      if x in r.taken {
        SweepOnlyTakes(st.levels[i], Hand(st.tick, i) % SLOTS, 0, Reached(st.tick, i, boundary), boundary, 0, x);
      } else {
        SweepFromBy(st.(levels := st.levels[i := r.level]), i + 1, boundary, x);
      }
    }
  }

  // The overflow heap.

  /** Popping while the top is due by the boundary. */
  function Skim<W>(overflow: seq<Entry<W>>, boundary: nat): Sifted<W>
    decreases |overflow|
  {
    if overflow == [] || overflow[Top(overflow)].deadline > boundary then Sifted(overflow, [])
    else
      var r := Skim(Without(overflow, Top(overflow)), boundary);
      r.(taken := [overflow[Top(overflow)]] + r.taken)
  }

  lemma {:induction false} SkimSplits<W>(overflow: seq<Entry<W>>, boundary: nat)
    ensures var r := Skim(overflow, boundary); AllAfter(r.left, boundary) && AllBy(r.taken, boundary)
    decreases |overflow|
  {
    if overflow != [] && overflow[Top(overflow)].deadline <= boundary {
      SkimSplits(Without(overflow, Top(overflow)), boundary);
    }
  }

  lemma {:induction false} SkimTimes<W>(overflow: seq<Entry<W>>, boundary: nat, x: Entry<W>)
    ensures var r := Skim(overflow, boundary); Times(r.left, x) + Times(r.taken, x) == Times(overflow, x)
    decreases |overflow|
  {
    if overflow != [] && overflow[Top(overflow)].deadline <= boundary {
      var m := Top(overflow);
      var rest := Skim(Without(overflow, m), boundary).taken;
      SkimTimes(Without(overflow, m), boundary, x);
      WithoutTimes(overflow, m, x);
      TimesConcat([overflow[m]], rest, x);
      TimesAppend([], overflow[m], x);
      assert [] + [overflow[m]] == [overflow[m]];
    }
  }

  // Together.

  ghost function Promote<W>(st: Storage<W>, boundary: nat): (r: Promoted<W>)
    requires Shaped(st)
    ensures Shaped(r.storage) && r.storage.tick == st.tick && r.storage.ready == st.ready
  {
    var swept, skimmed := SweepFrom(st, 0, boundary), Skim(st.overflow, boundary);
    Promoted(swept.storage.(overflow := skimmed.left), swept.taken + skimmed.taken)
  }

  /** Nothing is lost or copied on the way out. */
  lemma PromoteCopies<W>(st: Storage<W>, boundary: nat, x: Entry<W>)
    requires Shaped(st)
    ensures var r := Promote(st, boundary); Copies(r.storage, x) + Times(r.taken, x) == Copies(st, x)
  {
    SweepFromCopies(st, 0, boundary, x);
    SkimTimes(st.overflow, boundary, x);
    TimesConcat(SweepFrom(st, 0, boundary).taken, Skim(st.overflow, boundary).taken, x);
  }

  lemma PromoteAtRest<W(!new)>(st: Storage<W>, maxRange: nat, boundary: nat)
    requires AtRest(st, maxRange)
    ensures Shaped(st) && AtRest(Promote(st, boundary).storage, maxRange)
  {
    SweepFromOk(st, maxRange, 0, boundary);
    var r := SweepFrom(st, 0, boundary).storage;
    forall i: nat | i < LEVELS ensures LevelOk(st.tick, maxRange, i, r.levels[i]) {
      assert SweptOk(st.tick, maxRange, i, r.levels[i], boundary);
    }
    SkimOverflowOk(st.tick, maxRange, st.overflow, boundary);
  }

  lemma SkimOverflowOk<W>(tick: nat, maxRange: nat, overflow: seq<Entry<W>>, boundary: nat)
    requires OverflowOk(tick, maxRange, overflow)
    ensures OverflowOk(tick, maxRange, Skim(overflow, boundary).left)
  {
    var left := Skim(overflow, boundary).left;
    forall e | e in left ensures maxRange <= e.Delta(tick) {
      SkimTimes(overflow, boundary, e);
      TimesPositive(overflow, e);
      TimesPositive(left, e);
    }
  }

  /** Exactly what is due by the boundary comes out. */
  lemma PromoteExactly<W(!new)>(st: Storage<W>, maxRange: nat, boundary: nat, x: Entry<W>)
    requires AtRest(st, maxRange) && st.ready == []
    ensures Shaped(st)
    ensures var r := Promote(st, boundary);
      (Stored(r.storage, x) ==> x.deadline > boundary) && (x in r.taken ==> x.deadline <= boundary)
  {
    SkimSplits(st.overflow, boundary);
    SweptLater(st, maxRange, boundary, x);
    if x in SweepFrom(st, 0, boundary).taken { SweepFromBy(st, 0, boundary, x); }
  }

  lemma SweptLater<W(!new)>(st: Storage<W>, maxRange: nat, boundary: nat, x: Entry<W>)
    requires AtRest(st, maxRange)
    ensures Shaped(st) && (InLevels(SweepFrom(st, 0, boundary).storage.levels, x) ==> x.deadline > boundary)
  {
    var levels := SweepFrom(st, 0, boundary).storage.levels;
    SweepFromOk(st, maxRange, 0, boundary);
    if InLevels(levels, x) {
      var i: nat :| i < LEVELS && Holds(levels[i], x);
      assert SweptOk(st.tick, maxRange, i, levels[i], boundary);
      var s: nat :| s < SLOTS && x in levels[i].slots[s];
    }
  }

  // The loops.

  method PromoteLevel<W>(tick: nat, i: nat, lv: Level<W>, boundary: nat, ready: seq<Entry<W>>)
      returns (lv': Level<W>, ready': seq<Entry<W>>)
    requires Marked(lv)
    ensures var r := SweepLevel(tick, i, lv, boundary); lv' == r.level && ready' == ready + r.taken
  {
    var here := tick * MS / (MS * Res(i));
    var there := boundary / (MS * Res(i));
    DivDiv(tick * MS, MS, Res(i));
    DivDiv(boundary, MS, Res(i));
    if there < here {
      return lv, ready + [];
    }
    var diff := if there - here >= SLOTS then SLOTS - 1 else there - here;
    lv', ready' := SweepSlots(lv, here % SLOTS, diff + 1, boundary, ready);
  }

  method PromoteOverflow<W>(overflow0: seq<Entry<W>>, boundary: nat, ready: seq<Entry<W>>)
      returns (overflow: seq<Entry<W>>, ready': seq<Entry<W>>)
    ensures var r := Skim(overflow0, boundary); overflow == r.left && ready' == ready + r.taken
  {
    overflow, ready' := overflow0, ready;
    while overflow != [] && overflow[Top(overflow)].deadline <= boundary
      invariant var r, whole := Skim(overflow, boundary), Skim(overflow0, boundary);
        r.left == whole.left && ready' + r.taken == ready + whole.taken
      decreases |overflow|
    {
      var top := Top(overflow);
      ghost var rest := Skim(Without(overflow, top), boundary).taken;
      assert ready' + ([overflow[top]] + rest) == (ready' + [overflow[top]]) + rest;
      ready', overflow := ready' + [overflow[top]], Without(overflow, top);
    }
    assert ready' + [] == ready';
  }

  ghost predicate Onward<W>(whole: Promoted<W>, rest: Promoted<W>, taken: seq<Entry<W>>) {
    whole == Promoted(rest.storage, taken + rest.taken)
  }

  lemma OnwardSweep<W>(st: Storage<W>, i: nat, boundary: nat, whole: Promoted<W>, taken: seq<Entry<W>>)
    requires Shaped(st) && i < LEVELS && Onward(whole, SweepFrom(st, i, boundary), taken)
    ensures var here := SweepLevel(st.tick, i, st.levels[i], boundary);
      var st' := st.(levels := st.levels[i := here.level]);
      Shaped(st') && Onward(whole, SweepFrom(st', i + 1, boundary), taken + here.taken)
  {
    var here := SweepLevel(st.tick, i, st.levels[i], boundary);
    var rest := SweepFrom(st.(levels := st.levels[i := here.level]), i + 1, boundary).taken;
    ConcatAssoc(taken, here.taken, rest);
  }

  method PromoteLevels<W>(st: Storage<W>, boundary: nat, ready: seq<Entry<W>>)
      returns (st': Storage<W>, ready': seq<Entry<W>>)
    requires Shaped(st)
    ensures var r := SweepFrom(st, 0, boundary); st' == r.storage && ready' == ready + r.taken
  {
    st', ready' := st, ready;
    ghost var taken: seq<Entry<W>> := [];
    ghost var whole := SweepFrom(st, 0, boundary);
    assert [] + whole.taken == whole.taken;
    for i := 0 to LEVELS
      invariant Shaped(st') && ready' == ready + taken && Onward(whole, SweepFrom(st', i, boundary), taken)
    {
      OnwardSweep(st', i, boundary, whole, taken);
      ghost var here := SweepLevel(st'.tick, i, st'.levels[i], boundary).taken;
      ConcatAssoc(ready, taken, here);
      var lv;
      lv, ready' := PromoteLevel(st'.tick, i, st'.levels[i], boundary, ready');
      st', taken := st'.(levels := st'.levels[i := lv]), taken + here;
    }
    assert taken + [] == taken;
  }

  /** `promote_coalescing_window_entries`. */
  method PromoteWindow<W>(st: Storage<W>, boundary: nat, ready: seq<Entry<W>>)
      returns (st': Storage<W>, ready': seq<Entry<W>>)
    requires Shaped(st)
    ensures var r := Promote(st, boundary); st' == r.storage && ready' == ready + r.taken
  {
    ghost var promoted := Promote(st, boundary);
    ghost var a, b := SweepFrom(st, 0, boundary), Skim(st.overflow, boundary);
    assert promoted == Promoted(a.storage.(overflow := b.left), a.taken + b.taken);
    var overflow, swept;
    st', swept := PromoteLevels(st, boundary, ready);
    overflow, ready' := PromoteOverflow(st'.overflow, boundary, swept);
    ConcatAssoc(ready, a.taken, b.taken);
    st' := st'.(overflow := overflow);
  }
}
