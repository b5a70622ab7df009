/**
 The arithmetic of the timer wheel.  Time is counted in ticks of one millisecond; level i of the
 wheel has 256 slots of 256^i ticks each, and its hand is at T / 256^i.
 */
module WheelClock {
  import opened Arithmetic

  const SLOTS: nat := 256
  const LEVELS: nat := 4
  const MS: nat := 1_000_000

  /** Ticks per slot of a level. */
  function Res(level: nat): (r: nat)
    ensures r >= 1
  {
    if level == 0 then 1 else SLOTS * Res(level - 1)
  }

  /** The span of the whole wheel, in nanoseconds. */
  const PHYSICAL_RANGE: nat := 0x1_0000_0000 * MS

  lemma PhysicalRange()
    ensures Res(LEVELS) * MS == PHYSICAL_RANGE
  {
    assert Res(1) == 256 && Res(2) == 65536;
    assert Res(3) == 256 * Res(2) && Res(4) == 256 * Res(3);
  }

  /** Where the hand of a level is. */
  function Hand(tick: nat, level: nat): nat { tick / Res(level) }

  /** The slot a timer due at tick d has on a level whose hand has not passed it, in its next turn. */
  ghost predicate Fits(tick: nat, level: nat, slot: nat, d: nat) {
    slot == Hand(d, level) % SLOTS && Hand(tick, level) < Hand(d, level) <= Hand(tick, level) + SLOTS
  }

  // Division.

  lemma DivMono(a: nat, b: nat, m: nat)
    requires a <= b && m > 0
    ensures a / m <= b / m
  {
    var d := a / m - b / m;
    assert m * d == (a - a % m) - (b - b % m);
    MultipleBounds(m, d);
  }

  /** (a + k*m) / m == a / m + k. */
  lemma DivAdd(a: nat, k: nat, m: nat)
    requires m > 0
    ensures (a + k * m) / m == a / m + k
  {
    assert a + k * m == m * (a / m + k) + a % m;
    DivUnique(a + k * m, a / m + k, a % m, m);
  }

  lemma DivLess(a: nat, h: nat, m: nat)
    requires m > 0 && a < h * m
    ensures a / m < h
  {
    var d := a / m - h;
    assert m * d == (a - a % m) - h * m;
    MultipleBounds(m, d);
  }

  /** Numbers with the same quotient as a multiple a of m. */
  lemma SameQuotient(a: nat, d: nat, m: nat)
    requires m > 0 && a % m == 0 && d / m == a / m
    ensures a <= d < a + m
  {
    assert a == m * (a / m) && d == m * (d / m) + d % m;
  }

  lemma ZeroRemainder(a: nat, b: nat, c: nat)
    requires b > 0 && c > 0 && a % b == 0
    ensures b * c > 0 && (a % (b * c) == 0 <==> a / b % c == 0)
  {
    MultipleBounds(b, c);
    var h, q := a / b, a / (b * c);
    DivDiv(a, b, c);
    assert a == b * h && h == c * q + h % c;
    Distribute(b, c, q, h % c);
    assert a == (b * c) * q + b * (h % c);
    assert a == (b * c) * q + a % (b * c);
  }

  // The hands.

  /** A hand moves exactly when the tick is a multiple of its slot length. */
  lemma HandNext(tick: nat, level: nat)
    ensures Hand(tick + 1, level) == Hand(tick, level) + if (tick + 1) % Res(level) == 0 then 1 else 0
  {
    var m := Res(level);
    var q, r := tick / m, tick % m;
    assert tick == m * q + r;
    if r + 1 < m {
      DivUnique(tick + 1, q, r + 1, m);
      RemainderUnique(tick + 1, q, r + 1, m);
    } else {
      assert tick + 1 == m * (q + 1) + 0;
      DivUnique(tick + 1, q + 1, 0, m);
      RemainderUnique(tick + 1, q + 1, 0, m);
    }
  }

  /** The next level moves when this one moves to slot zero. */
  lemma CarryUp(tick: nat, level: nat)
    requires tick % Res(level) == 0
    ensures tick % Res(level + 1) == 0 <==> Hand(tick, level) % SLOTS == 0
  {
    ZeroRemainder(tick, Res(level), SLOTS);
    assert Res(level + 1) == Res(level) * SLOTS;
  }

  lemma SlotAhead(cursor: nat, h: nat, k: nat)
    requires cursor == h % SLOTS
    ensures (cursor + k) % SLOTS == (h + k) % SLOTS
  {
  }

  // Where a timer fits, and how long it stays.

  lemma TicksBelow(dl: nat, t: nat)
    ensures dl < t * MS <==> dl / MS < t
  {
  }

  /** A deadline between one and 256 slots ahead, or ahead at all on level zero, fits that level. */
  lemma FitsInsert(tick: nat, level: nat, dl: nat)
    requires tick * MS < dl < (tick + Res(level + 1)) * MS
    requires if level == 0 then tick < dl / MS else (tick + Res(level)) * MS <= dl
    ensures Fits(tick, level, Hand(dl / MS, level) % SLOTS, dl / MS)
  {
    var d, m := dl / MS, Res(level);
    TicksBelow(dl, tick + Res(level + 1));
    TicksBelow(dl, tick + m);
    DivAdd(tick, 1, m);
    DivMono(tick + 1 * m, d, m);
    assert Res(level + 1) == SLOTS * m;
    DivAdd(tick, SLOTS, m);
    DivMono(d, tick + SLOTS * m, m);
  }

  lemma FitsLater(tick: nat, level: nat, slot: nat, d: nat)
    requires Fits(tick, level, slot, d)
    ensures tick < d
  {
    if d <= tick { DivMono(d, tick, Res(level)); }
  }

  /** As the hand moves on, everything but the slot it reaches still fits. */
  lemma FitsNext(tick: nat, level: nat, slot: nat, d: nat)
    requires Fits(tick, level, slot, d)
    requires (tick + 1) % Res(level) == 0 ==> slot != Hand(tick + 1, level) % SLOTS
    ensures Fits(tick + 1, level, slot, d)
  {
    HandNext(tick, level);
  }

  /** And what is in that slot falls due before the hand moves again. */
  lemma FitsDue(tick: nat, level: nat, slot: nat, d: nat)
    requires Fits(tick, level, slot, d) && (tick + 1) % Res(level) == 0 && slot == Hand(tick + 1, level) % SLOTS
    ensures tick + 1 <= d < tick + 1 + Res(level)
  {
    HandNext(tick, level);
    SameQuotient(tick + 1, d, Res(level));
  }

  /** Time may jump to just before the first slot that holds something. */
  lemma FitsJump(tick: nat, level: nat, slot: nat, d: nat, later: nat)
    requires Fits(tick, level, slot, d) && tick <= later < Hand(d, level) * Res(level)
    ensures Fits(later, level, slot, d)
  {
    DivMono(tick, later, Res(level));
    DivLess(later, Hand(d, level), Res(level));
  }
}
