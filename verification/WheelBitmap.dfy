/**
 The occupancy bitmap of a wheel level: four words of 64 bits, one bit for each slot, searched a
 word at a time.  A word is taken as the set of the positions of its one bits.
 */
module WheelBitmap {
  import opened Minimum
  import opened WheelClock
  import opened Wrappers

  const BITS: nat := 64
  const BITMAP_WORDS: nat := 4

  type Bitmap = seq<set<nat>>

  ghost predicate IsBitmap(bitmap: Bitmap) {
    |bitmap| == BITMAP_WORDS && forall w, b :: 0 <= w < BITMAP_WORDS && b in bitmap[w] ==> b < BITS
  }

  function Clean(): Bitmap { [{}, {}, {}, {}] }

  /** `is_occupied`. */
  predicate IsSet(bitmap: Bitmap, slot: nat)
    requires |bitmap| == BITMAP_WORDS && slot < SLOTS
  {
    slot % BITS in bitmap[slot / BITS]
  }

  /** `set_occupied`. */
  function Set(bitmap: Bitmap, slot: nat): Bitmap
    requires |bitmap| == BITMAP_WORDS && slot < SLOTS
  {
    bitmap[slot / BITS := bitmap[slot / BITS] + {slot % BITS}]
  }

  /** `clear_occupied`. */
  function Clear(bitmap: Bitmap, slot: nat): Bitmap
    requires |bitmap| == BITMAP_WORDS && slot < SLOTS
  {
    bitmap[slot / BITS := bitmap[slot / BITS] - {slot % BITS}]
  }

  lemma SameBit(s: nat, t: nat)
    requires s / BITS == t / BITS && s % BITS == t % BITS
    ensures s == t
  {
  }

  lemma SetIsSet(bitmap: Bitmap, slot: nat, s: nat)
    requires IsBitmap(bitmap) && slot < SLOTS && s < SLOTS
    ensures IsBitmap(Set(bitmap, slot)) && (IsSet(Set(bitmap, slot), s) <==> IsSet(bitmap, s) || s == slot)
  {
    if s / BITS == slot / BITS && s % BITS == slot % BITS { SameBit(s, slot); }
  }

  lemma ClearIsSet(bitmap: Bitmap, slot: nat, s: nat)
    requires IsBitmap(bitmap) && slot < SLOTS && s < SLOTS
    ensures IsBitmap(Clear(bitmap, slot)) && (IsSet(Clear(bitmap, slot), s) <==> IsSet(bitmap, s) && s != slot)
  {
    if s / BITS == slot / BITS && s % BITS == slot % BITS { SameBit(s, slot); }
  }

  lemma ClearUnset(bitmap: Bitmap, slot: nat)
    requires IsBitmap(bitmap) && slot < SLOTS && !IsSet(bitmap, slot)
    ensures Clear(bitmap, slot) == bitmap
  {
    assert bitmap[slot / BITS] - {slot % BITS} == bitmap[slot / BITS];
  }

  function ShiftedRight(word: set<nat>, n: nat): set<nat> {
    set b | b in word && b >= n :: b - n
  }

  /** No bit is set from one slot up to another. */
  ghost predicate NoneSet(bitmap: Bitmap, lo: nat, hi: nat)
    requires |bitmap| == BITMAP_WORDS
  {
    forall s: nat :: lo <= s < hi && s < SLOTS ==> !IsSet(bitmap, s)
  }

  /** The rest of a word, from a slot on: its first set bit, or none. */
  method FirstInWord(bitmap: Bitmap, pos: nat) returns (found: Option<nat>)
    requires IsBitmap(bitmap) && pos < SLOTS
    ensures found.None? ==> NoneSet(bitmap, pos, (pos / BITS + 1) * BITS)
    ensures found.Some? ==> pos <= found.value < SLOTS && found.value / BITS == pos / BITS
    ensures found.Some? ==> IsSet(bitmap, found.value) && NoneSet(bitmap, pos, found.value)
  {
    var masked := ShiftedRight(bitmap[pos / BITS], pos % BITS);
    if masked == {} {
      forall s: nat | pos <= s < (pos / BITS + 1) * BITS && s < SLOTS ensures !IsSet(bitmap, s) {
        InMasked(bitmap, pos, s);
      }
      return None;
    }
    var zeros := Least(masked);
    FromMasked(bitmap, pos, zeros);
    forall s: nat | pos <= s < pos + zeros && s < SLOTS ensures !IsSet(bitmap, s) {
      InMasked(bitmap, pos, s);
    }
    found := Some(pos + zeros);
  }

  lemma InMasked(bitmap: Bitmap, pos: nat, s: nat)
    requires IsBitmap(bitmap) && pos <= s < SLOTS && s / BITS == pos / BITS
    ensures IsSet(bitmap, s) ==> s - pos in ShiftedRight(bitmap[pos / BITS], pos % BITS)
  {
    assert s % BITS - pos % BITS == s - pos;
  }

  lemma FromMasked(bitmap: Bitmap, pos: nat, zeros: nat)
    requires IsBitmap(bitmap) && pos < SLOTS && zeros in ShiftedRight(bitmap[pos / BITS], pos % BITS)
    ensures pos + zeros < SLOTS && (pos + zeros) / BITS == pos / BITS && IsSet(bitmap, pos + zeros)
  {
    assert pos % BITS + zeros < BITS;
    assert (pos + zeros) / BITS == pos / BITS && (pos + zeros) % BITS == pos % BITS + zeros;
  }

  /** The first set bit from a slot on, up to a limit. */
  method FirstSet(bitmap: Bitmap, start: nat, limit: nat) returns (found: Option<nat>)
    requires IsBitmap(bitmap) && start <= limit <= SLOTS
    ensures found.None? ==> NoneSet(bitmap, start, limit)
    ensures found.Some? ==> start <= found.value < limit && IsSet(bitmap, found.value)
    ensures found.Some? ==> NoneSet(bitmap, start, found.value)
  {
    var pos := start;
    while pos < limit
      invariant start <= pos && NoneSet(bitmap, start, if pos < limit then pos else limit)
    {
      found := FirstInWord(bitmap, pos);
      if found.Some? && found.value < limit {
        return;
      }
      pos := (pos / BITS + 1) * BITS;
    }
    found := None;
  }

  /** The first set bit after the cursor, going round, and how far ahead it is. */
  ghost predicate FirstAhead(bitmap: Bitmap, cursor: nat, dist: Option<nat>)
    requires |bitmap| == BITMAP_WORDS
  {
    && (dist.Some? ==> 1 <= dist.value <= SLOTS && SetAhead(bitmap, cursor, dist.value))
    && (forall k: nat :: 1 <= k <= SLOTS && SetAhead(bitmap, cursor, k) ==> dist.Some? && dist.value <= k)
  }

  predicate SetAhead(bitmap: Bitmap, cursor: nat, k: nat)
    requires |bitmap| == BITMAP_WORDS
  {
    IsSet(bitmap, (cursor + k) % SLOTS)
  }

  lemma CleanIsClean(s: nat)
    requires s < SLOTS
    ensures !IsSet(Clean(), s)
  {
    assert forall w :: 0 <= w < BITMAP_WORDS ==> Clean()[w] == {};
  }

  lemma GoRound(cursor: nat, k: nat)
    requires cursor < SLOTS && k <= SLOTS
    ensures (cursor + k) % SLOTS == if cursor + k < SLOTS then cursor + k else cursor + k - SLOTS
  {
  }

  lemma FoundAbove(bitmap: Bitmap, cursor: nat, found: nat)
    requires IsBitmap(bitmap) && cursor < found < SLOTS && IsSet(bitmap, found) && NoneSet(bitmap, cursor + 1, found)
    ensures FirstAhead(bitmap, cursor, Some(found - cursor))
  {
    GoRound(cursor, found - cursor);
    forall k: nat | 1 <= k <= SLOTS && SetAhead(bitmap, cursor, k) ensures found - cursor <= k { GoRound(cursor, k); }
  }

  /** Nothing above the cursor; found says what there is up to it. */
  lemma FoundBelow(bitmap: Bitmap, cursor: nat, found: Option<nat>)
    requires IsBitmap(bitmap) && cursor < SLOTS && NoneSet(bitmap, cursor + 1, SLOTS)
    requires found.None? ==> NoneSet(bitmap, 0, cursor + 1)
    requires found.Some? ==> found.value <= cursor && IsSet(bitmap, found.value) && NoneSet(bitmap, 0, found.value)
    ensures FirstAhead(bitmap, cursor, if found.Some? then Some(SLOTS - cursor + found.value) else None)
  {
    if found.Some? { GoRound(cursor, SLOTS - cursor + found.value); }
    forall k: nat | 1 <= k <= SLOTS && SetAhead(bitmap, cursor, k)
      ensures found.Some? && SLOTS - cursor + found.value <= k
    {
      GoRound(cursor, k);
    }
  }

  /** `next_occupied_distance`. */
  method NextOccupiedDistance(bitmap: Bitmap, cursor: nat) returns (dist: Option<nat>)
    requires IsBitmap(bitmap) && cursor < SLOTS
    ensures FirstAhead(bitmap, cursor, dist)
  {
    if bitmap == Clean() {
      forall k: nat ensures !SetAhead(bitmap, cursor, k) { CleanIsClean((cursor + k) % SLOTS); }
      return None;
    }
    var found := FirstSet(bitmap, cursor + 1, SLOTS);
    if found.Some? {
      FoundAbove(bitmap, cursor, found.value);
      return Some(found.value - cursor);
    }
    found := FirstSet(bitmap, 0, cursor + 1);
    FoundBelow(bitmap, cursor, found);
    dist := if found.Some? then Some(SLOTS - cursor + found.value) else None;
  }
}
